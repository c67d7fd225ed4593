/**
 * Conversions between the native library's integer codes and the binding's
 * values: status codes to results, the voice-type and spelling enumerations,
 * and the event-type codes the daemon passes to the notification callbacks.
 * The wire values are those of the daemon's `libspeechd_types.h`, which is not
 * part of this model.
 */
module Codes {
  import opened Wrappers
  import opened MachineInts

  /** `i32_to_bool`: only the status 1 means success; 0 and every negative or other code mean failure. */
  function I32ToBool(v: I32): (ok: bool)
    ensures ok <==> v == 1
  {
    v == 1
  }

  /** The status the native `spd_say` and `spd_sayf` return on failure. */
  const SAY_FAILED: I32 := -1

  /**
   * `say`: the daemon's message id, except that -1 means failure; any other
   * status, negative ones included, is passed on through `rv as u64`.
   */
  function SayResult(rv: I32): (r: Option<U64>)
    ensures r.None? <==> rv == SAY_FAILED
    ensures r.Some? ==> r.value % U64_LIMIT == rv % U64_LIMIT
    ensures r.Some? ==> U64AsI64(r.value) == rv
  {
    if rv != SAY_FAILED then Some(I32AsU64(rv)) else None
  }

  /** `say` keeps statuses apart: different statuses never give the same result. */
  lemma SayResultInjective(a: I32, b: I32)
    requires SayResult(a) == SayResult(b)
    ensures a == b
  {
    if a != SAY_FAILED {
      assert U64AsI64(SayResult(a).value) == a;
    }
  }

  /** `sayf`: the status itself, except that -1 means failure. */
  function SayfResult(rv: I32): (r: Option<I32>)
    ensures r.None? <==> rv == SAY_FAILED
    ensures r.Some? ==> r.value == rv
  {
    if rv != SAY_FAILED then Some(rv) else None
  }

  /** `say` and `sayf` agree on which statuses fail, and on the value of every non-negative one. */
  lemma SayAgreesWithSayf(rv: I32)
    ensures SayResult(rv).None? <==> SayfResult(rv).None?
    ensures 0 <= rv && rv != SAY_FAILED ==> SayResult(rv).value == SayfResult(rv).value
  {
  }

  /** The binding's `VoiceType`. */
  datatype VoiceType = Male1 | Male2 | Male3 | Female1 | Female2 | Female3 | ChildMale | ChildFemale

  /** `voice_type as u32`: the daemon's `SPDVoiceType` code. */
  function VoiceTypeCode(v: VoiceType): (code: U32)
    ensures 1 <= code <= 8
  {
    match v
    case Male1 => 1
    case Male2 => 2
    case Male3 => 3
    case Female1 => 4
    case Female2 => 5
    case Female3 => 6
    case ChildMale => 7
    case ChildFemale => 8
  }

  /** The decoding in `get_voice_type`; `None` is its "Invalid voice type" panic. */
  function DecodeVoiceType(code: U32): (r: Option<VoiceType>)
    ensures r.Some? <==> 1 <= code <= 8
    ensures r.Some? ==> VoiceTypeCode(r.value) == code
  {
    match code
    case 1 => Some(Male1)
    case 2 => Some(Male2)
    case 3 => Some(Male3)
    case 4 => Some(Female1)
    case 5 => Some(Female2)
    case 6 => Some(Female3)
    case 7 => Some(ChildMale)
    case 8 => Some(ChildFemale)
    case _ => None
  }

  /** Decoding inverts the encoding for all eight voice types. */
  lemma DecodeVoiceTypeCode(v: VoiceType)
    ensures DecodeVoiceType(VoiceTypeCode(v)) == Some(v)
  {
  }

  /** No two voice types share a code. */
  lemma VoiceTypeCodeInjective(v: VoiceType, w: VoiceType)
    requires VoiceTypeCode(v) == VoiceTypeCode(w)
    ensures v == w
  {
    DecodeVoiceTypeCode(v);
    DecodeVoiceTypeCode(w);
  }

  /** The daemon's `SPDSpelling` codes. */
  const SPD_SPELL_OFF: U32 := 0
  const SPD_SPELL_ON: U32 := 1

  /** The flag translation shared by `set_spelling`, `set_spelling_all` and `set_spelling_uid`. */
  function SpellingCode(spelling: bool): (code: U32)
    ensures code == SPD_SPELL_ON <==> spelling
    ensures code == SPD_SPELL_OFF <==> !spelling
  {
    if spelling then SPD_SPELL_ON else SPD_SPELL_OFF
  }

  /** The event kinds a notification can carry (`Notification` without `All`). */
  datatype Event = Begin | End | IndexMark | Cancel | Pause | Resume

  /** The daemon's `SPDNotificationType` code of each event. */
  function EventTypeCode(e: Event): (code: U32)
    ensures code <= 5
  {
    match e
    case Begin => 0
    case End => 1
    case IndexMark => 2
    case Cancel => 3
    case Pause => 4
    case Resume => 5
  }

  /** The first match in `cb`; `None` is its "Unknown notification" panic. */
  function DecodeEvent(state: U32): (r: Option<Event>)
    ensures r.Some? ==> EventTypeCode(r.value) == state && r.value != IndexMark
  {
    match state
    case 0 => Some(Begin)
    case 1 => Some(End)
    case 3 => Some(Cancel)
    case 4 => Some(Pause)
    case 5 => Some(Resume)
    case _ => None
  }

  /** `cb` accepts the code of each of its five events and maps it to that event. */
  lemma DecodeEventCode(e: Event)
    ensures DecodeEvent(EventTypeCode(e)) == if e == IndexMark then None else Some(e)
  {
  }

  /** `cb` rejects every code that is not one of its five events' codes. */
  lemma DecodeEventRejects(state: U32)
    requires forall e: Event :: e != IndexMark ==> EventTypeCode(e) != state
    ensures DecodeEvent(state) == None
  {
  }

  /** The match in `cb_im`: only the index-mark code is accepted. */
  function DecodeIndexMarkEvent(state: U32): (r: Option<Event>)
    ensures r.Some? <==> state == EventTypeCode(IndexMark)
    ensures r.Some? ==> r.value == IndexMark
  {
    if state == EventTypeCode(IndexMark) then Some(IndexMark) else None
  }
}
