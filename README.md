# speech-dispatcher-rs: a Dafny model of the binding's own logic

The Rust crate `speech-dispatcher` wraps the C client library of the
speech-synthesis daemon Speech Dispatcher. Almost every method forwards to an
`spd_*` C function. This project models the parts that carry logic of their own:

- **Client-id discovery** in `Connection::setup`. The daemon's reply to
  `HISTORY GET CLIENT_ID` is split on CRLF. The first line is split on `-`.
  Its second field is parsed with Rust's `u64::from_str`. Every failure keeps
  the id the connection already had, which is 0 after `open`.
- **The callback registry.** The crate keeps a global map from client id to a
  `Callbacks` record with six optional handlers: begin, end, index mark,
  cancel, pause and resume.
  - `setup` inserts an empty record.
  - The six `on_*` methods replace one slot.
  - `Drop` removes the record.
  - The trampolines `cb` and `cb_im` decode the event code, look up the
    record and fire one handler.
- **Code conversions:** `i32_to_bool`, the `say`/`sayf` result mapping,
  `VoiceType` encoding against `get_voice_type` decoding, the spelling flag,
  and the event-type codes.

Modules, one file each:

- `Wrappers`: `Option`.
- `MachineInts`: `u64`/`u32`/`i32`/`i64` as bounded integers, and the `as` casts.
- `TextSplit`: `str::split` with `collect` and `Vec::get`.
- `U64Parse`: `u64::from_str`.
- `ClientId`: the discovery chain.
- `Codes`: the conversions.
- `CallbackRegistry`: the registry.

The registry is a class `Registry` holding a `map<U64, Callbacks>`.
`Connection` is a class with the client id as a mutable field and a reference
to the registry it was opened with. The registry is handed to each connection instead of living in a global. Handlers
are opaque tokens. A trampoline returns a `Delivery`: which handler fired and
with which arguments, or that the notification was dropped, or that the event
code was unknown (the crate panics there).

Wire values of the C enumerations are not part of the crate's source:
`SPDVoiceType` 1–8, `SPDNotificationType` 0–5 and `SPDSpelling` 0/1. They are
taken from the daemon's `libspeechd_types.h`, which is not part of this model.
The round-trip and injectivity lemmas need only these codes to be distinct.
The range facts (`VoiceTypeCode` and `DecodeVoiceType` in 1–8, `EventTypeCode`
at most 5) use the header's values.

The model follows the code: the id is taken from the first line of the reply,
and `say` with empty text is passed to the daemon like any other text; only the
returned status decides the result.

## Model

| member | source | states |
|---|---|---|
| `MachineInts.I32AsU64` | speech-dispatcher/src/lib.rs:239 | `rv as u64` reduces the status modulo 2^64: non-negative statuses are kept, negative ones land at or above 2^64 − 2^31 |
| `MachineInts.SignExtensionInvertible` | speech-dispatcher/src/lib.rs:239 | reading the sign-extended 64 bits back as `i64` gives the original status: the cast loses nothing |
| `TextSplit.FindFrom` | speech-dispatcher/src/lib.rs:215 | the reported position is an occurrence of the separator with none before it; `None` means there is no occurrence at all |
| `TextSplit.Split` | speech-dispatcher/src/lib.rs:215 | `split(..).collect()` always yields at least one piece, so `get(0)` never fails |
| `TextSplit.Get` | speech-dispatcher/src/lib.rs:216 | `Vec::get` yields a value exactly when the index is in range, and that value is the element |
| `TextSplit.JoinSplit` | speech-dispatcher/src/lib.rs:215 | joining the pieces of a split with the separator gives back the original text |
| `TextSplit.SplitPiecesFree` | speech-dispatcher/src/lib.rs:218 | no piece of a split contains the separator |
| `TextSplit.FindAfterFree` | speech-dispatcher/src/lib.rs:218 | for a one-character separator, the pieces of `a + sep + rest` with separator-free `a` are `a` followed by the pieces of `rest` |
| `U64Parse.AccumulateExact` | speech-dispatcher/src/lib.rs:220 | the checked digit loop (multiply by 10, check digit, add, fail on overflow) succeeds exactly on all-digit strings whose decimal value is at most 2^64 − 1, and then returns that value |
| `U64Parse.ParseU64` | speech-dispatcher/src/lib.rs:220 | `parse::<u64>()` accepts exactly an optional `+` followed by a non-empty digit string of value ≤ 2^64 − 1, and returns that value |
| `U64Parse.ParseFormat` | speech-dispatcher/src/lib.rs:220 | parsing the decimal numeral of any `u64`, with or without a leading `+`, returns that value |
| `U64Parse.ParseOverflow` | speech-dispatcher/src/lib.rs:220 | the numeral of any value above 2^64 − 1 is rejected |
| `U64Parse.ParseRejectsNonDigit` | speech-dispatcher/src/lib.rs:220 | any character other than a digit after the optional `+` (a `-` included) makes the parse fail |
| `ClientId.ParseClientId` | speech-dispatcher/src/lib.rs:214-220 | the split/get/parse chain yields nothing without a reply, and nothing when the reply's first line has no hyphen |
| `ClientId.SetupClientId` | speech-dispatcher/src/lib.rs:212-225 | the id becomes the parsed value when the reply yields one, and otherwise stays what it was |
| `ClientId.ResolveClientId` | speech-dispatcher/src/lib.rs:167-168 | a fresh connection gets id 0 when there is no reply or the reply yields no id |
| `ClientId.FirstLineSplit` | speech-dispatcher/src/lib.rs:215-216 | the first CRLF-separated line of `line + CRLF + rest` is `line` when `line` has no CRLF |
| `ClientId.FirstField` | speech-dispatcher/src/lib.rs:218 | the first hyphen-separated field of `f` or of `f-…` is `f`, for hyphen-free `f` |
| `ClientId.SecondField` | speech-dispatcher/src/lib.rs:218-219 | the second hyphen-separated field of `a-f` or `a-f-…` is `f` |
| `ClientId.NoSecondField` | speech-dispatcher/src/lib.rs:218-219 | a line without a hyphen has no second field |
| `ClientId.OnlyFirstLine` | speech-dispatcher/src/lib.rs:215-217 | whatever follows the first CRLF never affects the result |
| `ClientId.ClientIdFromField` | speech-dispatcher/src/lib.rs:215-222 | for a first line `a-f…`, the parsed id is `parse::<u64>(f)`; a parse failure (empty, non-numeric or overflowing field) keeps the previous id |
| `ClientId.ClientIdWithoutField` | speech-dispatcher/src/lib.rs:218-219 | a first line with fewer than two fields keeps the previous id |
| `ClientId.ResolveExample` | speech-dispatcher/src/lib.rs:212-225 | the reply `t1-42\r\n` gives a fresh connection id 42 |
| `ClientId.ResolveMalformedExample` | speech-dispatcher/src/lib.rs:212-225 | the reply `t1\r\n` leaves a fresh connection at id 0 |
| `Codes.I32ToBool` | speech-dispatcher/src/lib.rs:81-83 | success exactly when the status is 1; 0, negatives and all other codes are failure |
| `Codes.SayResult` | speech-dispatcher/src/lib.rs:238-242 | `None` exactly when the status is −1; otherwise the status cast to `u64`, from which the status can be read back |
| `Codes.SayResultInjective` | speech-dispatcher/src/lib.rs:238-242 | different statuses never give the same `say` result |
| `Codes.SayfResult` | speech-dispatcher/src/lib.rs:249-253 | `None` exactly when the status is −1; otherwise `Some` of the status itself |
| `Codes.SayAgreesWithSayf` | speech-dispatcher/src/lib.rs:238-253 | `say` and `sayf` fail on the same statuses and agree on non-negative ones |
| `Codes.VoiceTypeCode` | speech-dispatcher/src/lib.rs:30-39 | every voice type encodes to a code between 1 and 8 |
| `Codes.DecodeVoiceType` | speech-dispatcher/src/lib.rs:354-366 | decoding succeeds exactly on the codes 1–8, and re-encoding the result gives the code back; other codes are the panic |
| `Codes.DecodeVoiceTypeCode` | speech-dispatcher/src/lib.rs:354-366 | decoding inverts the encoding for all eight voice types |
| `Codes.VoiceTypeCodeInjective` | speech-dispatcher/src/lib.rs:30-39 | no two voice types share a code |
| `Codes.SpellingCode` | speech-dispatcher/src/lib.rs:499-527 | true maps to SPD_SPELL_ON and false to SPD_SPELL_OFF, in both directions |
| `Codes.EventTypeCode` | speech-dispatcher/src/lib.rs:106-114 | every event kind has a code among the six `SPDNotificationType` values |
| `Codes.DecodeEvent` | speech-dispatcher/src/lib.rs:107-114 | `cb` decodes a code only to the event with that code, and never to the index mark |
| `Codes.DecodeEventCode` | speech-dispatcher/src/lib.rs:107-114 | `cb` accepts the codes of begin, end, cancel, pause and resume, each mapped to its own event; the index-mark code is rejected |
| `Codes.DecodeEventRejects` | speech-dispatcher/src/lib.rs:113 | every code that belongs to none of those five events is rejected (the panic) |
| `Codes.DecodeIndexMarkEvent` | speech-dispatcher/src/lib.rs:133-136 | `cb_im` accepts exactly the index-mark code |
| `CallbackRegistry.Callbacks.WithSlot` | speech-dispatcher/src/lib.rs:590-642 | setting one slot changes that slot to the new handler and leaves the other five as they were |
| `CallbackRegistry.Empty` | speech-dispatcher/src/lib.rs:85 | `Callbacks::default()` has all six slots empty |
| `CallbackRegistry.CallbacksExtensional` | speech-dispatcher/src/lib.rs:85-93 | a record is determined by its six slots |
| `CallbackRegistry.SlotReplacedUnique` | speech-dispatcher/src/lib.rs:590-642 | the frame an `on_*` call promises determines the new registry completely |
| `CallbackRegistry.LaterRegistrationReplaces` | speech-dispatcher/src/lib.rs:590-597 | two registrations for the same event leave only the later handler, with the same frame |
| `CallbackRegistry.Registry.constructor` | speech-dispatcher/src/lib.rs:99-104 | the registry starts empty |
| `CallbackRegistry.Connection.Open` | speech-dispatcher/src/lib.rs:149-170 | a new connection has the id resolved from the reply, starting at 0; the registry gains an empty record under that id and is otherwise unchanged |
| `CallbackRegistry.Connection.Setup` | speech-dispatcher/src/lib.rs:212-226 | id adopted from the reply or kept; the record under the resulting id is replaced by an empty one; all other records are unchanged |
| `CallbackRegistry.Connection.OnBegin` | speech-dispatcher/src/lib.rs:590-597 | only the begin slot of this client's record becomes `f` (`None` clears it); no other slot, record or key changes; no record means no change |
| `CallbackRegistry.Connection.OnEnd` | speech-dispatcher/src/lib.rs:599-606 | the same frame, for the end slot |
| `CallbackRegistry.Connection.OnCancel` | speech-dispatcher/src/lib.rs:608-615 | the same frame, for the cancel slot |
| `CallbackRegistry.Connection.OnPause` | speech-dispatcher/src/lib.rs:617-624 | the same frame, for the pause slot |
| `CallbackRegistry.Connection.OnResume` | speech-dispatcher/src/lib.rs:626-633 | the same frame, for the resume slot |
| `CallbackRegistry.Connection.OnIndexMark` | speech-dispatcher/src/lib.rs:635-642 | the same frame, for the index-mark slot |
| `CallbackRegistry.Connection.Drop` | speech-dispatcher/src/lib.rs:651-655 | this client's record is removed and every other record is untouched; removing an absent record changes nothing |
| `CallbackRegistry.Cb` | speech-dispatcher/src/lib.rs:106-128 | an unknown code is the panic; otherwise a handler fires exactly when the client has a record whose slot for the event is filled, and it is that handler, with `(msg_id, client_id)`; the registry is not changed |
| `CallbackRegistry.CbIm` | speech-dispatcher/src/lib.rs:130-146 | only the index-mark code is accepted; the index-mark handler of the client's record fires, if present, with `(msg_id, client_id, mark)`; the registry is not changed |
| `CallbackRegistry.BeginAfterRegistration` | speech-dispatcher/src/lib.rs:115-127 | after open and `on_begin(h)`, a begin notification for the connection's id fires exactly `h`, once, with the message and client ids |
| `CallbackRegistry.IndexMarkLatestWins` | speech-dispatcher/src/lib.rs:635-642 | after two `on_index_mark` registrations, an index-mark notification fires the later handler with the mark |
| `CallbackRegistry.NotifyAfterClearOrDrop` | speech-dispatcher/src/lib.rs:651-655 | a cleared slot drops the notification; after the first drop, and again after a second drop, notifications for the former id are dropped |

## Left out

- All `spd_*` foreign calls and the native session handle. This covers
  `open`/`open2`, `close`, the native side of `say`/`sayf`, the
  stop/cancel/pause/resume families, the setters and getters, `key`, `char`,
  `wchar`, `sound_icon` and `set_notification*`. They reach an external
  daemon. Their integer statuses are inputs to the modelled result mappings
  (`I32ToBool`, `SayResult`, `SayfResult`). `sound_icon` forwards to
  `spd_char` at lib.rs:335; that forwarding is outside the model.
- `send_data` itself: the query goes to the daemon, so the model takes its reply
  (`Option<String>`) as the input of `Setup`.
- `setup_connection` and the `set_notification_on(Notification::All)` call in
  `setup`. Both only configure the native session.
- The `as u32` casts of `Mode`, `Priority`, `DataMode`, `Notification`,
  `Punctuation` and `CapitalLetters`. They are passed straight to foreign
  calls.
- The `Mutex`, `lazy_static`, the `Send`/`Sync` impls and threaded delivery.
  The registry is modelled as one sequential object, so lock poisoning, which
  `on_*` silently tolerates, is not modelled either.
- What user closures do. Handlers are opaque tokens, and a trampoline reports
  which one fired and with which arguments.
- Foreign string handling: `CString::new(..).unwrap()` panics on NUL bytes,
  `CStr::from_ptr`/`to_string_lossy` (the index mark and the reply are taken as
  already-decoded strings) and `get_language`.
- Native session lifetime, including `close` being called both explicitly and
  from `Drop`. Only the registry side of `Drop` is modelled.
- Two connections that resolve to the same id share one record: the second
  `open` replaces the first's record, and dropping either removes it. A
  `clone` of a connection (`Connection` derives `Clone`, lib.rs:41) shares the
  record the same way: dropping the clone removes the original's record, so
  later notifications for the original are dropped. The model shows this
  through `Setup` and `Drop` but has no `clone` operation and proves no lemma
  about it.
