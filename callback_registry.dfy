/**
 * The callback registry: a map from client id to the record of that client's
 * notification handlers. Connections insert an empty record when they are set
 * up, replace one slot per `on_*` call and remove their record when dropped;
 * the two trampolines `cb` and `cb_im` look a record up and fire one handler.
 * The registry is one sequential object here, handed to each connection.
 */
module CallbackRegistry {
  import opened Wrappers
  import opened MachineInts
  import opened Codes
  import opened ClientId

  /** A user-supplied closure, known only by its identity. */
  datatype Handler = Handler(token: nat)

  /** The `Callbacks` record: at most one handler per event kind. */
  datatype Callbacks = Callbacks(
    begin: Option<Handler>,
    end: Option<Handler>,
    indexMark: Option<Handler>,
    cancel: Option<Handler>,
    pause: Option<Handler>,
    resume: Option<Handler>)
  {
    /** The slot that holds the handler for event `e`. */
    function Slot(e: Event): (h: Option<Handler>) {
      match e
      case Begin => begin
      case End => end
      case IndexMark => indexMark
      case Cancel => cancel
      case Pause => pause
      case Resume => resume
    }

    /** The record with the slot for `e` set to `f`. */
    function WithSlot(e: Event, f: Option<Handler>): (c: Callbacks)
      ensures c.Slot(e) == f
      ensures forall x: Event :: x != e ==> c.Slot(x) == Slot(x)
    {
      match e
      case Begin => this.(begin := f)
      case End => this.(end := f)
      case IndexMark => this.(indexMark := f)
      case Cancel => this.(cancel := f)
      case Pause => this.(pause := f)
      case Resume => this.(resume := f)
    }
  }

  /** `Callbacks::default()`. */
  function Empty(): (c: Callbacks)
    ensures forall e: Event :: c.Slot(e) == None
  {
    Callbacks(None, None, None, None, None, None)
  }

  /** A record is determined by its six slots. */
  lemma CallbacksExtensional(c: Callbacks, d: Callbacks)
    requires forall e: Event :: c.Slot(e) == d.Slot(e)
    ensures c == d
  {
    assert c.Slot(Begin) == d.Slot(Begin);
    assert c.Slot(End) == d.Slot(End);
    assert c.Slot(IndexMark) == d.Slot(IndexMark);
    assert c.Slot(Cancel) == d.Slot(Cancel);
    assert c.Slot(Pause) == d.Slot(Pause);
    assert c.Slot(Resume) == d.Slot(Resume);
  }

  /** The process-wide `HashMap<u64, Callbacks>`. */
  class Registry {
    var entries: map<U64, Callbacks>

    constructor ()
      ensures entries == map[]
    {
      entries := map[];
    }
  }

  /**
   * What an `on_*` call for event `e` does to the registry: slot `e` of the
   * entry for `id` becomes `f`, every other slot and every other entry stays,
   * no entry appears or disappears, and nothing at all changes when `id` has
   * no entry.
   */
  ghost predicate SlotReplaced(before: map<U64, Callbacks>, after: map<U64, Callbacks>,
                               id: U64, e: Event, f: Option<Handler>)
  {
    && after.Keys == before.Keys
    && (forall k :: k in before && k != id ==> after[k] == before[k])
    && (id in before ==>
          && after[id].Slot(e) == f
          && forall x: Event :: x != e ==> after[id].Slot(x) == before[id].Slot(x))
    && (id !in before ==> after == before)
  }

  /** `SlotReplaced` pins the new registry down completely. */
  lemma SlotReplacedUnique(before: map<U64, Callbacks>, a1: map<U64, Callbacks>, a2: map<U64, Callbacks>,
                           id: U64, e: Event, f: Option<Handler>)
    requires SlotReplaced(before, a1, id, e, f)
    requires SlotReplaced(before, a2, id, e, f)
    ensures a1 == a2
  {
    if id in before {
      forall x: Event ensures a1[id].Slot(x) == a2[id].Slot(x) {
        if x != e {
          assert a1[id].Slot(x) == before[id].Slot(x);
        }
      }
      CallbacksExtensional(a1[id], a2[id]);
      forall k | k in a1 ensures a1[k] == a2[k] {
        if k != id {
          assert a1[k] == before[k];
        }
      }
    }
  }

  /** Registering twice for the same event keeps only the later handler. */
  lemma LaterRegistrationReplaces(m0: map<U64, Callbacks>, m1: map<U64, Callbacks>, m2: map<U64, Callbacks>,
                                  id: U64, e: Event, f: Option<Handler>, g: Option<Handler>)
    requires SlotReplaced(m0, m1, id, e, f)
    requires SlotReplaced(m1, m2, id, e, g)
    ensures SlotReplaced(m0, m2, id, e, g)
  {
    if id in m0 {
      forall x: Event | x != e ensures m2[id].Slot(x) == m0[id].Slot(x) {
        assert m2[id].Slot(x) == m1[id].Slot(x);
      }
    }
  }

  /** A `Connection`: the native session handle (not modelled) and the client id. */
  class Connection {
    var clientId: U64
    const registry: Registry

    /**
     * `open`: `Connection(handle, 0)` followed by `setup`, with `reply` the
     * daemon's answer to the client-id query.
     */
    constructor Open(registry: Registry, reply: Option<string>)
      modifies registry
      ensures this.registry == registry
      ensures clientId == ResolveClientId(reply)
      ensures registry.entries == old(registry.entries)[clientId := Empty()]
    {
      this.registry := registry;
      clientId := 0;
      new;
      Setup(reply);
    }

    /**
     * `setup`: adopt the id the reply carries, if any, then register an empty
     * record for the resulting id, replacing any earlier record under it.
     * `reply` is the daemon's answer to `HISTORY GET CLIENT_ID\r\n`, sent
     * through `send_data`.
     */
    method Setup(reply: Option<string>)
      modifies this, registry
      ensures clientId == SetupClientId(old(clientId), reply)
      ensures registry.entries == old(registry.entries)[clientId := Empty()]
      ensures clientId in registry.entries
      ensures forall e: Event :: registry.entries[clientId].Slot(e) == None
      ensures forall k :: k in old(registry.entries) && k != clientId ==>
                k in registry.entries && registry.entries[k] == old(registry.entries)[k]
    {
      var parsed := ParseClientId(reply);
      if parsed.Some? {
        clientId := parsed.value;
      }
      registry.entries := registry.entries[clientId := Empty()];
    }

    method OnBegin(f: Option<Handler>)
      modifies registry
      ensures SlotReplaced(old(registry.entries), registry.entries, clientId, Begin, f)
    {
      var cbs := registry.entries;
      if clientId in cbs {
        registry.entries := cbs[clientId := cbs[clientId].WithSlot(Begin, f)];
      }
    }

    method OnEnd(f: Option<Handler>)
      modifies registry
      ensures SlotReplaced(old(registry.entries), registry.entries, clientId, End, f)
    {
      var cbs := registry.entries;
      if clientId in cbs {
        registry.entries := cbs[clientId := cbs[clientId].WithSlot(End, f)];
      }
    }

    method OnCancel(f: Option<Handler>)
      modifies registry
      ensures SlotReplaced(old(registry.entries), registry.entries, clientId, Cancel, f)
    {
      var cbs := registry.entries;
      if clientId in cbs {
        registry.entries := cbs[clientId := cbs[clientId].WithSlot(Cancel, f)];
      }
    }

    method OnPause(f: Option<Handler>)
      modifies registry
      ensures SlotReplaced(old(registry.entries), registry.entries, clientId, Pause, f)
    {
      var cbs := registry.entries;
      if clientId in cbs {
        registry.entries := cbs[clientId := cbs[clientId].WithSlot(Pause, f)];
      }
    }

    method OnResume(f: Option<Handler>)
      modifies registry
      ensures SlotReplaced(old(registry.entries), registry.entries, clientId, Resume, f)
    {
      var cbs := registry.entries;
      if clientId in cbs {
        registry.entries := cbs[clientId := cbs[clientId].WithSlot(Resume, f)];
      }
    }

    method OnIndexMark(f: Option<Handler>)
      modifies registry
      ensures SlotReplaced(old(registry.entries), registry.entries, clientId, IndexMark, f)
    {
      var cbs := registry.entries;
      if clientId in cbs {
        registry.entries := cbs[clientId := cbs[clientId].WithSlot(IndexMark, f)];
      }
    }

    /** `Drop::drop`: remove this client's record; removing an absent one changes nothing. */
    method Drop()
      modifies registry
      ensures registry.entries == old(registry.entries) - {clientId}
      ensures clientId !in registry.entries
      ensures forall k :: k in old(registry.entries) && k != clientId ==>
                k in registry.entries && registry.entries[k] == old(registry.entries)[k]
      ensures clientId !in old(registry.entries) ==> registry.entries == old(registry.entries)
    {
      registry.entries := registry.entries - {clientId};
    }
  }

  /** One handler invocation: which handler, and the arguments it received. */
  datatype Call = Call(handler: Handler, msgId: U64, clientId: U64, mark: Option<string>)

  /** What a trampoline does with one notification. */
  datatype Delivery =
    | Fired(call: Call)
    | Dropped
    | UnknownEvent(state: U32)

  /**
   * `cb`: decode the event code, then fire the handler in the matching slot of
   * the client's record with `(msg_id, client_id)`. A missing record or an
   * empty slot drops the notification; an unknown code is the panic.
   */
  method Cb(registry: Registry, msgId: U64, clientId: U64, state: U32) returns (d: Delivery)
    ensures d.UnknownEvent? <==> DecodeEvent(state).None?
    ensures d.UnknownEvent? ==> d.state == state
    ensures d.Fired? <==>
      && DecodeEvent(state).Some?
      && clientId in registry.entries
      && registry.entries[clientId].Slot(DecodeEvent(state).value).Some?
    ensures d.Fired? ==>
      d.call == Call(registry.entries[clientId].Slot(DecodeEvent(state).value).value, msgId, clientId, None)
  {
    var event := DecodeEvent(state);
    if event.None? {
      return UnknownEvent(state);
    }
    // DecodeEvent never yields IndexMark, so the second match of `cb` cannot panic.
    if clientId in registry.entries {
      var slot := registry.entries[clientId].Slot(event.value);
      if slot.Some? {
        return Fired(Call(slot.value, msgId, clientId, None));
      }
    }
    return Dropped;
  }

  /**
   * `cb_im`: the same for the index-mark event, whose handler also receives
   * the mark's name.
   */
  method CbIm(registry: Registry, msgId: U64, clientId: U64, state: U32, mark: string) returns (d: Delivery)
    ensures d.UnknownEvent? <==> state != EventTypeCode(IndexMark)
    ensures d.UnknownEvent? ==> d.state == state
    ensures d.Fired? <==>
      && state == EventTypeCode(IndexMark)
      && clientId in registry.entries
      && registry.entries[clientId].indexMark.Some?
    ensures d.Fired? ==> d.call == Call(registry.entries[clientId].indexMark.value, msgId, clientId, Some(mark))
  {
    var event := DecodeIndexMarkEvent(state);
    if event.None? {
      return UnknownEvent(state);
    }
    if clientId in registry.entries {
      var slot := registry.entries[clientId].Slot(event.value);
      if slot.Some? {
        return Fired(Call(slot.value, msgId, clientId, Some(mark)));
      }
    }
    return Dropped;
  }

  /** Open, register a begin handler, notify: exactly that handler fires, once, with the ids. */
  method BeginAfterRegistration(reply: Option<string>, h: Handler, msgId: U64) returns (d: Delivery)
    ensures d == Fired(Call(h, msgId, ResolveClientId(reply), None))
  {
    var registry := new Registry();
    var conn := new Connection.Open(registry, reply);
    conn.OnBegin(Some(h));
    d := Cb(registry, msgId, conn.clientId, EventTypeCode(Begin));
  }

  /** The later of two index-mark registrations is the one that fires. */
  method IndexMarkLatestWins(reply: Option<string>, h1: Handler, h2: Handler, msgId: U64, mark: string)
    returns (d: Delivery)
    ensures d == Fired(Call(h2, msgId, ResolveClientId(reply), Some(mark)))
  {
    var registry := new Registry();
    var conn := new Connection.Open(registry, reply);
    conn.OnIndexMark(Some(h1));
    conn.OnIndexMark(Some(h2));
    d := CbIm(registry, msgId, conn.clientId, EventTypeCode(IndexMark), mark);
  }

  /** A cleared slot, or a dropped connection (once or twice), drops the notification. */
  method NotifyAfterClearOrDrop(reply: Option<string>, h: Handler, msgId: U64)
    returns (cleared: Delivery, dropped: Delivery, droppedTwice: Delivery)
    ensures cleared == Dropped
    ensures dropped == Dropped
    ensures droppedTwice == Dropped
  {
    var registry := new Registry();
    var conn := new Connection.Open(registry, reply);
    conn.OnEnd(Some(h));
    conn.OnEnd(None);
    cleared := Cb(registry, msgId, conn.clientId, EventTypeCode(End));
    conn.OnPause(Some(h));
    conn.Drop();
    dropped := Cb(registry, msgId, conn.clientId, EventTypeCode(Pause));
    conn.Drop();
    droppedTwice := Cb(registry, msgId, conn.clientId, EventTypeCode(Pause));
  }
}
