/** Listener registrations of the owned wrapper on top of the transport's own registry, with calls
    that may overlap at every await. Each wrapped listener is a new object, so the inner registry
    sees a new identity for every registration; other users of the inner transport come and go. */
module OwnedRegistry {
  import opened Base
  import opened PullReceive

  /** The identity of a listener known to the inner transport. */
  datatype InnerListener = Wrapped(id: nat) | Foreign(id: nat)

  datatype InnerRegistration = InnerRegistration(filter: Filter, listener: InnerListener)

  /** One entry of the wrapper: the owned listener and the wrapped one registered for it. */
  datatype OwnedRegistration = OwnedRegistration(filter: Filter, owned: nat, wrapped: nat)

  datatype CallPc =
    | RegisterInner(entry: OwnedRegistration)
    | PushEntry(entry: OwnedRegistration)
    | FindEntry(filter: Filter, owned: nat)
    | UnregisterInner(entry: OwnedRegistration)
    | Returned(result: Result<()>)

  /** The inner registry holds pairwise distinct registrations, so it is a set here. */
  datatype State = State(
    inner: set<InnerRegistration>,
    entries: seq<OwnedRegistration>,
    calls: map<nat, CallPc>,
    nextWrapped: nat)

  datatype Event =
    | Register(call: nat, filter: Filter, owned: nat)
    | Unregister(call: nat, filter: Filter, owned: nat)
    | Continue(call: nat, hasRuntime: bool)
    | ForeignRegister(filter: Filter, id: nat)
    | ForeignUnregister(filter: Filter, id: nat)

  const FRESH := State({}, [], map[], 0)

  function Inner(entry: OwnedRegistration): InnerRegistration {
    InnerRegistration(entry.filter, Wrapped(entry.wrapped))
  }

  /** The wrapper's search for an entry. */
  function EntryIndex(entries: seq<OwnedRegistration>, filter: Filter, owned: nat): (i: nat)
    ensures i <= |entries| && (i < |entries| ==> entries[i].filter == filter && entries[i].owned == owned)
    ensures forall k :: 0 <= k < i ==> !(entries[k].filter == filter && entries[k].owned == owned)
  {
    if entries == [] then 0
    else if entries[0].filter == filter && entries[0].owned == owned then 0
    else 1 + EntryIndex(entries[1..], filter, owned)
  }

  /** The inner transport's register: refuses an equal registration; when a polling task is needed
      and there is no runtime to start it on, the registration stays although the call fails. */
  function RegisterAtInner(inner: set<InnerRegistration>, r: InnerRegistration, hasRuntime: bool): (set<InnerRegistration>, Result<()>) {
    if r in inner then (inner, Err(AlreadyExists))
    else (inner + {r}, if hasRuntime then Ok(()) else Err(FailedPrecondition))
  }

  function UnregisterAtInner(inner: set<InnerRegistration>, r: InnerRegistration): (set<InnerRegistration>, Result<()>) {
    if r in inner then (inner - {r}, Ok(())) else (inner, Err(NotFound))
  }

  predicate Enabled(s: State, e: Event) {
    match e
    case Register(call, _, _) => call !in s.calls
    case Unregister(call, _, _) => call !in s.calls
    case Continue(call, _) => call in s.calls && !s.calls[call].Returned?
    case ForeignRegister(_, _) => true
    case ForeignUnregister(_, _) => true
  }

  function Advance(s: State, call: nat, hasRuntime: bool): State
    requires call in s.calls
  {
    match s.calls[call]
    case RegisterInner(entry) =>
      var (inner, result) := RegisterAtInner(s.inner, Inner(entry), hasRuntime);
      s.(inner := inner, calls := s.calls[call := if result.Ok? then PushEntry(entry) else Returned(result)])
    case PushEntry(entry) => s.(entries := s.entries + [entry], calls := s.calls[call := Returned(Ok(()))])
    case FindEntry(filter, owned) =>
      var i := EntryIndex(s.entries, filter, owned);
      if i == |s.entries| then s.(calls := s.calls[call := Returned(Err(NotFound))])
      else s.(entries := s.entries[..i] + s.entries[i + 1..], calls := s.calls[call := UnregisterInner(s.entries[i])])
    case UnregisterInner(entry) =>
      var (inner, result) := UnregisterAtInner(s.inner, Inner(entry));
      s.(inner := inner, calls := s.calls[call := Returned(result)])
    case Returned(_) => s
  }

  function Step(s: State, e: Event): State
    requires Enabled(s, e)
  {
    match e
    case Register(call, filter, owned) =>
      s.(calls := s.calls[call := RegisterInner(OwnedRegistration(filter, owned, s.nextWrapped))],
         nextWrapped := s.nextWrapped + 1)
    case Unregister(call, filter, owned) => s.(calls := s.calls[call := FindEntry(filter, owned)])
    case Continue(call, hasRuntime) => Advance(s, call, hasRuntime)
    case ForeignRegister(filter, id) => s.(inner := s.inner + {InnerRegistration(filter, Foreign(id))})
    case ForeignUnregister(filter, id) => s.(inner := s.inner - {InnerRegistration(filter, Foreign(id))})
  }

  function After(events: seq<Event>): Option<State> {
    if events == [] then Some(FRESH)
    else
      match After(events[..|events| - 1])
      case None => None
      case Some(s) =>
        var e := events[|events| - 1];
        if Enabled(s, e) then Some(Step(s, e)) else None
  }

  // ------------------------------------------------------------------- invariant

  /** The calls that hold an entry of their own, registered inside or about to be. */
  predicate HoldsEntry(pc: CallPc) {
    pc.RegisterInner? || pc.PushEntry? || pc.UnregisterInner?
  }

  /** Every entry, in the list or in the hand of a call, has a wrapped listener of its own. */
  ghost predicate OwnWrapped(s: State) {
    && (forall i :: 0 <= i < |s.entries| ==> s.entries[i].wrapped < s.nextWrapped)
    && (forall c :: c in s.calls && HoldsEntry(s.calls[c]) ==> s.calls[c].entry.wrapped < s.nextWrapped)
    && (forall i, j :: 0 <= i < j < |s.entries| ==> s.entries[i].wrapped != s.entries[j].wrapped)
    && (forall i, c :: 0 <= i < |s.entries| && c in s.calls && HoldsEntry(s.calls[c]) ==>
          s.entries[i].wrapped != s.calls[c].entry.wrapped)
    && (forall c, d :: c in s.calls && d in s.calls && c != d && HoldsEntry(s.calls[c]) && HoldsEntry(s.calls[d]) ==>
          s.calls[c].entry.wrapped != s.calls[d].entry.wrapped)
  }

  /** What is registered inside for each entry. */
  ghost predicate InnerMatches(s: State) {
    && (forall i :: 0 <= i < |s.entries| ==> Inner(s.entries[i]) in s.inner)
    && (forall c :: c in s.calls && (s.calls[c].PushEntry? || s.calls[c].UnregisterInner?) ==> Inner(s.calls[c].entry) in s.inner)
    && (forall c :: c in s.calls && s.calls[c].RegisterInner? ==> Inner(s.calls[c].entry) !in s.inner)
    && (forall r :: r in s.inner && r.listener.Wrapped? ==> r.listener.id < s.nextWrapped)
  }

  ghost predicate Inv(s: State) {
    OwnWrapped(s) && InnerMatches(s)
  }

  /** A call changes state without taking or giving up an entry. */
  lemma SameEntryKeeps(s: State, call: nat, pc: CallPc)
    requires OwnWrapped(s) && call in s.calls
    requires HoldsEntry(pc) ==> HoldsEntry(s.calls[call]) && pc.entry == s.calls[call].entry
    ensures OwnWrapped(s.(calls := s.calls[call := pc]))
  {
  }

  lemma PushKeepsOwn(s: State, call: nat)
    requires OwnWrapped(s) && call in s.calls && s.calls[call].PushEntry?
    ensures OwnWrapped(s.(entries := s.entries + [s.calls[call].entry], calls := s.calls[call := Returned(Ok(()))]))
  {
  }

  lemma TakeKeepsOwn(s: State, call: nat, i: nat)
    requires OwnWrapped(s) && call in s.calls && !HoldsEntry(s.calls[call]) && i < |s.entries|
    ensures OwnWrapped(s.(entries := s.entries[..i] + s.entries[i + 1..], calls := s.calls[call := UnregisterInner(s.entries[i])]))
  {
    var rest := s.entries[..i] + s.entries[i + 1..];
    assert forall k :: 0 <= k < |rest| ==> rest[k] == s.entries[if k < i then k else k + 1];
  }

  /** Taking one inner registration away leaves those of all other entries. */
  lemma UnregisterKeepsInner(s: State, call: nat)
    requires Inv(s) && call in s.calls && s.calls[call].UnregisterInner?
    ensures InnerMatches(s.(inner := s.inner - {Inner(s.calls[call].entry)}, calls := s.calls[call := Returned(Ok(()))]))
  {
    var gone := s.calls[call].entry;
    assert forall i :: 0 <= i < |s.entries| ==> Inner(s.entries[i]) != Inner(gone);
    assert forall c :: c in s.calls && c != call && HoldsEntry(s.calls[c]) ==> Inner(s.calls[c].entry) != Inner(gone);
  }

  lemma RegisterKeepsInner(s: State, call: nat, pc: CallPc)
    requires Inv(s) && call in s.calls && s.calls[call].RegisterInner?
    requires pc == PushEntry(s.calls[call].entry) || pc.Returned?
    ensures InnerMatches(s.(inner := s.inner + {Inner(s.calls[call].entry)}, calls := s.calls[call := pc]))
  {
    var new' := s.calls[call].entry;
    assert forall c :: c in s.calls && c != call && HoldsEntry(s.calls[c]) ==> Inner(s.calls[c].entry) != Inner(new');
  }

  lemma FindKeepsInner(s: State, call: nat, i: nat)
    requires InnerMatches(s) && call in s.calls && i < |s.entries|
    ensures InnerMatches(s.(entries := s.entries[..i] + s.entries[i + 1..], calls := s.calls[call := UnregisterInner(s.entries[i])]))
  {
    var rest := s.entries[..i] + s.entries[i + 1..];
    assert forall k :: 0 <= k < |rest| ==> rest[k] == s.entries[if k < i then k else k + 1];
  }

  lemma AdvanceKeepsInner(s: State, call: nat, hasRuntime: bool)
    requires Inv(s) && call in s.calls && !s.calls[call].Returned?
    ensures InnerMatches(Advance(s, call, hasRuntime))
  {
    var after := Advance(s, call, hasRuntime);
    match s.calls[call]
    case RegisterInner(entry) => RegisterKeepsInner(s, call, after.calls[call]);
    case PushEntry(entry) =>
    case FindEntry(filter, owned) =>
      var i := EntryIndex(s.entries, filter, owned);
      if i < |s.entries| {
        FindKeepsInner(s, call, i);
      }
    case UnregisterInner(entry) => UnregisterKeepsInner(s, call);
  }

  lemma AdvanceKeeps(s: State, call: nat, hasRuntime: bool)
    requires Inv(s) && call in s.calls && !s.calls[call].Returned?
    ensures Inv(Advance(s, call, hasRuntime))
  {
    AdvanceKeepsInner(s, call, hasRuntime);
    hide OwnWrapped, InnerMatches;
    var after := Advance(s, call, hasRuntime);
    match s.calls[call]
    case RegisterInner(entry) =>
      InnerIrrelevant(s, after.inner);
      SameEntryKeeps(s.(inner := after.inner), call, after.calls[call]);
    case PushEntry(entry) => PushKeepsOwn(s, call);
    case FindEntry(filter, owned) =>
      var i := EntryIndex(s.entries, filter, owned);
      if i < |s.entries| {
        TakeKeepsOwn(s, call, i);
      } else {
        SameEntryKeeps(s, call, after.calls[call]);
      }
    case UnregisterInner(entry) =>
      InnerIrrelevant(s, after.inner);
      SameEntryKeeps(s.(inner := after.inner), call, after.calls[call]);
  }

  lemma InnerIrrelevant(s: State, inner: set<InnerRegistration>)
    requires OwnWrapped(s)
    ensures OwnWrapped(s.(inner := inner))
  {
  }

  lemma RegisterStarts(s: State, call: nat, entry: OwnedRegistration)
    requires Inv(s) && call !in s.calls && entry.wrapped == s.nextWrapped
    ensures Inv(s.(calls := s.calls[call := RegisterInner(entry)], nextWrapped := s.nextWrapped + 1))
  {
  }

  lemma UnregisterStarts(s: State, call: nat, filter: Filter, owned: nat)
    requires Inv(s) && call !in s.calls
    ensures Inv(s.(calls := s.calls[call := FindEntry(filter, owned)]))
  {
  }

  /** Registrations of other users do not touch those of the wrapper. */
  lemma ForeignKeeps(s: State, r: InnerRegistration)
    requires Inv(s) && r.listener.Foreign?
    ensures Inv(s.(inner := s.inner + {r})) && Inv(s.(inner := s.inner - {r}))
  {
  }

  lemma StepKeeps(s: State, e: Event)
    requires Inv(s) && Enabled(s, e)
    ensures Inv(Step(s, e))
  {
    hide Inv, Advance;
    match e
    case Register(call, filter, owned) => RegisterStarts(s, call, OwnedRegistration(filter, owned, s.nextWrapped));
    case Unregister(call, filter, owned) => UnregisterStarts(s, call, filter, owned);
    case Continue(call, hasRuntime) => AdvanceKeeps(s, call, hasRuntime);
    case ForeignRegister(filter, id) => ForeignKeeps(s, InnerRegistration(filter, Foreign(id)));
    case ForeignUnregister(filter, id) => ForeignKeeps(s, InnerRegistration(filter, Foreign(id)));
  }

  lemma {:induction false} EveryRunKeepsInv(events: seq<Event>)
    ensures After(events).Some? ==> Inv(After(events).value)
  {
    if events != [] {
      hide Inv, Step, Enabled;
      EveryRunKeepsInv(events[..|events| - 1]);
      var before := After(events[..|events| - 1]);
      if before.Some? && Enabled(before.value, events[|events| - 1]) {
        StepKeeps(before.value, events[|events| - 1]);
      }
    }
  }

  /** At every moment of every interleaving, each entry of the wrapper has an inner registration
      of its own. */
  lemma EntriesHaveOwnInner(events: seq<Event>)
    requires After(events).Some?
    ensures var s := After(events).value;
            && (forall i :: 0 <= i < |s.entries| ==> Inner(s.entries[i]) in s.inner)
            && (forall i, j :: 0 <= i < j < |s.entries| ==> Inner(s.entries[i]) != Inner(s.entries[j]))
  {
    EveryRunKeepsInv(events);
  }

  /** A register call never finds its listener already registered inside, and an unregister call
      that found its entry never finds it missing inside: the only answers of the inner transport
      are success and, for register, the missing runtime. */
  lemma InnerCallsNeverMiss(events: seq<Event>, call: nat, hasRuntime: bool)
    requires After(events).Some? && Enabled(After(events).value, Continue(call, hasRuntime))
    ensures var s := After(events).value;
            && (s.calls[call].UnregisterInner? ==> UnregisterAtInner(s.inner, Inner(s.calls[call].entry)).1 == Ok(()))
            && (s.calls[call].RegisterInner? ==>
                  RegisterAtInner(s.inner, Inner(s.calls[call].entry), hasRuntime).1
                  == if hasRuntime then Ok(()) else Err(FailedPrecondition))
  {
    EveryRunKeepsInv(events);
  }

  // ------------------------------------------------------- each call acts on its own entry

  /** A call in progress still works on what it was called with. */
  predicate Remembers(s: State, e: Event) {
    match e
    case Register(call, filter, owned) =>
      call in s.calls
      && (match s.calls[call]
          case RegisterInner(entry) => entry.filter == filter && entry.owned == owned
          case PushEntry(entry) => entry.filter == filter && entry.owned == owned
          case Returned(_) => true
          case _ => false)
    case Unregister(call, filter, owned) =>
      call in s.calls
      && (match s.calls[call]
          case FindEntry(f, o) => f == filter && o == owned
          case UnregisterInner(entry) => entry.filter == filter && entry.owned == owned
          case Returned(_) => true
          case _ => false)
    case _ => true
  }

  lemma StepRemembers(s: State, e: Event, earlier: Event)
    requires Remembers(s, earlier) && Enabled(s, e)
    ensures Remembers(Step(s, e), earlier)
  {
  }

  lemma StartIsRemembered(s: State, e: Event)
    requires Enabled(s, e)
    ensures Remembers(Step(s, e), e)
  {
  }

  lemma {:induction false} CallsRemember(events: seq<Event>, e: Event)
    requires After(events).Some? && e in events
    ensures Remembers(After(events).value, e)
  {
    hide Step, Enabled, Remembers;
    var before, last := events[..|events| - 1], events[|events| - 1];
    if e == last {
      StartIsRemembered(After(before).value, last);
    } else {
      assert events == before + [last];
      CallsRemember(before, e);
      StepRemembers(After(before).value, last, e);
    }
  }

  /** A register call, region by region: its wrapped listener is registered inside with its own filter
      and was not there before; then exactly one entry is added, with its own filter and listener. */
  lemma RegisterAddsItsEntry(events: seq<Event>, call: nat, filter: Filter, owned: nat, hasRuntime: bool)
    requires After(events).Some? && Register(call, filter, owned) in events
    requires Enabled(After(events).value, Continue(call, hasRuntime))
    ensures var s, after := After(events).value, Step(After(events).value, Continue(call, hasRuntime));
            match s.calls[call]
            case RegisterInner(entry) =>
              && entry == OwnedRegistration(filter, owned, entry.wrapped)
              && InnerRegistration(filter, Wrapped(entry.wrapped)) !in s.inner
              && after.inner == s.inner + {InnerRegistration(filter, Wrapped(entry.wrapped))} && after.entries == s.entries
              && after.calls[call] == if hasRuntime then PushEntry(entry) else Returned(Err(FailedPrecondition))
            case PushEntry(entry) =>
              && entry == OwnedRegistration(filter, owned, entry.wrapped)
              && InnerRegistration(filter, Wrapped(entry.wrapped)) in s.inner
              && after.entries == s.entries + [entry] && after.inner == s.inner && after.calls[call] == Returned(Ok(()))
            case _ => false
  {
    CallsRemember(events, Register(call, filter, owned));
    EveryRunKeepsInv(events);
    hide After, OwnWrapped;
  }

  /** An unregister call, region by region: it takes out the first entry with its own filter and
      listener and leaves the others in order, or there is none and it ends with NOT_FOUND; then it
      takes out the inner registration of that entry and no other, and ends with success. */
  lemma UnregisterTakesItsEntry(events: seq<Event>, call: nat, filter: Filter, owned: nat, hasRuntime: bool)
    requires After(events).Some? && Unregister(call, filter, owned) in events
    requires Enabled(After(events).value, Continue(call, hasRuntime))
    ensures var s, after := After(events).value, Step(After(events).value, Continue(call, hasRuntime));
            match s.calls[call]
            case FindEntry(_, _) =>
              && after.inner == s.inner
              && if forall i :: 0 <= i < |s.entries| ==> s.entries[i].filter != filter || s.entries[i].owned != owned then
                   after.entries == s.entries && after.calls[call] == Returned(Err(NotFound))
                 else
                   exists i :: 0 <= i < |s.entries| && s.entries[i].filter == filter && s.entries[i].owned == owned
                     && (forall k :: 0 <= k < i ==> s.entries[k].filter != filter || s.entries[k].owned != owned)
                     && after.entries == s.entries[..i] + s.entries[i + 1..] && after.calls[call] == UnregisterInner(s.entries[i])
            case UnregisterInner(entry) =>
              && entry == OwnedRegistration(filter, owned, entry.wrapped)
              && InnerRegistration(filter, Wrapped(entry.wrapped)) in s.inner
              && after.inner == s.inner - {InnerRegistration(filter, Wrapped(entry.wrapped))} && after.entries == s.entries
              && after.calls[call] == Returned(Ok(()))
            case _ => false
  {
    CallsRemember(events, Unregister(call, filter, owned));
    EveryRunKeepsInv(events);
    hide After, OwnWrapped, EntryIndex;
    var s := After(events).value;
    EntryIndexIsFirst(s.entries, filter, owned);
  }

  lemma EntryIndexIsFirst(entries: seq<OwnedRegistration>, filter: Filter, owned: nat)
    ensures var i := EntryIndex(entries, filter, owned);
            && (forall k :: 0 <= k < i ==> entries[k].filter != filter || entries[k].owned != owned)
            && (i == |entries| <==> forall k :: 0 <= k < |entries| ==> entries[k].filter != filter || entries[k].owned != owned)
  {
    var i := EntryIndex(entries, filter, owned);
    assert i < |entries| ==> entries[i].filter == filter && entries[i].owned == owned;
  }

  /** Nothing else touches an entry or the inner registration of a wrapped listener. */
  lemma OthersLeaveEntries(s: State, e: Event)
    requires Enabled(s, e) && !e.Continue?
    ensures var after := Step(s, e);
            after.entries == s.entries && forall r: InnerRegistration :: r.listener.Wrapped? ==> (r in after.inner <==> r in s.inner)
  {
  }
}
