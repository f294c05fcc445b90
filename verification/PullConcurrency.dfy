/** Sends, receives and listener polls from many tasks at once. Every region that holds a lock is
    one atomic event; between events any other call may run. Each sent sample carries the number
    of its send, and `place` records where that sample is. */
module PullConcurrency {
  import opened Base
  import opened Config
  import opened Metadata
  import opened FrameLayout
  import opened PullQueue
  import opened PullReceive
  import opened Sets

  datatype Item = Item(tag: nat, sample: seq<byte>)

  /** Where a call in progress stands. */
  datatype Pc =
    | LookInQueue(filter: Filter)
    | LookInPending(filter: Filter)
    | KeepMismatch(filter: Filter, held: Item)
    | PollPending
    | PollDecode(held: Item)
    | Done(result: Result<Option<Item>>)

  /** The one place of a sent sample. */
  datatype Place =
    | Pending
    | Held(call: nat)
    | Retained
    | Returned(to: Filter, call: nat)
    | Dropped
    | Rejected
    | Unreadable
    | Polled(call: nat)

  datatype State = State(
    pending: seq<Item>,
    mismatches: QueueState<Item>,
    calls: map<nat, Pc>,
    log: seq<seq<byte>>,
    place: map<nat, Place>)

  datatype Event =
    | Send(sample: seq<byte>)
    | StartReceive(call: nat, filter: Filter)
    | StartPoll(call: nat)
    | Continue(call: nat)

  const FRESH := State([], QueueState([], 0, 0), map[], [], map[])

  predicate Readable(lib: Library, sample: seq<byte>) {
    LeaseFromSample(lib, sample).Ok?
  }

  predicate Matches(lib: Library, sample: seq<byte>, filter: Filter) {
    Readable(lib, sample) && FrameMatches(lib, LeaseFromSample(lib, sample).value, filter)
  }

  function Matcher(lib: Library, filter: Filter): Item -> bool {
    (item: Item) => Matches(lib, item.sample, filter)
  }

  /** The next atomic event of a call. */
  function Advance(lib: Library, config: TransportConfig, s: State, call: nat): State
    requires call in s.calls
  {
    match s.calls[call]
    case LookInQueue(filter) =>
      var (popped, found) := PopMatch(s.mismatches, Matcher(lib, filter));
      if found.Some? then
        s.(mismatches := popped, calls := s.calls[call := Done(Ok(found))], place := s.place[found.value.tag := Returned(filter, call)])
      else s.(calls := s.calls[call := LookInPending(filter)])
    case LookInPending(filter) =>
      if s.pending == [] then s.(calls := s.calls[call := Done(Err(NotFound))])
      else
        var item, rest := s.pending[0], s.pending[1..];
        if !Readable(lib, item.sample) then
          s.(pending := rest, calls := s.calls[call := Done(Err(InvalidArgument))], place := s.place[item.tag := Unreadable])
        else if Matches(lib, item.sample, filter) then
          s.(pending := rest, calls := s.calls[call := Done(Ok(Some(item)))], place := s.place[item.tag := Returned(filter, call)])
        else
          s.(pending := rest, calls := s.calls[call := KeepMismatch(filter, item)], place := s.place[item.tag := Held(call)])
    case KeepMismatch(filter, item) =>
      var capacity, policy := config.pullMismatchQueueCapacity, config.pullMismatchQueueFullPolicy;
      var (pushed, result) := PushMismatch(capacity, policy, s.mismatches, item);
      if result.Err? then
        s.(mismatches := pushed, calls := s.calls[call := Done(Err(result.code))], place := s.place[item.tag := Rejected])
      else
        var place :=
          if capacity == 0 then s.place[item.tag := Dropped]
          else if |s.mismatches.queue| >= capacity then s.place[s.mismatches.queue[0].tag := Dropped][item.tag := Retained]
          else s.place[item.tag := Retained];
        s.(mismatches := pushed, calls := s.calls[call := LookInPending(filter)], place := place)
    case PollPending =>
      if s.pending == [] then s.(calls := s.calls[call := Done(Ok(None))])
      else
        var item := s.pending[0];
        s.(pending := s.pending[1..], calls := s.calls[call := PollDecode(item)], place := s.place[item.tag := Held(call)])
    case PollDecode(item) =>
      s.(calls := s.calls[call := Done(if Readable(lib, item.sample) then Ok(Some(item)) else Err(InvalidArgument))],
         place := s.place[item.tag := if Readable(lib, item.sample) then Polled(call) else Unreadable])
    case Done(_) => s
  }

  predicate Enabled(s: State, e: Event) {
    match e
    case Send(_) => true
    case StartReceive(call, _) => call !in s.calls
    case StartPoll(call) => call !in s.calls
    case Continue(call) => call in s.calls && !s.calls[call].Done?
  }

  function Step(lib: Library, config: TransportConfig, s: State, e: Event): State
    requires Enabled(s, e)
  {
    match e
    case Send(sample) =>
      s.(pending := s.pending + [Item(|s.log|, sample)], log := s.log + [sample], place := s.place[|s.log| := Pending])
    case StartReceive(call, filter) => s.(calls := s.calls[call := LookInQueue(filter)])
    case StartPoll(call) => s.(calls := s.calls[call := PollPending])
    case Continue(call) => Advance(lib, config, s, call)
  }

  /** The state an interleaving of events leads to, if every event is possible where it stands. */
  function After(lib: Library, config: TransportConfig, events: seq<Event>): Option<State> {
    if events == [] then Some(FRESH)
    else
      match After(lib, config, events[..|events| - 1])
      case None => None
      case Some(s) =>
        var e := events[|events| - 1];
        if Enabled(s, e) then Some(Step(lib, config, s, e)) else None
  }

  // ------------------------------------------------------------------- invariant

  function Tags(items: seq<Item>): set<nat> {
    set i | 0 <= i < |items| :: items[i].tag
  }

  function At(place: map<nat, Place>, p: Place): set<nat> {
    set t | t in place && place[t] == p
  }

  /** The call that has a sample in hand or was given it. */
  function CallOf(p: Place): Option<nat> {
    match p
    case Held(call) => Some(call)
    case Returned(_, call) => Some(call)
    case Polled(call) => Some(call)
    case _ => None
  }

  function AtCall(place: map<nat, Place>, call: nat): set<nat> {
    set t | t in place && CallOf(place[t]) == Some(call)
  }

  /** The sample a call has in hand, or the one it ended with. */
  function InHandOf(pc: Pc): Option<Item> {
    match pc
    case KeepMismatch(_, item) => Some(item)
    case PollDecode(item) => Some(item)
    case Done(Ok(found)) => found
    case _ => None
  }

  function HandTags(calls: map<nat, Pc>, call: nat): set<nat> {
    if call in calls && InHandOf(calls[call]).Some? then {InHandOf(calls[call]).value.tag} else {}
  }

  predicate DistinctTags(items: seq<Item>) {
    forall i, j :: 0 <= i < j < |items| ==> items[i].tag != items[j].tag
  }

  /** An item is the sample that was sent under its number. */
  predicate Genuine(log: seq<seq<byte>>, item: Item) {
    item.tag < |log| && log[item.tag] == item.sample
  }

  /** What must be true of a sample to be where it is. */
  predicate Fitting(lib: Library, sample: seq<byte>, p: Place) {
    match p
    case Returned(filter, _) => Matches(lib, sample, filter)
    case Unreadable => !Readable(lib, sample)
    case Retained => Readable(lib, sample)
    case Dropped => Readable(lib, sample)
    case Rejected => Readable(lib, sample)
    case Polled(_) => Readable(lib, sample)
    case _ => true
  }

  /** The places are those of the sent samples, and each sample fits its place. */
  ghost predicate PlacesInv(lib: Library, log: seq<seq<byte>>, place: map<nat, Place>) {
    && (forall t: nat :: t in place <==> t < |log|)
    && forall t :: t in place ==> Fitting(lib, log[t], place[t])
  }

  /** The FIFO holds the newest sends, in order. */
  ghost predicate PendingInv(pending: seq<Item>, log: seq<seq<byte>>, place: map<nat, Place>) {
    && |pending| <= |log|
    && (forall i :: 0 <= i < |pending| ==>
          pending[i] == Item(|log| - |pending| + i, log[|log| - |pending| + i]))
    && Tags(pending) == At(place, Pending)
  }

  /** The queue holds the retained samples, within its capacity. */
  ghost predicate QueueInv(config: TransportConfig, queue: seq<Item>, log: seq<seq<byte>>, place: map<nat, Place>) {
    && (forall i :: 0 <= i < |queue| ==> Genuine(log, queue[i]))
    && DistinctTags(queue)
    && Tags(queue) == At(place, Retained)
    && |queue| <= config.pullMismatchQueueCapacity
  }

  /** Each call holds, or has returned, exactly the samples whose place says so. */
  ghost predicate CallsInv(lib: Library, calls: map<nat, Pc>, log: seq<seq<byte>>, place: map<nat, Place>) {
    && (forall c: nat :: HandTags(calls, c) == AtCall(place, c))
    && forall c :: c in calls ==> PcInv(lib, c, calls[c], log, place)
  }

  predicate PcInv(lib: Library, call: nat, pc: Pc, log: seq<seq<byte>>, place: map<nat, Place>) {
    InHandOf(pc).Some? ==>
      var item := InHandOf(pc).value;
      && Genuine(log, item) && item.tag in place
      && (pc.KeepMismatch? ==> Readable(lib, item.sample))
      && (place[item.tag] == Held(call) <==> !pc.Done?)
  }

  /** The counters count what was dropped and what was rejected. */
  ghost predicate CountInv(m: QueueState<Item>, place: map<nat, Place>) {
    && m.dropped == SaturatingAdd(0, |At(place, Dropped)|)
    && m.rejected == SaturatingAdd(0, |At(place, Rejected)|)
  }

  /** Every sent sample has its place and is really there. */
  ghost predicate Inv(lib: Library, config: TransportConfig, s: State) {
    && PlacesInv(lib, s.log, s.place)
    && PendingInv(s.pending, s.log, s.place)
    && QueueInv(config, s.mismatches.queue, s.log, s.place)
    && CallsInv(lib, s.calls, s.log, s.place)
    && CountInv(s.mismatches, s.place)
  }

  // ---------------------------------------------- moving one sample, part by part

  lemma Moved(place: map<nat, Place>, t: nat, p: Place, q: Place)
    ensures At(place[t := p], q) == if p == q then At(place, q) + {t} else At(place, q) - {t}
  {
  }

  lemma PendingStays(pending: seq<Item>, log: seq<seq<byte>>, place: map<nat, Place>, t: nat, p: Place)
    requires PendingInv(pending, log, place) && t in place && place[t] != Pending && p != Pending
    ensures PendingInv(pending, log, place[t := p])
  {
    Moved(place, t, p, Pending);
  }

  lemma QueueStays(config: TransportConfig, queue: seq<Item>, log: seq<seq<byte>>, place: map<nat, Place>, t: nat, p: Place)
    requires QueueInv(config, queue, log, place) && t in place && place[t] != Retained && p != Retained
    ensures QueueInv(config, queue, log, place[t := p])
  {
    Moved(place, t, p, Retained);
  }

  lemma CountStays(m: QueueState<Item>, place: map<nat, Place>, t: nat, p: Place)
    requires CountInv(m, place) && (t in place ==> place[t] != Dropped && place[t] != Rejected) && p != Dropped && p != Rejected
    ensures CountInv(m, place[t := p])
  {
    Moved(place, t, p, Dropped);
    Moved(place, t, p, Rejected);
  }

  lemma CountGrows(m: QueueState<Item>, place: map<nat, Place>, t: nat, p: Place)
    requires CountInv(m, place) && t in place && place[t] != Dropped && place[t] != Rejected
    requires p == Dropped || p == Rejected
    ensures CountInv(if p == Dropped then m.(dropped := SaturatingAdd(m.dropped, 1))
                     else m.(rejected := SaturatingAdd(m.rejected, 1)), place[t := p])
  {
    Moved(place, t, p, Dropped);
    Moved(place, t, p, Rejected);
    assert t !in At(place, p);
    CountOneMore(At(place, p), t);
  }

  lemma MovedCall(place: map<nat, Place>, t: nat, p: Place, call: nat)
    ensures AtCall(place[t := p], call) == if CallOf(p) == Some(call) then AtCall(place, call) + {t} else AtCall(place, call) - {t}
  {
  }

  /** A sample that another call does not have does not matter to that call. */
  lemma OtherCallStays(lib: Library, calls: map<nat, Pc>, log: seq<seq<byte>>, place: map<nat, Place>, c: nat, t: nat, p: Place)
    requires CallsInv(lib, calls, log, place) && c in calls
    requires t in place && CallOf(place[t]) != Some(c)
    ensures PcInv(lib, c, calls[c], log, place[t := p])
  {
    hide LeaseFromSample;
    assert HandTags(calls, c) == AtCall(place, c);
    assert t !in AtCall(place, c);
  }

  /** One call changes its state while at most one sample moves to or from its hand. */
  lemma CallMoves(lib: Library, calls: map<nat, Pc>, log: seq<seq<byte>>, place: map<nat, Place>,
                  call: nat, pc: Pc, t: nat, p: Place)
    requires CallsInv(lib, calls, log, place) && t in place && PcInv(lib, call, pc, log, place[t := p])
    requires HandTags(calls, call) <= {t}
    requires CallOf(place[t]) == None || CallOf(place[t]) == Some(call)
    requires CallOf(p) == None || CallOf(p) == Some(call)
    requires HandTags(calls[call := pc], call) == if CallOf(p).Some? then {t} else {}
    ensures CallsInv(lib, calls[call := pc], log, place[t := p])
  {
    hide LeaseFromSample, PcInv, InHandOf;
    var after, placed := calls[call := pc], place[t := p];
    forall c: nat ensures HandTags(after, c) == AtCall(placed, c) {
      MovedCall(place, t, p, c);
    }
    forall c | c in calls && c != call ensures PcInv(lib, c, calls[c], log, place[t := p]) {
      OtherCallStays(lib, calls, log, place, c, t, p);
    }
  }

  lemma CallsStay(lib: Library, calls: map<nat, Pc>, log: seq<seq<byte>>, place: map<nat, Place>, t: nat, p: Place)
    requires CallsInv(lib, calls, log, place) && t in place && CallOf(place[t]) == None && CallOf(p) == None
    ensures CallsInv(lib, calls, log, place[t := p])
  {
    hide LeaseFromSample, PcInv, HandTags;
    var placed := place[t := p];
    forall c: nat ensures HandTags(calls, c) == AtCall(placed, c) {
      MovedCall(place, t, p, c);
    }
    forall c | c in calls ensures PcInv(lib, c, calls[c], log, place[t := p]) {
      OtherCallStays(lib, calls, log, place, c, t, p);
    }
  }

  lemma PlaceFits(lib: Library, log: seq<seq<byte>>, place: map<nat, Place>, t: nat, p: Place)
    requires PlacesInv(lib, log, place) && t in place && Fitting(lib, log[t], p)
    ensures PlacesInv(lib, log, place[t := p])
  {
    hide Fitting;
  }

  /** The front of the FIFO goes to another place. */
  lemma PendingTaken(pending: seq<Item>, log: seq<seq<byte>>, place: map<nat, Place>, p: Place)
    requires PendingInv(pending, log, place) && pending != [] && p != Pending
    ensures var item := pending[0];
            && Genuine(log, item) && item.tag in place && place[item.tag] == Pending
            && PendingInv(pending[1..], log, place[item.tag := p])
  {
    TagOf(pending, 0);
    TagsRemoved(pending, 0);
    assert RemoveAt(pending, 0) == pending[1..];
    Moved(place, pending[0].tag, p, Pending);
    assert pending[0].tag in At(place, Pending);
  }

  /** A retained frame leaves the queue. */
  lemma QueueTaken(config: TransportConfig, queue: seq<Item>, log: seq<seq<byte>>, place: map<nat, Place>, i: nat, p: Place)
    requires QueueInv(config, queue, log, place) && i < |queue| && p != Retained
    ensures queue[i].tag in place && place[queue[i].tag] == Retained
    ensures QueueInv(config, RemoveAt(queue, i), log, place[queue[i].tag := p])
  {
    TagOf(queue, i);
    TagsRemoved(queue, i);
    Moved(place, queue[i].tag, p, Retained);
    assert queue[i].tag in At(place, Retained);
    assert forall k :: 0 <= k < |queue| - 1 ==> RemoveAt(queue, i)[k] == queue[if k < i then k else k + 1];
  }

  lemma QueueGrows(config: TransportConfig, queue: seq<Item>, log: seq<seq<byte>>, place: map<nat, Place>, item: Item)
    requires QueueInv(config, queue, log, place) && |queue| < config.pullMismatchQueueCapacity
    requires Genuine(log, item) && item.tag in place && place[item.tag] != Retained
    ensures QueueInv(config, queue + [item], log, place[item.tag := Retained])
  {
    TagsPushed(queue, item);
    Moved(place, item.tag, Retained, Retained);
    forall i | 0 <= i < |queue| ensures queue[i].tag != item.tag {
      TagOf(queue, i);
      assert queue[i].tag in At(place, Retained);
    }
  }

  lemma TagsPushed(items: seq<Item>, item: Item)
    ensures Tags(items + [item]) == Tags(items) + {item.tag}
  {
    assert (items + [item])[|items|] == item;
    forall t | t in Tags(items) ensures t in Tags(items + [item]) {
      var i :| 0 <= i < |items| && items[i].tag == t;
      assert (items + [item])[i].tag == t;
    }
  }

  lemma TagsRemoved(items: seq<Item>, i: nat)
    requires i < |items| && DistinctTags(items)
    ensures Tags(RemoveAt(items, i)) == Tags(items) - {items[i].tag}
    ensures DistinctTags(RemoveAt(items, i))
  {
    var r := RemoveAt(items, i);
    assert forall k :: 0 <= k < |r| ==> r[k] == items[if k < i then k else k + 1];
    forall t | t in Tags(items) - {items[i].tag} ensures t in Tags(r) {
      var k :| 0 <= k < |items| && items[k].tag == t;
      assert r[if k < i then k else k - 1].tag == t;
    }
  }

  lemma TagOf(items: seq<Item>, i: nat)
    requires i < |items|
    ensures items[i].tag in Tags(items)
  {
  }

  lemma CountOneMore(tags: set<nat>, t: nat)
    requires t !in tags
    ensures |tags + {t}| == |tags| + 1
  {
  }

  // ------------------------------------------------------- every event keeps it all

  /** A new send concerns no call. */
  lemma CallsSeeSend(lib: Library, calls: map<nat, Pc>, log: seq<seq<byte>>, place: map<nat, Place>, sample: seq<byte>)
    requires CallsInv(lib, calls, log, place) && |log| !in place
    ensures CallsInv(lib, calls, log + [sample], place[|log| := Pending])
  {
    hide LeaseFromSample;
    forall c: nat ensures HandTags(calls, c) == AtCall(place[|log| := Pending], c) {
      MovedCall(place, |log|, Pending, c);
    }
  }

  lemma SendKeeps(lib: Library, config: TransportConfig, s: State, sample: seq<byte>)
    requires Inv(lib, config, s)
    ensures Inv(lib, config, Step(lib, config, s, Send(sample)))
  {
    hide LeaseFromSample, Fitting, Tags, DistinctTags, HandTags, AtCall, PcInv;
    var t := |s.log|;
    assert t !in s.place;
    TagsPushed(s.pending, Item(t, sample));
    Moved(s.place, t, Pending, Pending);
    Moved(s.place, t, Pending, Retained);
    CountStays(s.mismatches, s.place, t, Pending);
    CallsSeeSend(lib, s.calls, s.log, s.place, sample);
    hide CallsInv;
    assert Fitting(lib, sample, Pending) by { PendingFits(lib, sample); }
  }

  lemma PendingFits(lib: Library, sample: seq<byte>)
    ensures Fitting(lib, sample, Pending)
  {
  }

  /** The front of the FIFO goes to a place outside the queue and the counters. */
  lemma TakeKeeps(lib: Library, config: TransportConfig, s: State, call: nat, p: Place, pc: Pc)
    requires Inv(lib, config, s) && s.pending != []
    requires HandTags(s.calls, call) == {}
    requires Fitting(lib, s.pending[0].sample, p) && p != Pending && p != Retained && p != Dropped && p != Rejected
    requires CallOf(p) == None || CallOf(p) == Some(call)
    requires HandTags(map[call := pc], call) == if CallOf(p).Some? then {s.pending[0].tag} else {}
    requires Genuine(s.log, s.pending[0]) ==> PcInv(lib, call, pc, s.log, s.place[s.pending[0].tag := p])
    ensures Inv(lib, config, s.(pending := s.pending[1..], calls := s.calls[call := pc], place := s.place[s.pending[0].tag := p]))
  {
    hide LeaseFromSample, Fitting, PendingInv, QueueInv, CallsInv, CountInv, PlacesInv, PcInv;
    var t := s.pending[0].tag;
    assert HandTags(s.calls[call := pc], call) == HandTags(map[call := pc], call);
    PendingTaken(s.pending, s.log, s.place, p);
    PlaceFits(lib, s.log, s.place, t, p);
    QueueStays(config, s.mismatches.queue, s.log, s.place, t, p);
    CountStays(s.mismatches, s.place, t, p);
    CallMoves(lib, s.calls, s.log, s.place, call, pc, t, p);
  }

  lemma QueueHitKeeps(lib: Library, config: TransportConfig, s: State, call: nat, filter: Filter)
    requires Inv(lib, config, s) && call in s.calls && s.calls[call] == LookInQueue(filter)
    requires PopMatch(s.mismatches, Matcher(lib, filter)).1.Some?
    ensures Inv(lib, config, Advance(lib, config, s, call))
  {
    hide LeaseFromSample, PendingInv, CallsInv, CountInv, PlacesInv;
    var q := s.mismatches.queue;
    var i := FirstIndex(q, Matcher(lib, filter));
    var t := q[i].tag;
    assert Genuine(s.log, q[i]) && Fitting(lib, s.log[t], Returned(filter, call));
    QueueTaken(config, q, s.log, s.place, i, Returned(filter, call));
    PlaceFits(lib, s.log, s.place, t, Returned(filter, call));
    PendingStays(s.pending, s.log, s.place, t, Returned(filter, call));
    CountStaysFor(s.mismatches, s.place, t, Returned(filter, call), RemoveAt(q, i));
    CallMoves(lib, s.calls, s.log, s.place, call, Done(Ok(Some(q[i]))), t, Returned(filter, call));
  }

  lemma CountStaysFor(m: QueueState<Item>, place: map<nat, Place>, t: nat, p: Place, queue: seq<Item>)
    requires CountInv(m, place) && t in place && place[t] != Dropped && place[t] != Rejected && p != Dropped && p != Rejected
    ensures CountInv(m.(queue := queue), place[t := p])
  {
    CountStays(m, place, t, p);
  }

  /** What a call that has not ended has in hand. */
  lemma InHand(lib: Library, config: TransportConfig, s: State, call: nat)
    requires Inv(lib, config, s) && call in s.calls && (s.calls[call].KeepMismatch? || s.calls[call].PollDecode?)
    ensures var item := s.calls[call].held;
            && Genuine(s.log, item) && item.tag in s.place && s.place[item.tag] == Held(call)
            && (s.calls[call].KeepMismatch? ==> Readable(lib, item.sample))
  {
    hide LeaseFromSample;
    assert PcInv(lib, call, s.calls[call], s.log, s.place);
  }

  /** A call lets go of what it has in hand, or ends with it. */
  lemma CallLetsGo(lib: Library, calls: map<nat, Pc>, log: seq<seq<byte>>, place: map<nat, Place>, call: nat, pc: Pc, p: Place)
    requires CallsInv(lib, calls, log, place) && call in calls && (calls[call].KeepMismatch? || calls[call].PollDecode?)
    requires if CallOf(p).Some? then p == Polled(call) && pc == Done(Ok(Some(calls[call].held))) else InHandOf(pc) == None
    ensures CallsInv(lib, calls[call := pc], log, place[calls[call].held.tag := p])
  {
    hide LeaseFromSample, CallsInv;
    var item := calls[call].held;
    assert PcInv(lib, call, calls[call], log, place) by { PcOf(lib, calls, log, place, call); }
    CallMoves(lib, calls, log, place, call, pc, item.tag, p);
  }

  lemma PcOf(lib: Library, calls: map<nat, Pc>, log: seq<seq<byte>>, place: map<nat, Place>, call: nat)
    requires CallsInv(lib, calls, log, place) && call in calls
    ensures PcInv(lib, call, calls[call], log, place)
  {
    hide LeaseFromSample, PcInv;
  }

  /** A mismatch in hand is counted and let go. */
  lemma PutAsideKeeps(lib: Library, config: TransportConfig, s: State, call: nat, p: Place, pc: Pc)
    requires Inv(lib, config, s) && call in s.calls && s.calls[call].KeepMismatch?
    requires p == Dropped || p == Rejected
    requires InHandOf(pc) == None
    ensures var m := if p == Dropped then s.mismatches.(dropped := SaturatingAdd(s.mismatches.dropped, 1))
                     else s.mismatches.(rejected := SaturatingAdd(s.mismatches.rejected, 1));
            Inv(lib, config, s.(mismatches := m, calls := s.calls[call := pc], place := s.place[s.calls[call].held.tag := p]))
  {
    InHand(lib, config, s, call);
    hide LeaseFromSample, Fitting, PendingInv, QueueInv, CallsInv, CountInv, PlacesInv;
    var t := s.calls[call].held.tag;
    PlaceFits(lib, s.log, s.place, t, p);
    PendingStays(s.pending, s.log, s.place, t, p);
    QueueStays(config, s.mismatches.queue, s.log, s.place, t, p);
    CountGrows(s.mismatches, s.place, t, p);
    CallLetsGo(lib, s.calls, s.log, s.place, call, pc, p);
  }

  /** A mismatch in hand goes to the back of a queue with room for it. */
  lemma RetainKeeps(lib: Library, config: TransportConfig, s: State, call: nat, pc: Pc)
    requires Inv(lib, config, s) && call in s.calls && s.calls[call].KeepMismatch?
    requires |s.mismatches.queue| < config.pullMismatchQueueCapacity
    requires InHandOf(pc) == None
    ensures var item := s.calls[call].held;
            Inv(lib, config, s.(mismatches := s.mismatches.(queue := s.mismatches.queue + [item]),
                                calls := s.calls[call := pc], place := s.place[item.tag := Retained]))
  {
    InHand(lib, config, s, call);
    hide LeaseFromSample, PendingInv, QueueInv, CallsInv, CountInv, PlacesInv;
    var item := s.calls[call].held;
    PlaceFits(lib, s.log, s.place, item.tag, Retained);
    PendingStays(s.pending, s.log, s.place, item.tag, Retained);
    QueueGrows(config, s.mismatches.queue, s.log, s.place, item);
    CountStaysFor(s.mismatches, s.place, item.tag, Retained, s.mismatches.queue + [item]);
    CallLetsGo(lib, s.calls, s.log, s.place, call, pc, Retained);
  }

  /** The oldest retained frame is counted and dropped. */
  lemma DropOldestKeeps(lib: Library, config: TransportConfig, s: State)
    requires Inv(lib, config, s) && s.mismatches.queue != []
    ensures Inv(lib, config, s.(mismatches := s.mismatches.(queue := s.mismatches.queue[1..],
                                                            dropped := SaturatingAdd(s.mismatches.dropped, 1)),
                                place := s.place[s.mismatches.queue[0].tag := Dropped]))
  {
    hide LeaseFromSample, PendingInv, CallsInv, QueueInv;
    var q := s.mismatches.queue;
    var t := q[0].tag;
    assert RemoveAt(q, 0) == q[1..];
    QueueTaken(config, q, s.log, s.place, 0, Dropped);
    assert Fitting(lib, s.log[t], Retained);
    PlaceFits(lib, s.log, s.place, t, Dropped);
    PendingStays(s.pending, s.log, s.place, t, Dropped);
    CountGrows(s.mismatches, s.place, t, Dropped);
    CallsStay(lib, s.calls, s.log, s.place, t, Dropped);
  }

  lemma KeepMismatchKeeps(lib: Library, config: TransportConfig, s: State, call: nat)
    requires Inv(lib, config, s) && call in s.calls && s.calls[call].KeepMismatch?
    ensures Inv(lib, config, Advance(lib, config, s, call))
  {
    QueueIsBounded(lib, config, s);
    hide LeaseFromSample, Inv;
    var filter, item := s.calls[call].filter, s.calls[call].held;
    var capacity, policy := config.pullMismatchQueueCapacity, config.pullMismatchQueueFullPolicy;
    var next := LookInPending(filter);
    if capacity == 0 {
      PutAsideKeeps(lib, config, s, call, Dropped, next);
    } else if |s.mismatches.queue| >= capacity && policy == RejectNewestAndReport {
      PutAsideKeeps(lib, config, s, call, Rejected, Done(Err(ResourceExhausted)));
    } else if |s.mismatches.queue| >= capacity {
      DropOldestKeeps(lib, config, s);
      var q := s.mismatches.queue;
      var s1 := s.(mismatches := s.mismatches.(queue := q[1..], dropped := SaturatingAdd(s.mismatches.dropped, 1)),
                   place := s.place[q[0].tag := Dropped]);
      RetainKeeps(lib, config, s1, call, next);
    } else {
      RetainKeeps(lib, config, s, call, next);
    }
  }

  lemma QueueIsBounded(lib: Library, config: TransportConfig, s: State)
    requires Inv(lib, config, s)
    ensures |s.mismatches.queue| <= config.pullMismatchQueueCapacity
  {
    hide LeaseFromSample;
  }

  /** A polled sample in hand goes to the listeners or is refused. */
  lemma PolledKeeps(lib: Library, config: TransportConfig, s: State, call: nat, p: Place, pc: Pc)
    requires Inv(lib, config, s) && call in s.calls && s.calls[call].PollDecode?
    requires Fitting(lib, s.calls[call].held.sample, p) && (p == Polled(call) || p == Unreadable)
    requires if p.Polled? then pc == Done(Ok(Some(s.calls[call].held))) else InHandOf(pc) == None
    ensures Inv(lib, config, s.(calls := s.calls[call := pc], place := s.place[s.calls[call].held.tag := p]))
  {
    InHand(lib, config, s, call);
    hide LeaseFromSample, Fitting, PendingInv, QueueInv, CallsInv, CountInv, PlacesInv;
    var t := s.calls[call].held.tag;
    PlaceFits(lib, s.log, s.place, t, p);
    PendingStays(s.pending, s.log, s.place, t, p);
    QueueStays(config, s.mismatches.queue, s.log, s.place, t, p);
    CountStays(s.mismatches, s.place, t, p);
    CallLetsGo(lib, s.calls, s.log, s.place, call, pc, p);
  }

  lemma PollDecodeKeeps(lib: Library, config: TransportConfig, s: State, call: nat)
    requires Inv(lib, config, s) && call in s.calls && s.calls[call].PollDecode?
    ensures Inv(lib, config, Advance(lib, config, s, call))
  {
    hide Inv, Readable;
    var item := s.calls[call].held;
    if Readable(lib, item.sample) {
      PolledKeeps(lib, config, s, call, Polled(call), Done(Ok(Some(item))));
    } else {
      PolledKeeps(lib, config, s, call, Unreadable, Done(Err(InvalidArgument)));
    }
  }

  /** A change of a call that holds nothing before and after. */
  lemma IdleStepKeeps(lib: Library, config: TransportConfig, s: State, call: nat, pc: Pc)
    requires Inv(lib, config, s) && HandTags(s.calls, call) == {} && InHandOf(pc) == None
    ensures Inv(lib, config, s.(calls := s.calls[call := pc]))
  {
    hide LeaseFromSample, PendingInv, QueueInv, CountInv, PlacesInv;
    assert forall c: nat :: HandTags(s.calls[call := pc], c) == HandTags(s.calls, c);
  }

  lemma StepKeeps(lib: Library, config: TransportConfig, s: State, e: Event)
    requires Inv(lib, config, s) && Enabled(s, e)
    ensures Inv(lib, config, Step(lib, config, s, e))
  {
    hide Inv, LeaseFromSample, FrameMatches;
    match e
    case Send(sample) => SendKeeps(lib, config, s, sample);
    case StartReceive(call, filter) => IdleStepKeeps(lib, config, s, call, LookInQueue(filter));
    case StartPoll(call) => IdleStepKeeps(lib, config, s, call, PollPending);
    case Continue(call) =>
      match s.calls[call]
      case LookInQueue(filter) =>
        if PopMatch(s.mismatches, Matcher(lib, filter)).1.Some? {
          QueueHitKeeps(lib, config, s, call, filter);
        } else {
          IdleStepKeeps(lib, config, s, call, LookInPending(filter));
        }
      case LookInPending(filter) =>
        if s.pending == [] {
          IdleStepKeeps(lib, config, s, call, Done(Err(NotFound)));
        } else if !Readable(lib, s.pending[0].sample) {
          TakeKeeps(lib, config, s, call, Unreadable, Done(Err(InvalidArgument)));
        } else if Matches(lib, s.pending[0].sample, filter) {
          TakeKeeps(lib, config, s, call, Returned(filter, call), Done(Ok(Some(s.pending[0]))));
        } else {
          TakeKeeps(lib, config, s, call, Held(call), KeepMismatch(filter, s.pending[0]));
        }
      case KeepMismatch(_, _) => KeepMismatchKeeps(lib, config, s, call);
      case PollPending =>
        if s.pending == [] {
          IdleStepKeeps(lib, config, s, call, Done(Ok(None)));
        } else {
          TakeKeeps(lib, config, s, call, Held(call), PollDecode(s.pending[0]));
        }
      case PollDecode(_) => PollDecodeKeeps(lib, config, s, call);
  }

  lemma FreshInv(lib: Library, config: TransportConfig)
    ensures Inv(lib, config, FRESH)
  {
  }

  /** Conservation over every interleaving: each sent sample is in exactly one place and really
      there, nothing is in two places, nothing is made up, the counters count what was dropped and
      rejected (up to where they saturate), and the queue stays within its capacity. */
  lemma {:induction false} Conservation(lib: Library, config: TransportConfig, events: seq<Event>)
    ensures var s := After(lib, config, events);
            s.Some? ==> Inv(lib, config, s.value)
  {
    if events == [] {
      FreshInv(lib, config);
    } else {
      hide Inv, Step, Enabled;
      var before := events[..|events| - 1];
      Conservation(lib, config, before);
      var s := After(lib, config, before);
      if s.Some? && Enabled(s.value, events[|events| - 1]) {
        StepKeeps(lib, config, s.value, events[|events| - 1]);
      }
    }
  }

  // ------------------------------------------------------- no sample comes back

  /** The ways a sample can go on from where it is. */
  predicate CanMove(p: Place, q: Place) {
    match p
    case Pending => q.Held? || q.Returned? || q.Unreadable?
    case Held(_) => q.Retained? || q.Dropped? || q.Rejected? || q.Polled? || q.Unreadable?
    case Retained => q.Returned? || q.Dropped?
    case _ => false
  }

  /** Whether a sample has gone on, or stayed, from one ledger to the next. */
  predicate WentForward(before: map<nat, Place>, after: map<nat, Place>, t: nat) {
    t in before ==> t in after && (after[t] == before[t] || CanMove(before[t], after[t]))
  }

  lemma OneMoves(place: map<nat, Place>, moved: nat, p: Place, t: nat)
    requires moved in place && CanMove(place[moved], p)
    ensures WentForward(place, place[moved := p], t)
  {
  }

  lemma FrontIsPending(lib: Library, config: TransportConfig, s: State)
    requires Inv(lib, config, s) && s.pending != []
    ensures s.pending[0].tag in s.place && s.place[s.pending[0].tag] == Pending
  {
    hide LeaseFromSample, PlacesInv, CallsInv, CountInv, QueueInv;
    TagOf(s.pending, 0);
    assert s.pending[0].tag in At(s.place, Pending);
  }

  lemma QueuedIsRetained(lib: Library, config: TransportConfig, s: State, i: nat)
    requires Inv(lib, config, s) && i < |s.mismatches.queue|
    ensures s.mismatches.queue[i].tag in s.place && s.place[s.mismatches.queue[i].tag] == Retained
  {
    hide LeaseFromSample, PlacesInv, CallsInv, CountInv, PendingInv;
    TagOf(s.mismatches.queue, i);
    assert s.mismatches.queue[i].tag in At(s.place, Retained);
  }

  lemma NextSendIsNew(lib: Library, config: TransportConfig, s: State)
    requires Inv(lib, config, s)
    ensures |s.log| !in s.place
  {
    hide LeaseFromSample, PendingInv, QueueInv, CallsInv, CountInv;
  }

  /** An event moves a sample on, if it moves it at all. */
  lemma PlacesMoveForward(lib: Library, config: TransportConfig, s: State, e: Event, t: nat)
    requires Inv(lib, config, s) && Enabled(s, e)
    ensures WentForward(s.place, Step(lib, config, s, e).place, t)
  {
    NextSendIsNew(lib, config, s);
    hide Inv, Advance;
    if e.Continue? {
      match s.calls[e.call]
      case LookInQueue(_) => PoppedMovesForward(lib, config, s, e.call, t);
      case KeepMismatch(_, _) => MismatchMovesForward(lib, config, s, e.call, t);
      case PollDecode(_) => PolledMovesForward(lib, config, s, e.call, t);
      case LookInPending(_) => TakenMovesForward(lib, config, s, e.call, t);
      case PollPending => TakenMovesForward(lib, config, s, e.call, t);
    }
  }

  lemma PoppedMovesForward(lib: Library, config: TransportConfig, s: State, call: nat, t: nat)
    requires Inv(lib, config, s) && call in s.calls && s.calls[call].LookInQueue?
    ensures WentForward(s.place, Advance(lib, config, s, call).place, t)
  {
    hide Inv, LeaseFromSample, Matches, FirstIndex, WentForward;
    assert WentForward(s.place, s.place, t) by { Stays(s.place, t); }
    var i := FirstIndex(s.mismatches.queue, Matcher(lib, s.calls[call].filter));
    if i < |s.mismatches.queue| {
      QueuedIsRetained(lib, config, s, i);
      OneMoves(s.place, s.mismatches.queue[i].tag, Returned(s.calls[call].filter, call), t);
    }
  }

  lemma Stays(place: map<nat, Place>, t: nat)
    ensures WentForward(place, place, t)
  {
  }

  lemma MismatchMovesForward(lib: Library, config: TransportConfig, s: State, call: nat, t: nat)
    requires Inv(lib, config, s) && call in s.calls && s.calls[call].KeepMismatch?
    ensures WentForward(s.place, Advance(lib, config, s, call).place, t)
  {
    InHand(lib, config, s, call);
    QueueIsBounded(lib, config, s);
    hide Inv, LeaseFromSample, WentForward;
    var item, q := s.calls[call].held, s.mismatches.queue;
    OneMoves(s.place, item.tag, Dropped, t);
    OneMoves(s.place, item.tag, Rejected, t);
    OneMoves(s.place, item.tag, Retained, t);
    if q != [] {
      QueuedIsRetained(lib, config, s, 0);
      TwoMove(s.place, q[0].tag, item.tag, call, t);
    }
  }

  lemma TwoMove(place: map<nat, Place>, oldest: nat, held: nat, call: nat, t: nat)
    requires oldest in place && held in place && place[oldest] == Retained && place[held] == Held(call)
    ensures WentForward(place, place[oldest := Dropped][held := Retained], t)
  {
  }

  lemma PolledMovesForward(lib: Library, config: TransportConfig, s: State, call: nat, t: nat)
    requires Inv(lib, config, s) && call in s.calls && s.calls[call].PollDecode?
    ensures WentForward(s.place, Advance(lib, config, s, call).place, t)
  {
    InHand(lib, config, s, call);
    hide Inv, Readable, WentForward;
    OneMoves(s.place, s.calls[call].held.tag, Polled(call), t);
    OneMoves(s.place, s.calls[call].held.tag, Unreadable, t);
  }

  lemma TakenMovesForward(lib: Library, config: TransportConfig, s: State, call: nat, t: nat)
    requires Inv(lib, config, s) && call in s.calls && (s.calls[call].LookInPending? || s.calls[call].PollPending?)
    ensures WentForward(s.place, Advance(lib, config, s, call).place, t)
  {
    hide Inv, Readable, Matches, WentForward;
    if s.pending == [] {
      Stays(s.place, t);
    } else {
      FrontIsPending(lib, config, s);
      var tag := s.pending[0].tag;
      OneMoves(s.place, tag, Held(call), t);
      OneMoves(s.place, tag, Unreadable, t);
      if s.calls[call].LookInPending? {
        OneMoves(s.place, tag, Returned(s.calls[call].filter, call), t);
      }
    }
  }

  /** Where a sample stays for good. */
  predicate Final(p: Place) {
    p.Returned? || p.Polled? || p.Dropped? || p.Rejected? || p.Unreadable?
  }

  /** What was returned, polled, dropped, rejected or refused stays so, whatever happens later. */
  lemma {:induction false} FinalPlacesStay(lib: Library, config: TransportConfig, before: seq<Event>, later: seq<Event>, t: nat)
    requires After(lib, config, before).Some? && After(lib, config, before + later).Some?
    requires t in After(lib, config, before).value.place && Final(After(lib, config, before).value.place[t])
    ensures var place := After(lib, config, before + later).value.place;
            t in place && place[t] == After(lib, config, before).value.place[t]
  {
    hide Inv, Step, Enabled;
    if later == [] {
      assert before + later == before;
    } else {
      var n := |later| - 1;
      assert (before + later)[..|before| + n] == before + later[..n];
      FinalPlacesStay(lib, config, before, later[..n], t);
      Conservation(lib, config, before + later[..n]);
      PlacesMoveForward(lib, config, After(lib, config, before + later[..n]).value, later[n], t);
    }
  }

  /** No sample is given to two calls, and what a call is given is a sample that was sent. */
  lemma GivenOnce(lib: Library, config: TransportConfig, events: seq<Event>, c: nat, d: nat)
    requires After(lib, config, events).Some?
    requires var calls := After(lib, config, events).value.calls;
             c in calls && d in calls && c != d && InHandOf(calls[c]).Some? && InHandOf(calls[d]).Some?
    ensures var s := After(lib, config, events).value;
            && Genuine(s.log, InHandOf(s.calls[c]).value)
            && InHandOf(s.calls[c]).value.tag != InHandOf(s.calls[d]).value.tag
  {
    Conservation(lib, config, events);
    var s := After(lib, config, events).value;
    hide After, LeaseFromSample, PlacesInv, PendingInv, QueueInv, CountInv;
    assert PcInv(lib, c, s.calls[c], s.log, s.place);
    assert HandTags(s.calls, c) == AtCall(s.place, c) && HandTags(s.calls, d) == AtCall(s.place, d);
    assert InHandOf(s.calls[c]).value.tag in AtCall(s.place, c);
    assert InHandOf(s.calls[d]).value.tag in AtCall(s.place, d);
  }

  // ------------------------------------------------------------------- the balance

  function HeldByAnyone(place: map<nat, Place>): set<nat> {
    set t | t in place && place[t].Held?
  }

  function GivenToAnyone(place: map<nat, Place>): set<nat> {
    set t | t in place && (place[t].Returned? || place[t].Polled?)
  }

  lemma {:induction false} TagCount(items: seq<Item>)
    requires DistinctTags(items)
    ensures |Tags(items)| == |items|
  {
    if items == [] {
      assert Tags(items) == {};
    } else {
      TagOf(items, 0);
      TagsRemoved(items, 0);
      assert RemoveAt(items, 0) == items[1..];
      TagCount(items[1..]);
    }
  }

  function InTheTransport(w: map<nat, Place>): set<nat> {
    set t | t in w && (w[t] == Pending || w[t] == Retained || w[t] == Dropped || w[t] == Rejected)
  }

  function WithTheCalls(w: map<nat, Place>): set<nat> {
    set t | t in w && (w[t].Held? || w[t].Returned? || w[t].Polled? || w[t] == Unreadable)
  }

  lemma TransportShare(w: map<nat, Place>)
    ensures |InTheTransport(w)| == |At(w, Pending)| + |At(w, Retained)| + |At(w, Dropped)| + |At(w, Rejected)|
  {
    DisjointUnion(At(w, Pending), At(w, Retained));
    DisjointUnion(At(w, Dropped), At(w, Rejected));
    DisjointUnion(At(w, Pending) + At(w, Retained), At(w, Dropped) + At(w, Rejected));
    assert InTheTransport(w) == (At(w, Pending) + At(w, Retained)) + (At(w, Dropped) + At(w, Rejected));
  }

  lemma CallShare(w: map<nat, Place>)
    ensures |WithTheCalls(w)| == |HeldByAnyone(w)| + |GivenToAnyone(w)| + |At(w, Unreadable)|
  {
    DisjointUnion(HeldByAnyone(w), GivenToAnyone(w));
    DisjointUnion(HeldByAnyone(w) + GivenToAnyone(w), At(w, Unreadable));
    assert WithTheCalls(w) == (HeldByAnyone(w) + GivenToAnyone(w)) + At(w, Unreadable);
  }

  /** The kinds of places share out the sent samples. */
  lemma PlacesShareOut(w: map<nat, Place>)
    ensures |w.Keys| == |At(w, Pending)| + |At(w, Retained)| + |At(w, Dropped)| + |At(w, Rejected)|
                        + |HeldByAnyone(w)| + |GivenToAnyone(w)| + |At(w, Unreadable)|
  {
    hide At, HeldByAnyone, GivenToAnyone, InTheTransport, WithTheCalls;
    TransportShare(w);
    CallShare(w);
    TwoShares(w);
  }

  lemma TwoShares(w: map<nat, Place>)
    ensures |w.Keys| == |InTheTransport(w)| + |WithTheCalls(w)|
  {
    DisjointUnion(InTheTransport(w), WithTheCalls(w));
    assert w.Keys == InTheTransport(w) + WithTheCalls(w);
  }

  /** The balance of an interleaving: sends are what is pending, retained, dropped and rejected,
      plus what calls in progress hold, what was returned or polled, and what was unreadable. The
      first four terms are the lengths and counters the transport itself keeps. */
  lemma Balance(lib: Library, config: TransportConfig, s: State)
    requires Inv(lib, config, s)
    requires s.mismatches.dropped < U64_LIMIT - 1 && s.mismatches.rejected < U64_LIMIT - 1
    ensures |s.log| == |s.pending| + |s.mismatches.queue| + s.mismatches.dropped + s.mismatches.rejected
                       + |HeldByAnyone(s.place)| + |GivenToAnyone(s.place)| + |At(s.place, Unreadable)|
  {
    hide LeaseFromSample, Fitting, At, HeldByAnyone, GivenToAnyone, Tags, HandTags, AtCall;
    PlacesShareOut(s.place);
    TagCount(s.pending);
    TagCount(s.mismatches.queue);
    FirstNaturals(|s.log|, s.place.Keys);
  }

  // ------------------------------------------------------------------ runs, event by event

  lemma AfterNothing(lib: Library, config: TransportConfig)
    ensures After(lib, config, []) == Some(FRESH)
  {
  }

  lemma Next(lib: Library, config: TransportConfig, before: seq<Event>, e: Event, s: State, next: State)
    requires After(lib, config, before) == Some(s) && Enabled(s, e) && Step(lib, config, s, e) == next
    ensures After(lib, config, before + [e]) == Some(next)
  {
    assert (before + [e])[..|before|] == before;
  }
}
