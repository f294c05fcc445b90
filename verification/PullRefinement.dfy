/** The step-by-step receive refines the one-piece receive: when no other call gets in between, the
    lock-held regions of a call add up to what `Received` says, and a run of such calls is a run
    of the sequential transport. So what is proved about the one piece holds of the steps. */
module PullRefinement {
  import opened Base
  import opened Config
  import opened Metadata
  import opened FrameLayout
  import opened PullQueue
  import opened PullReceive
  import opened PullConcurrency
  import PullTheorems
  import PullOrder
  import Sequences

  function Phase(pc: Pc): nat {
    match pc
    case LookInQueue(_) => 4
    case KeepMismatch(_, _) => 3
    case LookInPending(_) => 2
    case PollPending => 2
    case PollDecode(_) => 1
    case Done(_) => 0
  }

  /** A call that runs to its end while all others stand still: how many events that takes, and
      the state it leads to. */
  function RunAlone(lib: Library, config: TransportConfig, s: State, call: nat): (r: (nat, State))
    requires call in s.calls
    ensures call in r.1.calls && r.1.calls[call].Done?
    ensures r.1.log == s.log && r.1.calls == s.calls[call := r.1.calls[call]]
    decreases |s.pending|, Phase(s.calls[call])
  {
    if s.calls[call].Done? then (0, s)
    else
      var next := Advance(lib, config, s, call);
      AdvanceMovesOnly(lib, config, s, call);
      var (n, last) := RunAlone(lib, config, next, call);
      (n + 1, last)
  }

  lemma AdvanceMovesOnly(lib: Library, config: TransportConfig, s: State, call: nat)
    requires call in s.calls && !s.calls[call].Done?
    ensures var after := Advance(lib, config, s, call);
            && call in after.calls && after.log == s.log && after.calls == s.calls[call := after.calls[call]]
            && (|after.pending| < |s.pending|
                || (|after.pending| == |s.pending| && Phase(after.calls[call]) < Phase(s.calls[call])))
  {
    hide Readable, Matches, PopMatch, PushMismatch;
  }

  function Samples(items: seq<Item>): (samples: seq<seq<byte>>)
    ensures |samples| == |items| && forall i :: 0 <= i < |items| ==> samples[i] == items[i].sample
  {
    seq(|items|, i requires 0 <= i < |items| => items[i].sample)
  }

  /** The items hold these frames. */
  predicate Hold(lib: Library, items: seq<Item>, leases: seq<Lease>) {
    |items| == |leases| && forall i :: 0 <= i < |items| ==> LeaseFromSample(lib, items[i].sample) == Ok(leases[i])
  }

  predicate QueueShows(lib: Library, m: QueueState<Item>, shown: QueueState<Lease>) {
    Hold(lib, m.queue, shown.queue) && m.dropped == shown.dropped && m.rejected == shown.rejected
  }

  /** A state of the step machine shows this state of the sequential transport. */
  predicate Shows(lib: Library, s: State, st: PullState) {
    Samples(s.pending) == st.pending && QueueShows(lib, s.mismatches, st.mismatches)
  }

  /** What a call ended with, as its caller sees it. */
  predicate EndsWith(lib: Library, pc: Pc, result: Result<Lease>) {
    && pc.Done?
    && match result
       case Err(code) => pc.result == Err(code)
       case Ok(lease) => pc.result.Ok? && pc.result.value.Some? && LeaseFromSample(lib, pc.result.value.value.sample) == Ok(lease)
  }

  lemma PopShows(lib: Library, m: QueueState<Item>, shown: QueueState<Lease>, filter: Filter)
    requires QueueShows(lib, m, shown)
    ensures var (after, found) := PopMatch(m, Matcher(lib, filter));
            var (shownAfter, shownFound) := PopMatch(shown, MatcherOf(lib, filter));
            && QueueShows(lib, after, shownAfter) && found.Some? == shownFound.Some?
            && (found.Some? ==> LeaseFromSample(lib, found.value.sample) == Ok(shownFound.value))
  {
    hide LeaseFromSample, FrameMatches;
    var p := Matcher(lib, filter);
    var i := FirstIndex(m.queue, p);
    assert forall k :: 0 <= k < |m.queue| ==> p(m.queue[k]) == MatcherOf(lib, filter)(shown.queue[k]);
    Sequences.FirstIndexIs(shown.queue, i, MatcherOf(lib, filter));
  }

  lemma PushShows(lib: Library, config: TransportConfig, m: QueueState<Item>, shown: QueueState<Lease>, item: Item, frame: Lease)
    requires QueueShows(lib, m, shown) && LeaseFromSample(lib, item.sample) == Ok(frame)
    ensures var capacity, policy := config.pullMismatchQueueCapacity, config.pullMismatchQueueFullPolicy;
            var (after, result) := PushMismatch(capacity, policy, m, item);
            var (shownAfter, shownResult) := PushMismatch(capacity, policy, shown, frame);
            QueueShows(lib, after, shownAfter) && result == shownResult
  {
    hide LeaseFromSample;
  }

  /** These pending samples and this queue show a search against the sequential state `st`, at some
      point of its way. */
  ghost predicate OnTheWay(lib: Library, config: TransportConfig, st: PullState, pending: seq<Item>, m: QueueState<Item>, filter: Filter) {
    exists now :: ShowsSearch(lib, config, st, pending, m, filter, now)
  }

  ghost predicate ShowsSearch(lib: Library, config: TransportConfig, st: PullState, pending: seq<Item>, m: QueueState<Item>, filter: Filter,
                              now: PullState)
  {
    && Samples(pending) == now.pending && QueueShows(lib, m, now.mismatches)
    && |pending| <= |st.pending| && Searching(lib, config, st, now, filter, |st.pending| - |pending|)
  }

  /** What a receive in progress has done so far: it has not looked yet, or its search is on the way,
      and what it has in hand is a mismatch that counts as the next pending sample. */
  ghost predicate Midway(lib: Library, config: TransportConfig, st: PullState, s: State, pc: Pc, filter: Filter) {
    match pc
    case LookInQueue(used) => used == filter && Shows(lib, s, st)
    case LookInPending(used) => used == filter && OnTheWay(lib, config, st, s.pending, s.mismatches, filter)
    case KeepMismatch(used, item) =>
      && used == filter && !StopsSearch(lib, filter, item.sample)
      && OnTheWay(lib, config, st, [item] + s.pending, s.mismatches, filter)
    case _ => false
  }

  /** A receive has ended with what `Received` says, or it is still on its way there. */
  ghost predicate Follows(lib: Library, config: TransportConfig, st: PullState, s: State, call: nat, filter: Filter)
    requires st.Bounded(config)
  {
    var (after, result) := Received(lib, config, st, filter);
    && call in s.calls
    && if s.calls[call].Done? then Shows(lib, s, after) && EndsWith(lib, s.calls[call], result)
       else Midway(lib, config, st, s, s.calls[call], filter)
  }

  /** The next region of a receive either ends it with what `Received` says, or gets it further. */
  lemma RegionGoesOn(lib: Library, config: TransportConfig, st: PullState, s: State, call: nat, filter: Filter)
    requires call in s.calls && st.Bounded(config) && Midway(lib, config, st, s, s.calls[call], filter)
    ensures Follows(lib, config, st, Advance(lib, config, s, call), call, filter)
  {
    match s.calls[call]
    case LookInQueue(_) => LookGoesOn(lib, config, st, s, call, filter);
    case LookInPending(_) => SearchGoesOn(lib, config, st, s, call, filter);
    case KeepMismatch(_, _) => KeepGoesOn(lib, config, st, s, call, filter);
  }

  lemma LookGoesOn(lib: Library, config: TransportConfig, st: PullState, s: State, call: nat, filter: Filter)
    requires call in s.calls && s.calls[call] == LookInQueue(filter) && st.Bounded(config) && Shows(lib, s, st)
    ensures Follows(lib, config, st, Advance(lib, config, s, call), call, filter)
  {
    PopShows(lib, s.mismatches, st.mismatches, filter);
    SearchStarts(lib, config, st, filter);
    hide LeaseFromSample, FrameMatches, PopMatch, Received, Searching, Samples;
    if PopMatch(st.mismatches, MatcherOf(lib, filter)).1.None? {
      assert ShowsSearch(lib, config, st, s.pending, s.mismatches, filter, st);
    }
  }

  lemma FrontShows(pending: seq<Item>, shown: seq<seq<byte>>)
    requires pending != [] && Samples(pending) == shown
    ensures pending[0].sample == shown[0] && Samples(pending[1..]) == shown[1..] && [pending[0]] + pending[1..] == pending
  {
    assert Samples(pending[1..]) == Samples(pending)[1..];
  }

  lemma SearchGoesOn(lib: Library, config: TransportConfig, st: PullState, s: State, call: nat, filter: Filter)
    requires call in s.calls && s.calls[call] == LookInPending(filter) && st.Bounded(config)
    requires Midway(lib, config, st, s, s.calls[call], filter)
    ensures Follows(lib, config, st, Advance(lib, config, s, call), call, filter)
  {
    hide ShowsSearch, Advance, Follows;
    var now :| ShowsSearch(lib, config, st, s.pending, s.mismatches, filter, now);
    if s.pending == [] {
      RunsOut(lib, config, st, s, call, filter, now);
    } else if StopsSearch(lib, filter, s.pending[0].sample) {
      Stops(lib, config, st, s, call, filter, now);
    } else {
      TakesInHand(lib, config, st, s, call, filter, now);
    }
  }

  lemma RunsOut(lib: Library, config: TransportConfig, st: PullState, s: State, call: nat, filter: Filter, now: PullState)
    requires call in s.calls && s.calls[call] == LookInPending(filter) && st.Bounded(config)
    requires ShowsSearch(lib, config, st, s.pending, s.mismatches, filter, now) && s.pending == []
    ensures Follows(lib, config, st, Advance(lib, config, s, call), call, filter)
  {
    hide Received, Searching, QueueShows, EndsWith, Advance, OnTheWay, StopsSearch;
    SearchRunsOut(lib, config, st, now, filter, |st.pending|);
    AdvanceRunsOut(lib, config, s, call);
  }

  lemma AdvanceRunsOut(lib: Library, config: TransportConfig, s: State, call: nat)
    requires call in s.calls && s.calls[call].LookInPending? && s.pending == []
    ensures var next := Advance(lib, config, s, call);
            next.pending == [] && next.mismatches == s.mismatches && call in next.calls
            && next.calls[call].Done? && EndsWith(lib, next.calls[call], Err(NotFound))
  {
    hide Readable, Matches, LeaseFromSample;
  }

  /** The region that takes a sample at which the search stops. */
  lemma AdvanceStops(lib: Library, config: TransportConfig, s: State, call: nat, filter: Filter)
    requires call in s.calls && s.calls[call] == LookInPending(filter)
    requires s.pending != [] && StopsSearch(lib, filter, s.pending[0].sample)
    ensures var next := Advance(lib, config, s, call);
            && next.pending == s.pending[1..] && next.mismatches == s.mismatches && call in next.calls
            && next.calls[call].Done? && EndsWith(lib, next.calls[call], LeaseFromSample(lib, s.pending[0].sample))
  {
    hide FrameMatches;
    LeaseErrorIs(lib, s.pending[0].sample);
    hide LeaseFromSample;
  }

  lemma LeaseErrorIs(lib: Library, sample: seq<byte>)
    ensures LeaseFromSample(lib, sample).Err? ==> LeaseFromSample(lib, sample) == Err(InvalidArgument)
  {
    hide LeaseFromSample;
  }

  /** The region that puts a mismatch aside. */
  lemma AdvanceKeeps(lib: Library, config: TransportConfig, s: State, call: nat)
    requires call in s.calls && s.calls[call].KeepMismatch?
    ensures var next := Advance(lib, config, s, call);
            var (pushed, refused) := PushMismatch(config.pullMismatchQueueCapacity, config.pullMismatchQueueFullPolicy,
                                                  s.mismatches, s.calls[call].held);
            && next.pending == s.pending && next.mismatches == pushed && call in next.calls
            && next.calls[call] == if refused.Err? then Done(Err(refused.code)) else LookInPending(s.calls[call].filter)
  {
    hide PushMismatch;
  }

  lemma Stops(lib: Library, config: TransportConfig, st: PullState, s: State, call: nat, filter: Filter, now: PullState)
    requires call in s.calls && s.calls[call] == LookInPending(filter) && st.Bounded(config)
    requires ShowsSearch(lib, config, st, s.pending, s.mismatches, filter, now)
    requires s.pending != [] && StopsSearch(lib, filter, s.pending[0].sample)
    ensures Follows(lib, config, st, Advance(lib, config, s, call), call, filter)
  {
    hide LeaseFromSample, StopsSearch, Received, Searching, Samples, QueueShows, Advance, EndsWith, OnTheWay;
    FrontShows(s.pending, now.pending);
    SearchStops(lib, config, st, now, filter, |st.pending| - |s.pending|);
    AdvanceStops(lib, config, s, call, filter);
  }

  lemma TakesInHand(lib: Library, config: TransportConfig, st: PullState, s: State, call: nat, filter: Filter, now: PullState)
    requires call in s.calls && s.calls[call] == LookInPending(filter) && st.Bounded(config)
    requires ShowsSearch(lib, config, st, s.pending, s.mismatches, filter, now)
    requires s.pending != [] && !StopsSearch(lib, filter, s.pending[0].sample)
    ensures Follows(lib, config, st, Advance(lib, config, s, call), call, filter)
  {
    assert [s.pending[0]] + s.pending[1..] == s.pending;
    hide LeaseFromSample, FrameMatches, Received, ShowsSearch, OnTheWay;
    ShownIsOnTheWay(lib, config, st, s.pending, s.mismatches, filter, now);
  }

  lemma KeepGoesOn(lib: Library, config: TransportConfig, st: PullState, s: State, call: nat, filter: Filter)
    requires call in s.calls && s.calls[call].KeepMismatch? && st.Bounded(config)
    requires Midway(lib, config, st, s, s.calls[call], filter)
    ensures Follows(lib, config, st, Advance(lib, config, s, call), call, filter)
  {
    hide ShowsSearch, Advance, Follows;
    var now :| ShowsSearch(lib, config, st, [s.calls[call].held] + s.pending, s.mismatches, filter, now);
    PutsAside(lib, config, st, s, call, filter, now);
  }

  /** The mismatch in hand, against the sequential search that still has it pending. */
  lemma HeldGoesOn(lib: Library, config: TransportConfig, st: PullState, s: State, call: nat, filter: Filter, now: PullState)
    requires call in s.calls && s.calls[call].KeepMismatch? && st.Bounded(config)
    requires ShowsSearch(lib, config, st, [s.calls[call].held] + s.pending, s.mismatches, filter, now)
    requires !StopsSearch(lib, filter, s.calls[call].held.sample)
    ensures var next := Advance(lib, config, s, call);
            var (after, result) := Received(lib, config, st, filter);
            && call in next.calls && next.pending == s.pending
            && (next.calls[call].Done? ==> result.Err? && next.calls[call] == Done(Err(result.code)) && Shows(lib, next, after))
            && (!next.calls[call].Done? ==>
                  next.calls[call] == LookInPending(s.calls[call].filter) && OnTheWay(lib, config, st, next.pending, next.mismatches, filter))
  {
    hide LeaseFromSample, StopsSearch, Received, Searching, Samples, PushMismatch, Advance, OnTheWay;
    var item := s.calls[call].held;
    FrontShows([item] + s.pending, now.pending);
    assert ([item] + s.pending)[1..] == s.pending && ([item] + s.pending)[0] == item;
    PullReceive.SearchGoesOn(lib, config, st, now, filter, |st.pending| - |s.pending| - 1);
    var frame := FrameOf(lib, item, filter);
    PushShows(lib, config, s.mismatches, now.mismatches, item, frame);
    AdvanceKeeps(lib, config, s, call);
    hide QueueShows;
    var (pushed, refused) := PushMismatch(config.pullMismatchQueueCapacity, config.pullMismatchQueueFullPolicy, now.mismatches, frame);
    if refused.Ok? {
      ShownIsOnTheWay(lib, config, st, s.pending, Advance(lib, config, s, call).mismatches, filter, PullState(now.pending[1..], pushed));
    }
  }

  lemma FrameOf(lib: Library, item: Item, filter: Filter) returns (frame: Lease)
    requires !StopsSearch(lib, filter, item.sample)
    ensures LeaseFromSample(lib, item.sample) == Ok(frame)
  {
    hide LeaseFromSample, FrameMatches;
    frame := LeaseFromSample(lib, item.sample).value;
  }

  lemma PutsAside(lib: Library, config: TransportConfig, st: PullState, s: State, call: nat, filter: Filter, now: PullState)
    requires call in s.calls && s.calls[call].KeepMismatch? && s.calls[call].filter == filter && st.Bounded(config)
    requires ShowsSearch(lib, config, st, [s.calls[call].held] + s.pending, s.mismatches, filter, now)
    requires !StopsSearch(lib, filter, s.calls[call].held.sample)
    ensures Follows(lib, config, st, Advance(lib, config, s, call), call, filter)
  {
    hide ShowsSearch, StopsSearch, Advance, Received, OnTheWay, LeaseFromSample;
    HeldGoesOn(lib, config, st, s, call, filter, now);
  }

  lemma ShownIsOnTheWay(lib: Library, config: TransportConfig, st: PullState, pending: seq<Item>, m: QueueState<Item>, filter: Filter,
                        now: PullState)
    requires ShowsSearch(lib, config, st, pending, m, filter, now)
    ensures OnTheWay(lib, config, st, pending, m, filter)
  {
    hide ShowsSearch;
  }

  lemma {:induction false} RestAlone(lib: Library, config: TransportConfig, st: PullState, s: State, call: nat, filter: Filter)
    requires call in s.calls && st.Bounded(config) && Midway(lib, config, st, s, s.calls[call], filter)
    ensures var (after, result) := Received(lib, config, st, filter);
            var last := RunAlone(lib, config, s, call).1;
            Shows(lib, last, after) && EndsWith(lib, last.calls[call], result)
    decreases |s.pending|, Phase(s.calls[call])
  {
    hide Midway, Shows, EndsWith, Received, Advance;
    assert !s.calls[call].Done? by { MidwayGoesOn(lib, config, st, s, call, filter); }
    RegionGoesOn(lib, config, st, s, call, filter);
    AdvanceMovesOnly(lib, config, s, call);
    var next := Advance(lib, config, s, call);
    if !next.calls[call].Done? {
      RestAlone(lib, config, st, next, call, filter);
    }
  }

  lemma MidwayGoesOn(lib: Library, config: TransportConfig, st: PullState, s: State, call: nat, filter: Filter)
    requires call in s.calls && Midway(lib, config, st, s, s.calls[call], filter)
    ensures !s.calls[call].Done?
  {
  }

  /** A receive that no other call interrupts does to the state and returns what `Received` says. */
  lemma ReceiveAlone(lib: Library, config: TransportConfig, s: State, call: nat, filter: Filter, st: PullState)
    requires call in s.calls && s.calls[call] == LookInQueue(filter)
    requires Shows(lib, s, st) && st.Bounded(config)
    ensures var (after, result) := Received(lib, config, st, filter);
            var last := RunAlone(lib, config, s, call).1;
            Shows(lib, last, after) && EndsWith(lib, last.calls[call], result)
  {
    RestAlone(lib, config, st, s, call, filter);
  }

  // ------------------------------------------------------ sends between the regions

  function SentIn(events: seq<Event>): seq<seq<byte>> {
    if events == [] then []
    else SentIn(events[..|events| - 1]) + if events[|events| - 1].Send? then [events[|events| - 1].sample] else []
  }

  predicate SendsAndOne(events: seq<Event>, call: nat) {
    forall k :: 0 <= k < |events| ==> events[k].Send? || events[k] == Continue(call)
  }

  function WithSent(st: PullState, sent: seq<seq<byte>>): PullState {
    st.(pending := st.pending + sent)
  }

  lemma SearchSeesSend(lib: Library, config: TransportConfig, st: PullState, now: PullState, filter: Filter, k: nat, sample: seq<byte>)
    requires Searching(lib, config, st, now, filter, k)
    ensures Searching(lib, config, WithSent(st, [sample]), WithSent(now, [sample]), filter, k)
  {
    hide LeaseFromSample, FrameMatches, PopMatch, PullQueue.Retained, AllReadable, Leases, FirstIndex, Rejects;
    assert (st.pending + [sample])[..k] == st.pending[..k];
    assert (st.pending + [sample])[k..] == st.pending[k..] + [sample];
    Sequences.FirstIndexConcat(st.pending, [sample], StopperOf(lib, filter));
  }

  lemma WaySeesSend(lib: Library, config: TransportConfig, st: PullState, pending: seq<Item>, m: QueueState<Item>, filter: Filter, item: Item)
    requires OnTheWay(lib, config, st, pending, m, filter)
    ensures OnTheWay(lib, config, WithSent(st, [item.sample]), pending + [item], m, filter)
  {
    hide Searching, QueueShows;
    var now :| ShowsSearch(lib, config, st, pending, m, filter, now);
    SearchSeesSend(lib, config, st, now, filter, |st.pending| - |pending|, item.sample);
    assert Samples(pending + [item]) == Samples(pending) + [item.sample];
    assert ShowsSearch(lib, config, WithSent(st, [item.sample]), pending + [item], m, filter, WithSent(now, [item.sample]));
  }

  /** A send behind the search does not change how far it has come. */
  lemma SendGoesOn(lib: Library, config: TransportConfig, st: PullState, s: State, pc: Pc, filter: Filter, sample: seq<byte>)
    requires Midway(lib, config, st, s, pc, filter)
    ensures Midway(lib, config, WithSent(st, [sample]), Step(lib, config, s, Send(sample)), pc, filter)
  {
    hide StopsSearch, QueueShows, OnTheWay;
    var item := Item(|s.log|, sample);
    match pc
    case LookInQueue(_) => assert Samples(s.pending + [item]) == Samples(s.pending) + [sample];
    case LookInPending(_) => WaySeesSend(lib, config, st, s.pending, s.mismatches, filter, item);
    case KeepMismatch(_, held) =>
      WaySeesSend(lib, config, st, [held] + s.pending, s.mismatches, filter, item);
      assert [held] + s.pending + [item] == [held] + (s.pending + [item]);
    case _ =>
  }

  /** How far a receive has come after some of its regions with sends in between. */
  lemma {:induction false} StillMidway(lib: Library, config: TransportConfig, before: seq<Event>, events: seq<Event>, call: nat, filter: Filter, st: PullState)
    requires PullConcurrency.After(lib, config, before + events).Some? && SendsAndOne(events, call) && st.Bounded(config)
    requires PullConcurrency.After(lib, config, before).Some?
    requires var s := PullConcurrency.After(lib, config, before).value;
             call in s.calls && s.calls[call] == LookInQueue(filter) && Shows(lib, s, st)
    ensures var s := PullConcurrency.After(lib, config, before + events).value;
            call in s.calls && (s.calls[call].Done? || Midway(lib, config, WithSent(st, SentIn(events)), s, s.calls[call], filter))
  {
    hide Midway, Advance, Shows;
    if events == [] {
      assert before + events == before && st.pending + [] == st.pending;
      var s := PullConcurrency.After(lib, config, before).value;
      assert Midway(lib, config, st, s, s.calls[call], filter) by { MidwayStarts(lib, config, st, s, filter); }
    } else {
      var n := |events| - 1;
      assert (before + events)[..|before| + n] == before + events[..n];
      StillMidway(lib, config, before, events[..n], call, filter, st);
      var s, st' := PullConcurrency.After(lib, config, before + events[..n]).value, WithSent(st, SentIn(events[..n]));
      if s.calls[call].Done? {
      } else if events[n].Send? {
        SendGoesOn(lib, config, st', s, s.calls[call], filter, events[n].sample);
        assert st.pending + SentIn(events[..n]) + [events[n].sample] == st.pending + SentIn(events);
      } else {
        RegionGoesOn(lib, config, st', s, call, filter);
        AdvanceMovesOnly(lib, config, s, call);
        assert SentIn(events[..n]) + [] == SentIn(events[..n]);
      }
    }
  }

  lemma MidwayStarts(lib: Library, config: TransportConfig, st: PullState, s: State, filter: Filter)
    requires Shows(lib, s, st)
    ensures Midway(lib, config, st, s, LookInQueue(filter), filter)
  {
  }

  /** A receive with any number of sends between its regions does the same as all these sends and
      then the receive in one piece: same state, same result. */
  lemma ReceiveWithSends(lib: Library, config: TransportConfig, before: seq<Event>, events: seq<Event>, call: nat, filter: Filter, st: PullState)
    requires PullConcurrency.After(lib, config, before + events + [Continue(call)]).Some?
    requires PullConcurrency.After(lib, config, before).Some? && SendsAndOne(events, call) && st.Bounded(config)
    requires var s := PullConcurrency.After(lib, config, before).value;
             call in s.calls && s.calls[call] == LookInQueue(filter) && Shows(lib, s, st)
    ensures var last := PullConcurrency.After(lib, config, before + events + [Continue(call)]).value;
            var (after, result) := Received(lib, config, WithSent(st, SentIn(events)), filter);
            call in last.calls && (last.calls[call].Done? ==> Shows(lib, last, after) && EndsWith(lib, last.calls[call], result))
  {
    hide Midway, Advance, Shows, EndsWith, Received;
    assert (before + events + [Continue(call)])[..|before + events|] == before + events;
    StillMidway(lib, config, before, events, call, filter, st);
    var s := PullConcurrency.After(lib, config, before + events).value;
    RegionGoesOn(lib, config, WithSent(st, SentIn(events)), s, call, filter);
    AdvanceMovesOnly(lib, config, s, call);
  }

  /** A poll that no other call interrupts takes the oldest pending sample. */
  lemma PollAlone(lib: Library, config: TransportConfig, s: State, call: nat, st: PullState)
    requires call in s.calls && s.calls[call] == PollPending
    requires Shows(lib, s, st) && st.Bounded(config)
    ensures Shows(lib, RunAlone(lib, config, s, call).1, PullTheorems.Step(lib, config, st, PullTheorems.Poll))
  {
    hide LeaseFromSample;
    if s.pending != [] {
      assert Samples(s.pending[1..]) == Samples(s.pending)[1..];
      var next := Advance(lib, config, s, call);
      assert RunAlone(lib, config, next, call).1 == Advance(lib, config, next, call);
    }
  }

  // --------------------------------------------------------------------- whole runs

  /** The step machine with calls that run one after the other; call numbers are positions. */
  function InTurn(lib: Library, config: TransportConfig, ops: seq<PullTheorems.Op>): (s: State)
    ensures forall c :: c in s.calls ==> c < |ops|
  {
    if ops == [] then FRESH
    else
      var call := |ops| - 1;
      var s := InTurn(lib, config, ops[..call]);
      match ops[call]
      case Send(sample) => Step(lib, config, s, Send(sample))
      case Receive(filter) => RunAlone(lib, config, s.(calls := s.calls[call := LookInQueue(filter)]), call).1
      case Poll => RunAlone(lib, config, s.(calls := s.calls[call := PollPending]), call).1
  }

  function Repeated(n: nat, e: Event): (events: seq<Event>)
    ensures |events| == n
  {
    seq(n, _ => e)
  }

  /** The events of such a run. */
  function Schedule(lib: Library, config: TransportConfig, ops: seq<PullTheorems.Op>): seq<Event> {
    if ops == [] then []
    else
      var call := |ops| - 1;
      var s := InTurn(lib, config, ops[..call]);
      Schedule(lib, config, ops[..call])
      + match ops[call]
        case Send(sample) => [Send(sample)]
        case Receive(filter) =>
          [StartReceive(call, filter)]
          + Repeated(RunAlone(lib, config, s.(calls := s.calls[call := LookInQueue(filter)]), call).0, Continue(call))
        case Poll =>
          [StartPoll(call)]
          + Repeated(RunAlone(lib, config, s.(calls := s.calls[call := PollPending]), call).0, Continue(call))
  }

  lemma {:induction false} AloneIsReached(lib: Library, config: TransportConfig, before: seq<Event>, s: State, call: nat)
    requires PullConcurrency.After(lib, config, before) == Some(s) && call in s.calls
    ensures var (n, last) := RunAlone(lib, config, s, call);
            PullConcurrency.After(lib, config, before + Repeated(n, Continue(call))) == Some(last)
    decreases |s.pending|, Phase(s.calls[call])
  {
    hide Advance, PullConcurrency.After;
    var (n, last) := RunAlone(lib, config, s, call);
    if s.calls[call].Done? {
      assert before + Repeated(0, Continue(call)) == before;
    } else {
      var next := Advance(lib, config, s, call);
      AdvanceMovesOnly(lib, config, s, call);
      Next(lib, config, before, Continue(call), s, next);
      AloneIsReached(lib, config, before + [Continue(call)], next, call);
      assert before + [Continue(call)] + Repeated(n - 1, Continue(call)) == before + Repeated(n, Continue(call));
    }
  }

  /** Runs without overlap are runs of the step machine. */
  lemma {:induction false} InTurnIsReached(lib: Library, config: TransportConfig, ops: seq<PullTheorems.Op>)
    ensures PullConcurrency.After(lib, config, Schedule(lib, config, ops)) == Some(InTurn(lib, config, ops))
  {
    hide Advance, PullConcurrency.After, RunAlone;
    if ops == [] {
      AfterNothing(lib, config);
    } else {
      var call := |ops| - 1;
      InTurnIsReached(lib, config, ops[..call]);
      var before, s := Schedule(lib, config, ops[..call]), InTurn(lib, config, ops[..call]);
      match ops[call]
      case Send(sample) => Next(lib, config, before, Send(sample), s, Step(lib, config, s, Send(sample)));
      case Receive(filter) =>
        var started := s.(calls := s.calls[call := LookInQueue(filter)]);
        StartedRuns(lib, config, before, StartReceive(call, filter), s, started, call);
      case Poll =>
        var started := s.(calls := s.calls[call := PollPending]);
        StartedRuns(lib, config, before, StartPoll(call), s, started, call);
    }
  }

  lemma StartedRuns(lib: Library, config: TransportConfig, before: seq<Event>, start: Event, s: State, started: State, call: nat)
    requires PullConcurrency.After(lib, config, before) == Some(s) && Enabled(s, start)
    requires Step(lib, config, s, start) == started && call in started.calls
    ensures var (n, last) := RunAlone(lib, config, started, call);
            PullConcurrency.After(lib, config, before + ([start] + Repeated(n, Continue(call)))) == Some(last)
  {
    hide PullConcurrency.After, RunAlone, Step;
    Next(lib, config, before, start, s, started);
    AloneIsReached(lib, config, before + [start], started, call);
    var n := RunAlone(lib, config, started, call).0;
    assert before + [start] + Repeated(n, Continue(call)) == before + ([start] + Repeated(n, Continue(call)));
  }

  /** A run of calls that do not overlap shows, after every call, the state of the sequential
      transport after the same calls. */
  lemma {:induction false} SerialRunShows(lib: Library, config: TransportConfig, ops: seq<PullTheorems.Op>)
    ensures Shows(lib, InTurn(lib, config, ops), PullTheorems.After(lib, config, ops))
  {
    hide RunAlone, LeaseFromSample;
    if ops != [] {
      var call := |ops| - 1;
      SerialRunShows(lib, config, ops[..call]);
      var s, st := InTurn(lib, config, ops[..call]), PullTheorems.After(lib, config, ops[..call]);
      match ops[call]
      case Send(sample) => assert Samples(s.pending + [Item(|s.log|, sample)]) == Samples(s.pending) + [sample];
      case Receive(filter) =>
        ReceiveAlone(lib, config, s.(calls := s.calls[call := LookInQueue(filter)]), call, filter, st);
      case Poll => PollAlone(lib, config, s.(calls := s.calls[call := PollPending]), call, st);
    }
  }

  /** And each receive of such a run ends as the sequential transport says. */
  lemma {:induction false} SerialResults(lib: Library, config: TransportConfig, ops: seq<PullTheorems.Op>, i: nat)
    requires i < |ops| && ops[i].Receive?
    ensures var s := InTurn(lib, config, ops);
            && i in s.calls
            && EndsWith(lib, s.calls[i], Received(lib, config, PullTheorems.After(lib, config, ops[..i]), ops[i].filter).1)
  {
    hide RunAlone, LeaseFromSample, EndsWith, Received, PullTheorems.After;
    var call := |ops| - 1;
    if i < call {
      assert ops[..call][..i] == ops[..i];
      SerialResults(lib, config, ops[..call], i);
    } else {
      SerialRunShows(lib, config, ops[..call]);
      var s, st := InTurn(lib, config, ops[..call]), PullTheorems.After(lib, config, ops[..call]);
      ReceiveAlone(lib, config, s.(calls := s.calls[call := LookInQueue(ops[i].filter)]), call, ops[i].filter, st);
    }
  }

  // ------------------------------------------------- serial runs keep the order, too

  lemma {:induction false} RepeatedIsApart(lib: Library, config: TransportConfig, before: seq<Event>, n: nat, call: nat)
    requires PullOrder.ReceivesApart(lib, config, before)
    ensures PullOrder.ReceivesApart(lib, config, before + Repeated(n, Continue(call)))
  {
    hide PullConcurrency.After;
    var events := before + Repeated(n, Continue(call));
    if n == 0 {
      assert events == before;
    } else {
      RepeatedIsApart(lib, config, before, n - 1, call);
      assert events[..|events| - 1] == before + Repeated(n - 1, Continue(call));
    }
  }

  lemma {:induction false} InTurnRests(lib: Library, config: TransportConfig, ops: seq<PullTheorems.Op>)
    ensures PullOrder.NoneReceiving(InTurn(lib, config, ops))
  {
    hide RunAlone;
    if ops != [] {
      InTurnRests(lib, config, ops[..|ops| - 1]);
    }
  }

  /** Runs of calls one after the other meet the condition of the order theorem, so their receives
      return each filter's samples in the order they were sent. */
  lemma {:induction false} SerialRunsAreApart(lib: Library, config: TransportConfig, ops: seq<PullTheorems.Op>, f: Filter)
    ensures PullOrder.ReceivesApart(lib, config, Schedule(lib, config, ops))
    ensures PullOrder.Ascending(PullOrder.ReturnedTags(lib, config, Schedule(lib, config, ops), f))
  {
    hide RunAlone, Advance, PullConcurrency.After, PullOrder.NoneReceiving;
    if ops != [] {
      var call := |ops| - 1;
      SerialRunsAreApart(lib, config, ops[..call], f);
      InTurnRests(lib, config, ops[..call]);
      InTurnIsReached(lib, config, ops[..call]);
      var before, s := Schedule(lib, config, ops[..call]), InTurn(lib, config, ops[..call]);
      match ops[call]
      case Send(sample) => assert (before + [Send(sample)])[..|before|] == before;
      case Receive(filter) =>
        var n := RunAlone(lib, config, s.(calls := s.calls[call := LookInQueue(filter)]), call).0;
        StartIsApart(lib, config, before, StartReceive(call, filter), n, call);
      case Poll =>
        var n := RunAlone(lib, config, s.(calls := s.calls[call := PollPending]), call).0;
        StartIsApart(lib, config, before, StartPoll(call), n, call);
    }
    InTurnIsReached(lib, config, ops);
    PullOrder.FifoPerFilter(lib, config, Schedule(lib, config, ops), f);
  }

  lemma StartIsApart(lib: Library, config: TransportConfig, before: seq<Event>, start: Event, n: nat, call: nat)
    requires PullOrder.ReceivesApart(lib, config, before)
    requires var s := PullConcurrency.After(lib, config, before);
             s.Some? ==> PullOrder.NoneReceiving(s.value)
    ensures PullOrder.ReceivesApart(lib, config, before + ([start] + Repeated(n, Continue(call))))
  {
    hide PullConcurrency.After, PullOrder.NoneReceiving;
    assert (before + [start])[..|before|] == before;
    RepeatedIsApart(lib, config, before + [start], n, call);
    assert before + [start] + Repeated(n, Continue(call)) == before + ([start] + Repeated(n, Continue(call)));
  }
}
