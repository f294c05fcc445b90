/** What one filtered receive promises its caller: the mismatch queue is invisible as long as it does
    not overflow, no frames are reordered, and retrying makes progress. */
module PullTheorems {
  import opened Base
  import opened Config
  import opened Metadata
  import opened FrameLayout
  import opened PullQueue
  import opened PullReceive
  import opened Sequences

  // --------------------------------------------- the queue and the FIFO as one list

  /** What pending samples read as: a frame, or the status a receive reports for them. */
  function Readings(lib: Library, samples: seq<seq<byte>>): (readings: seq<Result<Lease>>)
    ensures |readings| == |samples|
    ensures forall k :: 0 <= k < |samples| ==> readings[k] == LeaseFromSample(lib, samples[k])
  {
    seq(|samples|, k requires 0 <= k < |samples| => LeaseFromSample(lib, samples[k]))
  }

  function Frames(leases: seq<Lease>): (readings: seq<Result<Lease>>)
    ensures |readings| == |leases|
    ensures forall k :: 0 <= k < |leases| ==> readings[k] == Ok(leases[k])
  {
    seq(|leases|, k requires 0 <= k < |leases| => Ok(leases[k]))
  }

  /** Everything that can still be received, oldest first, unreadable samples included. */
  function OneList(lib: Library, st: PullState): seq<Result<Lease>> {
    Frames(st.mismatches.queue) + Readings(lib, st.pending)
  }

  /** An entry a receive ends at: a match, or a sample that cannot be read. */
  function EnderOf(lib: Library, filter: Filter): Result<Lease> -> bool {
    (r: Result<Lease>) => r.Ok? ==> FrameMatches(lib, r.value, filter)
  }

  /** How many frames one receive has to retain beyond the capacity. */
  function Overflow(lib: Library, config: TransportConfig, st: PullState, filter: Filter): nat {
    var retained := |st.mismatches.queue|;
    if FirstIndex(st.mismatches.queue, MatcherOf(lib, filter)) < retained then 0
    else Excess(retained + FirstIndex(st.pending, StopperOf(lib, filter)), config.pullMismatchQueueCapacity)
  }

  lemma EnderFindsMatch(lib: Library, leases: seq<Lease>, filter: Filter)
    ensures FirstIndex(Frames(leases), EnderOf(lib, filter)) == FirstIndex(leases, MatcherOf(lib, filter))
  {
    hide FrameMatches;
    var p, n := MatcherOf(lib, filter), FirstIndex(leases, MatcherOf(lib, filter));
    assert forall k :: 0 <= k < n ==> !p(leases[k]);
    assert n < |leases| ==> p(leases[n]);
    FirstIndexIs(Frames(leases), n, EnderOf(lib, filter));
  }

  lemma EnderFindsStop(lib: Library, samples: seq<seq<byte>>, filter: Filter)
    ensures FirstIndex(Readings(lib, samples), EnderOf(lib, filter)) == FirstIndex(samples, StopperOf(lib, filter))
    ensures AllReadable(lib, samples[..FirstIndex(samples, StopperOf(lib, filter))])
  {
    hide LeaseFromSample, FrameMatches;
    var stops, n := StopperOf(lib, filter), FirstIndex(samples, StopperOf(lib, filter));
    assert forall k :: 0 <= k < n ==> !stops(samples[k]);
    assert n < |samples| ==> stops(samples[n]);
    FirstIndexIs(Readings(lib, samples), n, EnderOf(lib, filter));
  }

  /** How one receive acts on the list, `i` being the first entry it can end at and `over` the number
      of frames it has to retain beyond the capacity. Unless the rejecting policy meets a full queue,
      it takes out and returns entry `i`: the oldest match, or an older unreadable sample with its
      status; or it reports that there is none. In addition the `over` oldest entries are lost and
      counted. If the rejecting policy meets a full queue, the entry just behind the capacity is lost
      and counted, and nothing else. */
  predicate ActsOnList(list: seq<Result<Lease>>, listAfter: seq<Result<Lease>>, i: nat, over: nat, rejects: bool, capacity: nat,
                       before: QueueState<Lease>, after: QueueState<Lease>, result: Result<Lease>)
  {
    if rejects && over > 0 then
      && result == Err(ResourceExhausted)
      && capacity < |list| && listAfter == RemoveAt(list, capacity)
      && after.dropped == before.dropped && after.rejected == SaturatingAdd(before.rejected, 1)
    else
      && result == (if i < |list| then list[i] else Err(NotFound))
      && over <= i <= |list|
      && listAfter == (if i < |list| then RemoveAt(list, i) else list)[over..]
      && after.dropped == SaturatingAdd(before.dropped, over) && after.rejected == before.rejected
  }

  /** A receive does that to the list of everything sent and neither returned nor lost. */
  predicate ReceiveActs(lib: Library, config: TransportConfig, st: PullState, filter: Filter)
    requires st.Bounded(config)
  {
    var capacity := config.pullMismatchQueueCapacity;
    var (after, result) := Received(lib, config, st, filter);
    && after.Bounded(config)
    && ActsOnList(OneList(lib, st), OneList(lib, after), FirstIndex(OneList(lib, st), EnderOf(lib, filter)),
                  Overflow(lib, config, st, filter), Rejects(capacity, config.pullMismatchQueueFullPolicy), capacity,
                  st.mismatches, after.mismatches, result)
  }

  lemma ReceiveOnOneList(lib: Library, config: TransportConfig, st: PullState, filter: Filter)
    requires st.Bounded(config)
    ensures ReceiveActs(lib, config, st, filter)
  {
    hide ReceiveActs, LeaseFromSample, FirstIndex, MatcherOf, StopperOf;
    var q, n := st.mismatches.queue, FirstIndex(st.pending, StopperOf(lib, filter));
    if FirstIndex(q, MatcherOf(lib, filter)) < |q| {
      FoundCase(lib, config, st, filter);
    } else if Rejects(config.pullMismatchQueueCapacity, config.pullMismatchQueueFullPolicy)
              && config.pullMismatchQueueCapacity - |q| < n {
      RefusedCase(lib, config, st, filter);
    } else {
      SearchedCase(lib, config, st, filter);
    }
  }

  lemma FoundCase(lib: Library, config: TransportConfig, st: PullState, filter: Filter)
    requires st.Bounded(config) && FirstIndex(st.mismatches.queue, MatcherOf(lib, filter)) < |st.mismatches.queue|
    ensures ReceiveActs(lib, config, st, filter)
  {
    FirstEnd(lib, st, filter);
    PopMatchCases(st.mismatches, MatcherOf(lib, filter));
    ReceivedFound(lib, config, st, filter);
    hide LeaseFromSample, FirstIndex, RemoveAt, Received, OneList, MatcherOf, StopperOf, EnderOf, ActsOnList, Rejects, PopMatch;
    FoundList(lib, st, FirstIndex(st.mismatches.queue, MatcherOf(lib, filter)),
              Rejects(config.pullMismatchQueueCapacity, config.pullMismatchQueueFullPolicy), config.pullMismatchQueueCapacity,
              Received(lib, config, st, filter).1);
  }

  lemma RefusedCase(lib: Library, config: TransportConfig, st: PullState, filter: Filter)
    requires st.Bounded(config) && FirstIndex(st.mismatches.queue, MatcherOf(lib, filter)) == |st.mismatches.queue|
    requires Rejects(config.pullMismatchQueueCapacity, config.pullMismatchQueueFullPolicy)
    requires config.pullMismatchQueueCapacity - |st.mismatches.queue| < FirstIndex(st.pending, StopperOf(lib, filter))
    ensures ReceiveActs(lib, config, st, filter)
  {
    FirstEnd(lib, st, filter);
    PopMatchCases(st.mismatches, MatcherOf(lib, filter));
    EnderFindsStop(lib, st.pending, filter);
    hide LeaseFromSample, FirstIndex, Retained, Received, AllReadable, OneList, MatcherOf, StopperOf, EnderOf, ActsOnList, Rejects, PopMatch,
      Leases, Readings;
    var n, capacity := FirstIndex(st.pending, StopperOf(lib, filter)), config.pullMismatchQueueCapacity;
    var room := capacity - |st.mismatches.queue|;
    ReadablePrefix(lib, st.pending, n, room);
    ReceivedRefused(lib, config, st, filter, room);
    RefusedList(lib, st, capacity, room, n, Received(lib, config, st, filter).0);
  }

  lemma SearchedCase(lib: Library, config: TransportConfig, st: PullState, filter: Filter)
    requires st.Bounded(config) && FirstIndex(st.mismatches.queue, MatcherOf(lib, filter)) == |st.mismatches.queue|
    requires Rejects(config.pullMismatchQueueCapacity, config.pullMismatchQueueFullPolicy) ==>
               FirstIndex(st.pending, StopperOf(lib, filter)) <= config.pullMismatchQueueCapacity - |st.mismatches.queue|
    ensures ReceiveActs(lib, config, st, filter)
  {
    FirstEnd(lib, st, filter);
    PopMatchCases(st.mismatches, MatcherOf(lib, filter));
    EnderFindsStop(lib, st.pending, filter);
    hide LeaseFromSample, FirstIndex, Retained, Received, AllReadable, OneList, MatcherOf, StopperOf, EnderOf, ActsOnList, Rejects, PopMatch,
      Leases, Readings;
    var n := FirstIndex(st.pending, StopperOf(lib, filter));
    ReceivedSearched(lib, config, st, filter, n);
    SearchedList(lib, st, config.pullMismatchQueueCapacity, n,
                 Rejects(config.pullMismatchQueueCapacity, config.pullMismatchQueueFullPolicy),
                 Received(lib, config, st, filter).0, Received(lib, config, st, filter).1);
  }

  /** Where the list first has an entry that ends a receive. */
  lemma FirstEnd(lib: Library, st: PullState, filter: Filter)
    ensures var q := st.mismatches.queue;
            var i, n := FirstIndex(q, MatcherOf(lib, filter)), FirstIndex(st.pending, StopperOf(lib, filter));
            FirstIndex(OneList(lib, st), EnderOf(lib, filter)) == if i < |q| then i else |q| + n
  {
    hide LeaseFromSample, FrameMatches, FirstIndex;
    FirstIndexConcat(Frames(st.mismatches.queue), Readings(lib, st.pending), EnderOf(lib, filter));
    EnderFindsMatch(lib, st.mismatches.queue, filter);
    EnderFindsStop(lib, st.pending, filter);
  }

  lemma ReadablePrefix(lib: Library, samples: seq<seq<byte>>, n: nat, m: nat)
    requires m <= n <= |samples| && AllReadable(lib, samples[..n])
    ensures AllReadable(lib, samples[..m])
  {
    hide LeaseFromSample;
    assert forall k :: 0 <= k < m ==> samples[..m][k] == samples[..n][k];
  }

  lemma PopMatchCases(st: QueueState<Lease>, p: Lease -> bool)
    ensures var i := FirstIndex(st.queue, p);
            PopMatch(st, p) == if i < |st.queue| then (st.(queue := RemoveAt(st.queue, i)), Some(st.queue[i])) else (st, None)
  {
  }

  lemma FoundList(lib: Library, st: PullState, i: nat, rejects: bool, capacity: nat, result: Result<Lease>)
    requires i < |st.mismatches.queue| && result == Ok(st.mismatches.queue[i])
    ensures var after := st.(mismatches := st.mismatches.(queue := RemoveAt(st.mismatches.queue, i)));
            ActsOnList(OneList(lib, st), OneList(lib, after), i, 0, rejects, capacity, st.mismatches, after.mismatches, result)
  {
    hide LeaseFromSample;
    var q, r := st.mismatches.queue, RemoveAt(st.mismatches.queue, i);
    assert forall k :: 0 <= k < |r| ==> r[k] == q[if k < i then k else k + 1];
    assert Frames(r) == RemoveAt(Frames(q), i);
    assert Frames(r) + Readings(lib, st.pending) == RemoveAt(OneList(lib, st), i)[0..];
  }

  lemma RefusedList(lib: Library, st: PullState, capacity: usize, room: nat, n: nat, after: PullState)
    requires |st.mismatches.queue| + room == capacity && room < n <= |st.pending| && AllReadable(lib, st.pending[..room])
    requires after.pending == st.pending[room + 1..]
    requires var kept := Retained(capacity, st.mismatches, Leases(lib, st.pending[..room]));
             after.mismatches == kept.(rejected := SaturatingAdd(kept.rejected, 1))
    ensures |after.mismatches.queue| <= capacity
    ensures ActsOnList(OneList(lib, st), OneList(lib, after), |st.mismatches.queue| + n, Excess(|st.mismatches.queue| + n, capacity),
                       true, capacity, st.mismatches, after.mismatches, Err(ResourceExhausted))
  {
    hide LeaseFromSample;
    var list := OneList(lib, st);
    assert Frames(after.mismatches.queue) == list[..capacity];
    assert Readings(lib, after.pending) == list[capacity + 1..];
  }

  lemma SearchedList(lib: Library, st: PullState, capacity: usize, n: nat, rejects: bool, after: PullState, result: Result<Lease>)
    requires n <= |st.pending| && AllReadable(lib, st.pending[..n])
    requires rejects ==> |st.mismatches.queue| + n <= capacity
    requires after.mismatches == Retained(capacity, st.mismatches, Leases(lib, st.pending[..n]))
    requires after.pending == if n < |st.pending| then st.pending[n + 1..] else []
    requires result == if n < |st.pending| then LeaseFromSample(lib, st.pending[n]) else Err(NotFound)
    ensures |after.mismatches.queue| <= capacity
    ensures var i := |st.mismatches.queue| + n;
            ActsOnList(OneList(lib, st), OneList(lib, after), i, Excess(i, capacity), rejects, capacity,
                       st.mismatches, after.mismatches, result)
  {
    hide LeaseFromSample, RemoveAt, LastN;
    var q, all := st.mismatches.queue, Readings(lib, st.pending);
    var list, i := Frames(q) + all, |q| + n;
    var over := Excess(i, capacity);
    QueueKeeps(lib, st, n, capacity);
    assert Frames(after.mismatches.queue) == list[over..i];
    if n < |st.pending| {
      assert Readings(lib, after.pending) == list[i + 1..];
      DropFromRemoved(list, i, over);
    } else {
      assert Readings(lib, after.pending) == [];
      assert list[over..i] + [] == list[over..];
    }
  }

  lemma QueueKeeps(lib: Library, st: PullState, n: nat, capacity: nat)
    requires n <= |st.pending| && AllReadable(lib, st.pending[..n])
    ensures var q := st.mismatches.queue;
            Frames(LastN(q + Leases(lib, st.pending[..n]), capacity)) == OneList(lib, st)[Excess(|q| + n, capacity)..|q| + n]
  {
    hide LeaseFromSample;
  }

  lemma DropFromRemoved(list: seq<Result<Lease>>, i: nat, over: nat)
    requires over <= i < |list|
    ensures list[over..i] + list[i + 1..] == RemoveAt(list, i)[over..]
  {
  }

  // ---------------------------------------------------------------- sequential runs

  /** One call on the transport; calls of a run do not overlap. */
  datatype Op = Send(sample: seq<byte>) | Receive(filter: Filter) | Poll

  function Step(lib: Library, config: TransportConfig, st: PullState, op: Op): (after: PullState)
    requires st.Bounded(config)
    ensures after.Bounded(config)
  {
    match op
    case Send(sample) => st.(pending := st.pending + [sample])
    case Receive(filter) => Received(lib, config, st, filter).0
    case Poll => if st.pending == [] then st else st.(pending := st.pending[1..])
  }

  /** The state after a run from the fresh transport. */
  function After(lib: Library, config: TransportConfig, ops: seq<Op>): (st: PullState)
    ensures st.Bounded(config)
  {
    if ops == [] then PullState([], QueueState([], 0, 0))
    else Step(lib, config, After(lib, config, ops[..|ops| - 1]), ops[|ops| - 1])
  }

  // ---------------------------------------------------------- what one receive keeps

  /** The frame in a sample, if it is readable and matches the filter. */
  function MatchingFrame(lib: Library, sample: seq<byte>, filter: Filter): seq<Lease> {
    match LeaseFromSample(lib, sample)
    case Ok(lease) => if FrameMatches(lib, lease, filter) then [lease] else []
    case Err(_) => []
  }

  /** The readable frames among these samples that match the filter. */
  function MatchingFrames(lib: Library, samples: seq<seq<byte>>, filter: Filter): seq<Lease> {
    if samples == [] then [] else MatchingFrame(lib, samples[0], filter) + MatchingFrames(lib, samples[1..], filter)
  }

  /** The matching frames a receive could still return. */
  function StillThere(lib: Library, st: PullState, filter: Filter): seq<Lease> {
    Select(st.mismatches.queue, MatcherOf(lib, filter)) + MatchingFrames(lib, st.pending, filter)
  }

  lemma {:induction false} MatchingConcat(lib: Library, a: seq<seq<byte>>, b: seq<seq<byte>>, filter: Filter)
    ensures MatchingFrames(lib, a + b, filter) == MatchingFrames(lib, a, filter) + MatchingFrames(lib, b, filter)
  {
    hide MatchingFrame;
    if a == [] {
      assert a + b == b;
    } else {
      MatchingConcat(lib, a[1..], b, filter);
      assert (a + b)[1..] == a[1..] + b;
      var first := MatchingFrame(lib, a[0], filter);
      assert first + (MatchingFrames(lib, a[1..], filter) + MatchingFrames(lib, b, filter))
          == first + MatchingFrames(lib, a[1..], filter) + MatchingFrames(lib, b, filter);
    }
  }

  lemma {:induction false} MatchingOfReadable(lib: Library, samples: seq<seq<byte>>, filter: Filter)
    requires AllReadable(lib, samples)
    ensures MatchingFrames(lib, samples, filter) == Select(Leases(lib, samples), MatcherOf(lib, filter))
  {
    hide LeaseFromSample, FrameMatches;
    if samples != [] {
      MatchingOfReadable(lib, samples[1..], filter);
      assert Leases(lib, samples)[1..] == Leases(lib, samples[1..]);
    }
  }

  /** Dropping the front of the FIFO leaves a subsequence of the matching frames. */
  lemma MatchingTail(lib: Library, samples: seq<seq<byte>>, k: nat, filter: Filter)
    requires k <= |samples|
    ensures IsSubsequence(MatchingFrames(lib, samples[k..], filter), MatchingFrames(lib, samples, filter))
  {
    assert samples == samples[..k] + samples[k..];
    MatchingConcat(lib, samples[..k], samples[k..], filter);
    PrefixIsSubsequence(MatchingFrames(lib, samples[..k], filter), MatchingFrames(lib, samples[k..], filter));
  }

  /** Retaining the first `k` pending samples and going on behind sample `k` loses frames but
      never reorders them, for any filter. */
  lemma SearchKeepsOrder(lib: Library, capacity: usize, st: PullState, k: nat, behind: nat, filter: Filter)
    requires k <= behind <= |st.pending| && AllReadable(lib, st.pending[..k])
    ensures var kept := Retained(capacity, st.mismatches, Leases(lib, st.pending[..k]));
            IsSubsequence(StillThere(lib, PullState(st.pending[behind..], kept), filter), StillThere(lib, st, filter))
  {
    hide LeaseFromSample, FrameMatches, Leases, MatchingFrames, Select, IsSubsequence, LastN;
    var p, q, skipped := MatcherOf(lib, filter), st.mismatches.queue, Leases(lib, st.pending[..k]);
    assert st.pending == st.pending[..k] + st.pending[k..];
    MatchingConcat(lib, st.pending[..k], st.pending[k..], filter);
    MatchingOfReadable(lib, st.pending[..k], filter);
    SelectConcat(q, skipped, p);
    SelectLastN(q + skipped, capacity, p);
    assert st.pending[k..][behind - k..] == st.pending[behind..];
    MatchingTail(lib, st.pending[k..], behind - k, filter);
    SubsequenceConcat(Select(LastN(q + skipped, capacity), p), MatchingFrames(lib, st.pending[behind..], filter),
                      Select(q + skipped, p), MatchingFrames(lib, st.pending[k..], filter));
    assert Select(q, p) + (Select(skipped, p) + MatchingFrames(lib, st.pending[k..], filter))
        == Select(q, p) + Select(skipped, p) + MatchingFrames(lib, st.pending[k..], filter);
  }

  /** A receive removes frames of any filter without reordering the others. */
  lemma ReceiveKeepsOrder(lib: Library, config: TransportConfig, st: PullState, used: Filter, filter: Filter)
    requires st.Bounded(config)
    ensures IsSubsequence(StillThere(lib, Received(lib, config, st, used).0, filter), StillThere(lib, st, filter))
  {
    hide LeaseFromSample, FrameMatches, IsSubsequence, Select, MatchingFrames;
    var p, q := MatcherOf(lib, filter), st.mismatches.queue;
    var (after, result) := Received(lib, config, st, used);
    var i := FirstIndex(q, MatcherOf(lib, used));
    var stops := StopperOf(lib, used);
    var n := FirstIndex(st.pending, stops);
    assert forall k :: 0 <= k < n ==> !stops(st.pending[k]);
    var capacity := config.pullMismatchQueueCapacity;
    if i < |q| {
      SelectRemoved(q, i, p);
      SubsequenceReflexive(MatchingFrames(lib, st.pending, filter));
      SubsequenceConcat(Select(RemoveAt(q, i), p), MatchingFrames(lib, st.pending, filter),
                        Select(q, p), MatchingFrames(lib, st.pending, filter));
    } else if Rejects(capacity, config.pullMismatchQueueFullPolicy) && capacity - |q| < n {
      SearchKeepsOrder(lib, capacity, st, capacity - |q|, capacity - |q| + 1, filter);
    } else if n < |st.pending| {
      SearchKeepsOrder(lib, capacity, st, n, n + 1, filter);
    } else {
      SearchKeepsOrder(lib, capacity, st, n, n, filter);
      assert st.pending[n..] == [];
    }
  }

  lemma LastNNone(s: seq<Lease>, n: nat, p: Lease -> bool)
    requires forall k :: 0 <= k < |s| ==> !p(s[k])
    ensures Select(LastN(s, n), p) == []
  {
    SelectNone(LastN(s, n), p);
  }

  /** What the search skips does not match. */
  lemma SkippedDoNotMatch(lib: Library, samples: seq<seq<byte>>, filter: Filter)
    ensures var n := FirstIndex(samples, StopperOf(lib, filter));
            && AllReadable(lib, samples[..n])
            && (forall k :: 0 <= k < n ==> !MatcherOf(lib, filter)(Leases(lib, samples[..n])[k]))
            && MatchingFrames(lib, samples[..n], filter) == []
  {
    hide LeaseFromSample, FrameMatches, MatchingFrames, Select;
    var stops := StopperOf(lib, filter);
    var n := FirstIndex(samples, stops);
    assert forall k :: 0 <= k < n ==> !stops(samples[k]);
    MatchingOfReadable(lib, samples[..n], filter);
    SelectNone(Leases(lib, samples[..n]), MatcherOf(lib, filter));
  }

  /** The first matching frame of the FIFO, when the search gets to it. */
  lemma SearchTakesOldest(lib: Library, samples: seq<seq<byte>>, filter: Filter, found: Lease)
    requires var n := FirstIndex(samples, StopperOf(lib, filter));
             n < |samples| && LeaseFromSample(lib, samples[n]) == Ok(found)
    ensures var n := FirstIndex(samples, StopperOf(lib, filter));
            MatchingFrames(lib, samples, filter) == [found] + MatchingFrames(lib, samples[n + 1..], filter)
  {
    hide LeaseFromSample, FrameMatches, MatchingFrames, FirstIndex;
    var n := FirstIndex(samples, StopperOf(lib, filter));
    assert StopperOf(lib, filter)(samples[n]);
    SkippedDoNotMatch(lib, samples, filter);
    SplitAt(samples, n);
    MatchingConcat(lib, samples[..n], [samples[n]] + samples[n + 1..], filter);
    MatchingConcat(lib, [samples[n]], samples[n + 1..], filter);
    MatchingSingle(lib, samples[n], filter);
    var rest := MatchingFrames(lib, samples[n + 1..], filter);
    assert [] + ([found] + rest) == [found] + rest;
  }

  lemma SplitAt(samples: seq<seq<byte>>, n: nat)
    requires n < |samples|
    ensures samples == samples[..n] + ([samples[n]] + samples[n + 1..])
  {
  }

  lemma MatchingSingle(lib: Library, sample: seq<byte>, filter: Filter)
    ensures MatchingFrames(lib, [sample], filter) == MatchingFrame(lib, sample, filter)
  {
    hide MatchingFrame;
    assert MatchingFrames(lib, [sample][1..], filter) == [];
  }

  /** What a successful receive returns is the oldest of the matching frames. */
  lemma ReceiveTakesOldest(lib: Library, config: TransportConfig, st: PullState, filter: Filter)
    requires st.Bounded(config) && Received(lib, config, st, filter).1.Ok?
    ensures var (after, result) := Received(lib, config, st, filter);
            [result.value] + StillThere(lib, after, filter) == StillThere(lib, st, filter)
  {
    hide LeaseFromSample, FrameMatches, Select, RemoveAt, LastN, MatchingFrames, Leases, FirstIndex, PopMatch;
    var p, q := MatcherOf(lib, filter), st.mismatches.queue;
    PopMatchCases(st.mismatches, p);
    var (after, result) := Received(lib, config, st, filter);
    SelectFirst(q, p);
    if FirstIndex(q, p) == |q| {
      var n := FirstIndex(st.pending, StopperOf(lib, filter));
      SkippedDoNotMatch(lib, st.pending, filter);
      SearchTakesOldest(lib, st.pending, filter, result.value);
      LastNNone(q + Leases(lib, st.pending[..n]), config.pullMismatchQueueCapacity, p);
      assert [result.value] + ([] + MatchingFrames(lib, st.pending[n + 1..], filter))
          == [] + ([result.value] + MatchingFrames(lib, st.pending[n + 1..], filter));
    } else {
      assert [result.value] + (Select(after.mismatches.queue, p) + MatchingFrames(lib, st.pending, filter))
          == [result.value] + Select(after.mismatches.queue, p) + MatchingFrames(lib, st.pending, filter);
    }
  }

  // ------------------------------------------------------------------ retrying

  /** A receive that ends the search for good: a match, or nothing there. */
  predicate Settles(result: Result<Lease>) {
    result.Ok? || result.code == NotFound
  }

  /** A receive that fails otherwise has used up at least one pending sample; under the rejecting
      policy it keeps every retained frame, in order, in front of any it adds. */
  lemma FailureMakesProgress(lib: Library, config: TransportConfig, st: PullState, filter: Filter)
    requires st.Bounded(config) && !Settles(Received(lib, config, st, filter).1)
    ensures var (after, result) := Received(lib, config, st, filter);
            && after.Bounded(config)
            && |after.pending| < |st.pending|
            && (Rejects(config.pullMismatchQueueCapacity, config.pullMismatchQueueFullPolicy) ==>
                  st.mismatches.queue <= after.mismatches.queue)
  {
  }

  /** Calling again until the search settles: the number of calls and the last state and result. */
  function Retry(lib: Library, config: TransportConfig, st: PullState, filter: Filter): (r: (nat, PullState, Result<Lease>))
    requires st.Bounded(config)
    ensures 1 <= r.0 <= |st.pending| + 1
    ensures Settles(r.2)
    ensures Rejects(config.pullMismatchQueueCapacity, config.pullMismatchQueueFullPolicy) && r.2 == Err(NotFound) ==>
              st.mismatches.queue <= r.1.mismatches.queue
    decreases |st.pending|
  {
    var (after, result) := Received(lib, config, st, filter);
    if Settles(result) then
      (1, after, result)
    else
      FailureMakesProgress(lib, config, st, filter);
      var (calls, last, final) := Retry(lib, config, after, filter);
      (calls + 1, last, final)
  }

  // ------------------------------------------------------------------ listeners

  /** A frame is delivered to exactly the listeners with a matching registration. */
  lemma FanOutReachesMatching(lib: Library, listeners: seq<ListenerRegistration>, lease: Lease, listener: nat, frame: Lease)
    ensures (listener, frame) in FanOut(lib, listeners, lease) <==>
            frame == lease
            && exists i :: 0 <= i < |listeners| && listeners[i].listener == listener && FrameMatches(lib, lease, listeners[i].filter)
  {
    var at := FanOutPicks(lib, listeners, lease);
    hide FanOut, FrameMatches;
    var deliveries := FanOut(lib, listeners, lease);
    if (listener, frame) in deliveries {
      var k :| 0 <= k < |deliveries| && deliveries[k] == (listener, frame);
      assert at[k] in at;
    }
    if exists i :: 0 <= i < |listeners| && listeners[i].listener == listener && FrameMatches(lib, lease, listeners[i].filter) {
      var i: nat :| i < |listeners| && listeners[i].listener == listener && FrameMatches(lib, lease, listeners[i].filter);
      assert i in at;
      var k :| 0 <= k < |at| && at[k] == i;
      assert deliveries[k] == (listener, lease);
    }
  }
}
