/** Sending to and receiving from the in-process backend of the transport: a FIFO of raw samples
    and the bounded queue of mismatches that filtered receives fill and drain. */
module PullReceive {
  import opened Base
  import opened Config
  import opened Metadata
  import opened FrameLayout
  import opened PullQueue

  datatype Filter = Filter(source: UUri, sink: Option<UUri>)

  predicate FrameMatches(lib: Library, lease: Lease, filter: Filter) {
    && lib.uriMatches(filter.source, lease.metadata.attributes.source)
    && (filter.sink.Some? ==>
          && lease.metadata.attributes.sink.Some?
          && lib.uriMatches(filter.sink.value, lease.metadata.attributes.sink.value))
  }

  /** What a filter accepts, and what it does not: a frame fails on its source, or, if a sink is asked
      for, by having none or on its sink. */
  lemma FilterAccepts(lib: Library, lease: Lease, filter: Filter)
    ensures var a := lease.metadata.attributes;
            && (FrameMatches(lib, lease, filter) ==>
                  && lib.uriMatches(filter.source, a.source)
                  && (filter.sink.Some? ==> a.sink.Some? && lib.uriMatches(filter.sink.value, a.sink.value)))
            && (!FrameMatches(lib, lease, filter) ==>
                  || !lib.uriMatches(filter.source, a.source)
                  || (filter.sink.Some? && (a.sink.None? || !lib.uriMatches(filter.sink.value, a.sink.value))))
  {
  }

  function MatcherOf(lib: Library, filter: Filter): Lease -> bool {
    (lease: Lease) => FrameMatches(lib, lease, filter)
  }

  /** A pending sample at which the search stops: it cannot be read, or it matches. */
  predicate StopsSearch(lib: Library, filter: Filter, sample: seq<byte>) {
    match LeaseFromSample(lib, sample)
    case Ok(lease) => FrameMatches(lib, lease, filter)
    case Err(_) => true
  }

  function StopperOf(lib: Library, filter: Filter): seq<byte> -> bool {
    (sample: seq<byte>) => StopsSearch(lib, filter, sample)
  }

  predicate AllReadable(lib: Library, samples: seq<seq<byte>>) {
    forall k :: 0 <= k < |samples| ==> LeaseFromSample(lib, samples[k]).Ok?
  }

  function Leases(lib: Library, samples: seq<seq<byte>>): (leases: seq<Lease>)
    requires AllReadable(lib, samples)
    ensures |leases| == |samples|
    ensures forall k :: 0 <= k < |samples| ==> leases[k] == LeaseFromSample(lib, samples[k]).value
  {
    seq(|samples|, k requires 0 <= k < |samples| => LeaseFromSample(lib, samples[k]).value)
  }

  datatype PullState = PullState(pending: seq<seq<byte>>, mismatches: QueueState<Lease>) {
    predicate Bounded(config: TransportConfig) {
      |mismatches.queue| <= config.pullMismatchQueueCapacity
    }
  }

  /** What one receive does to the state and what it returns, in one piece: the oldest retained
      match if there is one; else the first pending sample that stops the search, with everything
      before it retained as far as the capacity goes; else nothing. Under the rejecting policy the
      first sample that meets a full queue is lost and ends the call. */
  function Received(lib: Library, config: TransportConfig, st: PullState, filter: Filter): (PullState, Result<Lease>)
    requires st.Bounded(config)
  {
    var (popped, found) := PopMatch(st.mismatches, MatcherOf(lib, filter));
    if found.Some? then (st.(mismatches := popped), Ok(found.value))
    else
      var n := FirstIndex(st.pending, StopperOf(lib, filter));
      var capacity := config.pullMismatchQueueCapacity;
      var room := capacity - |st.mismatches.queue|;
      if Rejects(capacity, config.pullMismatchQueueFullPolicy) && room < n then
        var kept := Retained(capacity, st.mismatches, Leases(lib, st.pending[..room]));
        (PullState(st.pending[room + 1..], kept.(rejected := SaturatingAdd(kept.rejected, 1))), Err(ResourceExhausted))
      else
        var kept := Retained(capacity, st.mismatches, Leases(lib, st.pending[..n]));
        if n == |st.pending| then (PullState([], kept), Err(NotFound))
        else (PullState(st.pending[n + 1..], kept), LeaseFromSample(lib, st.pending[n]))
  }

  lemma SkippedSoFar(lib: Library, config: TransportConfig, st: PullState, filter: Filter, k: nat)
    requires st.Bounded(config) && k <= FirstIndex(st.pending, StopperOf(lib, filter))
    ensures AllReadable(lib, st.pending[..k])
    ensures k == 0 ==> Retained(config.pullMismatchQueueCapacity, st.mismatches, Leases(lib, st.pending[..k])) == st.mismatches
    ensures var n := FirstIndex(st.pending, StopperOf(lib, filter));
            k < |st.pending| && StopsSearch(lib, filter, st.pending[k]) ==> k == n
  {
    hide LeaseFromSample, FrameMatches;
    var stops := StopperOf(lib, filter);
    assert forall i :: 0 <= i < FirstIndex(st.pending, stops) ==> !stops(st.pending[i]);
    assert st.mismatches.queue + [] == st.mismatches.queue;
    assert k == 0 ==> Leases(lib, st.pending[..k]) == [];
  }

  // ---- the three ways a receive goes

  lemma ReceivedFound(lib: Library, config: TransportConfig, st: PullState, filter: Filter)
    requires st.Bounded(config) && PopMatch(st.mismatches, MatcherOf(lib, filter)).1.Some?
    ensures var (popped, found) := PopMatch(st.mismatches, MatcherOf(lib, filter));
            Received(lib, config, st, filter) == (st.(mismatches := popped), Ok(found.value))
  {
    hide PopMatch, MatcherOf;
  }

  lemma ReceivedSearched(lib: Library, config: TransportConfig, st: PullState, filter: Filter, n: nat)
    requires st.Bounded(config) && PopMatch(st.mismatches, MatcherOf(lib, filter)).1.None?
    requires n == FirstIndex(st.pending, StopperOf(lib, filter)) && AllReadable(lib, st.pending[..n])
    requires Rejects(config.pullMismatchQueueCapacity, config.pullMismatchQueueFullPolicy) ==>
               |st.mismatches.queue| + n <= config.pullMismatchQueueCapacity
    ensures Received(lib, config, st, filter)
            == (PullState(if n == |st.pending| then [] else st.pending[n + 1..],
                          Retained(config.pullMismatchQueueCapacity, st.mismatches, Leases(lib, st.pending[..n]))),
                if n == |st.pending| then Err(NotFound) else LeaseFromSample(lib, st.pending[n]))
  {
    hide PopMatch, MatcherOf, StopperOf, FirstIndex, Retained, Leases, LeaseFromSample, AllReadable, Rejects;
  }

  lemma ReceivedRefused(lib: Library, config: TransportConfig, st: PullState, filter: Filter, room: nat)
    requires st.Bounded(config) && PopMatch(st.mismatches, MatcherOf(lib, filter)).1.None?
    requires Rejects(config.pullMismatchQueueCapacity, config.pullMismatchQueueFullPolicy)
    requires |st.mismatches.queue| + room == config.pullMismatchQueueCapacity
    requires room < FirstIndex(st.pending, StopperOf(lib, filter)) && AllReadable(lib, st.pending[..room])
    ensures var kept := Retained(config.pullMismatchQueueCapacity, st.mismatches, Leases(lib, st.pending[..room]));
            Received(lib, config, st, filter)
            == (PullState(st.pending[room + 1..], kept.(rejected := SaturatingAdd(kept.rejected, 1))), Err(ResourceExhausted))
  {
    hide PopMatch, MatcherOf, StopperOf, FirstIndex, Retained, Leases, LeaseFromSample, AllReadable, Rejects;
  }

  /** A skipped sample on its way to the queue. */
  lemma MismatchIsKept(lib: Library, config: TransportConfig, st: PullState, filter: Filter, k: nat)
    requires st.Bounded(config) && k <= FirstIndex(st.pending, StopperOf(lib, filter))
    requires Rejects(config.pullMismatchQueueCapacity, config.pullMismatchQueueFullPolicy) ==>
               |st.mismatches.queue| + k <= config.pullMismatchQueueCapacity
    requires k < |st.pending| && !StopsSearch(lib, filter, st.pending[k])
    ensures k + 1 <= FirstIndex(st.pending, StopperOf(lib, filter))
    ensures AllReadable(lib, st.pending[..k]) && AllReadable(lib, st.pending[..k + 1])
    ensures var capacity, policy := config.pullMismatchQueueCapacity, config.pullMismatchQueueFullPolicy;
            var kept := Retained(capacity, st.mismatches, Leases(lib, st.pending[..k]));
            var (pushed, refused) := PushMismatch(capacity, policy, kept, LeaseFromSample(lib, st.pending[k]).value);
            if Rejects(capacity, policy) && |st.mismatches.queue| + k == capacity then
              refused == Err(ResourceExhausted) && pushed == kept.(rejected := SaturatingAdd(kept.rejected, 1))
            else refused == Ok(()) && pushed == Retained(capacity, st.mismatches, Leases(lib, st.pending[..k + 1]))
  {
    hide LeaseFromSample, FrameMatches;
    var capacity, policy := config.pullMismatchQueueCapacity, config.pullMismatchQueueFullPolicy;
    var stops := StopperOf(lib, filter);
    var n := FirstIndex(st.pending, stops);
    assert forall i :: 0 <= i < n ==> !stops(st.pending[i]);
    assert n < |st.pending| ==> stops(st.pending[n]);
    hide FirstIndex;
    assert st.pending[..k + 1] == st.pending[..k] + [st.pending[k]];
    var skipped, frame := Leases(lib, st.pending[..k]), LeaseFromSample(lib, st.pending[k]).value;
    assert Leases(lib, st.pending[..k + 1]) == skipped + [frame];
    if !(Rejects(capacity, policy) && |st.mismatches.queue| + k == capacity) {
      hide PushMismatch, Retained;
      RetainOneMore(capacity, policy, st.mismatches, skipped, frame);
    }
  }

  /** A search has skipped `k` pending samples and retained them as far as the capacity goes. */
  ghost predicate Searching(lib: Library, config: TransportConfig, st: PullState, now: PullState, filter: Filter, k: nat) {
    var capacity := config.pullMismatchQueueCapacity;
    && st.Bounded(config) && PopMatch(st.mismatches, MatcherOf(lib, filter)).1.None?
    && k <= FirstIndex(st.pending, StopperOf(lib, filter)) && now.pending == st.pending[k..]
    && (Rejects(capacity, config.pullMismatchQueueFullPolicy) ==> |st.mismatches.queue| + k <= capacity)
    && AllReadable(lib, st.pending[..k])
    && now.mismatches == Retained(capacity, st.mismatches, Leases(lib, st.pending[..k]))
  }

  /** A receive that finds a retained match returns it; any other starts its search in the FIFO. */
  lemma SearchStarts(lib: Library, config: TransportConfig, st: PullState, filter: Filter)
    requires st.Bounded(config)
    ensures var (popped, found) := PopMatch(st.mismatches, MatcherOf(lib, filter));
            if found.Some? then Received(lib, config, st, filter) == (st.(mismatches := popped), Ok(found.value))
            else popped == st.mismatches && Searching(lib, config, st, st, filter, 0)
  {
    PoppedNone(st.mismatches, MatcherOf(lib, filter));
    hide FirstIndex, LeaseFromSample, FrameMatches, Retained, Received, Leases, PopMatch;
    if PopMatch(st.mismatches, MatcherOf(lib, filter)).1.None? {
      SkippedSoFar(lib, config, st, filter, 0);
      assert st.pending[0..] == st.pending;
    } else {
      ReceivedFound(lib, config, st, filter);
    }
  }

  lemma PoppedNone(m: QueueState<Lease>, p: Lease -> bool)
    ensures PopMatch(m, p).1.None? ==> PopMatch(m, p).0 == m
  {
  }

  /** Nothing is left to search. */
  lemma SearchRunsOut(lib: Library, config: TransportConfig, st: PullState, now: PullState, filter: Filter, k: nat)
    requires Searching(lib, config, st, now, filter, k) && now.pending == []
    ensures Received(lib, config, st, filter) == (now, Err(NotFound))
  {
    hide LeaseFromSample, FirstIndex, Retained, Leases, PopMatch, AllReadable, MatcherOf, StopperOf, Received, Rejects;
    assert k == |st.pending| == FirstIndex(st.pending, StopperOf(lib, filter));
    ReceivedSearched(lib, config, st, filter, k);
  }

  /** The next sample ends the search. */
  lemma SearchStops(lib: Library, config: TransportConfig, st: PullState, now: PullState, filter: Filter, k: nat)
    requires Searching(lib, config, st, now, filter, k) && now.pending != [] && StopsSearch(lib, filter, now.pending[0])
    ensures Received(lib, config, st, filter) == (PullState(now.pending[1..], now.mismatches), LeaseFromSample(lib, now.pending[0]))
  {
    hide LeaseFromSample, FirstIndex, Retained, Leases, PopMatch, AllReadable, MatcherOf, StopperOf, Received, Rejects, StopsSearch;
    assert now.pending[0] == st.pending[k] && now.pending[1..] == st.pending[k + 1..];
    SkippedSoFar(lib, config, st, filter, k);
    ReceivedSearched(lib, config, st, filter, k);
  }

  /** The next sample is a mismatch that the rejecting policy refuses. */
  lemma SearchIsRefused(lib: Library, config: TransportConfig, st: PullState, now: PullState, filter: Filter, k: nat)
    requires Searching(lib, config, st, now, filter, k) && now.pending != [] && !StopsSearch(lib, filter, now.pending[0])
    requires Rejects(config.pullMismatchQueueCapacity, config.pullMismatchQueueFullPolicy)
    requires |st.mismatches.queue| + k == config.pullMismatchQueueCapacity
    ensures var m := now.mismatches;
            Received(lib, config, st, filter)
            == (PullState(now.pending[1..], m.(rejected := SaturatingAdd(m.rejected, 1))), Err(ResourceExhausted))
  {
    hide LeaseFromSample, FirstIndex, Retained, Leases, PopMatch, AllReadable, MatcherOf, StopperOf, Received, Rejects, StopsSearch;
    assert now.pending[0] == st.pending[k] && now.pending[1..] == st.pending[k + 1..];
    NotYetStopped(lib, st, filter, k);
    ReceivedRefused(lib, config, st, filter, k);
  }

  lemma NotYetStopped(lib: Library, st: PullState, filter: Filter, k: nat)
    requires k <= FirstIndex(st.pending, StopperOf(lib, filter)) && k < |st.pending| && !StopsSearch(lib, filter, st.pending[k])
    ensures k < FirstIndex(st.pending, StopperOf(lib, filter))
  {
    hide StopsSearch;
    var stops := StopperOf(lib, filter);
    assert !stops(st.pending[k]);
  }

  /** How a search goes on, at every point: it is at the end; or the next sample ends it with what
      `Received` says; or that sample is a mismatch, and is refused or retained. */
  lemma SearchGoesOn(lib: Library, config: TransportConfig, st: PullState, now: PullState, filter: Filter, k: nat)
    requires Searching(lib, config, st, now, filter, k)
    ensures now.pending == [] ==> Received(lib, config, st, filter) == (now, Err(NotFound))
    ensures now.pending != [] ==>
              var sample, rest := now.pending[0], now.pending[1..];
              if StopsSearch(lib, filter, sample) then
                Received(lib, config, st, filter) == (PullState(rest, now.mismatches), LeaseFromSample(lib, sample))
              else
                var (pushed, refused) := PushMismatch(config.pullMismatchQueueCapacity, config.pullMismatchQueueFullPolicy,
                                                      now.mismatches, LeaseFromSample(lib, sample).value);
                if refused.Err? then Received(lib, config, st, filter) == (PullState(rest, pushed), Err(refused.code))
                else Searching(lib, config, st, PullState(rest, pushed), filter, k + 1)
  {
    if now.pending == [] {
      SearchRunsOut(lib, config, st, now, filter, k);
    } else if StopsSearch(lib, filter, now.pending[0]) {
      SearchStops(lib, config, st, now, filter, k);
    } else {
      assert now.pending[0] == st.pending[k] && now.pending[1..] == st.pending[k + 1..];
      MismatchIsKept(lib, config, st, filter, k);
      hide LeaseFromSample, StopsSearch, FirstIndex, PushMismatch, Received, Retained, Leases, AllReadable, PopMatch;
      if Rejects(config.pullMismatchQueueCapacity, config.pullMismatchQueueFullPolicy)
         && |st.mismatches.queue| + k == config.pullMismatchQueueCapacity {
        SearchIsRefused(lib, config, st, now, filter, k);
      }
    }
  }

  /** What a receive returns matches, and what it does not find is not there. */
  lemma ReceivedFits(lib: Library, config: TransportConfig, st: PullState, filter: Filter)
    requires st.Bounded(config)
    ensures var result := Received(lib, config, st, filter).1;
            && (result.Ok? ==> FrameMatches(lib, result.value, filter))
            && (result == Err(NotFound) ==>
                  && (forall lease :: lease in st.mismatches.queue ==> !FrameMatches(lib, lease, filter))
                  && (forall sample :: sample in st.pending && LeaseFromSample(lib, sample).Ok? ==>
                        !FrameMatches(lib, LeaseFromSample(lib, sample).value, filter)))
  {
    hide LeaseFromSample, FrameMatches, Retained, Leases;
    var p, stops := MatcherOf(lib, filter), StopperOf(lib, filter);
    var i, n := FirstIndex(st.mismatches.queue, p), FirstIndex(st.pending, stops);
    assert forall k :: 0 <= k < i ==> !p(st.mismatches.queue[k]);
    assert forall k :: 0 <= k < n ==> !stops(st.pending[k]);
    assert i < |st.mismatches.queue| ==> p(st.mismatches.queue[i]);
    assert n < |st.pending| ==> stops(st.pending[n]);
  }

  /** The same in the words of the uProtocol library: what is returned has a source that matches, and
      a sink that matches if one is asked for; NOT_FOUND means that every readable frame fails on its
      source, has no sink although one is asked for, or fails on its sink. */
  lemma ReceivedAccepts(lib: Library, config: TransportConfig, st: PullState, filter: Filter)
    requires st.Bounded(config)
    ensures var result := Received(lib, config, st, filter).1;
            && (result.Ok? ==>
                  var a := result.value.metadata.attributes;
                  && lib.uriMatches(filter.source, a.source)
                  && (filter.sink.Some? ==> a.sink.Some? && lib.uriMatches(filter.sink.value, a.sink.value)))
            && (result == Err(NotFound) ==>
                  && (forall lease :: lease in st.mismatches.queue ==>
                        var a := lease.metadata.attributes;
                        || !lib.uriMatches(filter.source, a.source)
                        || (filter.sink.Some? && (a.sink.None? || !lib.uriMatches(filter.sink.value, a.sink.value))))
                  && (forall sample :: sample in st.pending && LeaseFromSample(lib, sample).Ok? ==>
                        var a := LeaseFromSample(lib, sample).value.metadata.attributes;
                        || !lib.uriMatches(filter.source, a.source)
                        || (filter.sink.Some? && (a.sink.None? || !lib.uriMatches(filter.sink.value, a.sink.value)))))
  {
    ReceivedFits(lib, config, st, filter);
    hide Received, LeaseFromSample, FrameMatches;
    forall lease ensures FrameMatches(lib, lease, filter) <==>
                           && lib.uriMatches(filter.source, lease.metadata.attributes.source)
                           && (filter.sink.Some? ==>
                                 && lease.metadata.attributes.sink.Some?
                                 && lib.uriMatches(filter.sink.value, lease.metadata.attributes.sink.value)) {
      FilterAccepts(lib, lease, filter);
    }
  }

  /** One listener registration; listeners are compared by identity. */
  datatype ListenerRegistration = ListenerRegistration(filter: Filter, listener: nat)

  /** The deliveries of a frame, in registration order. */
  function FanOut(lib: Library, listeners: seq<ListenerRegistration>, lease: Lease): (deliveries: seq<(nat, Lease)>) {
    if listeners == [] then []
    else
      var last := listeners[|listeners| - 1];
      FanOut(lib, listeners[..|listeners| - 1], lease)
      + if FrameMatches(lib, lease, last.filter) then [(last.listener, lease)] else []
  }

  /** The deliveries are one for each registration whose filter takes the frame, in the order of
      registration; `at` are the positions of these registrations. */
  ghost predicate DeliversTo(lib: Library, listeners: seq<ListenerRegistration>, lease: Lease, deliveries: seq<(nat, Lease)>, at: seq<nat>) {
    && |at| == |deliveries|
    && (forall i, j :: 0 <= i < j < |at| ==> at[i] < at[j])
    && (forall k :: 0 <= k < |at| ==> at[k] < |listeners| && deliveries[k] == (listeners[at[k]].listener, lease))
    && forall p: nat :: p < |listeners| ==>
         (p in at <==>
            && lib.uriMatches(listeners[p].filter.source, lease.metadata.attributes.source)
            && (listeners[p].filter.sink.Some? ==>
                  && lease.metadata.attributes.sink.Some?
                  && lib.uriMatches(listeners[p].filter.sink.value, lease.metadata.attributes.sink.value)))
  }

  /** Strictly increasing positions, which are exactly those of the matching registrations. */
  ghost predicate Picks(lib: Library, listeners: seq<ListenerRegistration>, lease: Lease, at: seq<nat>) {
    && (forall i, j :: 0 <= i < j < |at| ==> at[i] < at[j])
    && (forall k :: 0 <= k < |at| ==> at[k] < |listeners|)
    && forall p: nat :: p < |listeners| ==> (p in at <==> FrameMatches(lib, lease, listeners[p].filter))
  }

  predicate DeliversAt(listeners: seq<ListenerRegistration>, lease: Lease, deliveries: seq<(nat, Lease)>, at: seq<nat>) {
    |at| == |deliveries| && forall k :: 0 <= k < |at| ==> at[k] < |listeners| && deliveries[k] == (listeners[at[k]].listener, lease)
  }

  lemma PicksOneMore(lib: Library, listeners: seq<ListenerRegistration>, last: ListenerRegistration, lease: Lease, at: seq<nat>)
    requires Picks(lib, listeners, lease, at)
    ensures Picks(lib, listeners + [last], lease, if FrameMatches(lib, lease, last.filter) then at + [|listeners|] else at)
  {
    hide FrameMatches;
    var n, all := |listeners|, listeners + [last];
    assert forall p: nat :: p < n ==> all[p] == listeners[p];
    NotIn(at, n);
    if FrameMatches(lib, lease, last.filter) {
      InMore(at, n);
    }
  }

  lemma NotIn(at: seq<nat>, n: nat)
    requires forall k :: 0 <= k < |at| ==> at[k] < n
    ensures n !in at
  {
  }

  lemma InMore(at: seq<nat>, n: nat)
    ensures forall p: nat :: p in at + [n] <==> p in at || p == n
  {
  }

  lemma DeliversOneMore(listeners: seq<ListenerRegistration>, last: ListenerRegistration, lease: Lease, deliveries: seq<(nat, Lease)>, at: seq<nat>)
    requires DeliversAt(listeners, lease, deliveries, at)
    ensures DeliversAt(listeners + [last], lease, deliveries, at)
    ensures DeliversAt(listeners + [last], lease, deliveries + [(last.listener, lease)], at + [|listeners|])
  {
  }

  lemma {:induction false} FanOutPicks(lib: Library, listeners: seq<ListenerRegistration>, lease: Lease) returns (at: seq<nat>)
    ensures Picks(lib, listeners, lease, at) && DeliversAt(listeners, lease, FanOut(lib, listeners, lease), at)
  {
    hide FrameMatches;
    at := [];
    if listeners != [] {
      var n := |listeners| - 1;
      at := FanOutPicks(lib, listeners[..n], lease);
      hide Picks, DeliversAt;
      assert listeners == listeners[..n] + [listeners[n]];
      PicksOneMore(lib, listeners[..n], listeners[n], lease, at);
      DeliversOneMore(listeners[..n], listeners[n], lease, FanOut(lib, listeners[..n], lease), at);
      var before := FanOut(lib, listeners[..n], lease);
      assert before + [] == before;
      at := if FrameMatches(lib, lease, listeners[n].filter) then at + [n] else at;
    }
  }

  lemma FanOutDelivers(lib: Library, listeners: seq<ListenerRegistration>, lease: Lease) returns (at: seq<nat>)
    ensures DeliversTo(lib, listeners, lease, FanOut(lib, listeners, lease), at)
  {
    at := FanOutPicks(lib, listeners, lease);
    hide FanOut, FrameMatches;
    forall p: nat | p < |listeners|
      ensures FrameMatches(lib, lease, listeners[p].filter) <==>
                && lib.uriMatches(listeners[p].filter.source, lease.metadata.attributes.source)
                && (listeners[p].filter.sink.Some? ==>
                      && lease.metadata.attributes.sink.Some?
                      && lib.uriMatches(listeners[p].filter.sink.value, lease.metadata.attributes.sink.value))
    {
      FilterAccepts(lib, lease, listeners[p].filter);
    }
  }

  class UTransportLola {
    const lib: Library
    const config: TransportConfig
    var pending: seq<seq<byte>>
    var mismatches: QueueState<Lease>
    var listeners: seq<ListenerRegistration>

    /** Only a validated configuration builds a transport. */
    constructor (lib: Library, config: TransportConfig)
      requires config.Validate().Ok?
      ensures this.lib == lib && this.config == config
      ensures State() == PullState([], QueueState([], 0, 0)) && listeners == []
      ensures Valid()
    {
      this.lib := lib;
      this.config := config;
      pending := [];
      mismatches := QueueState([], 0, 0);
      listeners := [];
    }

    /** An unusable configuration is refused. */
    static method Build(lib: Library, config: TransportConfig) returns (r: Result<UTransportLola>)
      ensures r.Ok? == config.Usable()
      ensures r.Err? ==> r.code == InvalidArgument
      ensures r.Ok? ==>
                && fresh(r.value) && r.value.Valid() && r.value.lib == lib && r.value.config == config
                && r.value.State() == PullState([], QueueState([], 0, 0)) && r.value.listeners == []
    {
      config.ValidatesExactlyUsable();
      var _ :- config.Validate();
      var transport := new UTransportLola(lib, config);
      return Ok(transport);
    }

    function State(): PullState
      reads this
    {
      PullState(pending, mismatches)
    }

    ghost predicate Valid()
      reads this
    {
      && State().Bounded(config)
      && (forall i :: 0 <= i < |mismatches.queue| ==> mismatches.queue[i].Valid())
      && (forall i, j :: 0 <= i < j < |listeners| ==> listeners[i] != listeners[j])
    }

    method SendValidatedZeroCopy(sample: seq<byte>)
      requires Valid()
      modifies `pending
      ensures Valid() && pending == old(pending) + [sample]
    {
      pending := pending + [sample];
    }

    method PopQueuedPullSample(filter: Filter) returns (found: Option<Lease>)
      requires Valid()
      modifies `mismatches
      ensures Valid() && (mismatches, found) == PopMatch(old(mismatches), MatcherOf(lib, filter))
      ensures found.Some? ==> found.value.Valid()
    {
      var i := 0;
      while i < |mismatches.queue| && !FrameMatches(lib, mismatches.queue[i], filter)
        invariant i <= FirstIndex(mismatches.queue, MatcherOf(lib, filter))
      {
        i := i + 1;
      }
      if i == |mismatches.queue| {
        return None;
      }
      found := Some(mismatches.queue[i]);
      mismatches := mismatches.(queue := mismatches.queue[..i] + mismatches.queue[i + 1..]);
    }

    method QueuePullSample(frame: Lease) returns (r: Result<()>)
      requires Valid() && frame.Valid()
      modifies `mismatches
      ensures Valid()
      ensures (mismatches, r) == PushMismatch(config.pullMismatchQueueCapacity, config.pullMismatchQueueFullPolicy,
                                              old(mismatches), frame)
    {
      var capacity := config.pullMismatchQueueCapacity;
      if capacity == 0 {
        mismatches := mismatches.(dropped := SaturatingAdd(mismatches.dropped, 1));
        return Ok(());
      }
      var isFull := |mismatches.queue| >= capacity;
      if isFull && config.pullMismatchQueueFullPolicy == RejectNewestAndReport {
        mismatches := mismatches.(rejected := SaturatingAdd(mismatches.rejected, 1));
        return Err(ResourceExhausted);
      }
      if isFull {
        mismatches := mismatches.(queue := mismatches.queue[1..]);
      }
      mismatches := mismatches.(queue := mismatches.queue + [frame]);
      if isFull {
        mismatches := mismatches.(dropped := SaturatingAdd(mismatches.dropped, 1));
      }
      return Ok(());
    }

    /** A filtered receive does what `Received` says in one piece. What it returns has a source that
        matches, and a sink that matches if one is asked for; if it finds nothing, no readable frame
        was there that does. */
    method ReceiveValidatedZeroCopy(filter: Filter) returns (r: Result<Lease>)
      requires Valid()
      modifies `pending, `mismatches
      ensures Valid()
      ensures (State(), r) == Received(lib, config, old(State()), filter)
      ensures r.Ok? ==>
                && r.value.Valid()
                && var a := r.value.metadata.attributes;
                   && lib.uriMatches(filter.source, a.source)
                   && (filter.sink.Some? ==> a.sink.Some? && lib.uriMatches(filter.sink.value, a.sink.value))
      ensures r == Err(NotFound) ==>
                && (forall lease :: lease in old(mismatches.queue) ==>
                      var a := lease.metadata.attributes;
                      || !lib.uriMatches(filter.source, a.source)
                      || (filter.sink.Some? && (a.sink.None? || !lib.uriMatches(filter.sink.value, a.sink.value))))
                && (forall sample :: sample in old(pending) && LeaseFromSample(lib, sample).Ok? ==>
                      var a := LeaseFromSample(lib, sample).value.metadata.attributes;
                      || !lib.uriMatches(filter.source, a.source)
                      || (filter.sink.Some? && (a.sink.None? || !lib.uriMatches(filter.sink.value, a.sink.value))))
    {
      r := SearchAndReceive(filter);
      hide Received, LeaseFromSample;
      ReceivedAccepts(lib, config, old(State()), filter);
    }

    /** The searching loop. */
    method SearchAndReceive(filter: Filter) returns (r: Result<Lease>)
      requires Valid()
      modifies `pending, `mismatches
      ensures Valid()
      ensures (State(), r) == Received(lib, config, old(State()), filter)
      ensures r.Ok? ==> r.value.Valid()
    {
      hide LeaseFromSample, FrameMatches, PopMatch, PushMismatch, Received, Searching;
      ghost var st := State();
      SearchStarts(lib, config, st, filter);
      var found := PopQueuedPullSample(filter);
      if found.Some? {
        return Ok(found.value);
      }
      ghost var k := 0;
      while pending != []
        invariant Valid() && Searching(lib, config, st, State(), filter, k)
        decreases |pending|
      {
        SearchGoesOn(lib, config, st, State(), filter, k);
        var sample := pending[0];
        pending := pending[1..];
        var frame :- LeaseFromSample(lib, sample);
        if FrameMatches(lib, frame, filter) {
          return Ok(frame);
        }
        var _ :- QueuePullSample(frame);
        k := k + 1;
      }
      SearchGoesOn(lib, config, st, State(), filter, k);
      return Err(NotFound);
    }

    /** `taskStart` is what the start of the polling task answers when it is asked for; a new
        registration stays even when that fails. */
    method RegisterListener(filter: Filter, listener: nat, taskStart: Result<()>) returns (r: Result<()>)
      requires Valid()
      modifies `listeners
      ensures Valid()
      ensures var registration := ListenerRegistration(filter, listener);
              if registration in old(listeners) then r == Err(AlreadyExists) && listeners == old(listeners)
              else r == taskStart && listeners == old(listeners) + [registration]
    {
      if ListenerRegistration(filter, listener) in listeners {
        return Err(AlreadyExists);
      }
      listeners := listeners + [ListenerRegistration(filter, listener)];
      return taskStart;
    }

    method UnregisterListener(filter: Filter, listener: nat) returns (r: Result<()>)
      requires Valid()
      modifies `listeners
      ensures Valid()
      ensures var registration := ListenerRegistration(filter, listener);
              if registration !in old(listeners) then r == Err(NotFound) && listeners == old(listeners)
              else
                && r == Ok(()) && registration !in listeners
                && exists i :: 0 <= i < |old(listeners)| && old(listeners)[i] == registration
                               && listeners == RemoveAt(old(listeners), i)
    {
      var registration := ListenerRegistration(filter, listener);
      var index := FirstIndex(listeners, l => l == registration);
      if index == |listeners| {
        return Err(NotFound);
      }
      ghost var before := listeners;
      listeners := RemoveAt(listeners, index);
      assert before[index] == registration && listeners == RemoveAt(before, index);
      return Ok(());
    }

    /** One poll takes the oldest pending sample and hands a copy of the frame to every matching
        listener, in registration order; an unreadable sample is taken and reported. */
    method PollListenerFrames() returns (r: Result<seq<(nat, Lease)>>)
      requires Valid()
      modifies `pending
      ensures Valid()
      ensures if old(pending) == [] then r == Ok([]) && pending == []
              else
                && pending == old(pending)[1..]
                && match LeaseFromSample(lib, old(pending)[0])
                   case Err(code) => r == Err(code)
                   case Ok(lease) => r.Ok? && exists at :: DeliversTo(lib, listeners, lease, r.value, at)
    {
      hide LeaseFromSample, FrameMatches;
      if pending == [] {
        return Ok([]);
      }
      var sample := pending[0];
      pending := pending[1..];
      var probe :- LeaseFromSample(lib, sample);
      var deliveries := [];
      for i := 0 to |listeners|
        invariant deliveries == FanOut(lib, listeners[..i], probe)
      {
        assert listeners[..i + 1][..i] == listeners[..i];
        if FrameMatches(lib, probe, listeners[i].filter) {
          var frame := LeaseFromSample(lib, sample).value;
          deliveries := deliveries + [(listeners[i].listener, frame)];
        }
      }
      assert listeners[..|listeners|] == listeners;
      ghost var at := FanOutDelivers(lib, listeners, probe);
      return Ok(deliveries);
    }
  }
}
