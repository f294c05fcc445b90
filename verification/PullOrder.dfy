/** The order in which receives return frames, over the interleavings of `PullConcurrency`. Samples
    are told apart by the number of their send, so equal frames do not blur the order. */
module PullOrder {
  import opened Base
  import opened Config
  import opened Metadata
  import opened FrameLayout
  import opened PullQueue
  import opened PullReceive
  import opened PullConcurrency
  import opened Sequences

  // ------------------------------------------------------------- what was returned

  /** The filter of a receive in progress. */
  function FilterOf(pc: Pc): Option<Filter> {
    match pc
    case LookInQueue(filter) => Some(filter)
    case LookInPending(filter) => Some(filter)
    case KeepMismatch(filter, _) => Some(filter)
    case _ => None
  }

  /** The send number of the sample that a receive with this filter ends with in this event. */
  function GivenNow(lib: Library, config: TransportConfig, s: State, e: Event, f: Filter): seq<nat> {
    if e.Continue? && e.call in s.calls && FilterOf(s.calls[e.call]) == Some(f) then
      var pc := Advance(lib, config, s, e.call).calls[e.call];
      if pc.Done? && pc.result.Ok? && pc.result.value.Some? then [pc.result.value.value.tag] else []
    else []
  }

  /** The send numbers that receives with this filter returned, in the order they returned them. */
  function ReturnedTags(lib: Library, config: TransportConfig, events: seq<Event>, f: Filter): seq<nat> {
    if events == [] then []
    else
      var before := PullConcurrency.After(lib, config, events[..|events| - 1]);
      ReturnedTags(lib, config, events[..|events| - 1], f)
      + if before.Some? then GivenNow(lib, config, before.value, events[|events| - 1], f) else []
  }

  predicate Ascending(tags: seq<nat>) {
    forall i, j :: 0 <= i < j < |tags| ==> tags[i] < tags[j]
  }

  predicate AllBelow(tags: seq<nat>, limit: nat) {
    forall i :: 0 <= i < |tags| ==> tags[i] < limit
  }

  lemma AscendingMore(tags: seq<nat>, t: nat)
    requires Ascending(tags) && AllBelow(tags, t)
    ensures Ascending(tags + [t])
  {
  }

  // ------------------------------------------------------- receives that do not overlap

  ghost predicate NoneReceiving(s: State) {
    forall c :: c in s.calls ==> FilterOf(s.calls[c]) == None
  }

  /** In this run a receive starts only while no other receive is in progress. Sends and listener
      polls come anywhere. */
  ghost predicate ReceivesApart(lib: Library, config: TransportConfig, events: seq<Event>) {
    events != [] ==>
      && ReceivesApart(lib, config, events[..|events| - 1])
      && var before := PullConcurrency.After(lib, config, events[..|events| - 1]);
         events[|events| - 1].StartReceive? && before.Some? ==> NoneReceiving(before.value)
  }

  predicate Holding(calls: map<nat, Pc>, c: nat) {
    c in calls && calls[c].KeepMismatch?
  }

  predicate OneReceive(calls: map<nat, Pc>) {
    forall c, d :: c in calls && d in calls && FilterOf(calls[c]).Some? && FilterOf(calls[d]).Some? ==> c == d
  }

  /** What the one receive in progress has in hand. */
  ghost function HandOf(calls: map<nat, Pc>): seq<Item> {
    if exists c :: Holding(calls, c) then
      var c :| Holding(calls, c);
      [calls[c].held]
    else []
  }

  /** Every sample that a receive can still come upon, as one list: what is retained, what the one
      receive has in hand, what is pending. */
  ghost function Line(s: State): seq<Item> {
    s.mismatches.queue + HandOf(s.calls) + s.pending
  }

  lemma HandIs(calls: map<nat, Pc>, c: nat)
    requires OneReceive(calls) && c in calls && FilterOf(calls[c]).Some?
    ensures HandOf(calls) == if calls[c].KeepMismatch? then [calls[c].held] else []
  {
    if exists d :: Holding(calls, d) {
      var d :| Holding(calls, d);
      assert FilterOf(calls[d]).Some?;
    }
    assert calls[c].KeepMismatch? ==> Holding(calls, c);
  }

  /** A call that is no receive concerns neither the hand nor the one receive. */
  lemma HandStays(calls: map<nat, Pc>, c: nat, pc: Pc)
    requires OneReceive(calls) && (c in calls ==> FilterOf(calls[c]) == None) && FilterOf(pc) == None
    ensures OneReceive(calls[c := pc]) && HandOf(calls[c := pc]) == HandOf(calls)
  {
    var after := calls[c := pc];
    if exists d :: Holding(calls, d) {
      var d :| Holding(calls, d);
      assert d in calls && FilterOf(calls[d]).Some? && Holding(after, d) && FilterOf(after[d]).Some?;
      HandIs(calls, d);
      HandIs(after, d);
    } else if exists d :: Holding(after, d) {
      var d :| Holding(after, d);
      assert Holding(calls, d);
    }
  }

  /** The one receive moves on, or ends. */
  lemma HandMoves(calls: map<nat, Pc>, c: nat, pc: Pc)
    requires OneReceive(calls) && c in calls && FilterOf(calls[c]).Some?
    ensures OneReceive(calls[c := pc]) && HandOf(calls[c := pc]) == if pc.KeepMismatch? then [pc.held] else []
  {
    var after := calls[c := pc];
    if exists d :: Holding(after, d) {
      var d :| Holding(after, d);
      assert d != c ==> FilterOf(calls[d]).Some?;
    }
    assert pc.KeepMismatch? ==> Holding(after, c) && FilterOf(after[c]).Some?;
  }

  // --------------------------------------------------------- what an event does to the list

  /** The position in the list of the sample that an event takes out of it. */
  ghost function TakenOut(lib: Library, config: TransportConfig, s: State, e: Event): Option<nat>
    requires Enabled(s, e)
  {
    var q := s.mismatches.queue;
    if !e.Continue? then None
    else match s.calls[e.call]
         case LookInQueue(filter) =>
           if FirstIndex(q, Matcher(lib, filter)) < |q| then Some(FirstIndex(q, Matcher(lib, filter))) else None
         case LookInPending(filter) =>
           if s.pending != [] && (!Readable(lib, s.pending[0].sample) || Matches(lib, s.pending[0].sample, filter)) then Some(|q|)
           else None
         case KeepMismatch(_, _) =>
           if config.pullMismatchQueueCapacity == 0 then Some(|q|)
           else if |q| < config.pullMismatchQueueCapacity then None
           else if config.pullMismatchQueueFullPolicy == RejectNewestAndReport then Some(|q|)
           else Some(0)
         case PollPending => if s.pending == [] then None else Some(|q| + |HandOf(s.calls)|)
         case _ => None
  }

  /** The list in its three parts, and each way an event moves their samples. */
  lemma PartsMove(q: seq<Item>, hand: seq<Item>, p: seq<Item>)
    ensures forall i: nat :: i < |q| ==> RemoveAt(q, i) + hand + p == RemoveAt(q + hand + p, i)
    ensures p != [] ==> q + hand + p[1..] == RemoveAt(q + hand + p, |q| + |hand|)
    ensures p != [] ==> q + [p[0]] + p[1..] == q + [] + p
    ensures |hand| == 1 ==> q + [] + p == RemoveAt(q + hand + p, |q|)
    ensures q + hand + [] + p == q + hand + p
    ensures q != [] ==> q[1..] + hand + [] + p == RemoveAt(q + hand + p, 0)
  {
  }

  /** The list takes this change from `s` to `after`. */
  ghost predicate ChangesBy(s: State, after: State, out: Option<nat>) {
    && OneReceive(after.calls)
    && (out.Some? ==> out.value < |Line(s)|)
    && Line(after) == if out.Some? then RemoveAt(Line(s), out.value) else Line(s)
  }

  lemma LookedInQueue(lib: Library, config: TransportConfig, s: State, call: nat)
    requires OneReceive(s.calls) && call in s.calls && s.calls[call].LookInQueue?
    ensures ChangesBy(s, Advance(lib, config, s, call), TakenOut(lib, config, s, Continue(call)))
  {
    HandIs(s.calls, call);
    HandMoves(s.calls, call, Advance(lib, config, s, call).calls[call]);
    hide Matches, HandOf, OneReceive, FirstIndex, RemoveAt, PopMatch;
    PopOnOneList(s.mismatches, s.pending, Matcher(lib, s.calls[call].filter));
  }

  lemma LookedInPending(lib: Library, config: TransportConfig, s: State, call: nat)
    requires OneReceive(s.calls) && call in s.calls && s.calls[call].LookInPending?
    ensures ChangesBy(s, Advance(lib, config, s, call), TakenOut(lib, config, s, Continue(call)))
  {
    HandIs(s.calls, call);
    HandMoves(s.calls, call, Advance(lib, config, s, call).calls[call]);
    hide Readable, Matches, HandOf, OneReceive, RemoveAt;
    if s.pending != [] {
      FrontMoves(s.mismatches.queue, s.pending);
    }
  }

  lemma FrontMoves(q: seq<Item>, p: seq<Item>)
    requires p != []
    ensures q + [] + p[1..] == RemoveAt(q + [] + p, |q|) && q + [p[0]] + p[1..] == q + [] + p && |q + [] + p| > |q|
  {
    PartsMove(q, [], p);
  }

  lemma KeptMismatch(lib: Library, config: TransportConfig, s: State, call: nat)
    requires OneReceive(s.calls) && call in s.calls && s.calls[call].KeepMismatch?
    requires |s.mismatches.queue| <= config.pullMismatchQueueCapacity
    ensures ChangesBy(s, Advance(lib, config, s, call), TakenOut(lib, config, s, Continue(call)))
  {
    HandIs(s.calls, call);
    HandMoves(s.calls, call, Advance(lib, config, s, call).calls[call]);
    PartsMove(s.mismatches.queue, [s.calls[call].held], s.pending);
    hide HandOf, OneReceive, RemoveAt;
  }

  lemma PopOnOneList(m: QueueState<Item>, p: seq<Item>, matches: Item -> bool)
    ensures var i := FirstIndex(m.queue, matches);
            var (after, found) := PopMatch(m, matches);
            && found.Some? == (i < |m.queue|)
            && after.queue + [] + p == if i < |m.queue| then RemoveAt(m.queue + [] + p, i) else m.queue + [] + p
  {
    PartsMove(m.queue, [], p);
  }

  /** Every event is one change of the list: a send goes to its end, and any other event takes at
      most one sample out and leaves the others in their order. */
  lemma EventOnOneList(lib: Library, config: TransportConfig, s: State, e: Event)
    requires OneReceive(s.calls) && Enabled(s, e) && (e.StartReceive? ==> NoneReceiving(s))
    requires |s.mismatches.queue| <= config.pullMismatchQueueCapacity
    ensures var after, out := Step(lib, config, s, e), TakenOut(lib, config, s, e);
            && OneReceive(after.calls)
            && (out.Some? ==> out.value < |Line(s)|)
            && Line(after) == if e.Send? then Line(s) + [Item(|s.log|, e.sample)]
                              else if out.Some? then RemoveAt(Line(s), out.value) else Line(s)
  {
    hide Readable, Matches, HandOf, OneReceive, RemoveAt, FirstIndex;
    match e
    case Send(_) =>
    case StartReceive(call, filter) => ReceiveStarts(s, call, filter);
    case StartPoll(call) => HandStays(s.calls, call, PollPending);
    case Continue(call) =>
      if FilterOf(s.calls[call]).Some? {
        match s.calls[call]
        case LookInQueue(_) => LookedInQueue(lib, config, s, call);
        case LookInPending(_) => LookedInPending(lib, config, s, call);
        case KeepMismatch(_, _) => KeptMismatch(lib, config, s, call);
      } else {
        HandStays(s.calls, call, Advance(lib, config, s, call).calls[call]);
        PartsMove(s.mismatches.queue, HandOf(s.calls), s.pending);
      }
  }

  lemma ReceiveStarts(s: State, call: nat, filter: Filter)
    requires NoneReceiving(s) && call !in s.calls
    ensures OneReceive(s.calls[call := LookInQueue(filter)])
    ensures HandOf(s.calls[call := LookInQueue(filter)]) == [] == HandOf(s.calls)
  {
    var after := s.calls[call := LookInQueue(filter)];
    assert forall c :: c in s.calls && c in after ==> after[c] == s.calls[c];
    assert forall c :: Holding(s.calls, c) ==> FilterOf(s.calls[c]).Some?;
  }

  // ----------------------------------------------------------- what the search knows

  predicate NoMatch(lib: Library, items: seq<Item>, filter: Filter) {
    forall i :: 0 <= i < |items| ==> !Matches(lib, items[i].sample, filter)
  }

  /** Once the one receive has looked, nothing retained matches its filter, and neither does what it
      has in hand. */
  ghost predicate SearchInv(lib: Library, calls: map<nat, Pc>, queue: seq<Item>) {
    && OneReceive(calls)
    && forall c :: c in calls ==> match calls[c]
                                  case LookInPending(filter) => NoMatch(lib, queue, filter)
                                  case KeepMismatch(filter, item) => NoMatch(lib, queue + [item], filter)
                                  case _ => true
  }

  /** Only the one receive searches, so what it knows is all that has to be known. */
  lemma OneSearches(lib: Library, calls: map<nat, Pc>, call: nat, pc: Pc, queue: seq<Item>)
    requires OneReceive(calls) && call in calls && FilterOf(calls[call]).Some?
    requires pc.LookInPending? ==> NoMatch(lib, queue, pc.filter)
    requires pc.KeepMismatch? ==> NoMatch(lib, queue + [pc.held], pc.filter)
    ensures SearchInv(lib, calls[call := pc], queue)
  {
    HandMoves(calls, call, pc);
    assert forall c :: c in calls && c != call ==> FilterOf(calls[c]) == None;
    hide NoMatch;
  }

  lemma KnownOf(lib: Library, calls: map<nat, Pc>, queue: seq<Item>, call: nat)
    requires SearchInv(lib, calls, queue) && call in calls
    ensures calls[call].LookInPending? ==> NoMatch(lib, queue, calls[call].filter)
    ensures calls[call].KeepMismatch? ==> NoMatch(lib, queue + [calls[call].held], calls[call].filter)
  {
    hide NoMatch;
  }

  lemma ReceiveKeepsSearch(lib: Library, config: TransportConfig, s: State, call: nat)
    requires SearchInv(lib, s.calls, s.mismatches.queue) && call in s.calls && FilterOf(s.calls[call]).Some?
    ensures var after := Advance(lib, config, s, call);
            SearchInv(lib, after.calls, after.mismatches.queue)
  {
    var after := Advance(lib, config, s, call);
    KnownOf(lib, s.calls, s.mismatches.queue, call);
    if s.calls[call].LookInQueue? {
      PoppedOrNone(lib, s.mismatches, s.calls[call].filter);
    } else if s.calls[call].KeepMismatch? {
      KeptKnown(lib, config, s.mismatches, s.calls[call].held, s.calls[call].filter);
    } else if s.pending != [] {
      NoMatchMore(lib, s.mismatches.queue, s.pending[0], s.calls[call].filter);
    }
    hide Readable, Matches, SearchInv, NoMatch, PushMismatch, PopMatch;
    assert OneReceive(s.calls) by { SearchIsOne(lib, s.calls, s.mismatches.queue); }
    OneSearches(lib, s.calls, call, after.calls[call], after.mismatches.queue);
  }

  lemma SearchIsOne(lib: Library, calls: map<nat, Pc>, queue: seq<Item>)
    requires SearchInv(lib, calls, queue)
    ensures OneReceive(calls)
  {
  }

  lemma NoMatchMore(lib: Library, items: seq<Item>, item: Item, filter: Filter)
    ensures NoMatch(lib, items + [item], filter) <==> NoMatch(lib, items, filter) && !Matches(lib, item.sample, filter)
  {
    hide Matches;
    assert (items + [item])[|items|] == item;
    assert forall i :: 0 <= i < |items| ==> (items + [item])[i] == items[i];
  }

  lemma KeptKnown(lib: Library, config: TransportConfig, m: QueueState<Item>, item: Item, filter: Filter)
    requires NoMatch(lib, m.queue + [item], filter)
    ensures NoMatch(lib, PushMismatch(config.pullMismatchQueueCapacity, config.pullMismatchQueueFullPolicy, m, item).0.queue, filter)
  {
    hide Matches;
    NoMatchMore(lib, m.queue, item, filter);
    if m.queue != [] {
      NoMatchMore(lib, m.queue[1..], item, filter);
    }
  }

  lemma PoppedOrNone(lib: Library, m: QueueState<Item>, filter: Filter)
    ensures PopMatch(m, Matcher(lib, filter)).1.Some? || NoMatch(lib, m.queue, filter)
  {
    hide Matches;
    var p, i := Matcher(lib, filter), FirstIndex(m.queue, Matcher(lib, filter));
    assert forall k :: 0 <= k < i ==> !p(m.queue[k]);
  }

  lemma OtherKeepsSearch(lib: Library, calls: map<nat, Pc>, queue: seq<Item>, call: nat, pc: Pc)
    requires SearchInv(lib, calls, queue) && (call in calls ==> FilterOf(calls[call]) == None) && FilterOf(pc) == None
    ensures SearchInv(lib, calls[call := pc], queue)
  {
    hide NoMatch, OneReceive;
    HandStays(calls, call, pc);
  }

  lemma StartKeepsSearch(lib: Library, s: State, call: nat, filter: Filter)
    requires NoneReceiving(s) && call !in s.calls
    ensures SearchInv(lib, s.calls[call := LookInQueue(filter)], s.mismatches.queue)
  {
    hide NoMatch;
    var after := s.calls[call := LookInQueue(filter)];
    assert forall c :: c in s.calls ==> after[c] == s.calls[c] && FilterOf(s.calls[c]) == None;
  }

  lemma EventKeepsSearch(lib: Library, config: TransportConfig, s: State, e: Event)
    requires SearchInv(lib, s.calls, s.mismatches.queue) && Enabled(s, e) && (e.StartReceive? ==> NoneReceiving(s))
    ensures var after := Step(lib, config, s, e);
            SearchInv(lib, after.calls, after.mismatches.queue)
  {
    hide SearchInv, NoneReceiving, Readable, Matches;
    match e
    case Send(_) =>
    case StartReceive(call, filter) => StartKeepsSearch(lib, s, call, filter);
    case StartPoll(call) => OtherKeepsSearch(lib, s.calls, s.mismatches.queue, call, PollPending);
    case Continue(call) =>
      if FilterOf(s.calls[call]).Some? {
        ReceiveKeepsSearch(lib, config, s, call);
      } else {
        OtherKeepsSearch(lib, s.calls, s.mismatches.queue, call, Advance(lib, config, s, call).calls[call]);
      }
  }

  /** How a receive ends, in terms of the list at that moment: it returns the oldest match and takes
      it out, or there is none; a refusal takes out the sample behind the capacity. */
  predicate EndsOn(lib: Library, line: seq<Item>, filter: Filter, capacity: usize, result: Result<Option<Item>>, out: Option<nat>) {
    var i := FirstIndex(line, Matcher(lib, filter));
    match result
    case Ok(found) => i < |line| && found == Some(line[i]) && out == Some(i)
    case Err(NotFound) => i == |line| && out == None
    case Err(ResourceExhausted) => out == Some(capacity)
    case Err(InvalidArgument) => out.Some? && out.value < |line| && !Readable(lib, line[out.value].sample)
    case _ => false
  }

  /** The list from the part in which the search goes on. */
  lemma OldestBehind(lib: Library, q: seq<Item>, rest: seq<Item>, filter: Filter)
    requires NoMatch(lib, q, filter)
    ensures FirstIndex(q + rest, Matcher(lib, filter)) == |q| + FirstIndex(rest, Matcher(lib, filter))
  {
    hide Matches;
    FirstIndexConcat(q, rest, Matcher(lib, filter));
    assert forall k :: 0 <= k < |q| ==> !Matcher(lib, filter)(q[k]);
  }

  lemma PoppedIsOldest(lib: Library, m: QueueState<Item>, p: seq<Item>, filter: Filter)
    ensures var i, found := FirstIndex(m.queue + [] + p, Matcher(lib, filter)), PopMatch(m, Matcher(lib, filter)).1;
            found.Some? ==> i < |m.queue| && i == FirstIndex(m.queue, Matcher(lib, filter)) && found.value == (m.queue + [] + p)[i]
  {
    hide Matches;
    FirstIndexConcat(m.queue, p, Matcher(lib, filter));
    assert m.queue + [] + p == m.queue + p;
  }

  lemma FrontIsOldest(lib: Library, q: seq<Item>, p: seq<Item>, filter: Filter)
    requires NoMatch(lib, q, filter)
    ensures var line, i := q + [] + p, FirstIndex(q + [] + p, Matcher(lib, filter));
            && (p == [] ==> i == |line|)
            && (p != [] ==> |q| < |line| && line[|q|] == p[0])
            && (p != [] && Matches(lib, p[0].sample, filter) ==> i == |q|)
  {
    hide Matches, NoMatch;
    OldestBehind(lib, q, p, filter);
    assert q + [] + p == q + p;
  }

  lemma LookEnds(lib: Library, config: TransportConfig, s: State, call: nat, filter: Filter)
    requires OneReceive(s.calls) && call in s.calls && s.calls[call] == LookInQueue(filter)
    ensures var pc := Advance(lib, config, s, call).calls[call];
            pc.Done? ==> EndsOn(lib, Line(s), filter, config.pullMismatchQueueCapacity, pc.result, TakenOut(lib, config, s, Continue(call)))
  {
    HandIs(s.calls, call);
    PoppedIsOldest(lib, s.mismatches, s.pending, filter);
    hide Matches, HandOf, OneReceive, FirstIndex, PopMatch;
  }

  lemma SearchEnds(lib: Library, config: TransportConfig, s: State, call: nat, filter: Filter)
    requires OneReceive(s.calls) && call in s.calls && s.calls[call] == LookInPending(filter)
    requires NoMatch(lib, s.mismatches.queue, filter)
    ensures var pc := Advance(lib, config, s, call).calls[call];
            pc.Done? ==> EndsOn(lib, Line(s), filter, config.pullMismatchQueueCapacity, pc.result, TakenOut(lib, config, s, Continue(call)))
  {
    HandIs(s.calls, call);
    FrontIsOldest(lib, s.mismatches.queue, s.pending, filter);
    hide Matches, Readable, HandOf, OneReceive, NoMatch, FirstIndex;
  }

  lemma KeepEnds(lib: Library, config: TransportConfig, s: State, call: nat, filter: Filter)
    requires call in s.calls && s.calls[call].KeepMismatch? && |s.mismatches.queue| <= config.pullMismatchQueueCapacity
    ensures var pc := Advance(lib, config, s, call).calls[call];
            pc.Done? ==> EndsOn(lib, Line(s), filter, config.pullMismatchQueueCapacity, pc.result, TakenOut(lib, config, s, Continue(call)))
  {
    hide Matches, Readable, Line, FirstIndex;
  }

  lemma ReceiveEnds(lib: Library, config: TransportConfig, s: State, call: nat, filter: Filter)
    requires SearchInv(lib, s.calls, s.mismatches.queue) && |s.mismatches.queue| <= config.pullMismatchQueueCapacity
    requires call in s.calls && FilterOf(s.calls[call]) == Some(filter)
    ensures var pc := Advance(lib, config, s, call).calls[call];
            pc.Done? ==> EndsOn(lib, Line(s), filter, config.pullMismatchQueueCapacity, pc.result, TakenOut(lib, config, s, Continue(call)))
  {
    KnownOf(lib, s.calls, s.mismatches.queue, call);
    SearchIsOne(lib, s.calls, s.mismatches.queue);
    hide Advance, TakenOut, EndsOn, Line, SearchInv, NoMatch, OneReceive;
    match s.calls[call]
    case LookInQueue(_) => LookEnds(lib, config, s, call, filter);
    case LookInPending(_) => SearchEnds(lib, config, s, call, filter);
    case KeepMismatch(_, _) => KeepEnds(lib, config, s, call, filter);
  }

  // ------------------------------------------------------------------- order

  predicate Sorted(items: seq<Item>) {
    forall i, j :: 0 <= i < j < |items| ==> items[i].tag < items[j].tag
  }

  predicate SentBefore(items: seq<Item>, limit: nat) {
    forall i :: 0 <= i < |items| ==> items[i].tag < limit
  }

  /** What was returned for `f` was sent before everything in the list that matches `f`. */
  predicate ReturnedFirst(lib: Library, line: seq<Item>, returned: seq<nat>, f: Filter) {
    forall i :: 0 <= i < |line| && Matches(lib, line[i].sample, f) ==> AllBelow(returned, line[i].tag)
  }

  ghost predicate OrderInv(lib: Library, s: State, returned: seq<nat>, f: Filter) {
    && SearchInv(lib, s.calls, s.mismatches.queue)
    && Sorted(Line(s)) && SentBefore(Line(s), |s.log|)
    && Ascending(returned) && AllBelow(returned, |s.log|)
    && ReturnedFirst(lib, Line(s), returned, f)
  }

  lemma RemoveKeepsOrder(lib: Library, line: seq<Item>, i: nat, returned: seq<nat>, f: Filter)
    requires i < |line| && Sorted(line) && ReturnedFirst(lib, line, returned, f)
    ensures Sorted(RemoveAt(line, i)) && ReturnedFirst(lib, RemoveAt(line, i), returned, f)
    ensures forall limit :: SentBefore(line, limit) ==> SentBefore(RemoveAt(line, i), limit)
  {
    hide Matches;
    var r := RemoveAt(line, i);
    assert forall k :: 0 <= k < |r| ==> r[k] == line[if k < i then k else k + 1];
  }

  /** A match behind the oldest one. */
  lemma BehindOldest(lib: Library, line: seq<Item>, f: Filter, k: nat) returns (j: nat)
    requires FirstIndex(line, Matcher(lib, f)) < |line| && Sorted(line)
    requires k < |line| - 1 && Matches(lib, RemoveAt(line, FirstIndex(line, Matcher(lib, f)))[k].sample, f)
    ensures var i := FirstIndex(line, Matcher(lib, f));
            j < |line| && line[j] == RemoveAt(line, i)[k] && line[i].tag < line[j].tag
  {
    hide Matches;
    var matches := Matcher(lib, f);
    var i := FirstIndex(line, matches);
    assert forall n :: 0 <= n < i ==> !matches(line[n]);
    assert forall n: nat :: n < i ==> RemoveAt(line, i)[n] == line[n];
    j := k + 1;
  }

  lemma ReturnKeepsOrder(lib: Library, line: seq<Item>, returned: seq<nat>, f: Filter)
    requires FirstIndex(line, Matcher(lib, f)) < |line| && Sorted(line)
    requires Ascending(returned) && ReturnedFirst(lib, line, returned, f)
    ensures var i := FirstIndex(line, Matcher(lib, f));
            && Ascending(returned + [line[i].tag])
            && ReturnedFirst(lib, RemoveAt(line, i), returned + [line[i].tag], f)
  {
    var i := FirstIndex(line, Matcher(lib, f));
    assert Matcher(lib, f)(line[i]);
    AscendingMore(returned, line[i].tag);
    hide Matches, Ascending, AllBelow, FirstIndex, RemoveAt, Sorted;
    var r := RemoveAt(line, i);
    forall k | 0 <= k < |r| && Matches(lib, r[k].sample, f) ensures AllBelow(returned + [line[i].tag], r[k].tag) {
      var j := BehindOldest(lib, line, f, k);
      BelowMore(returned, line[i].tag, line[j].tag);
    }
  }

  lemma BelowMore(tags: seq<nat>, t: nat, limit: nat)
    requires AllBelow(tags, limit) && t < limit
    ensures AllBelow(tags + [t], limit)
  {
  }

  lemma SendKeepsOrder(lib: Library, line: seq<Item>, item: Item, returned: seq<nat>, f: Filter)
    requires Sorted(line) && SentBefore(line, item.tag) && AllBelow(returned, item.tag) && ReturnedFirst(lib, line, returned, f)
    ensures Sorted(line + [item]) && SentBefore(line + [item], item.tag + 1)
    ensures AllBelow(returned, item.tag + 1) && ReturnedFirst(lib, line + [item], returned, f)
  {
    hide Matches;
  }

  /** What an event gives to a receive with this filter is the oldest match in the list. */
  lemma GivenIsOldest(lib: Library, config: TransportConfig, s: State, e: Event, f: Filter)
    requires SearchInv(lib, s.calls, s.mismatches.queue) && |s.mismatches.queue| <= config.pullMismatchQueueCapacity
    requires Enabled(s, e)
    ensures var i, given := FirstIndex(Line(s), Matcher(lib, f)), GivenNow(lib, config, s, e, f);
            given != [] ==> e.Continue? && i < |Line(s)| && given == [Line(s)[i].tag] && TakenOut(lib, config, s, e) == Some(i)
  {
    hide Matches, Readable, Line, SearchInv, TakenOut, Advance;
    if e.Continue? && FilterOf(s.calls[e.call]) == Some(f) {
      ReceiveEnds(lib, config, s, e.call, f);
    }
  }

  lemma LogGrows(lib: Library, config: TransportConfig, s: State, e: Event)
    requires Enabled(s, e)
    ensures Step(lib, config, s, e).log == if e.Send? then s.log + [e.sample] else s.log
  {
    hide Matches, Readable, PushMismatch, PopMatch;
  }

  /** One sample at most leaves the list, and it is what is returned if anything is. */
  lemma ListKeepsOrder(lib: Library, line: seq<Item>, limit: nat, out: Option<nat>, given: seq<nat>, returned: seq<nat>, f: Filter)
    requires Sorted(line) && SentBefore(line, limit) && ReturnedFirst(lib, line, returned, f)
    requires Ascending(returned) && AllBelow(returned, limit) && (out.Some? ==> out.value < |line|)
    requires var i := FirstIndex(line, Matcher(lib, f));
             given != [] ==> i < |line| && given == [line[i].tag] && out == Some(i)
    ensures var after := if out.Some? then RemoveAt(line, out.value) else line;
            && Sorted(after) && SentBefore(after, limit) && ReturnedFirst(lib, after, returned + given, f)
            && Ascending(returned + given) && AllBelow(returned + given, limit)
  {
    hide Sorted, ReturnedFirst, RemoveAt, Matches, Ascending, FirstIndex;
    assert returned + [] == returned;
    if given != [] {
      ReturnKeepsOrder(lib, line, returned, f);
    }
    if out.Some? {
      RemoveKeepsOrder(lib, line, out.value, returned, f);
    }
  }

  lemma EventKeepsOrder(lib: Library, config: TransportConfig, s: State, e: Event, returned: seq<nat>, f: Filter)
    requires OrderInv(lib, s, returned, f) && Enabled(s, e) && (e.StartReceive? ==> NoneReceiving(s))
    requires |s.mismatches.queue| <= config.pullMismatchQueueCapacity
    ensures OrderInv(lib, Step(lib, config, s, e), returned + GivenNow(lib, config, s, e, f), f)
  {
    SearchIsOne(lib, s.calls, s.mismatches.queue);
    EventOnOneList(lib, config, s, e);
    EventKeepsSearch(lib, config, s, e);
    GivenIsOldest(lib, config, s, e, f);
    LogGrows(lib, config, s, e);
    hide Line, TakenOut, SearchInv, Sorted, SentBefore, ReturnedFirst, RemoveAt, Matches, Readable, Step, GivenNow, Enabled, NoneReceiving,
      Ascending, AllBelow, FirstIndex;
    ListKeepsOrder(lib, Line(s), |s.log|, TakenOut(lib, config, s, e), GivenNow(lib, config, s, e, f), returned, f);
    if e.Send? {
      assert returned + [] == returned;
      SendKeepsOrder(lib, Line(s), Item(|s.log|, e.sample), returned, f);
    }
  }

  lemma {:induction false} EveryRunIsInOrder(lib: Library, config: TransportConfig, events: seq<Event>, f: Filter)
    requires ReceivesApart(lib, config, events)
    ensures var s := PullConcurrency.After(lib, config, events);
            s.Some? ==> OrderInv(lib, s.value, ReturnedTags(lib, config, events, f), f)
  {
    if events == [] {
      FreshIsInOrder(lib, f);
    } else {
      hide OrderInv, Step, Enabled, GivenNow, NoneReceiving;
      var before, e := events[..|events| - 1], events[|events| - 1];
      EveryRunIsInOrder(lib, config, before, f);
      var s := PullConcurrency.After(lib, config, before);
      if s.Some? && Enabled(s.value, e) {
        Conservation(lib, config, before);
        QueueIsBounded(lib, config, s.value);
        EventKeepsOrder(lib, config, s.value, e, ReturnedTags(lib, config, before, f), f);
      }
    }
  }

  lemma FreshIsInOrder(lib: Library, f: Filter)
    ensures OrderInv(lib, FRESH, [], f)
  {
    hide Matches;
    assert Line(FRESH) == [];
  }

  /** These are numbers of sent samples that match. */
  predicate SentMatches(lib: Library, log: seq<seq<byte>>, tags: seq<nat>, f: Filter) {
    forall k :: 0 <= k < |tags| ==> tags[k] < |log| && Matches(lib, log[tags[k]], f)
  }

  lemma SentMatchesMore(lib: Library, log: seq<seq<byte>>, sent: seq<seq<byte>>, tags: seq<nat>, more: seq<nat>, f: Filter)
    requires SentMatches(lib, log, tags, f) && SentMatches(lib, log, more, f)
    ensures SentMatches(lib, log + sent, tags + more, f)
  {
    hide Matches;
  }

  lemma GivenIsSent(lib: Library, config: TransportConfig, s: State, e: Event, f: Filter)
    requires Inv(lib, config, s) && Enabled(s, e)
    ensures SentMatches(lib, s.log, GivenNow(lib, config, s, e, f), f)
  {
    hide LeaseFromSample, FrameMatches, PlacesInv, CallsInv, CountInv, Tags, DistinctTags;
    if GivenNow(lib, config, s, e, f) != [] {
      if s.calls[e.call].LookInQueue? {
        var i := FirstIndex(s.mismatches.queue, Matcher(lib, f));
        assert Genuine(s.log, s.mismatches.queue[i]);
      } else {
        assert s.pending[0] == Item(|s.log| - |s.pending|, s.log[|s.log| - |s.pending|]);
      }
    }
  }

  lemma {:induction false} ReturnedWereSent(lib: Library, config: TransportConfig, events: seq<Event>, f: Filter)
    requires PullConcurrency.After(lib, config, events).Some?
    ensures SentMatches(lib, PullConcurrency.After(lib, config, events).value.log, ReturnedTags(lib, config, events, f), f)
  {
    if events != [] {
      hide Step, Enabled, GivenNow, SentMatches;
      var before, e := events[..|events| - 1], events[|events| - 1];
      ReturnedWereSent(lib, config, before, f);
      Conservation(lib, config, before);
      hide Inv;
      var s := PullConcurrency.After(lib, config, before).value;
      GivenIsSent(lib, config, s, e, f);
      LogGrows(lib, config, s, e);
      SentMatchesMore(lib, s.log, if e.Send? then [e.sample] else [], ReturnedTags(lib, config, before, f), GivenNow(lib, config, s, e, f), f);
      assert s.log + [] == s.log;
    }
  }

  /** Per-filter order over whole runs. Receives do not overlap each other; sends, listener polls
      and receives with other filters come anywhere between the lock-held regions, under either
      policy. Then the samples returned for a filter are matching samples that were sent, in the
      order they were sent, and none of them is returned twice. */
  lemma FifoPerFilter(lib: Library, config: TransportConfig, events: seq<Event>, f: Filter)
    requires PullConcurrency.After(lib, config, events).Some? && ReceivesApart(lib, config, events)
    ensures var log, returned := PullConcurrency.After(lib, config, events).value.log, ReturnedTags(lib, config, events, f);
            && Ascending(returned) && SentMatches(lib, log, returned, f)
            && forall k :: 0 <= k < |returned| ==>
                 && returned[k] < |log| && LeaseFromSample(lib, log[returned[k]]).Ok?
                 && var a := LeaseFromSample(lib, log[returned[k]]).value.metadata.attributes;
                    && lib.uriMatches(f.source, a.source)
                    && (f.sink.Some? ==> a.sink.Some? && lib.uriMatches(f.sink.value, a.sink.value))
  {
    hide LeaseFromSample;
    EveryRunIsInOrder(lib, config, events, f);
    ReturnedWereSent(lib, config, events, f);
  }

  /** The one list over whole runs, under the same conditions. What can still be received is one list
      in the order of sending. A receive that ends returns the oldest match of the list at that
      moment and takes it out, or reports NOT_FOUND when the list has none, or loses the one sample
      that is unreadable or behind the capacity. */
  lemma ReceiveTakesFromOneList(lib: Library, config: TransportConfig, events: seq<Event>, call: nat, f: Filter)
    requires PullConcurrency.After(lib, config, events).Some? && ReceivesApart(lib, config, events)
    requires var calls := PullConcurrency.After(lib, config, events).value.calls;
             call in calls && FilterOf(calls[call]) == Some(f)
    ensures var s := PullConcurrency.After(lib, config, events).value;
            var after, out := Advance(lib, config, s, call), TakenOut(lib, config, s, Continue(call));
            && Sorted(Line(s))
            && (out.Some? ==> out.value < |Line(s)|)
            && Line(after) == (if out.Some? then RemoveAt(Line(s), out.value) else Line(s))
            && (after.calls[call].Done? ==>
                  EndsOn(lib, Line(s), f, config.pullMismatchQueueCapacity, after.calls[call].result, out))
  {
    EveryRunIsInOrder(lib, config, events, f);
    Conservation(lib, config, events);
    var s := PullConcurrency.After(lib, config, events).value;
    QueueIsBounded(lib, config, s);
    SearchIsOne(lib, s.calls, s.mismatches.queue);
    hide Inv, SearchInv, PullConcurrency.After, Matches, Readable, Line, TakenOut, OneReceive, Sorted, EndsOn, RemoveAt;
    EventOnOneList(lib, config, s, Continue(call));
    ReceiveEnds(lib, config, s, call, f);
  }

  // ------------------------------------------------------------ receives that overlap

  ghost predicate FiltersFrom(events: seq<Event>, g: iset<Filter>) {
    forall k :: 0 <= k < |events| && events[k].StartReceive? ==> events[k].filter in g
  }

  /** A mismatch is never kept, or every filter in use takes what `f` takes. */
  ghost predicate NeverSetAside(lib: Library, config: TransportConfig, f: Filter, g: iset<Filter>) {
    || config.pullMismatchQueueCapacity == 0
    || forall h, sample :: h in g && Matches(lib, sample, f) ==> Matches(lib, sample, h)
  }

  /** Receives use the given filters, and what a receive has in hand does not match its filter. */
  ghost predicate CallsUse(lib: Library, calls: map<nat, Pc>, g: iset<Filter>) {
    forall c :: c in calls ==>
      && (FilterOf(calls[c]).Some? ==> FilterOf(calls[c]).value in g)
      && (calls[c].KeepMismatch? ==> !Matches(lib, calls[c].held.sample, calls[c].filter))
  }

  /** Nothing that matches `f` is retained, and what was returned for `f` was sent before everything
      that is pending. */
  ghost predicate OverlapInv(lib: Library, s: State, returned: seq<nat>, f: Filter, g: iset<Filter>) {
    && CallsUse(lib, s.calls, g) && NoMatch(lib, s.mismatches.queue, f)
    && |s.pending| <= |s.log| && Ascending(returned) && AllBelow(returned, |s.log| - |s.pending|)
  }

  lemma CallUses(lib: Library, config: TransportConfig, s: State, call: nat, g: iset<Filter>)
    requires CallsUse(lib, s.calls, g) && call in s.calls
    ensures CallsUse(lib, Advance(lib, config, s, call).calls, g)
  {
    hide LeaseFromSample, FrameMatches, PopMatch, PushMismatch;
  }

  /** No match for `f` gets into the queue. */
  lemma QueueStaysClear(lib: Library, config: TransportConfig, s: State, call: nat, f: Filter, g: iset<Filter>)
    requires NeverSetAside(lib, config, f, g) && call in s.calls
    requires CallsUse(lib, s.calls, g) && NoMatch(lib, s.mismatches.queue, f)
    requires |s.mismatches.queue| <= config.pullMismatchQueueCapacity
    ensures NoMatch(lib, Advance(lib, config, s, call).mismatches.queue, f)
  {
    hide Matches, Readable;
    if s.calls[call].KeepMismatch? {
      var item := s.calls[call].held;
      if config.pullMismatchQueueCapacity > 0 {
        assert !Matches(lib, item.sample, f);
        NoMatchMore(lib, s.mismatches.queue, item, f);
        KeptKnown(lib, config, s.mismatches, item, f);
      }
    }
  }

  /** A receive with `f` returns the front of the FIFO, if anything. */
  lemma GivenIsFront(lib: Library, config: TransportConfig, s: State, call: nat, f: Filter)
    requires NoMatch(lib, s.mismatches.queue, f) && call in s.calls
    ensures var given, after := GivenNow(lib, config, s, Continue(call), f), Advance(lib, config, s, call);
            && |after.pending| <= |s.pending| && after.log == s.log
            && (given != [] ==> s.pending != [] && given == [s.pending[0].tag] && |after.pending| == |s.pending| - 1)
  {
    PopsNothing(lib, s.mismatches, f);
    hide Matches, Readable, PopMatch, PushMismatch, NoMatch;
  }

  lemma PopsNothing(lib: Library, m: QueueState<Item>, f: Filter)
    requires NoMatch(lib, m.queue, f)
    ensures PopMatch(m, Matcher(lib, f)).1 == None
  {
    hide Matches;
    var i := FirstIndex(m.queue, Matcher(lib, f));
    assert forall k :: 0 <= k < |m.queue| ==> !Matcher(lib, f)(m.queue[k]);
  }

  lemma OverlapKeeps(lib: Library, config: TransportConfig, s: State, e: Event, returned: seq<nat>, f: Filter, g: iset<Filter>)
    requires NeverSetAside(lib, config, f, g) && Inv(lib, config, s) && OverlapInv(lib, s, returned, f, g)
    requires Enabled(s, e) && (e.StartReceive? ==> e.filter in g)
    ensures OverlapInv(lib, Step(lib, config, s, e), returned + GivenNow(lib, config, s, e, f), f, g)
  {
    QueueIsBounded(lib, config, s);
    FrontNumber(lib, config, s);
    hide Inv, NoMatch, Matches, Readable, NeverSetAside;
    assert returned + [] == returned;
    if e.Continue? {
      CallUses(lib, config, s, e.call, g);
      QueueStaysClear(lib, config, s, e.call, f, g);
      GivenIsFront(lib, config, s, e.call, f);
      hide Advance, GivenNow, CallsUse;
      if GivenNow(lib, config, s, e, f) != [] {
        AscendingMore(returned, s.pending[0].tag);
      }
    }
  }

  lemma FrontNumber(lib: Library, config: TransportConfig, s: State)
    requires Inv(lib, config, s)
    ensures |s.pending| <= |s.log| && (s.pending != [] ==> s.pending[0].tag == |s.log| - |s.pending|)
  {
    hide LeaseFromSample, PlacesInv, QueueInv, CallsInv, CountInv;
  }

  lemma {:induction false} OverlapInOrder(lib: Library, config: TransportConfig, events: seq<Event>, f: Filter, g: iset<Filter>)
    requires NeverSetAside(lib, config, f, g) && FiltersFrom(events, g)
    ensures var s := PullConcurrency.After(lib, config, events);
            s.Some? ==> OverlapInv(lib, s.value, ReturnedTags(lib, config, events, f), f, g)
  {
    if events != [] {
      hide OverlapInv, NeverSetAside, Step, Enabled, GivenNow, Inv;
      var before, e := events[..|events| - 1], events[|events| - 1];
      OverlapInOrder(lib, config, before, f, g);
      Conservation(lib, config, before);
      var s := PullConcurrency.After(lib, config, before);
      if s.Some? && Enabled(s.value, e) {
        OverlapKeeps(lib, config, s.value, e, ReturnedTags(lib, config, before, f), f, g);
      }
    }
  }

  /** This run gets to this state and has returned these samples for `f`. */
  predicate GetsTo(lib: Library, config: TransportConfig, events: seq<Event>, s: State, f: Filter, returned: seq<nat>) {
    PullConcurrency.After(lib, config, events) == Some(s) && ReturnedTags(lib, config, events, f) == returned
  }

  lemma GoesOn(lib: Library, config: TransportConfig, before: seq<Event>, e: Event, s: State, next: State, f: Filter, returned: seq<nat>)
    requires GetsTo(lib, config, before, s, f, returned) && Enabled(s, e) && Step(lib, config, s, e) == next
    ensures GetsTo(lib, config, before + [e], next, f, returned + GivenNow(lib, config, s, e, f))
  {
    hide Step, Enabled, GivenNow;
    Next(lib, config, before, e, s, next);
    assert (before + [e])[..|before|] == before;
  }

  lemma GoesOnQuietly(lib: Library, config: TransportConfig, before: seq<Event>, e: Event, s: State, next: State, f: Filter, returned: seq<nat>)
    requires GetsTo(lib, config, before, s, f, returned) && Enabled(s, e) && Step(lib, config, s, e) == next
    requires GivenNow(lib, config, s, e, f) == []
    ensures GetsTo(lib, config, before + [e], next, f, returned)
  {
    hide Step, Enabled, GivenNow, GetsTo;
    GoesOn(lib, config, before, e, s, next, f, returned);
    assert returned + [] == returned;
  }

  /** A receive with filter `g` takes the first of two sent frames in hand. */
  function FirstInHand(first: seq<byte>, second: seq<byte>, g: Filter): seq<Event> {
    [Send(first)] + [Send(second)] + [StartReceive(0, g)] + [Continue(0)] + [Continue(0)]
  }

  lemma FirstIsInHand(lib: Library, config: TransportConfig, first: seq<byte>, second: seq<byte>, f: Filter, g: Filter, calls: map<nat, Pc>, place: map<nat, Place>)
    requires Readable(lib, first) && !Matches(lib, first, g)
    requires calls == map[][0 := LookInQueue(g)][0 := LookInPending(g)][0 := KeepMismatch(g, Item(0, first))]
    requires place == map[][0 := Pending][1 := Pending][0 := Held(0)]
    ensures GetsTo(lib, config, FirstInHand(first, second, g),
                   State([Item(1, second)], QueueState([], 0, 0), calls, [first, second], place), f, [])
  {
    hide LeaseFromSample, FrameMatches, GetsTo;
    var x, y, none := Item(0, first), Item(1, second), QueueState([], 0, 0);
    var p1 := map[][0 := Pending];
    var p2 := p1[1 := Pending];
    var c1 := map[][0 := LookInQueue(g)];
    var c2 := c1[0 := LookInPending(g)];
    var log := [first, second];
    assert [] + [x] == [x] && [x] + [y] == [x, y] && [x, y][1..] == [y] && [] + [first] == [first] && [first] + [second] == log;
    StartsFresh(lib, config, f);
    var e1 := [Send(first)];
    assert [] + e1 == e1;
    GoesOnQuietly(lib, config, [], Send(first), FRESH, State([x], none, map[], [first], p1), f, []);
    GoesOnQuietly(lib, config, e1, Send(second), State([x], none, map[], [first], p1), State([x, y], none, map[], log, p2), f, []);
    var e2 := e1 + [Send(second)];
    GoesOnQuietly(lib, config, e2, StartReceive(0, g), State([x, y], none, map[], log, p2), State([x, y], none, c1, log, p2), f, []);
    var e3 := e2 + [StartReceive(0, g)];
    GoesOnQuietly(lib, config, e3, Continue(0), State([x, y], none, c1, log, p2), State([x, y], none, c2, log, p2), f, []);
    var e4 := e3 + [Continue(0)];
    GoesOnQuietly(lib, config, e4, Continue(0), State([x, y], none, c2, log, p2), State([y], none, calls, log, place), f, []);
  }

  lemma StartsFresh(lib: Library, config: TransportConfig, f: Filter)
    ensures GetsTo(lib, config, [], FRESH, f, [])
  {
  }

  /** While one receive has the first frame in hand, another with filter `f` looks for one; the first
      frame is then retained, and a third receive looks for one. */
  function Overtaking(first: seq<byte>, second: seq<byte>, f: Filter, g: Filter): seq<Event> {
    FirstInHand(first, second, g) + [StartReceive(1, f)] + [Continue(1)] + [Continue(1)] + [Continue(0)]
    + [StartReceive(2, f)] + [Continue(2)]
  }

  /** A receive that sees only the second frame returns it. */
  lemma SecondIsReturned(lib: Library, config: TransportConfig, events: seq<Event>, s: State, f: Filter)
    requires GetsTo(lib, config, events, s, f, []) && 1 !in s.calls && s.mismatches.queue == []
    requires |s.pending| == 1 && Matches(lib, s.pending[0].sample, f)
    ensures var y := s.pending[0];
            GetsTo(lib, config, events + [StartReceive(1, f)] + [Continue(1)] + [Continue(1)],
                   s.(pending := [], calls := s.calls[1 := Done(Ok(Some(y)))], place := s.place[y.tag := Returned(f, 1)]), f, [y.tag])
  {
    hide LeaseFromSample, FrameMatches, GetsTo;
    var y := s.pending[0];
    var s1 := s.(calls := s.calls[1 := LookInQueue(f)]);
    var s2 := s.(calls := s.calls[1 := LookInPending(f)]);
    assert s1.calls[1 := LookInPending(f)] == s2.calls && s2.calls[1 := Done(Ok(Some(y)))] == s.calls[1 := Done(Ok(Some(y)))];
    assert s.pending[1..] == [] && [] + [y.tag] == [y.tag];
    GoesOnQuietly(lib, config, events, StartReceive(1, f), s, s1, f, []);
    GoesOnQuietly(lib, config, events + [StartReceive(1, f)], Continue(1), s1, s2, f, []);
    GoesOn(lib, config, events + [StartReceive(1, f)] + [Continue(1)], Continue(1), s2,
           s.(pending := [], calls := s.calls[1 := Done(Ok(Some(y)))], place := s.place[y.tag := Returned(f, 1)]), f, []);
  }

  /** What a receive has in hand goes to the empty queue. */
  lemma HeldIsRetained(lib: Library, config: TransportConfig, events: seq<Event>, s: State, x: Item, f: Filter, g: Filter, returned: seq<nat>)
    requires GetsTo(lib, config, events, s, f, returned) && 0 in s.calls && s.calls[0] == KeepMismatch(g, x)
    requires s.mismatches.queue == [] && config.pullMismatchQueueCapacity > 0
    ensures GetsTo(lib, config, events + [Continue(0)],
                   s.(mismatches := s.mismatches.(queue := [x]), calls := s.calls[0 := LookInPending(g)], place := s.place[x.tag := Retained]),
                   f, returned)
  {
    hide LeaseFromSample, FrameMatches, GetsTo;
    assert [] + [x] == [x];
    GoesOnQuietly(lib, config, events, Continue(0), s,
                  s.(mismatches := s.mismatches.(queue := [x]), calls := s.calls[0 := LookInPending(g)], place := s.place[x.tag := Retained]),
                  f, returned);
  }

  /** If both frames match `f` and the first does not match `g`, the second frame sent is returned
      first: the receive in between cannot see the one in hand. */
  lemma OverlapCanReorder(lib: Library, config: TransportConfig, first: seq<byte>, second: seq<byte>, f: Filter, g: Filter)
    requires Matches(lib, first, f) && Matches(lib, second, f) && !Matches(lib, first, g)
    requires config.pullMismatchQueueCapacity > 0
    ensures var run := Overtaking(first, second, f, g);
            PullConcurrency.After(lib, config, run).Some? && ReturnedTags(lib, config, run, f) == [1, 0]
  {
    var x, y := Item(0, first), Item(1, second);
    var calls := map[][0 := LookInQueue(g)][0 := LookInPending(g)][0 := KeepMismatch(g, x)];
    var place := map[][0 := Pending][1 := Pending][0 := Held(0)];
    FirstIsInHand(lib, config, first, second, f, g, calls, place);
    hide LeaseFromSample, FrameMatches, GetsTo, FirstInHand;
    var s := State([y], QueueState([], 0, 0), calls, [first, second], place);
    SecondIsReturned(lib, config, FirstInHand(first, second, g), s, f);
    var s1 := s.(pending := [], calls := calls[1 := Done(Ok(Some(y)))], place := place[1 := Returned(f, 1)]);
    var e1 := FirstInHand(first, second, g) + [StartReceive(1, f)] + [Continue(1)] + [Continue(1)];
    HeldComesBack(lib, config, e1, s1, x, f, g, [1]);
    assert [1] + [0] == [1, 0];
  }

  /** What a receive has in hand is retained, and then returned by the next receive that it matches. */
  lemma HeldComesBack(lib: Library, config: TransportConfig, events: seq<Event>, s: State, x: Item, f: Filter, g: Filter, returned: seq<nat>)
    requires GetsTo(lib, config, events, s, f, returned) && 0 in s.calls && s.calls[0] == KeepMismatch(g, x)
    requires s.mismatches.queue == [] && config.pullMismatchQueueCapacity > 0 && Matches(lib, x.sample, f) && 2 !in s.calls
    ensures var run := events + [Continue(0)] + [StartReceive(2, f)] + [Continue(2)];
            PullConcurrency.After(lib, config, run).Some? && ReturnedTags(lib, config, run, f) == returned + [x.tag]
  {
    hide GetsTo, Matches, PullConcurrency.After, ReturnedTags;
    HeldIsRetained(lib, config, events, s, x, f, g, returned);
    RetainedIsNext(lib, config, events + [Continue(0)],
                   s.(mismatches := s.mismatches.(queue := [x]), calls := s.calls[0 := LookInPending(g)], place := s.place[x.tag := Retained]),
                   f, x, returned);
  }

  /** The one retained frame is returned by the next receive that it matches. */
  lemma RetainedIsNext(lib: Library, config: TransportConfig, events: seq<Event>, s: State, f: Filter, x: Item, returned: seq<nat>)
    requires GetsTo(lib, config, events, s, f, returned) && s.mismatches.queue == [x] && Matches(lib, x.sample, f) && 2 !in s.calls
    ensures var run := events + [StartReceive(2, f)] + [Continue(2)];
            PullConcurrency.After(lib, config, run).Some? && ReturnedTags(lib, config, run, f) == returned + [x.tag]
  {
    var s1 := Step(lib, config, s, StartReceive(2, f));
    GoesOnQuietly(lib, config, events, StartReceive(2, f), s, s1, f, returned);
    assert FirstIndex([x], Matcher(lib, f)) == 0 by { hide Matches; }
    hide Matches, PullConcurrency.After, ReturnedTags, FirstIndex;
    GoesOn(lib, config, events + [StartReceive(2, f)], Continue(2), s1, Step(lib, config, s1, Continue(2)), f, returned);
  }

  /** Every interleaving of receives with filters from `g` returns the samples for `f` in the order
      they were sent. */
  ghost predicate OrderSurvives(lib: Library, config: TransportConfig, f: Filter, g: iset<Filter>) {
    forall events :: FiltersFrom(events, g) && PullConcurrency.After(lib, config, events).Some? ==>
      Ascending(ReturnedTags(lib, config, events, f))
  }

  lemma CanBeOvertaken(lib: Library, config: TransportConfig, f: Filter, g: iset<Filter>, h: Filter, x: seq<byte>)
    requires f in g && h in g && Matches(lib, x, f) && !Matches(lib, x, h)
    requires config.pullMismatchQueueCapacity > 0
    ensures !OrderSurvives(lib, config, f, g)
  {
    var run := Overtaking(x, x, f, h);
    assert FiltersFrom(run, g) by { OvertakingUses(x, f, h, g); }
    OverlapCanReorder(lib, config, x, x, f, h);
    Descends();
    hide Overtaking, Matches, Ascending, PullConcurrency.After, ReturnedTags, FiltersFrom;
    assert OrderSurvives(lib, config, f, g) ==> Ascending(ReturnedTags(lib, config, run, f));
  }

  lemma OvertakingUses(x: seq<byte>, f: Filter, h: Filter, g: iset<Filter>)
    requires f in g && h in g
    ensures FiltersFrom(Overtaking(x, x, f, h), g)
  {
  }

  /** When order survives overlap, exactly: if and only if the queue has no capacity or every filter
      in use takes everything that `f` takes. */
  lemma OrderSurvivesOverlapIff(lib: Library, config: TransportConfig, f: Filter, g: iset<Filter>)
    requires f in g
    ensures OrderSurvives(lib, config, f, g) <==> NeverSetAside(lib, config, f, g)
  {
    hide Matches, Ascending, PullConcurrency.After, ReturnedTags, FiltersFrom, OrderSurvives;
    if NeverSetAside(lib, config, f, g) {
      OrderSurvivesIf(lib, config, f, g);
    } else {
      var h, x :| h in g && Matches(lib, x, f) && !Matches(lib, x, h);
      CanBeOvertaken(lib, config, f, g, h, x);
    }
  }

  lemma OrderSurvivesIf(lib: Library, config: TransportConfig, f: Filter, g: iset<Filter>)
    requires NeverSetAside(lib, config, f, g)
    ensures OrderSurvives(lib, config, f, g)
  {
    hide NeverSetAside, Ascending, PullConcurrency.After, ReturnedTags, FiltersFrom;
    forall events | FiltersFrom(events, g) && PullConcurrency.After(lib, config, events).Some?
      ensures Ascending(ReturnedTags(lib, config, events, f))
    {
      OverlapInOrder(lib, config, events, f, g);
    }
  }

  lemma Descends()
    ensures !Ascending([1, 0])
  {
    var tags: seq<nat> := [1, 0];
    assert tags[0] >= tags[1];
  }
}
