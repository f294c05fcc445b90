/** The native owner pools: fixed slots behind a mutex and a reference count that lets the pool
    outlive its transport. Threads interleave at every micro-step: taking the lock, setting or
    clearing a flag, unlocking, changing the count, deleting. The two pools are the same code. */
module PoolLifetime {
  import opened Base
  import opened Sets

  /** Where a thread stands in its use of one slot. */
  datatype Pc =
    | WantSlot
    | Scanning
    | Flagged(slot: nat)
    | Counted(slot: nat)
    | Owning(slot: nat)
    | WantRelease(slot: nat)
    | Clearing(slot: nat)
    | Cleared
    | Uncounting
    | Deleting
    | Done

  datatype TransportPc = Live | Dropping | TransportDeleting | Gone

  datatype State = State(
    capacity: nat,
    inUse: set<nat>,
    refs: int,
    lock: Option<nat>,
    transport: TransportPc,
    threads: map<nat, Pc>,
    deletions: nat)

  datatype Event =
    | Acquire(thread: nat)
    | Release(thread: nat)
    | Continue(thread: nat)
    | DropTransport
    | ContinueDrop

  function Fresh(capacity: nat): State {
    State(capacity, {}, 1, None, Live, map[], 0)
  }

  /** Threads inside an acquire. They borrow the transport, so it cannot be dropped under them. */
  predicate Acquiring(pc: Pc) {
    pc.WantSlot? || pc.Scanning? || pc.Flagged? || pc.Counted?
  }

  predicate HoldsLock(pc: Pc) {
    pc.Scanning? || pc.Flagged? || pc.Counted? || pc.Clearing? || pc.Cleared?
  }

  /** Threads a slot in use belongs to. */
  predicate HasSlot(pc: Pc) {
    pc.Flagged? || pc.Counted? || pc.Owning? || pc.WantRelease? || pc.Clearing?
  }

  /** Threads that have a reference of their own. */
  predicate HasRef(pc: Pc) {
    pc.Counted? || pc.Owning? || pc.WantRelease? || pc.Clearing? || pc.Cleared? || pc.Uncounting?
  }

  /** A thread blocks on the mutex, and rests while it owns its slot or is done. */
  predicate CanContinue(s: State, pc: Pc) {
    if pc.WantSlot? || pc.WantRelease? then s.lock == None else !pc.Owning? && !pc.Done?
  }

  predicate Enabled(s: State, e: Event) {
    match e
    case Acquire(thread) => s.transport == Live && (thread in s.threads ==> s.threads[thread] == Done)
    case Release(thread) => thread in s.threads && s.threads[thread].Owning?
    case Continue(thread) => thread in s.threads && CanContinue(s, s.threads[thread])
    case DropTransport => s.transport == Live && forall t :: t in s.threads ==> !Acquiring(s.threads[t])
    case ContinueDrop => s.transport == Dropping || s.transport == TransportDeleting
  }

  /** The first slot that is not in use, as the scan finds it. */
  function FreeSlot(inUse: set<nat>, capacity: nat, from: nat): (r: Option<nat>)
    requires from <= capacity
    ensures r.Some? ==> from <= r.value < capacity && r.value !in inUse
                        && forall i :: from <= i < r.value ==> i in inUse
    ensures r.None? ==> forall i :: from <= i < capacity ==> i in inUse
    decreases capacity - from
  {
    if from == capacity then None else if from !in inUse then Some(from) else FreeSlot(inUse, capacity, from + 1)
  }

  /** The next micro-step of a thread. */
  function Advance(s: State, thread: nat): State
    requires thread in s.threads
  {
    match s.threads[thread]
    case WantSlot => s.(lock := Some(thread), threads := s.threads[thread := Scanning])
    case Scanning =>
      (match FreeSlot(s.inUse, s.capacity, 0)
       case None => s.(lock := None, threads := s.threads[thread := Done])
       case Some(slot) => s.(inUse := s.inUse + {slot}, threads := s.threads[thread := Flagged(slot)]))
    case Flagged(slot) => s.(refs := s.refs + 1, threads := s.threads[thread := Counted(slot)])
    case Counted(slot) => s.(lock := None, threads := s.threads[thread := Owning(slot)])
    case WantRelease(slot) => s.(lock := Some(thread), threads := s.threads[thread := Clearing(slot)])
    case Clearing(slot) =>
      if slot in s.inUse then s.(inUse := s.inUse - {slot}, threads := s.threads[thread := Cleared])
      else s.(lock := None, threads := s.threads[thread := Done])
    case Cleared => s.(lock := None, threads := s.threads[thread := Uncounting])
    case Uncounting => s.(refs := s.refs - 1, threads := s.threads[thread := if s.refs == 1 then Deleting else Done])
    case Deleting => s.(deletions := s.deletions + 1, threads := s.threads[thread := Done])
    case Owning(_) => s
    case Done => s
  }

  function Step(s: State, e: Event): State
    requires Enabled(s, e)
  {
    match e
    case Acquire(thread) => s.(threads := s.threads[thread := WantSlot])
    case Release(thread) => s.(threads := s.threads[thread := WantRelease(s.threads[thread].slot)])
    case Continue(thread) => Advance(s, thread)
    case DropTransport => s.(transport := Dropping)
    case ContinueDrop =>
      if s.transport == Dropping then s.(refs := s.refs - 1, transport := if s.refs == 1 then TransportDeleting else Gone)
      else s.(deletions := s.deletions + 1, transport := Gone)
  }

  function After(capacity: nat, events: seq<Event>): Option<State> {
    if events == [] then Some(Fresh(capacity))
    else
      match After(capacity, events[..|events| - 1])
      case None => None
      case Some(s) =>
        var e := events[|events| - 1];
        if Enabled(s, e) then Some(Step(s, e)) else None
  }

  // ------------------------------------------------------------------- counting threads

  /** The threads with their own reference. */
  function Referring(threads: map<nat, Pc>): set<nat> {
    set t | t in threads && HasRef(threads[t])
  }

  function FlaggedThreads(threads: map<nat, Pc>): set<nat> {
    set t | t in threads && threads[t].Flagged?
  }

  /** The threads between clearing the flag and giving the reference back. */
  function ReleasingThreads(threads: map<nat, Pc>): set<nat> {
    set t | t in threads && (threads[t].Cleared? || threads[t].Uncounting?)
  }

  function DeletingThreads(threads: map<nat, Pc>): set<nat> {
    set t | t in threads && threads[t].Deleting?
  }

  function SlotThreads(threads: map<nat, Pc>): set<nat> {
    set t | t in threads && HasSlot(threads[t])
  }

  function TransportRef(s: State): nat {
    if s.transport == Live || s.transport == Dropping then 1 else 0
  }

  function Deleters(s: State): nat {
    |DeletingThreads(s.threads)| + if s.transport == TransportDeleting then 1 else 0
  }

  /** Each slot in use belongs to exactly one thread, and each thread's slot is in use. */
  ghost predicate SlotsInv(s: State) {
    && (forall t :: t in s.threads && HasSlot(s.threads[t]) ==> s.threads[t].slot in s.inUse)
    && (forall t, u :: t in SlotThreads(s.threads) && u in SlotThreads(s.threads) && t != u ==>
          s.threads[t].slot != s.threads[u].slot)
    && (forall i :: i in s.inUse ==> i < s.capacity)
    && |s.inUse| == |SlotThreads(s.threads)|
  }

  ghost predicate LockInv(s: State) {
    forall t :: (t in s.threads && HoldsLock(s.threads[t])) <==> s.lock == Some(t)
  }

  /** The count is the references held, and its reaching zero stands for exactly one deletion,
      under way or done. */
  predicate RefsInv(s: State) {
    && s.refs == TransportRef(s) + |Referring(s.threads)|
    && s.deletions + Deleters(s) == (if s.refs == 0 then 1 else 0)
    && (forall t :: t in s.threads && Acquiring(s.threads[t]) ==> s.transport == Live)
  }

  ghost predicate Inv(s: State) {
    SlotsInv(s) && LockInv(s) && RefsInv(s)
  }

  function WithIf(threads: set<nat>, t: nat, member: bool): set<nat> {
    if member then threads + {t} else threads - {t}
  }

  lemma ThreadMoves(threads: map<nat, Pc>, t: nat, pc: Pc)
    ensures Referring(threads[t := pc]) == WithIf(Referring(threads), t, HasRef(pc))
    ensures DeletingThreads(threads[t := pc]) == WithIf(DeletingThreads(threads), t, pc.Deleting?)
    ensures SlotThreads(threads[t := pc]) == WithIf(SlotThreads(threads), t, HasSlot(pc))
  {
  }

  lemma SizeWithIf(threads: set<nat>, t: nat, member: bool)
    ensures |WithIf(threads, t, member)| == |threads| + (if member && t !in threads then 1 else 0)
                                            - (if !member && t in threads then 1 else 0)
  {
    if member && t in threads {
      assert threads + {t} == threads;
    } else if !member && t !in threads {
      assert threads - {t} == threads;
    }
  }

  /** How the three counts change when a thread moves on. */
  lemma CountsMove(threads: map<nat, Pc>, t: nat, pc: Pc)
    ensures var had := t in threads;
            && |Referring(threads[t := pc])| == |Referring(threads)| + (if HasRef(pc) then 1 else 0)
                                                - (if had && HasRef(threads[t]) then 1 else 0)
            && |DeletingThreads(threads[t := pc])| == |DeletingThreads(threads)| + (if pc.Deleting? then 1 else 0)
                                                      - (if had && threads[t].Deleting? then 1 else 0)
            && |SlotThreads(threads[t := pc])| == |SlotThreads(threads)| + (if HasSlot(pc) then 1 else 0)
                                                  - (if had && HasSlot(threads[t]) then 1 else 0)
  {
    ThreadMoves(threads, t, pc);
    SizeWithIf(Referring(threads), t, HasRef(pc));
    SizeWithIf(DeletingThreads(threads), t, pc.Deleting?);
    SizeWithIf(SlotThreads(threads), t, HasSlot(pc));
  }

  /** A thread moves on: the count follows its reference, and a deletion begun or done follows the
      count reaching zero. */
  lemma MoveKeepsRefs(s: State, t: nat, pc: Pc, after: State)
    requires RefsInv(s) && t in s.threads
    requires after.transport == s.transport && after.threads == s.threads[t := pc]
    requires after.refs == s.refs + (if HasRef(pc) then 1 else 0) - (if HasRef(s.threads[t]) then 1 else 0)
    requires after.deletions + (if pc.Deleting? then 1 else 0) + (if s.refs == 0 then 1 else 0)
             == s.deletions + (if s.threads[t].Deleting? then 1 else 0) + (if after.refs == 0 then 1 else 0)
    requires Acquiring(pc) ==> s.transport == Live
    ensures RefsInv(after)
  {
    hide Referring, DeletingThreads, SlotThreads;
    CountsMove(s.threads, t, pc);
  }

  lemma ReferencesCount(s: State, t: nat)
    requires RefsInv(s) && t in s.threads
    ensures HasRef(s.threads[t]) || s.threads[t].Flagged? ==> s.refs > 0
  {
    if HasRef(s.threads[t]) {
      assert t in Referring(s.threads);
    }
  }

  lemma AdvanceKeepsRefs(s: State, t: nat)
    requires Inv(s) && t in s.threads && CanContinue(s, s.threads[t])
    ensures RefsInv(Advance(s, t))
  {
    ClearedSlotIsInUse(s, t);
    ReferencesCount(s, t);
    hide FreeSlot, Referring, DeletingThreads, SlotThreads, SlotsInv, LockInv;
    var after := Advance(s, t);
    assert Acquiring(s.threads[t]) ==> s.transport == Live;
    hide RefsInv;
    MoveKeepsRefs(s, t, after.threads[t], after);
  }

  lemma ClearedSlotIsInUse(s: State, t: nat)
    requires SlotsInv(s) && t in s.threads
    ensures s.threads[t].Clearing? ==> s.threads[t].slot in s.inUse
  {
    assert s.threads[t].Clearing? ==> HasSlot(s.threads[t]);
  }

  lemma SlotStays(s: State, t: nat, after: State)
    requires SlotsInv(s) && t in s.threads
    requires after.inUse == s.inUse && after.capacity == s.capacity && t in after.threads
    requires after.threads == s.threads[t := after.threads[t]]
    requires HasSlot(after.threads[t]) == HasSlot(s.threads[t])
    requires HasSlot(s.threads[t]) ==> after.threads[t].slot == s.threads[t].slot
    ensures SlotsInv(after)
  {
    assert SlotThreads(after.threads) == SlotThreads(s.threads);
  }

  lemma SlotTaken(s: State, t: nat, slot: nat, after: State)
    requires SlotsInv(s) && t in s.threads && !HasSlot(s.threads[t]) && slot !in s.inUse && slot < s.capacity
    requires after.inUse == s.inUse + {slot} && after.capacity == s.capacity
    requires after.threads == s.threads[t := Flagged(slot)]
    ensures SlotsInv(after)
  {
    hide WithIf;
    CountsMove(s.threads, t, Flagged(slot));
    assert |after.inUse| == |s.inUse| + 1;
    forall u, v | u in SlotThreads(after.threads) && v in SlotThreads(after.threads) && u != v
      ensures after.threads[u].slot != after.threads[v].slot
    {
      assert u != t ==> u in SlotThreads(s.threads) && s.threads[u].slot in s.inUse;
      assert v != t ==> v in SlotThreads(s.threads) && s.threads[v].slot in s.inUse;
    }
  }

  lemma SlotGiven(s: State, t: nat, after: State)
    requires SlotsInv(s) && t in s.threads && HasSlot(s.threads[t])
    requires after.inUse == s.inUse - {s.threads[t].slot} && after.capacity == s.capacity
    requires after.threads == s.threads[t := Cleared]
    ensures SlotsInv(after)
  {
    hide WithIf;
    CountsMove(s.threads, t, Cleared);
    assert t in SlotThreads(s.threads);
    assert |after.inUse| == |s.inUse| - 1;
    forall u | u in after.threads && HasSlot(after.threads[u]) ensures after.threads[u].slot in after.inUse {
      assert u in SlotThreads(s.threads);
    }
    forall u, v | u in SlotThreads(after.threads) && v in SlotThreads(after.threads) && u != v
      ensures after.threads[u].slot != after.threads[v].slot
    {
      assert u in SlotThreads(s.threads) && v in SlotThreads(s.threads);
    }
  }

  lemma AdvanceKeepsSlots(s: State, t: nat)
    requires Inv(s) && t in s.threads && CanContinue(s, s.threads[t])
    ensures SlotsInv(Advance(s, t))
  {
    ClearedSlotIsInUse(s, t);
    hide FreeSlot, SlotsInv, LockInv, RefsInv;
    var after := Advance(s, t);
    match s.threads[t]
    case Scanning =>
      if FreeSlot(s.inUse, s.capacity, 0).Some? {
        SlotTaken(s, t, FreeSlot(s.inUse, s.capacity, 0).value, after);
      } else {
        SlotStays(s, t, after);
      }
    case Clearing(_) => SlotGiven(s, t, after);
    case _ => SlotStays(s, t, after);
  }

  lemma AdvanceKeepsLock(s: State, t: nat)
    requires Inv(s) && t in s.threads && CanContinue(s, s.threads[t])
    ensures LockInv(Advance(s, t))
  {
    hide FreeSlot, RefsInv, SlotsInv;
  }

  lemma AcquireKeepsSlots(s: State, t: nat)
    requires SlotsInv(s) && Enabled(s, Acquire(t))
    ensures SlotsInv(Step(s, Acquire(t)))
  {
    assert t !in SlotThreads(s.threads);
    assert SlotThreads(s.threads[t := WantSlot]) == SlotThreads(s.threads);
  }

  lemma AcquireKeepsRest(s: State, t: nat)
    requires LockInv(s) && RefsInv(s) && Enabled(s, Acquire(t))
    ensures LockInv(Step(s, Acquire(t))) && RefsInv(Step(s, Acquire(t)))
  {
    hide Referring, DeletingThreads, SlotThreads;
    CountsMove(s.threads, t, WantSlot);
  }

  lemma ReleaseKeepsSlots(s: State, t: nat)
    requires SlotsInv(s) && Enabled(s, Release(t))
    ensures SlotsInv(Step(s, Release(t)))
  {
    assert t in SlotThreads(s.threads);
    assert SlotThreads(s.threads[t := WantRelease(s.threads[t].slot)]) == SlotThreads(s.threads);
  }

  lemma ReleaseKeepsRest(s: State, t: nat)
    requires LockInv(s) && RefsInv(s) && Enabled(s, Release(t))
    ensures LockInv(Step(s, Release(t))) && RefsInv(Step(s, Release(t)))
  {
    hide Referring, DeletingThreads, SlotThreads;
    CountsMove(s.threads, t, WantRelease(s.threads[t].slot));
  }

  lemma StepKeeps(s: State, e: Event)
    requires Inv(s) && Enabled(s, e)
    ensures Inv(Step(s, e))
  {
    match e
    case Acquire(t) =>
      hide SlotsInv, LockInv, RefsInv;
      AcquireKeepsSlots(s, t);
      AcquireKeepsRest(s, t);
    case Release(t) =>
      hide SlotsInv, LockInv, RefsInv;
      ReleaseKeepsSlots(s, t);
      ReleaseKeepsRest(s, t);
    case Continue(t) =>
      hide Advance, SlotsInv, LockInv, RefsInv;
      AdvanceKeepsRefs(s, t);
      AdvanceKeepsSlots(s, t);
      AdvanceKeepsLock(s, t);
    case DropTransport =>
      hide SlotThreads, Referring, DeletingThreads;
    case ContinueDrop =>
      hide SlotThreads, Referring, DeletingThreads;
  }

  lemma FreshInv(capacity: nat)
    ensures Inv(Fresh(capacity))
  {
    assert SlotThreads(map[]) == {} && Referring(map[]) == {} && DeletingThreads(map[]) == {};
  }

  lemma {:induction false} EveryRunKeepsInv(capacity: nat, events: seq<Event>)
    ensures After(capacity, events).Some? ==> Inv(After(capacity, events).value)
  {
    if events == [] {
      FreshInv(capacity);
    } else {
      hide Inv, Step, Enabled;
      EveryRunKeepsInv(capacity, events[..|events| - 1]);
      var before := After(capacity, events[..|events| - 1]);
      if before.Some? && Enabled(before.value, events[|events| - 1]) {
        StepKeeps(before.value, events[|events| - 1]);
      }
    }
  }

  // ------------------------------------------------------------------- the promises

  /** The reference count over every interleaving: one for the transport until it gives it back,
      one for each slot in use except where a thread has set the flag and not yet counted, plus one
      for each thread that has cleared a flag and not yet given its reference back. */
  lemma RefsCountSlots(capacity: nat, events: seq<Event>)
    requires After(capacity, events).Some?
    ensures var s := After(capacity, events).value;
            && s.refs == TransportRef(s) + |s.inUse| - |FlaggedThreads(s.threads)| + |ReleasingThreads(s.threads)|
            && |s.inUse| <= capacity
  {
    hide SlotThreads, FlaggedThreads, Referring, ReleasingThreads, After;
    EveryRunKeepsInv(capacity, events);
    CapacityIsFixed(capacity, events);
    var s := After(capacity, events).value;
    SlotAndReferenceCounts(s.threads);
    BoundedSet(s.inUse, capacity);
  }

  /** Threads with a slot and threads with a reference are the same but for the two gaps. */
  lemma SlotAndReferenceCounts(threads: map<nat, Pc>)
    ensures |SlotThreads(threads)| - |FlaggedThreads(threads)| == |Referring(threads)| - |ReleasingThreads(threads)|
  {
    var flagged, releasing := FlaggedThreads(threads), ReleasingThreads(threads);
    var both := Referring(threads) - releasing;
    DisjointUnion(both, flagged);
    DisjointUnion(both, releasing);
    assert SlotThreads(threads) == both + flagged;
    assert Referring(threads) == both + releasing;
  }

  lemma {:induction false} CapacityIsFixed(capacity: nat, events: seq<Event>)
    ensures After(capacity, events).Some? ==> After(capacity, events).value.capacity == capacity
  {
    if events != [] {
      CapacityIsFixed(capacity, events[..|events| - 1]);
    }
  }

  /** The pool is deleted at most once, and no sooner than the transport has given its reference
      back, no slot is in use and no thread is anywhere inside the pool. So no step can touch a
      deleted pool. */
  lemma NothingTouchesADeletedPool(capacity: nat, events: seq<Event>)
    requires After(capacity, events).Some?
    ensures var s := After(capacity, events).value;
            && s.deletions <= 1
            && (s.deletions == 1 ==>
                  && s.transport == Gone && s.inUse == {} && s.lock == None
                  && (forall t :: t in s.threads ==> s.threads[t] == Done)
                  && (forall e: Event :: !Enabled(s, e)))
  {
    EveryRunKeepsInv(capacity, events);
    var s := After(capacity, events).value;
    if s.deletions == 1 {
      assert Referring(s.threads) == {} && DeletingThreads(s.threads) == {};
      forall t | t in s.threads ensures s.threads[t] == Done {
        assert t !in Referring(s.threads) && t !in DeletingThreads(s.threads);
      }
      assert SlotThreads(s.threads) == {};
    }
  }

  /** And it is deleted once everything is given back: when the transport is gone and every
      thread is done, the one deletion has happened. */
  lemma PoolDoesNotLeak(capacity: nat, events: seq<Event>)
    requires After(capacity, events).Some?
    requires var s := After(capacity, events).value;
             s.transport == Gone && forall t :: t in s.threads ==> s.threads[t] == Done
    ensures After(capacity, events).value.deletions == 1
  {
    EveryRunKeepsInv(capacity, events);
    var s := After(capacity, events).value;
    assert Referring(s.threads) == {} && DeletingThreads(s.threads) == {};
  }

  /** Two threads never own the same slot, and at most one is inside the mutex. */
  lemma SlotsAreExclusive(capacity: nat, events: seq<Event>, t: nat, u: nat)
    requires After(capacity, events).Some?
    requires var s := After(capacity, events).value; t in s.threads && u in s.threads && t != u
    ensures var s := After(capacity, events).value;
            && (HasSlot(s.threads[t]) && HasSlot(s.threads[u]) ==> s.threads[t].slot != s.threads[u].slot)
            && !(HoldsLock(s.threads[t]) && HoldsLock(s.threads[u]))
  {
    EveryRunKeepsInv(capacity, events);
    var s := After(capacity, events).value;
    assert HasSlot(s.threads[t]) ==> t in SlotThreads(s.threads);
    assert HasSlot(s.threads[u]) ==> u in SlotThreads(s.threads);
  }

  // --------------------------------------------------- what one acquire and release does

  /** A scan under the mutex marks exactly one slot, the first that is free, when there is one; it
      ends without a slot exactly when every slot is in use. */
  lemma AcquireGetsAFreeSlot(capacity: nat, events: seq<Event>, t: nat)
    requires After(capacity, events).Some? && t in After(capacity, events).value.threads
    requires After(capacity, events).value.threads[t] == Scanning
    ensures var s, after := After(capacity, events).value, Step(After(capacity, events).value, Continue(t));
            if forall i :: 0 <= i < capacity ==> i in s.inUse then
              after.threads[t] == Done && after.inUse == s.inUse && after.lock == None && after.refs == s.refs
            else
              && after.threads[t].Flagged? && after.threads[t].slot < capacity && after.threads[t].slot !in s.inUse
              && (forall i :: 0 <= i < after.threads[t].slot ==> i in s.inUse)
              && after.inUse == s.inUse + {after.threads[t].slot} && after.lock == Some(t)
  {
    CapacityIsFixed(capacity, events);
    EveryRunKeepsInv(capacity, events);
    hide After;
  }

  /** A thread keeps the slot it got until it has given it back. */
  lemma SlotIsKept(s: State, e: Event, t: nat)
    requires Enabled(s, e) && t in s.threads && HasSlot(s.threads[t])
    ensures var after := Step(s, e).threads;
            t in after && (if HasSlot(after[t]) then after[t].slot == s.threads[t].slot else s.threads[t].Clearing?)
  {
  }

  /** A release clears exactly the slot of its thread, which is in use until then, and gives back
      one reference after it has left the mutex. */
  lemma ReleaseGivesItsSlot(capacity: nat, events: seq<Event>, t: nat)
    requires After(capacity, events).Some? && t in After(capacity, events).value.threads
    requires Enabled(After(capacity, events).value, Continue(t))
    ensures var s, after := After(capacity, events).value, Step(After(capacity, events).value, Continue(t));
            match s.threads[t]
            case WantRelease(slot) => after.threads[t] == Clearing(slot) && after.inUse == s.inUse && after.lock == Some(t)
            case Clearing(slot) =>
              slot in s.inUse && after.inUse == s.inUse - {slot} && after.threads[t] == Cleared && after.refs == s.refs
            case Cleared => after.lock == None && after.threads[t] == Uncounting && after.refs == s.refs && after.inUse == s.inUse
            case Uncounting => after.refs == s.refs - 1 && after.inUse == s.inUse
            case _ => true
  {
    EveryRunKeepsInv(capacity, events);
    hide After;
    var s := After(capacity, events).value;
    ClearedSlotIsInUse(s, t);
  }
}
