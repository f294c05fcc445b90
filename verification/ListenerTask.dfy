/** The listener registry and its background polling task: register and unregister calls, the
    task loop and aborts, with every lock-held region one atomic event. */
module ListenerTask {
  import opened Base
  import opened PullQueue
  import opened PullReceive

  /** Where a spawned task stands in its loop. */
  datatype TaskPc = AtCheck | AtPoll | Leaving | Finished

  /** Where a register or unregister call stands. */
  datatype CallPc =
    | Registering(registration: ListenerRegistration)
    | EnsuringTask
    | Unregistering(registration: ListenerRegistration)
    | StoppingTask
    | Returned(result: Result<()>)

  datatype State = State(
    registry: seq<ListenerRegistration>,
    slot: Option<nat>,
    tasks: map<nat, TaskPc>,
    aborted: set<nat>,
    nextTask: nat,
    calls: map<nat, CallPc>)

  datatype Event =
    | Register(call: nat, registration: ListenerRegistration)
    | Unregister(call: nat, registration: ListenerRegistration)
    | Continue(call: nat, hasRuntime: bool)
    | RunTask(task: nat)
    | AbortLands(task: nat)

  const FRESH := State([], None, map[], {}, 0, map[])

  predicate InProgress(s: State, call: nat) {
    call in s.calls && !s.calls[call].Returned?
  }

  ghost predicate Quiescent(s: State) {
    forall c :: c in s.calls ==> s.calls[c].Returned?
  }

  /** Events that are possible. When `serial`, a call may only start while none is in progress. */
  ghost predicate Enabled(s: State, e: Event, serial: bool) {
    match e
    case Register(call, _) => call !in s.calls && (serial ==> Quiescent(s))
    case Unregister(call, _) => call !in s.calls && (serial ==> Quiescent(s))
    case Continue(call, _) => InProgress(s, call)
    case RunTask(task) => task in s.tasks && s.tasks[task] != Finished
    case AbortLands(task) => task in s.tasks && task in s.aborted && s.tasks[task] != Finished
  }

  /** The next region of a call. A task can only be started where there is a runtime; without
      one the call fails, and the registration it has made before stays. */
  function Advance(s: State, call: nat, hasRuntime: bool): State
    requires InProgress(s, call)
  {
    match s.calls[call]
    case Registering(registration) =>
      if registration in s.registry then s.(calls := s.calls[call := Returned(Err(AlreadyExists))])
      else s.(registry := s.registry + [registration], calls := s.calls[call := EnsuringTask])
    case EnsuringTask =>
      var done := s.calls[call := Returned(Ok(()))];
      if s.slot.Some? && s.slot.value in s.tasks && s.tasks[s.slot.value] != Finished then s.(calls := done)
      else if !hasRuntime then s.(calls := s.calls[call := Returned(Err(FailedPrecondition))])
      else s.(slot := Some(s.nextTask), tasks := s.tasks[s.nextTask := AtCheck], nextTask := s.nextTask + 1, calls := done)
    case Unregistering(registration) =>
      var i := FirstIndex(s.registry, (r: ListenerRegistration) => r == registration);
      if i == |s.registry| then s.(calls := s.calls[call := Returned(Err(NotFound))])
      else
        var rest := RemoveAt(s.registry, i);
        s.(registry := rest, calls := s.calls[call := if rest == [] then StoppingTask else Returned(Ok(()))])
    case StoppingTask =>
      var done := s.calls[call := Returned(Ok(()))];
      if s.slot.Some? then s.(slot := None, aborted := s.aborted + {s.slot.value}, calls := done) else s.(calls := done)
  }

  /** One step of a task: the loop leaves when it finds the registry empty. */
  function TaskStep(s: State, task: nat): TaskPc
    requires task in s.tasks
  {
    match s.tasks[task]
    case AtCheck => if s.registry == [] then Leaving else AtPoll
    case AtPoll => AtCheck
    case Leaving => Finished
    case Finished => Finished
  }

  function Step(s: State, e: Event): State {
    match e
    case Register(call, registration) => s.(calls := s.calls[call := Registering(registration)])
    case Unregister(call, registration) => s.(calls := s.calls[call := Unregistering(registration)])
    case Continue(call, hasRuntime) => if InProgress(s, call) then Advance(s, call, hasRuntime) else s
    case RunTask(task) => if task in s.tasks then s.(tasks := s.tasks[task := TaskStep(s, task)]) else s
    case AbortLands(task) => s.(tasks := s.tasks[task := Finished])
  }

  /** The state an interleaving of events leads to, if every event is possible where it stands. */
  ghost function After(events: seq<Event>, serial: bool): Option<State> {
    if events == [] then Some(FRESH)
    else
      match After(events[..|events| - 1], serial)
      case None => None
      case Some(s) =>
        var e := events[|events| - 1];
        if Enabled(s, e, serial) then Some(Step(s, e)) else None
  }

  // ------------------------------------------------------------ registrations are distinct

  predicate Distinct(registry: seq<ListenerRegistration>) {
    forall i, j :: 0 <= i < j < |registry| ==> registry[i] != registry[j]
  }

  lemma RemoveKeepsDistinct(registry: seq<ListenerRegistration>, i: nat)
    requires Distinct(registry) && i < |registry|
    ensures Distinct(RemoveAt(registry, i)) && registry[i] !in RemoveAt(registry, i)
  {
    var r := RemoveAt(registry, i);
    assert forall k :: 0 <= k < |r| ==> r[k] == registry[if k < i then k else k + 1];
  }

  lemma StepKeepsDistinct(s: State, e: Event)
    requires Distinct(s.registry)
    ensures Distinct(Step(s, e).registry)
  {
    if e.Continue? && InProgress(s, e.call) && s.calls[e.call].Unregistering? {
      var registration := s.calls[e.call].registration;
      var i := FirstIndex(s.registry, (r: ListenerRegistration) => r == registration);
      if i < |s.registry| {
        RemoveKeepsDistinct(s.registry, i);
      }
    }
  }

  /** No two registrations are ever equal, however calls overlap. */
  lemma {:induction false} RegistrationsDistinct(events: seq<Event>, serial: bool)
    ensures After(events, serial).Some? ==> Distinct(After(events, serial).value.registry)
  {
    if events != [] {
      hide Step, Enabled, Distinct;
      RegistrationsDistinct(events[..|events| - 1], serial);
      var before := After(events[..|events| - 1], serial);
      if before.Some? {
        StepKeepsDistinct(before.value, events[|events| - 1]);
      }
    } else {
      assert FRESH.registry == [];
    }
  }

  // ------------------------------------------------- each call acts on its own registration

  /** A call in progress still works on what it was called with. */
  predicate Remembers(s: State, e: Event) {
    match e
    case Register(call, registration) =>
      call in s.calls && (s.calls[call] == Registering(registration) || s.calls[call].EnsuringTask? || s.calls[call].Returned?)
    case Unregister(call, registration) =>
      call in s.calls && (s.calls[call] == Unregistering(registration) || s.calls[call].StoppingTask? || s.calls[call].Returned?)
    case _ => true
  }

  lemma StepRemembers(s: State, e: Event, earlier: Event, serial: bool)
    requires Remembers(s, earlier) && Enabled(s, e, serial)
    ensures Remembers(Step(s, e), earlier)
  {
  }

  lemma StartIsRemembered(s: State, e: Event, serial: bool)
    requires Enabled(s, e, serial)
    ensures Remembers(Step(s, e), e)
  {
  }

  lemma {:induction false} CallsRemember(events: seq<Event>, e: Event, serial: bool)
    requires After(events, serial).Some? && e in events
    ensures Remembers(After(events, serial).value, e)
  {
    hide Step, Enabled, Remembers;
    var before, last := events[..|events| - 1], events[|events| - 1];
    if e == last {
      StartIsRemembered(After(before, serial).value, last, serial);
    } else {
      assert events == before + [last];
      CallsRemember(before, e, serial);
      StepRemembers(After(before, serial).value, last, e, serial);
    }
  }

  /** A register call adds its own registration at the end, or is refused because it is there; the
      end of the call leaves the registry alone. */
  lemma RegisterAddsItsOwn(events: seq<Event>, serial: bool, call: nat, registration: ListenerRegistration, hasRuntime: bool)
    requires After(events, serial).Some? && Register(call, registration) in events
    requires InProgress(After(events, serial).value, call)
    ensures var s := After(events, serial).value;
            var after := Advance(s, call, hasRuntime);
            if s.calls[call] == EnsuringTask then after.registry == s.registry
            else if registration in s.registry then
              after.registry == s.registry && after.calls[call] == Returned(Err(AlreadyExists))
            else
              after.registry == s.registry + [registration] && after.calls[call] == EnsuringTask
  {
    CallsRemember(events, Register(call, registration), serial);
  }

  /** An unregister call takes out its own registration and no other, or ends with NOT_FOUND because
      it is not there; it goes on to stop the task exactly when nothing is left. */
  lemma UnregisterTakesItsOwn(events: seq<Event>, serial: bool, call: nat, registration: ListenerRegistration, hasRuntime: bool)
    requires After(events, serial).Some? && Unregister(call, registration) in events
    requires InProgress(After(events, serial).value, call)
    ensures var s := After(events, serial).value;
            var after := Advance(s, call, hasRuntime);
            if s.calls[call] == StoppingTask then after.registry == s.registry && after.calls[call] == Returned(Ok(()))
            else if registration !in s.registry then
              after.registry == s.registry && after.calls[call] == Returned(Err(NotFound))
            else
              && registration !in after.registry
              && (exists i :: 0 <= i < |s.registry| && s.registry[i] == registration
                    && after.registry == s.registry[..i] + s.registry[i + 1..])
              && after.calls[call] == if |s.registry| == 1 then StoppingTask else Returned(Ok(()))
  {
    CallsRemember(events, Unregister(call, registration), serial);
    RegistrationsDistinct(events, serial);
    hide After;
    var s := After(events, serial).value;
    if s.calls[call].Unregistering? {
      IndexOf(s.registry, registration);
      var i := FirstIndex(s.registry, (r: ListenerRegistration) => r == registration);
      if i < |s.registry| {
        RemoveKeepsDistinct(s.registry, i);
      }
    }
  }

  lemma IndexOf(registry: seq<ListenerRegistration>, registration: ListenerRegistration)
    ensures var i := FirstIndex(registry, (r: ListenerRegistration) => r == registration);
            (i < |registry| <==> registration in registry) && (i < |registry| ==> registry[i] == registration)
  {
    var p := (r: ListenerRegistration) => r == registration;
    var i := FirstIndex(registry, p);
    assert forall k :: 0 <= k < i ==> !p(registry[k]);
  }

  /** Nothing but these calls changes the registry. */
  lemma OthersLeaveRegistry(s: State, e: Event)
    requires !e.Continue?
    ensures Step(s, e).registry == s.registry
  {
  }

  /** A task that looks at the registry stays in its loop exactly while something is registered; one
      that has polled looks again. */
  lemma TaskStaysIffRegistered(s: State, task: nat, serial: bool)
    requires Enabled(s, RunTask(task), serial)
    ensures var after := Step(s, RunTask(task)).tasks[task];
            && (s.tasks[task] == AtCheck ==> ((after == AtPoll) <==> s.registry != []) && (after == Leaving <==> s.registry == []))
            && (s.tasks[task] == AtPoll ==> after == AtCheck)
            && (s.tasks[task] == Leaving ==> after == Finished)
  {
  }

  // ---------------------------------------------------------------- the task invariant

  /** A task that is in its loop and that nobody has aborted. */
  predicate Polling(s: State, task: nat) {
    task in s.tasks && task !in s.aborted && (s.tasks[task] == AtCheck || s.tasks[task] == AtPoll)
  }

  /** The task slot holds a polling task. */
  predicate SlotPolls(s: State) {
    s.slot.Some? && Polling(s, s.slot.value)
  }

  /** The task slot holds a task that is not finished. */
  predicate TaskRuns(s: State) {
    s.slot.Some? && s.slot.value in s.tasks && s.tasks[s.slot.value] != Finished
  }

  // ------------------------------------------------- when registered listeners are served

  predicate EndsRegister(s: State, e: Event) {
    e.Continue? && InProgress(s, e.call) && s.calls[e.call] == EnsuringTask
  }

  /** The regions that leave registered listeners without a polling task: a stop while something is
      registered, and the end of a register call that finds no polling task and starts none, either
      for want of a runtime or because the old task has decided to leave and is not finished yet. */
  predicate Lapses(s: State, e: Event) {
    || (e.Continue? && InProgress(s, e.call) && s.calls[e.call] == StoppingTask && s.registry != [])
    || (EndsRegister(s, e) && !SlotPolls(s) && (TaskRuns(s) || !e.hasRuntime))
  }

  /** Whether such a region has run and no register call has since ended otherwise. */
  ghost predicate Lapsed(events: seq<Event>, serial: bool) {
    events != [] && After(events[..|events| - 1], serial).Some?
    && var s, e := After(events[..|events| - 1], serial).value, events[|events| - 1];
       Lapses(s, e) || (!EndsRegister(s, e) && Lapsed(events[..|events| - 1], serial))
  }

  ghost predicate SlotInv(s: State) {
    && (forall t :: t in s.tasks || t in s.aborted || s.slot == Some(t) ==> t < s.nextTask)
    && (s.slot.Some? ==> s.slot.value !in s.aborted)
  }

  ghost predicate LapseInv(s: State, lapsed: bool) {
    && SlotInv(s)
    && (lapsed ==> !SlotPolls(s))
    && (!lapsed && s.registry != [] ==>
          SlotPolls(s) || exists c :: InProgress(s, c) && s.calls[c] == EnsuringTask)
  }

  lemma SlotKeeps(s: State, e: Event, serial: bool)
    requires SlotInv(s) && Enabled(s, e, serial)
    ensures SlotInv(Step(s, e))
  {
  }

  lemma LapseKeeps(s: State, e: Event, serial: bool, lapsed: bool)
    requires LapseInv(s, lapsed) && Enabled(s, e, serial)
    ensures LapseInv(Step(s, e), Lapses(s, e) || (!EndsRegister(s, e) && lapsed))
  {
    SlotKeeps(s, e, serial);
    hide SlotInv;
    var after := Step(s, e);
    assert s.slot.Some? ==> s.slot.value !in s.aborted by { SlotIsNotAborted(s); }
    if !EndsRegister(s, e) {
      forall c | InProgress(s, c) && s.calls[c] == EnsuringTask ensures InProgress(after, c) && after.calls[c] == EnsuringTask {
      }
      if e.Continue? && s.calls[e.call].Registering? && after.registry != s.registry {
        assert InProgress(after, e.call) && after.calls[e.call] == EnsuringTask;
      }
    } else {
      NextTaskIsNew(s);
    }
  }

  lemma SlotIsNotAborted(s: State)
    requires SlotInv(s)
    ensures s.slot.Some? ==> s.slot.value !in s.aborted
  {
  }

  lemma NextTaskIsNew(s: State)
    requires SlotInv(s)
    ensures s.nextTask !in s.tasks && s.nextTask !in s.aborted
  {
  }

  lemma {:induction false} EveryRunKeepsLapse(events: seq<Event>, serial: bool)
    ensures After(events, serial).Some? ==> LapseInv(After(events, serial).value, Lapsed(events, serial))
  {
    if events != [] {
      hide LapseInv, Lapses, EndsRegister, Step, Enabled;
      EveryRunKeepsLapse(events[..|events| - 1], serial);
      var before, e := After(events[..|events| - 1], serial), events[|events| - 1];
      if before.Some? && Enabled(before.value, e, serial) {
        LapseKeeps(before.value, e, serial, Lapsed(events[..|events| - 1], serial));
      }
    }
  }

  /** Over every interleaving, overlapping calls and missing runtimes included: whenever no register
      or unregister call is in progress and something is registered, the slot holds a polling task
      if and only if no lapse is left open. */
  lemma ServedIffNoLapse(events: seq<Event>, serial: bool)
    requires After(events, serial).Some?
    requires Quiescent(After(events, serial).value) && After(events, serial).value.registry != []
    ensures SlotPolls(After(events, serial).value) <==> !Lapsed(events, serial)
  {
    EveryRunKeepsLapse(events, serial);
  }

  // ------------------------------------------------------- calls that do not overlap

  /** A task is in the slot only while something is registered, and then it is polling. */
  predicate SlotFollows(s: State) {
    s.slot.Some? ==> s.registry != [] && Polling(s, s.slot.value)
  }

  /** How far the slot lags behind the registry while a call is in progress. */
  predicate PcInv(s: State, pc: CallPc) {
    match pc
    case EnsuringTask => s.registry != [] && SlotFollows(s)
    case StoppingTask => s.registry == [] && (s.slot.Some? ==> s.slot.value in s.tasks && s.slot.value !in s.aborted)
    case _ => SlotFollows(s)
  }

  ghost predicate Inv(s: State) {
    && (forall c, d :: InProgress(s, c) && InProgress(s, d) ==> c == d)
    && (forall c :: InProgress(s, c) ==> PcInv(s, s.calls[c]))
    && (Quiescent(s) ==> SlotFollows(s))
    && (forall t :: t in s.tasks || t in s.aborted || s.slot == Some(t) ==> t < s.nextTask)
    && (forall t :: t in s.tasks && t !in s.aborted && s.tasks[t] != Finished ==> s.slot == Some(t))
  }

  lemma StartKeeps(s: State, call: nat, pc: CallPc)
    requires Inv(s) && Quiescent(s) && call !in s.calls && (pc.Registering? || pc.Unregistering?)
    ensures Inv(s.(calls := s.calls[call := pc]))
  {
    var after := s.(calls := s.calls[call := pc]);
    forall c | InProgress(after, c) ensures c == call {
      assert c != call ==> !InProgress(s, c);
    }
  }

  lemma ContinueKeeps(s: State, call: nat, hasRuntime: bool)
    requires Inv(s) && InProgress(s, call)
    ensures Inv(Advance(s, call, hasRuntime))
  {
    var after := Advance(s, call, hasRuntime);
    forall c | InProgress(after, c) ensures c == call {
      assert c != call ==> InProgress(s, c);
    }
    assert PcInv(s, s.calls[call]);
    if after.calls[call].Returned? {
      forall c | c in after.calls ensures after.calls[c].Returned? {
        assert c == call || !InProgress(after, c);
      }
    } else {
      assert InProgress(after, call);
    }
  }

  lemma TaskKeeps(s: State, task: nat, pc: TaskPc)
    requires Inv(s) && task in s.tasks && s.tasks[task] != Finished
    requires pc == TaskStep(s, task) || (task in s.aborted && pc == Finished)
    ensures Inv(s.(tasks := s.tasks[task := pc]))
  {
    var after := s.(tasks := s.tasks[task := pc]);
    assert forall c :: InProgress(after, c) <==> InProgress(s, c);
    assert Quiescent(after) ==> Quiescent(s);
  }

  /** Over every interleaving in which register and unregister calls do not overlap each other,
      the slot follows the registry as far as the call in progress has come. */
  lemma {:induction false} SerialRunsKeepInv(events: seq<Event>)
    ensures After(events, true).Some? ==> Inv(After(events, true).value)
  {
    if events != [] {
      hide Inv;
      SerialRunsKeepInv(events[..|events| - 1]);
      var before, e := After(events[..|events| - 1], true), events[|events| - 1];
      if before.Some? && Enabled(before.value, e, true) {
        match e
        case Register(call, registration) => StartKeeps(before.value, call, Registering(registration));
        case Unregister(call, registration) => StartKeeps(before.value, call, Unregistering(registration));
        case Continue(call, hasRuntime) => ContinueKeeps(before.value, call, hasRuntime);
        case RunTask(task) => TaskKeeps(before.value, task, TaskStep(before.value, task));
        case AbortLands(task) => TaskKeeps(before.value, task, Finished);
      }
    }
  }

  /** Whether the most recent register call that got as far as the task slot failed. */
  ghost predicate LastStartFailed(events: seq<Event>) {
    events != [] && After(events[..|events| - 1], true).Some?
    && var s, e := After(events[..|events| - 1], true).value, events[|events| - 1];
       if EndsRegister(s, e) then Step(s, e).calls[e.call] == Returned(Err(FailedPrecondition))
       else LastStartFailed(events[..|events| - 1])
  }

  /** When calls do not overlap, a register call without a runtime is the only lapse. */
  lemma {:induction false} SerialLapse(events: seq<Event>)
    requires After(events, true).Some?
    ensures Lapsed(events, true) == LastStartFailed(events)
  {
    if events != [] {
      SerialLapse(events[..|events| - 1]);
      SerialRunsKeepInv(events[..|events| - 1]);
      var s, e := After(events[..|events| - 1], true).value, events[|events| - 1];
      hide Inv, After;
      if e.Continue? && InProgress(s, e.call) {
        assert PcInv(s, s.calls[e.call]) by { PcOf(s, e.call); }
      }
    }
  }

  lemma PcOf(s: State, call: nat)
    requires Inv(s) && InProgress(s, call)
    ensures PcInv(s, s.calls[call])
  {
  }

  /** When register and unregister calls do not overlap, and none is in progress: with something
      registered, the slot holds an unfinished task if and only if the most recent register call
      that got to the slot did not fail; with nothing registered it holds none. The task in the slot
      has not been aborted and is the only unfinished task that has not been. */
  lemma TaskRunsIffRegistered(events: seq<Event>)
    requires After(events, true).Some? && Quiescent(After(events, true).value)
    ensures var s := After(events, true).value;
            && (TaskRuns(s) <==> s.registry != [] && !LastStartFailed(events))
            && (s.slot.Some? ==> TaskRuns(s) && s.slot.value !in s.aborted)
            && (forall t :: t in s.tasks && t !in s.aborted && s.tasks[t] != Finished ==> s.slot == Some(t))
  {
    SerialRunsKeepInv(events);
    SerialLapse(events);
    if After(events, true).value.registry != [] {
      ServedIffNoLapse(events, true);
    }
  }

  /** The end of a register call, exactly: afterwards a task polls for the new listener, unless
      none was running and there is no runtime to start one on. */
  lemma RegisterStartsTaskIff(events: seq<Event>, call: nat, hasRuntime: bool)
    requires After(events, true).Some? && InProgress(After(events, true).value, call)
    requires After(events, true).value.calls[call] == EnsuringTask
    ensures var s := After(events, true).value;
            var after := Advance(s, call, hasRuntime);
            && after.registry == s.registry != []
            && (TaskRuns(after) <==> s.slot.Some? || hasRuntime)
            && after.calls[call] == Returned(if TaskRuns(after) then Ok(()) else Err(FailedPrecondition))
  {
    SerialRunsKeepInv(events);
  }

  /** A register call that fails for want of a runtime leaves its registration behind: the caller
      is told it failed, and registering again is refused. */
  lemma FailedRegisterStaysRegistered(registration: ListenerRegistration)
    ensures var s := After([Register(0, registration), Continue(0, true), Continue(0, false),
                            Register(1, registration), Continue(1, true)], true);
            && s.Some? && Quiescent(s.value) && s.value.registry == [registration] && !TaskRuns(s.value)
            && s.value.calls == map[0 := Returned(Err(FailedPrecondition)), 1 := Returned(Err(AlreadyExists))]
  {
    hide After;
    AfterNothing(true);
    var r, failed := registration, Returned(Err(FailedPrecondition));
    var c1, c2, c3 := map[0 := Registering(r)], map[0 := EnsuringTask], map[0 := failed];
    var c4, c5 := map[0 := failed, 1 := Registering(r)], map[0 := failed, 1 := Returned(Err(AlreadyExists))];
    assert map[][0 := Registering(r)] == c1 && c1[0 := EnsuringTask] == c2 && c2[0 := failed] == c3;
    assert c3[1 := Registering(r)] == c4 && c4[1 := Returned(Err(AlreadyExists))] == c5 && [] + [r] == [r];
    Next([], Register(0, r), true, FRESH, State([], None, map[], {}, 0, c1));
    var e1 := [Register(0, r)];
    assert [] + e1 == e1;
    Next(e1, Continue(0, true), true, State([], None, map[], {}, 0, c1), State([r], None, map[], {}, 0, c2));
    var e2 := e1 + [Continue(0, true)];
    Next(e2, Continue(0, false), true, State([r], None, map[], {}, 0, c2), State([r], None, map[], {}, 0, c3));
    var e3 := e2 + [Continue(0, false)];
    Next(e3, Register(1, r), true, State([r], None, map[], {}, 0, c3), State([r], None, map[], {}, 0, c4));
    var e4 := e3 + [Register(1, r)];
    Next(e4, Continue(1, true), true, State([r], None, map[], {}, 0, c4), State([r], None, map[], {}, 0, c5));
    assert e4 + [Continue(1, true)] == [Register(0, r), Continue(0, true), Continue(0, false), Register(1, r), Continue(1, true)];
  }

  // -------------------------------------------------------------- what overlap can break

  /** Calls that overlap can lose the task: an unregister empties the registry, a register adds a
      listener and finds the old task still running, and then the unregister aborts that task.
      Nobody polls for the new listener, and no call is in progress that would start a task. */
  lemma OverlapCanLoseTheTask(first: ListenerRegistration, second: ListenerRegistration)
    requires first != second
    ensures var s := After([Register(0, first), Continue(0, true), Continue(0, true), Unregister(1, first), Continue(1, true),
                            Register(2, second), Continue(2, true), Continue(2, true), Continue(1, true)], false);
            && s.Some? && Quiescent(s.value)
            && s.value.registry == [second] && s.value.slot == None && s.value.aborted == s.value.tasks.Keys
  {
    hide After;
    AfterNothing(false);
    var ok := Returned(Ok(()));
    var c1, c2, c3 := map[0 := Registering(first)], map[0 := EnsuringTask], map[0 := ok];
    assert map[][0 := Registering(first)] == c1 && c1[0 := EnsuringTask] == c2 && c2[0 := ok] == c3;
    assert [] + [first] == [first] && map[][0 := AtCheck] == map[0 := AtCheck];
    var t := map[0 := AtCheck];
    Next([], Register(0, first), false, FRESH, State([], None, map[], {}, 0, c1));
    var e1 := [Register(0, first)];
    assert [] + e1 == e1;
    Next(e1, Continue(0, true), false, State([], None, map[], {}, 0, c1), State([first], None, map[], {}, 0, c2));
    var e2 := e1 + [Continue(0, true)];
    Next(e2, Continue(0, true), false, State([first], None, map[], {}, 0, c2), State([first], Some(0), t, {}, 1, c3));
    var e3 := e2 + [Continue(0, true)];
    var c4, c5 := map[0 := ok, 1 := Unregistering(first)], map[0 := ok, 1 := StoppingTask];
    assert c3[1 := Unregistering(first)] == c4 && c4[1 := StoppingTask] == c5;
    Next(e3, Unregister(1, first), false, State([first], Some(0), t, {}, 1, c3), State([first], Some(0), t, {}, 1, c4));
    var e4 := e3 + [Unregister(1, first)];
    assert RemoveAt([first], 0) == [];
    Next(e4, Continue(1, true), false, State([first], Some(0), t, {}, 1, c4), State([], Some(0), t, {}, 1, c5));
    LateRegister(e4 + [Continue(1, true)], second, c5, t);
    assert e4 + [Continue(1, true)] + [Register(2, second), Continue(2, true), Continue(2, true), Continue(1, true)]
        == [Register(0, first), Continue(0, true), Continue(0, true), Unregister(1, first), Continue(1, true),
            Register(2, second), Continue(2, true), Continue(2, true), Continue(1, true)];
  }

  /** The second half: a register call slips in before the task is stopped. */
  lemma LateRegister(events: seq<Event>, second: ListenerRegistration, calls: map<nat, CallPc>, t: map<nat, TaskPc>)
    requires After(events, false) == Some(State([], Some(0), t, {}, 1, calls))
    requires calls == map[0 := Returned(Ok(())), 1 := StoppingTask] && t == map[0 := AtCheck]
    ensures var s := After(events + [Register(2, second), Continue(2, true), Continue(2, true), Continue(1, true)], false);
            && s.Some? && Quiescent(s.value)
            && s.value.registry == [second] && s.value.slot == None && s.value.aborted == s.value.tasks.Keys
  {
    hide After;
    var ok := Returned(Ok(()));
    var c6, c7, c8 := calls[2 := Registering(second)], calls[2 := EnsuringTask], calls[2 := ok];
    assert c6[2 := EnsuringTask] == c7 && c7[2 := ok] == c8;
    assert [] + [second] == [second];
    Next(events, Register(2, second), false, State([], Some(0), t, {}, 1, calls), State([], Some(0), t, {}, 1, c6));
    var e6 := events + [Register(2, second)];
    Next(e6, Continue(2, true), false, State([], Some(0), t, {}, 1, c6), State([second], Some(0), t, {}, 1, c7));
    var e7 := e6 + [Continue(2, true)];
    Next(e7, Continue(2, true), false, State([second], Some(0), t, {}, 1, c7), State([second], Some(0), t, {}, 1, c8));
    var e8 := e7 + [Continue(2, true)];
    assert {} + {0} == {0};
    Next(e8, Continue(1, true), false, State([second], Some(0), t, {}, 1, c8), State([second], None, t, {0}, 1, c8[1 := ok]));
    assert e8 + [Continue(1, true)] == events + [Register(2, second), Continue(2, true), Continue(2, true), Continue(1, true)];
  }

  /** A second way, without any stop in between: a task that found nothing registered has decided to
      leave; a register call still sees it unfinished, starts none, and then it is gone. */
  lemma OverlapCanMeetALeavingTask(first: ListenerRegistration, second: ListenerRegistration)
    ensures var s := After([Register(0, first), Continue(0, true), Unregister(1, first), Continue(1, true), Continue(1, true)]
                           + [Continue(0, true), RunTask(0), Register(2, second), Continue(2, true), Continue(2, true), RunTask(0)],
                           false);
            && s.Some? && Quiescent(s.value) && s.value.registry == [second] && !TaskRuns(s.value)
            && s.value.aborted == {} && forall c :: c in s.value.calls ==> s.value.calls[c] == Returned(Ok(()))
  {
    hide After;
    AfterNothing(false);
    var ok := Returned(Ok(()));
    var c1, none := map[][0 := Registering(first)], map[];
    var c2 := c1[0 := EnsuringTask];
    var c3 := c2[1 := Unregistering(first)];
    var c4 := c3[1 := StoppingTask];
    assert [] + [first] == [first] && RemoveAt([first], 0) == [];
    var e1 := [Register(0, first)];
    assert [] + e1 == e1;
    Next([], Register(0, first), false, FRESH, State([], None, none, {}, 0, c1));
    Next(e1, Continue(0, true), false, State([], None, none, {}, 0, c1), State([first], None, none, {}, 0, c2));
    var e2 := e1 + [Continue(0, true)];
    Next(e2, Unregister(1, first), false, State([first], None, none, {}, 0, c2), State([first], None, none, {}, 0, c3));
    var e3 := e2 + [Unregister(1, first)];
    Next(e3, Continue(1, true), false, State([first], None, none, {}, 0, c3), State([], None, none, {}, 0, c4));
    var e4 := e3 + [Continue(1, true)];
    var c5 := c4[1 := ok];
    Next(e4, Continue(1, true), false, State([], None, none, {}, 0, c4), State([], None, none, {}, 0, c5));
    assert e4 + [Continue(1, true)]
        == [Register(0, first), Continue(0, true), Unregister(1, first), Continue(1, true), Continue(1, true)];
    LeavingTask(e4 + [Continue(1, true)], second, c5);
  }

  lemma LeavingTask(events: seq<Event>, second: ListenerRegistration, calls: map<nat, CallPc>)
    requires After(events, false) == Some(State([], None, map[], {}, 0, calls))
    requires calls.Keys == {0, 1} && calls[0] == EnsuringTask && calls[1] == Returned(Ok(()))
    ensures var s := After(events + [Continue(0, true), RunTask(0), Register(2, second), Continue(2, true), Continue(2, true),
                                     RunTask(0)], false);
            && s.Some? && Quiescent(s.value) && s.value.registry == [second] && !TaskRuns(s.value)
            && s.value.aborted == {} && forall c :: c in s.value.calls ==> s.value.calls[c] == Returned(Ok(()))
  {
    hide After;
    var ok := Returned(Ok(()));
    var t1 := map[][0 := AtCheck];
    var t2 := t1[0 := Leaving];
    var t3 := t2[0 := Finished];
    var c1 := calls[0 := ok];
    var c2 := c1[2 := Registering(second)];
    var c3 := c2[2 := EnsuringTask];
    var c4 := c3[2 := ok];
    assert [] + [second] == [second];
    Next(events, Continue(0, true), false, State([], None, map[], {}, 0, calls), State([], Some(0), t1, {}, 1, c1));
    var e1 := events + [Continue(0, true)];
    Next(e1, RunTask(0), false, State([], Some(0), t1, {}, 1, c1), State([], Some(0), t2, {}, 1, c1));
    var e2 := e1 + [RunTask(0)];
    Next(e2, Register(2, second), false, State([], Some(0), t2, {}, 1, c1), State([], Some(0), t2, {}, 1, c2));
    var e3 := e2 + [Register(2, second)];
    Next(e3, Continue(2, true), false, State([], Some(0), t2, {}, 1, c2), State([second], Some(0), t2, {}, 1, c3));
    var e4 := e3 + [Continue(2, true)];
    Next(e4, Continue(2, true), false, State([second], Some(0), t2, {}, 1, c3), State([second], Some(0), t2, {}, 1, c4));
    var e5 := e4 + [Continue(2, true)];
    Next(e5, RunTask(0), false, State([second], Some(0), t2, {}, 1, c4), State([second], Some(0), t3, {}, 1, c4));
    assert e5 + [RunTask(0)] == events + [Continue(0, true), RunTask(0), Register(2, second), Continue(2, true), Continue(2, true), RunTask(0)];
  }

  lemma AfterNothing(serial: bool)
    ensures After([], serial) == Some(FRESH)
  {
  }

  lemma Next(before: seq<Event>, e: Event, serial: bool, s: State, next: State)
    requires After(before, serial) == Some(s) && Enabled(s, e, serial) && Step(s, e) == next
    ensures After(before + [e], serial) == Some(next)
  {
    assert (before + [e])[..|before|] == before;
  }
}
