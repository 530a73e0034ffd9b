/**
 * The task supervisor of the manager (modulex.go: Go, superviseTask, waitForTasks, StopModules) as a
 * transition system whose events are its critical sections and channel waits.
 */
module Supervisor {
  import opened Text

  datatype Lifecycle = Configuring | Initializing | Initialized | Starting | Running | Stopping | Stopped

  function Rank(l: Lifecycle): nat {
    match l
    case Configuring => 0
    case Initializing => 1
    case Initialized => 2
    case Starting => 3
    case Running => 4
    case Stopping => 5
    case Stopped => 6
  }

  type HandleId = nat

  /** A handle that `Go` returned; `gen` is the shared task context it was started under. */
  datatype Handle = Handle(name: string, gen: nat, done: bool, err: Option<string>)

  datatype TaskError = TaskError(h: HandleId, message: string)

  /** Who is tearing down: `StopModules`, or the failure path of Init or Start. */
  datatype Kind = ForStop | ForFailure

  /** Where the one goroutine that runs `waitForTasks` and then the module stops is. */
  datatype Waiter =
    | Idle
    | BeforeSnapshot(kind: Kind)
    | BeforeCancel(kind: Kind, gen: nat, snapshot: set<HandleId>)
    | Waiting(kind: Kind, snapshot: set<HandleId>)
    | BeforeDrain(kind: Kind)
    | BeforeReset(kind: Kind)
    | StoppingModules(kind: Kind)
    | Over(kind: Kind)

  datatype State = State(
    life: Lifecycle, gen: nat, cancelled: set<nat>,
    tasks: map<string, HandleId>, handles: map<HandleId, Handle>, taskErrs: seq<TaskError>,
    waiter: Waiter, expired: bool,
    timedOut: bool,                   // the wait ended on the caller's deadline, before some task was done
    late: set<HandleId>,              // handles registered after the wait took its snapshot
    recorded: multiset<TaskError>,    // every error a finished task recorded
    returned: multiset<TaskError>,    // every task error `waitForTasks` returned
    moduleStops: nat,
    live: set<HandleId>,              // handles whose supervising goroutine has not finished them yet
    panicked: bool)                   // a handle's done channel was closed twice

  const INIT := State(Configuring, 0, {}, map[], map[], [], Idle, false, false, {}, multiset{}, multiset{}, 0, {}, false)

  datatype Event =
    | GoCall(h: HandleId, name: string)         // Go, with a fresh handle
    | Finish(h: HandleId, err: Option<string>)  // superviseTask's deferred critical section
    | InitBegin | InitOk | InitFail | StartBegin | StartOk | StartFail
    | StopCall                                  // StopModules' critical section
    | Snapshot | CancelCtx | WaitOver | Drain | Reset
    | Expire                                    // the caller's deadline passes
    | StopModule                                // one module's Stop
    | TeardownOver                              // event bus closed, state Stopped

  datatype GoAnswer = Accepted | InvalidName | Locked | ShuttingDown | Duplicate

  /** The checks of `Go`, in order. */
  function GoVerdict(s: State, name: string): GoAnswer {
    if TrimSpace(name) == "" then InvalidName
    else if s.life == Stopping || s.life == Stopped then Locked
    else if s.gen in s.cancelled then ShuttingDown
    else if TrimSpace(name) in s.tasks then Duplicate
    else Accepted
  }

  predicate Enabled(s: State, e: Event) {
    match e
    case GoCall(h, _) => h !in s.handles
    case Finish(h, _) => h in s.live
    case InitBegin => s.life == Configuring
    case InitOk => s.life == Initializing && s.waiter == Idle
    case InitFail => s.life == Initializing && s.waiter == Idle
    case StartBegin => s.life == Initialized
    case StartOk => s.life == Starting && s.waiter == Idle
    case StartFail => s.life == Starting && s.waiter == Idle
    case StopCall => true
    case Snapshot => s.waiter.BeforeSnapshot?
    case CancelCtx => s.waiter.BeforeCancel?
    case WaitOver => s.waiter.Waiting? && (s.expired || forall h | h in s.waiter.snapshot :: h in s.handles && s.handles[h].done)
    case Drain => s.waiter.BeforeDrain?
    case Reset => s.waiter.BeforeReset?
    case Expire => true
    case StopModule => s.waiter.StoppingModules?
    case TeardownOver => s.waiter.StoppingModules?
  }

  predicate BeforeWait(w: Waiter) {
    w.Idle? || w.BeforeSnapshot?
  }

  function Recorded(h: HandleId, err: Option<string>): seq<TaskError> {
    if err.Some? then [TaskError(h, err.value)] else []
  }

  function Apply(s: State, e: Event): State
    requires Enabled(s, e)
  {
    match e
    case GoCall(h, name) =>
      if GoVerdict(s, name) != Accepted then s
      else s.(tasks := s.tasks[TrimSpace(name) := h], handles := s.handles[h := Handle(TrimSpace(name), s.gen, false, None)],
      late := if BeforeWait(s.waiter) then s.late else s.late + {h}, live := s.live + {h})
    case Finish(h, err) =>
      if h !in s.handles || s.handles[h].done then s.(panicked := true)
      else s.(live := s.live - {h}, taskErrs := s.taskErrs + Recorded(h, err), recorded := s.recorded + multiset(Recorded(h, err)),
      tasks := s.tasks - {s.handles[h].name}, handles := s.handles[h := s.handles[h].(done := true, err := err)])
    case InitBegin => s.(life := Initializing)
    case InitOk => s.(life := Initialized)
    case InitFail => s.(waiter := BeforeSnapshot(ForFailure))
    case StartBegin => s.(life := Starting)
    case StartOk => s.(life := Running)
    case StartFail => s.(waiter := BeforeSnapshot(ForFailure))
    case StopCall =>
      if s.life == Configuring || s.life == Initialized || s.life == Running then
        s.(life := Stopping, cancelled := s.cancelled + {s.gen}, waiter := BeforeSnapshot(ForStop))
      else s
    case Snapshot => s.(waiter := BeforeCancel(s.waiter.kind, s.gen, s.tasks.Values))
    case CancelCtx =>
      s.(cancelled := s.cancelled + {s.waiter.gen},
      waiter := if s.waiter.snapshot == {} then BeforeDrain(s.waiter.kind) else Waiting(s.waiter.kind, s.waiter.snapshot))
    case WaitOver =>
      s.(waiter := BeforeDrain(s.waiter.kind),
      timedOut := !(forall h | h in s.waiter.snapshot :: h in s.handles && s.handles[h].done))
    case Drain => s.(waiter := BeforeReset(s.waiter.kind), returned := s.returned + multiset(s.taskErrs), taskErrs := [])
    case Reset => s.(waiter := StoppingModules(s.waiter.kind), gen := s.gen + 1)
    case Expire => s.(expired := true)
    case StopModule => s.(moduleStops := s.moduleStops + 1)
    case TeardownOver => s.(waiter := Over(s.waiter.kind), life := Stopped)
  }

  // ----- Invariant -----

  /** A handle is registered under its name exactly while its task runs. */
  ghost predicate Registry(s: State) {
    && (forall n | n in s.tasks :: s.tasks[n] in s.handles && s.handles[s.tasks[n]].name == n && !s.handles[s.tasks[n]].done)
    && (forall h | h in s.handles && !s.handles[h].done :: s.handles[h].name in s.tasks && s.tasks[s.handles[h].name] == h)
  }

  /** One goroutine per unfinished handle, so no done channel is closed twice. */
  ghost predicate Goroutines(s: State) {
    !s.panicked && forall h :: h in s.live <==> h in s.handles && !s.handles[h].done
  }

  /** Modules are stopped only after the wait. */
  ghost predicate StopsLast(s: State) {
    s.moduleStops > 0 ==> s.waiter.StoppingModules? || s.waiter.Over?
  }

  /** At most one teardown, and it matches the lifecycle state. */
  ghost predicate Teardown(s: State) {
    match s.waiter
    case Idle => s.life != Stopping && s.life != Stopped
    case Over(_) => s.life == Stopped
    case w => if w.kind == ForStop then s.life == Stopping else s.life == Initializing || s.life == Starting
  }

  ghost predicate AllDone(s: State) {
    forall h | h in s.handles :: s.handles[h].done
  }

  /** Every handle registered before the snapshot is done. */
  ghost predicate EarlyDone(s: State) {
    forall h | h in s.handles && h !in s.late :: s.handles[h].done
  }

  /** The wait covers every running task that was registered before its snapshot, and under
      `StopModules` there are no others. */
  ghost predicate Covered(s: State) {
    && (BeforeWait(s.waiter) || s.waiter.kind == ForStop ==> s.late == {})
    && match s.waiter
       case Idle => true
       case BeforeSnapshot(_) => true
       case BeforeCancel(_, _, snap) => forall h | h in s.handles && h !in s.late && !s.handles[h].done :: h in snap
       case Waiting(_, snap) => forall h | h in s.handles && h !in s.late && !s.handles[h].done :: h in snap
       case _ => !s.timedOut ==> EarlyDone(s)
  }

  predicate AfterDrain(w: Waiter) {
    w.BeforeReset? || w.StoppingModules? || w.Over?
  }

  /** Errors are recorded once per failed task and are either returned or pending. */
  ghost predicate Ledger(s: State) {
    && s.recorded == s.returned + multiset(s.taskErrs)
    && (forall x: TaskError :: s.recorded[x] ==
          if x.h in s.handles && s.handles[x.h].done && s.handles[x.h].err == Some(x.message) then 1 else 0)
    && (!AfterDrain(s.waiter) ==> s.returned == multiset{})
  }

  /** Until the context is replaced there is one context, and `StopModules` has cancelled it. */
  ghost predicate Contexts(s: State) {
    && (!s.waiter.StoppingModules? && !s.waiter.Over? ==> s.gen == 0 && forall h | h in s.handles :: s.handles[h].gen == 0)
    && (s.waiter.BeforeCancel? ==> s.waiter.gen == 0)
    && (s.life == Stopping ==> 0 in s.cancelled && forall h | h in s.handles :: s.handles[h].gen == 0)
  }

  /** After a wait of `StopModules` that saw every task done, no error is left behind. */
  ghost predicate Quiet(s: State) {
    AfterDrain(s.waiter) && s.waiter.kind == ForStop && !s.timedOut ==> s.taskErrs == []
  }

  /** Around the snapshot: it holds known handles, nothing has timed out yet, and on the failure path
      the task context is still live when it is taken. */
  ghost predicate Window(s: State) {
    var w := s.waiter;
    && (BeforeWait(w) || w.BeforeCancel? || w.Waiting? ==> !s.timedOut)
    && (w.Idle? || ((w.BeforeSnapshot? || w.BeforeCancel?) && w.kind == ForFailure) ==> s.cancelled == {})
    && (w.BeforeCancel? || w.Waiting? ==> w.snapshot <= s.handles.Keys)
  }

  ghost predicate Inv(s: State) {
    Registry(s) && Teardown(s) && Covered(s) && Ledger(s) && Contexts(s) && Quiet(s) && Window(s)
    && Goroutines(s) && StopsLast(s)
  }

  /** Events other than a registration or an end leave the tasks alone. */
  lemma TasksFrame(s: State, e: Event)
    requires Enabled(s, e) && !e.GoCall? && !e.Finish?
    ensures var s' := Apply(s, e);
            s' == s.(life := s'.life, gen := s'.gen, cancelled := s'.cancelled, taskErrs := s'.taskErrs, waiter := s'.waiter,
                     expired := s'.expired, timedOut := s'.timedOut, returned := s'.returned, moduleStops := s'.moduleStops)
  {
    hide TrimSpace, Recorded, GoVerdict;
  }

  /** And those two leave the lifecycle, the teardown and the contexts alone. */
  lemma LifeFrame(s: State, e: Event)
    requires Enabled(s, e) && (e.GoCall? || e.Finish?)
    ensures var s' := Apply(s, e);
            && s'.life == s.life && s'.waiter == s.waiter && s'.gen == s.gen && s'.cancelled == s.cancelled
            && s'.timedOut == s.timedOut && s'.moduleStops == s.moduleStops && s.handles.Keys <= s'.handles.Keys
  {
    hide TrimSpace, Recorded, GoVerdict;
  }

  /** What the end of a task changes; a handle already done would be the panic. */
  lemma FinishFrame(s: State, h: HandleId, err: Option<string>)
    requires Enabled(s, Finish(h, err))
    ensures var s' := Apply(s, Finish(h, err));
            if h !in s.handles || s.handles[h].done then s' == s.(panicked := true)
            else s' == s.(live := s.live - {h}, taskErrs := s.taskErrs + Recorded(h, err),
                          recorded := s.recorded + multiset(Recorded(h, err)), tasks := s.tasks - {s.handles[h].name},
                          handles := s.handles[h := s.handles[h].(done := true, err := err)])
  {
    hide Recorded;
  }

  /** What a registration changes. */
  lemma GoFrame(s: State, h: HandleId, name: string)
    requires Enabled(s, GoCall(h, name))
    ensures var s' := Apply(s, GoCall(h, name));
            if GoVerdict(s, name) != Accepted then s' == s
            else s' == s.(tasks := s.tasks[TrimSpace(name) := h], live := s.live + {h}, late := s'.late,
                          handles := s.handles[h := Handle(TrimSpace(name), s.gen, false, None)])
                 && s'.late == if BeforeWait(s.waiter) then s.late else s.late + {h}
  {
    hide TrimSpace, GoVerdict;
  }

  lemma GoKeepsRegistry(s: State, h: HandleId, name: string)
    requires Registry(s) && Enabled(s, GoCall(h, name))
    ensures Registry(Apply(s, GoCall(h, name)))
  {
    hide TrimSpace;
  }

  lemma FinishKeepsRegistry(s: State, h: HandleId, err: Option<string>)
    requires Registry(s) && Enabled(s, Finish(h, err))
    ensures Registry(Apply(s, Finish(h, err)))
  {
    hide Recorded, Apply;
    FinishFrame(s, h, err);
  }

  lemma RegistryKept(s: State, e: Event)
    requires Registry(s) && Enabled(s, e)
    ensures Registry(Apply(s, e))
  {
    hide Apply;
    if e.GoCall? {
      GoKeepsRegistry(s, e.h, e.name);
    } else if e.Finish? {
      FinishKeepsRegistry(s, e.h, e.err);
    } else {
      TasksFrame(s, e);
    }
  }

  lemma GoroutinesKept(s: State, e: Event)
    requires Goroutines(s) && Enabled(s, e)
    ensures Goroutines(Apply(s, e))
  {
    hide TrimSpace, Recorded;
    if !e.GoCall? && !e.Finish? {
      TasksFrame(s, e);
    }
  }

  lemma StopsLastKept(s: State, e: Event)
    requires Teardown(s) && StopsLast(s) && Enabled(s, e)
    ensures StopsLast(Apply(s, e))
  {
    hide TrimSpace, Recorded, GoVerdict;
    if e.GoCall? || e.Finish? {
      LifeFrame(s, e);
    }
  }

  lemma TeardownKept(s: State, e: Event)
    requires Teardown(s) && Enabled(s, e)
    ensures Teardown(Apply(s, e))
  {
    hide TrimSpace, Recorded, GoVerdict;
    if e.GoCall? || e.Finish? {
      LifeFrame(s, e);
    }
  }

  lemma SnapshotCovers(s: State)
    requires Registry(s) && Covered(s) && Enabled(s, Snapshot)
    ensures Covered(Apply(s, Snapshot))
  {
    forall h | h in s.handles && !s.handles[h].done ensures h in s.tasks.Values {
      assert s.tasks[s.handles[h].name] == h;
    }
  }

  lemma GoKeepsCovered(s: State, h: HandleId, name: string)
    requires Teardown(s) && Covered(s) && Enabled(s, GoCall(h, name))
    ensures Covered(Apply(s, GoCall(h, name)))
  {
    hide TrimSpace, Apply;
    GoFrame(s, h, name);
    var s' := Apply(s, GoCall(h, name));
    if s' != s && !BeforeWait(s.waiter) {
      assert s.waiter.kind != ForStop;
      assert forall x | x in s'.handles && x !in s'.late :: x in s.handles && x !in s.late && s'.handles[x] == s.handles[x];
    }
  }

  lemma FinishKeepsCovered(s: State, h: HandleId, err: Option<string>)
    requires Covered(s) && Enabled(s, Finish(h, err))
    ensures Covered(Apply(s, Finish(h, err)))
  {
    hide Recorded, Apply, Enabled;
    FinishFrame(s, h, err);
    var s' := Apply(s, Finish(h, err));
    assert s'.handles.Keys == s.handles.Keys;
    assert forall x | x in s.handles && s.handles[x].done :: s'.handles[x].done;
  }

  lemma HandleEventKeepsCovered(s: State, e: Event)
    requires Teardown(s) && Covered(s) && Enabled(s, e) && (e.GoCall? || e.Finish?)
    ensures Covered(Apply(s, e))
  {
    hide Apply, Enabled, Teardown, Covered;
    if e.GoCall? {
      GoKeepsCovered(s, e.h, e.name);
    } else {
      FinishKeepsCovered(s, e.h, e.err);
    }
  }

  predicate AfterWait(w: Waiter) {
    !BeforeWait(w) && !w.BeforeCancel? && !w.Waiting?
  }

  /** Where the teardown is on the same side of the wait, only tasks and the timeout matter. */
  lemma CoveredFrame(s: State, s': State)
    requires Covered(s) && s'.handles == s.handles && s'.late == s.late && s'.timedOut == s.timedOut
    requires
      || s'.waiter == s.waiter
      || (BeforeWait(s.waiter) && BeforeWait(s'.waiter))
      || (AfterWait(s.waiter) && AfterWait(s'.waiter) && s'.waiter.kind == s.waiter.kind)
    ensures Covered(s')
  {
  }

  lemma WaitKeepsCovered(s: State)
    requires Covered(s) && (s.waiter.BeforeCancel? || s.waiter.Waiting?)
    ensures Enabled(s, CancelCtx) ==> Covered(Apply(s, CancelCtx))
    ensures Enabled(s, WaitOver) ==> Covered(Apply(s, WaitOver))
  {
    hide TrimSpace, Recorded, GoVerdict;
  }

  lemma OthersKeepCovered(s: State, e: Event)
    requires Teardown(s) && Covered(s) && Enabled(s, e) && !e.Snapshot? && !e.GoCall? && !e.Finish?
    ensures Covered(Apply(s, e))
  {
    hide TrimSpace, Recorded, GoVerdict, Covered;
    if e.CancelCtx? || e.WaitOver? {
      WaitKeepsCovered(s);
    } else {
      TasksFrame(s, e);
      CoveredFrame(s, Apply(s, e));
    }
  }

  lemma CoveredKept(s: State, e: Event)
    requires Registry(s) && Teardown(s) && Covered(s) && Enabled(s, e)
    ensures Covered(Apply(s, e))
  {
    hide Apply, Registry, Teardown, Covered;
    if e.Snapshot? {
      SnapshotCovers(s);
    } else if e.GoCall? || e.Finish? {
      HandleEventKeepsCovered(s, e);
    } else {
      OthersKeepCovered(s, e);
    }
  }

  lemma RecordedCount(h: HandleId, err: Option<string>, x: TaskError)
    ensures multiset(Recorded(h, err))[x] == if x.h == h && err == Some(x.message) then 1 else 0
  {
  }

  ghost predicate RecordedOnce(recorded: multiset<TaskError>, handles: map<HandleId, Handle>, x: TaskError) {
    recorded[x] == if x.h in handles && handles[x.h].done && handles[x.h].err == Some(x.message) then 1 else 0
  }

  lemma FinishRecords(recorded: multiset<TaskError>, handles: map<HandleId, Handle>, h: HandleId, err: Option<string>, x: TaskError)
    requires h in handles && !handles[h].done && RecordedOnce(recorded, handles, x)
    ensures RecordedOnce(recorded + multiset(Recorded(h, err)), handles[h := handles[h].(done := true, err := err)], x)
  {
    hide Recorded;
    RecordedCount(h, err, x);
  }

  lemma FinishKeepsLedger(s: State, h: HandleId, err: Option<string>)
    requires Ledger(s) && Enabled(s, Finish(h, err))
    ensures Ledger(Apply(s, Finish(h, err)))
  {
    hide Recorded, Apply, Enabled;
    FinishFrame(s, h, err);
    if h in s.handles && !s.handles[h].done {
      FinishRecordsAll(s, Apply(s, Finish(h, err)), h, err);
    }
  }

  lemma FinishRecordsAll(s: State, s': State, h: HandleId, err: Option<string>)
    requires Ledger(s) && h in s.handles && !s.handles[h].done
    requires s'.taskErrs == s.taskErrs + Recorded(h, err) && s'.recorded == s.recorded + multiset(Recorded(h, err))
    requires s'.handles == s.handles[h := s.handles[h].(done := true, err := err)]
    requires s'.returned == s.returned && s'.waiter == s.waiter
    ensures Ledger(s')
  {
    hide Recorded;
    assert multiset(s.taskErrs + Recorded(h, err)) == multiset(s.taskErrs) + multiset(Recorded(h, err));
    forall x: TaskError ensures s'.recorded[x] ==
      if x.h in s'.handles && s'.handles[x.h].done && s'.handles[x.h].err == Some(x.message) then 1 else 0
    {
      assert RecordedOnce(s.recorded, s.handles, x);
      FinishRecords(s.recorded, s.handles, h, err, x);
      assert RecordedOnce(s'.recorded, s'.handles, x);
    }
  }

  lemma DrainKeepsLedger(s: State)
    requires Ledger(s) && Enabled(s, Drain)
    ensures Ledger(Apply(s, Drain))
  {
    assert multiset(Apply(s, Drain).taskErrs) == multiset{};
  }

  lemma GoKeepsLedger(s: State, h: HandleId, name: string)
    requires Ledger(s) && Enabled(s, GoCall(h, name))
    ensures Ledger(Apply(s, GoCall(h, name)))
  {
    hide TrimSpace;
  }

  lemma LedgerKept(s: State, e: Event)
    requires Teardown(s) && Ledger(s) && Enabled(s, e)
    ensures Ledger(Apply(s, e))
  {
    if e.Finish? {
      FinishKeepsLedger(s, e.h, e.err);
    } else if e.Drain? {
      DrainKeepsLedger(s);
    } else if e.GoCall? {
      GoKeepsLedger(s, e.h, e.name);
    } else {
      OthersKeepLedger(s, e);
    }
  }

  lemma LedgerFrame(s: State, s': State)
    requires Ledger(s) && s'.handles == s.handles && s'.taskErrs == s.taskErrs
    requires s'.recorded == s.recorded && s'.returned == s.returned
    requires AfterDrain(s.waiter) ==> AfterDrain(s'.waiter)
    ensures Ledger(s')
  {
  }

  lemma OthersKeepLedger(s: State, e: Event)
    requires Teardown(s) && Ledger(s) && Enabled(s, e) && !e.Finish? && !e.Drain? && !e.GoCall?
    ensures Ledger(Apply(s, e))
  {
    hide TrimSpace, GoVerdict, Recorded, Ledger;
    LedgerFrame(s, Apply(s, e));
  }

  lemma GoKeepsContexts(s: State, e: Event)
    requires Teardown(s) && Contexts(s) && Enabled(s, e) && (e.GoCall? || e.Finish?)
    ensures Contexts(Apply(s, e))
  {
    hide TrimSpace, Recorded, Apply;
    if e.GoCall? {
      GoFrame(s, e.h, e.name);
    } else {
      FinishFrame(s, e.h, e.err);
    }
  }

  lemma OthersKeepContexts(s: State, e: Event)
    requires Teardown(s) && Contexts(s) && Enabled(s, e) && !e.GoCall? && !e.Finish?
    ensures Contexts(Apply(s, e))
  {
    hide TrimSpace, Recorded, GoVerdict;
    TasksFrame(s, e);
  }

  lemma ContextsKept(s: State, e: Event)
    requires Teardown(s) && Contexts(s) && Enabled(s, e)
    ensures Contexts(Apply(s, e))
  {
    hide Apply, Contexts, Teardown;
    if e.GoCall? || e.Finish? {
      GoKeepsContexts(s, e);
    } else {
      OthersKeepContexts(s, e);
    }
  }

  lemma FinishKeepsQuiet(s: State, h: HandleId, err: Option<string>)
    requires Covered(s) && Quiet(s) && Enabled(s, Finish(h, err))
    ensures Quiet(Apply(s, Finish(h, err)))
  {
    hide Recorded, Apply, Enabled;
    FinishFrame(s, h, err);
    if AfterDrain(s.waiter) && s.waiter.kind == ForStop && !s.timedOut && h in s.handles {
      assert s.handles[h].done;
    }
  }

  lemma OthersKeepQuiet(s: State, e: Event)
    requires Quiet(s) && Enabled(s, e) && !e.Finish?
    ensures Quiet(Apply(s, e))
  {
    hide TrimSpace, GoVerdict, Recorded;
    if e.GoCall? {
      GoFrame(s, e.h, e.name);
    }
  }

  lemma QuietKept(s: State, e: Event)
    requires Covered(s) && Quiet(s) && Enabled(s, e)
    ensures Quiet(Apply(s, e))
  {
    hide Apply, Enabled, Covered, Quiet;
    if e.Finish? {
      FinishKeepsQuiet(s, e.h, e.err);
    } else {
      OthersKeepQuiet(s, e);
    }
  }

  lemma SnapshotIsKnown(s: State)
    requires Registry(s)
    ensures s.tasks.Values <= s.handles.Keys
  {
  }

  /** Events that leave the teardown where it is or on the same side of the wait keep the window. */
  lemma WindowFrame(s: State, s': State)
    requires Window(s) && s'.handles == s.handles && s'.cancelled == s.cancelled && s'.timedOut == s.timedOut
    requires
      || s'.waiter == s.waiter
      || (s.waiter.Idle? && s'.waiter.BeforeSnapshot?)
      || (AfterWait(s.waiter) && AfterWait(s'.waiter))
    ensures Window(s')
  {
  }

  /** The steps that start a stop or make the wait go on. */
  predicate WaitEvent(e: Event) {
    e.StopCall? || e.Snapshot? || e.CancelCtx? || e.WaitOver?
  }

  lemma WaitKeepsWindow(s: State, e: Event)
    requires Teardown(s) && Window(s) && Enabled(s, e) && WaitEvent(e)
    requires s.tasks.Values <= s.handles.Keys
    ensures Window(Apply(s, e))
  {
    hide TrimSpace, Recorded, GoVerdict;
  }

  lemma OthersKeepWindow(s: State, e: Event)
    requires Teardown(s) && Window(s) && Enabled(s, e) && !e.GoCall? && !e.Finish?
    requires s.tasks.Values <= s.handles.Keys
    ensures Window(Apply(s, e))
  {
    hide TrimSpace, Recorded, GoVerdict, Window;
    if WaitEvent(e) {
      WaitKeepsWindow(s, e);
    } else {
      TasksFrame(s, e);
      WindowFrame(s, Apply(s, e));
    }
  }

  lemma WindowKept(s: State, e: Event)
    requires Registry(s) && Teardown(s) && Window(s) && Enabled(s, e)
    ensures Window(Apply(s, e))
  {
    hide Apply, Registry, Teardown;
    if e.GoCall? || e.Finish? {
      LifeFrame(s, e);
    } else {
      SnapshotIsKnown(s);
      OthersKeepWindow(s, e);
    }
  }

  /** Every critical section keeps the invariant. */
  lemma StepKeepsInv(s: State, e: Event)
    requires Inv(s) && Enabled(s, e)
    ensures Inv(Apply(s, e))
  {
    hide Registry, Teardown, Covered, Ledger, Contexts, Quiet, Window, Goroutines, StopsLast, Apply;
    RegistryKept(s, e);
    GoroutinesKept(s, e);
    StopsLastKept(s, e);
    TeardownKept(s, e);
    CoveredKept(s, e);
    LedgerKept(s, e);
    ContextsKept(s, e);
    QuietKept(s, e);
    WindowKept(s, e);
  }

  // ----- Whole runs -----

  ghost predicate Feasible(s: State, es: seq<Event>)
    decreases |es|
  {
    es == [] || (Enabled(s, es[0]) && Feasible(Apply(s, es[0]), es[1..]))
  }

  ghost function Exec(s: State, es: seq<Event>): State
    requires Feasible(s, es)
    decreases |es|
  {
    if es == [] then s else Exec(Apply(s, es[0]), es[1..])
  }

  lemma InitInv()
    ensures Inv(INIT)
  {
    assert multiset(INIT.taskErrs) == multiset{};
  }

  lemma RankGrows(s: State, e: Event)
    requires Teardown(s) && Enabled(s, e)
    ensures Rank(s.life) <= Rank(Apply(s, e).life)
  {
    hide TrimSpace, Recorded, GoVerdict;
    if e.GoCall? || e.Finish? {
      LifeFrame(s, e);
    }
  }

  /** What one step cannot undo: lifecycle rank, done handles, and the set of handles once stopping. */
  lemma StepIsMonotone(s: State, e: Event)
    requires Teardown(s) && Enabled(s, e)
    ensures var s' := Apply(s, e);
            && Rank(s.life) <= Rank(s'.life)
            && s.handles.Keys <= s'.handles.Keys
            && (Rank(s.life) >= Rank(Stopping) ==> s'.handles.Keys == s.handles.Keys)
            && (forall h | h in s.handles && s.handles[h].done :: s'.handles[h] == s.handles[h])
  {
    hide TrimSpace, Recorded, Teardown, Apply;
    RankGrows(s, e);
    if e.GoCall? {
      GoFrame(s, e.h, e.name);
    } else if e.Finish? {
      FinishFrame(s, e.h, e.err);
    } else {
      TasksFrame(s, e);
    }
  }

  lemma {:induction false} RunKeeps(s: State, es: seq<Event>)
    requires Inv(s) && Feasible(s, es)
    ensures var s' := Exec(s, es);
            && Inv(s')
            && Rank(s.life) <= Rank(s'.life)
            && s.handles.Keys <= s'.handles.Keys
            && (Rank(s.life) >= Rank(Stopping) ==> s'.handles.Keys == s.handles.Keys)
            && (forall h | h in s.handles && s.handles[h].done :: s'.handles[h] == s.handles[h])
    decreases |es|
  {
    hide Registry, Covered, Ledger, Contexts, Window, Goroutines, StopsLast, Apply, Enabled;
    if es != [] {
      StepKeepsInv(s, es[0]);
      StepIsMonotone(s, es[0]);
      RunKeeps(Apply(s, es[0]), es[1..]);
    }
  }

  /**
   * In every interleaving: a handle is registered exactly while it is not done, no handle is finished
   * twice, the lifecycle state never goes back, and a finished handle never changes again.
   */
  lemma SupervisorIsSafe(es: seq<Event>, more: seq<Event>)
    requires Feasible(INIT, es) && Feasible(Exec(INIT, es), more)
    ensures var s, s' := Exec(INIT, es), Exec(Exec(INIT, es), more);
            && Registry(s) && !s.panicked
            && Rank(s.life) <= Rank(s'.life)
            && (forall h | h in s.handles && s.handles[h].done :: h in s'.handles && s'.handles[h] == s.handles[h])
            && (Rank(s.life) >= Rank(Stopping) ==> s'.handles.Keys == s.handles.Keys)
  {
    hide Registry, Teardown, Covered, Ledger, Contexts, Feasible, Exec;
    InitInv();
    RunKeeps(INIT, es);
    RunKeeps(Exec(INIT, es), more);
  }

  /**
   * `StopModules` calls no module's Stop before every handle ever returned is done, unless the
   * caller's deadline cut the wait short; and from its first step on every task's context is cancelled.
   */
  lemma AllTasksDoneBeforeFirstStop(es: seq<Event>)
    requires Feasible(INIT, es) && Exec(INIT, es).life == Stopping
    ensures var s := Exec(INIT, es);
            && (s.waiter.StoppingModules? && !s.timedOut ==> AllDone(s))
            && (forall h | h in s.handles :: s.handles[h].gen in s.cancelled)
  {
    hide Registry, Ledger, Feasible, Exec;
    InitInv();
    RunKeeps(INIT, es);
  }

  /**
   * On every teardown path, when the modules are being stopped and the wait was not cut short, all
   * tasks are done exactly when those registered after the wait's snapshot are; `StopModules` lets
   * no such task in.
   */
  lemma OnlyLateTasksRemain(es: seq<Event>)
    requires Feasible(INIT, es) && Exec(INIT, es).waiter.StoppingModules? && !Exec(INIT, es).timedOut
    ensures var s := Exec(INIT, es);
            && (AllDone(s) <==> forall h | h in s.late && h in s.handles :: s.handles[h].done)
            && (s.waiter.kind == ForStop ==> s.late == {})
  {
    hide Registry, Ledger, Feasible, Exec;
    InitInv();
    RunKeeps(INIT, es);
  }

  /**
   * Errors are conserved at every step; and a `StopModules` whose wait did not time out has
   * returned the error of every failed task exactly once and nothing else.
   */
  lemma ErrorsAreReportedOnce(es: seq<Event>)
    requires Feasible(INIT, es)
    ensures var s := Exec(INIT, es);
            && s.recorded == s.returned + multiset(s.taskErrs)
            && (s.waiter == StoppingModules(ForStop) && !s.timedOut ==>
                  forall x: TaskError :: s.returned[x] == if x.h in s.handles && s.handles[x.h].err == Some(x.message) then 1 else 0)
  {
    hide Registry, Contexts, Feasible, Exec;
    InitInv();
    RunKeeps(INIT, es);
  }

  // ----- What decides whether a task can still run -----

  lemma StepLate(s: State, e: Event)
    requires Enabled(s, e) && !e.GoCall?
    ensures Apply(s, e).late == s.late
  {
    hide TrimSpace, Recorded, GoVerdict;
  }

  lemma {:induction false} LateNeedsGo(s: State, es: seq<Event>)
    requires Feasible(s, es) && forall e | e in es :: !e.GoCall?
    ensures Exec(s, es).late == s.late
    decreases es
  {
    hide Apply, Enabled;
    if es != [] {
      assert es[0] in es;
      StepLate(s, es[0]);
      LateNeedsGo(Apply(s, es[0]), es[1..]);
    }
  }

  /** On every teardown path: with no `Go` call after the snapshot, all tasks are done at the module stops. */
  lemma NoLateCallNoLateTask(s: State, es: seq<Event>)
    requires Inv(s) && s.waiter.BeforeCancel? && s.late == {} && Feasible(s, es)
    requires Exec(s, es).waiter.StoppingModules? && !Exec(s, es).timedOut
    requires forall e | e in es :: !e.GoCall?
    ensures AllDone(Exec(s, es))
  {
    hide Registry, Ledger, Contexts, Window, Feasible, Exec;
    LateNeedsGo(s, es);
    RunKeeps(s, es);
  }

  lemma {:induction false} LongerThan(names: set<string>) returns (n: nat)
    ensures forall x | x in names :: |x| < n
    decreases |names|
  {
    if names == {} {
      n := 0;
    } else {
      var x :| x in names;
      assert forall y | y in names :: y == x || y in names - {x};
      n := LongerThan(names - {x});
      n := n + |x| + 1;
    }
  }

  lemma {:induction false} LargerThan(ids: set<HandleId>) returns (n: nat)
    ensures forall x | x in ids :: x < n
    decreases |ids|
  {
    if ids == {} {
      n := 0;
    } else {
      var x :| x in ids;
      assert forall y | y in ids :: y == x || y in ids - {x};
      n := LargerThan(ids - {x});
      n := n + x + 1;
    }
  }

  lemma Untrimmed(n: nat)
    ensures var name := seq(n + 1, _ => 't'); TrimSpace(name) == name
  {
    var name := seq(n + 1, _ => 't');
    assert name[0] == 't' && name[|name| - 1] == 't';
  }

  /** Between the snapshot and the cancellation of the failure path, a new task gets in. */
  lemma LateGo(s: State) returns (h: HandleId, name: string)
    requires Inv(s) && s.waiter.BeforeCancel? && s.waiter.kind == ForFailure
    ensures Enabled(s, GoCall(h, name)) && h !in s.waiter.snapshot
    ensures var s' := Apply(s, GoCall(h, name));
            && h in s'.handles && !s'.handles[h].done
            && s'.waiter == s.waiter && s'.timedOut == s.timedOut
  {
    hide TrimSpace, Registry, Covered, Ledger;
    var n := LongerThan(s.tasks.Keys);
    h := LargerThan(s.handles.Keys);
    name := seq(n + 1, _ => 't');
    Untrimmed(n);
    assert |name| == n + 1 && name !in s.tasks;
    assert GoVerdict(s, name) == Accepted;
  }

  /** Task `h` still runs, whatever else happened. */
  ghost predicate StillRuns(s: State, h: HandleId) {
    h in s.handles && !s.handles[h].done
  }

  /** The tasks of the snapshot can all finish while another one runs on. */
  lemma {:induction false} OthersFinish(s: State, h: HandleId, todo: set<HandleId>) returns (es: seq<Event>)
    requires Goroutines(s) && s.waiter.Waiting? && s.waiter.snapshot <= s.handles.Keys
    requires StillRuns(s, h) && h !in s.waiter.snapshot
    requires todo <= s.waiter.snapshot && forall x | x in s.waiter.snapshot && x !in todo :: s.handles[x].done
    ensures Feasible(s, es)
    ensures var s' := Exec(s, es);
            && s'.waiter == s.waiter && s'.timedOut == s.timedOut && StillRuns(s', h)
            && forall x | x in s.waiter.snapshot :: x in s'.handles && s'.handles[x].done
    decreases |todo|
  {
    hide Apply, Enabled, Feasible, Exec, Goroutines;
    if todo == {} {
      es := [];
      RunNone(s);
    } else {
      var x :| x in todo;
      var rest := todo - {x};
      if s.handles[x].done {
        es := OthersFinish(s, h, rest);
      } else {
        var s' := FinishOne(s, h, x);
        es := OthersFinish(s', h, rest);
        RunOne(s, Finish(x, None), es);
        es := [Finish(x, None)] + es;
      }
    }
  }

  lemma FinishOne(s: State, h: HandleId, x: HandleId) returns (s': State)
    requires Goroutines(s) && StillRuns(s, h) && StillRuns(s, x) && x != h
    ensures Goroutines(s') && Enabled(s, Finish(x, None)) && s' == Apply(s, Finish(x, None))
    ensures s'.waiter == s.waiter && s'.timedOut == s.timedOut && StillRuns(s', h)
    ensures s'.handles.Keys == s.handles.Keys && s'.handles[x].done
    ensures forall y | y in s.handles && s.handles[y].done :: s'.handles[y].done
  {
    s' := Apply(s, Finish(x, None));
  }

  lemma CancelThenWait(s: State, h: HandleId)
    requires Goroutines(s) && s.waiter.BeforeCancel? && StillRuns(s, h)
    ensures Enabled(s, CancelCtx) && Goroutines(Apply(s, CancelCtx))
    ensures var s' := Apply(s, CancelCtx);
            && s'.handles == s.handles && s'.timedOut == s.timedOut
            && s'.waiter == if s.waiter.snapshot == {} then BeforeDrain(s.waiter.kind) else Waiting(s.waiter.kind, s.waiter.snapshot)
  {
  }

  lemma WaitEnds(s: State, h: HandleId)
    requires s.waiter.Waiting? && StillRuns(s, h) && forall x | x in s.waiter.snapshot :: x in s.handles && s.handles[x].done
    ensures Enabled(s, WaitOver)
    ensures var s' := Apply(s, WaitOver);
            s'.waiter == BeforeDrain(s.waiter.kind) && !s'.timedOut && StillRuns(s', h)
  {
  }

  /** From the drain to the module stops nothing waits for a task. */
  lemma DrainAndReset(s: State, h: HandleId) returns (es: seq<Event>)
    requires s.waiter.BeforeDrain? && !s.timedOut && StillRuns(s, h)
    ensures Feasible(s, es)
    ensures var s' := Exec(s, es); s'.waiter.StoppingModules? && !s'.timedOut && StillRuns(s', h)
  {
    hide Feasible, Exec;
    var s1 := Apply(s, Drain);
    var s2 := Apply(s1, Reset);
    RunNone(s2);
    RunOne(s1, Reset, []);
    es := [Reset] + [];
    RunOne(s, Drain, es);
    es := [Drain] + es;
  }

  /** From every snapshot of a failure path a run leads to the module stops with a task still running,
      and no deadline is needed for it. */
  lemma LateTaskRunsOn(s: State) returns (es: seq<Event>)
    requires Inv(s) && s.waiter.BeforeCancel? && s.waiter.kind == ForFailure
    ensures Feasible(s, es) && Exec(s, es).waiter.StoppingModules? && !Exec(s, es).timedOut && !AllDone(Exec(s, es))
  {
    hide Feasible, Exec, Apply, Enabled;
    var h, name := LateGo(s);
    var s1 := Apply(s, GoCall(h, name));
    StepKeepsInv(s, GoCall(h, name));
    CancelThenWait(s1, h);
    var s2 := Apply(s1, CancelCtx);
    var rest: seq<Event>;
    if s.waiter.snapshot == {} {
      rest := DrainAndReset(s2, h);
    } else {
      rest := FinishSnapshot(s2, h);
    }
    RunOne(s1, CancelCtx, rest);
    RunOne(s, GoCall(h, name), [CancelCtx] + rest);
    es := [GoCall(h, name)] + ([CancelCtx] + rest);
    StillRunsIsNotDone(Exec(s, es), h);
  }

  lemma FinishSnapshot(s: State, h: HandleId) returns (es: seq<Event>)
    requires Goroutines(s) && s.waiter.Waiting? && s.waiter.snapshot <= s.handles.Keys && StillRuns(s, h) && h !in s.waiter.snapshot
    ensures Feasible(s, es)
    ensures var s' := Exec(s, es); s'.waiter.StoppingModules? && !s'.timedOut && StillRuns(s', h)
  {
    hide Feasible, Exec, Apply, Enabled, Goroutines;
    var finishes := OthersFinish(s, h, s.waiter.snapshot);
    var s1 := Exec(s, finishes);
    WaitEnds(s1, h);
    var rest := DrainAndReset(Apply(s1, WaitOver), h);
    RunOne(s1, WaitOver, rest);
    RunConcat(s, finishes, [WaitOver] + rest);
    es := finishes + ([WaitOver] + rest);
  }

  lemma StillRunsIsNotDone(s: State, h: HandleId)
    requires StillRuns(s, h)
    ensures !AllDone(s)
  {
  }

  lemma {:induction false} RunConcat(s: State, a: seq<Event>, b: seq<Event>)
    requires Feasible(s, a) && Feasible(Exec(s, a), b)
    ensures Feasible(s, a + b) && Exec(s, a + b) == Exec(Exec(s, a), b)
    decreases a
  {
    hide Apply, Enabled;
    if a == [] {
      assert a + b == b;
    } else {
      assert (a + b)[1..] == a[1..] + b;
      RunConcat(Apply(s, a[0]), a[1..], b);
    }
  }

  /**
   * Once the snapshot is taken, the kind of teardown decides: every continuation that reaches the module
   * stops without a timeout has all tasks done if and only if it is `StopModules` that tears down.
   */
  lemma SnapshotDecides(s: State)
    requires Inv(s) && s.waiter.BeforeCancel?
    ensures s.waiter.kind == ForStop <==>
            forall es | Feasible(s, es) && Exec(s, es).waiter.StoppingModules? && !Exec(s, es).timedOut :: AllDone(Exec(s, es))
  {
    hide Feasible, Exec, AllDone, Inv;
    if s.waiter.kind == ForStop {
      forall es | Feasible(s, es) && Exec(s, es).waiter.StoppingModules? && !Exec(s, es).timedOut ensures AllDone(Exec(s, es)) {
        StopWaitsForAll(s, es);
      }
    } else {
      var es := LateTaskRunsOn(s);
    }
  }

  lemma StepKeepsKind(s: State, e: Event)
    requires Teardown(s) && Enabled(s, e) && !s.waiter.Idle?
    ensures !Apply(s, e).waiter.Idle? && Apply(s, e).waiter.kind == s.waiter.kind
  {
    hide TrimSpace, Recorded, GoVerdict;
  }

  lemma {:induction false} RunKeepsKind(s: State, es: seq<Event>)
    requires Inv(s) && Feasible(s, es) && !s.waiter.Idle?
    ensures !Exec(s, es).waiter.Idle? && Exec(s, es).waiter.kind == s.waiter.kind
    decreases es
  {
    hide Apply, Enabled, Registry, Covered, Ledger, Contexts, Quiet, Window, Goroutines, StopsLast, Teardown;
    if es != [] {
      StepKeepsInv(s, es[0]);
      StepKeepsKind(s, es[0]);
      RunKeepsKind(Apply(s, es[0]), es[1..]);
    }
  }

  lemma StopWaitsForAll(s: State, es: seq<Event>)
    requires Inv(s) && s.waiter.BeforeCancel? && s.waiter.kind == ForStop && Feasible(s, es)
    requires Exec(s, es).waiter.StoppingModules? && !Exec(s, es).timedOut
    ensures AllDone(Exec(s, es))
  {
    hide Registry, Ledger, Contexts, Window, Feasible, Exec;
    RunKeepsKind(s, es);
    RunKeeps(s, es);
  }

  /** From a fresh manager to a failed Init whose rollback stops a module while a task still runs. */
  lemma FailurePathCanLeaveTasks() returns (es: seq<Event>)
    ensures Feasible(INIT, es)
    ensures var s := Exec(INIT, es);
            s.moduleStops == 1 && !s.expired && !AllDone(s)
  {
    hide Feasible, Exec, Apply, Enabled;
    FailedInitSteps();
    FailedInitCancels();
    FailedInitDrains();
    FailedInitStops();
    var s8 := FailedInit(StoppingModules(ForFailure), 1, {0}, true, 1);
    assert s8.handles[0].done == false;
    es := [];
    RunNone(s8);
    RunOne(FailedInit(StoppingModules(ForFailure), 1, {0}, true, 0), StopModule, es);
    es := [StopModule] + es;
    RunOne(FailedInit(BeforeReset(ForFailure), 0, {0}, true, 0), Reset, es);
    es := [Reset] + es;
    RunOne(FailedInit(BeforeDrain(ForFailure), 0, {0}, true, 0), Drain, es);
    es := [Drain] + es;
    RunOne(FailedInit(BeforeCancel(ForFailure, 0, {}), 0, {}, true, 0), CancelCtx, es);
    es := [CancelCtx] + es;
    RunOne(FailedInit(BeforeCancel(ForFailure, 0, {}), 0, {}, false, 0), GoCall(0, "t"), es);
    es := [GoCall(0, "t")] + es;
    RunOne(FailedInit(BeforeSnapshot(ForFailure), 0, {}, false, 0), Snapshot, es);
    es := [Snapshot] + es;
    RunOne(FailedInit(Idle, 0, {}, false, 0), InitFail, es);
    es := [InitFail] + es;
    RunOne(INIT, InitBegin, es);
    es := [InitBegin] + es;
  }

  /** A manager in a failing Init, with or without one running task. */
  function FailedInit(w: Waiter, gen: nat, cancelled: set<nat>, task: bool, stops: nat): State {
    State(Initializing, gen, cancelled,
      if task then map["t" := 0] else map[],
      if task then map[0 := Handle("t", 0, false, None)] else map[],
      [], w, false, false, if task then {0} else {}, multiset{}, multiset{}, stops, if task then {0} else {}, false)
  }

  predicate Leads(s: State, e: Event, s': State) {
    Enabled(s, e) && Apply(s, e) == s'
  }

  lemma FailedInitSteps()
    ensures Leads(INIT, InitBegin, FailedInit(Idle, 0, {}, false, 0))
    ensures Leads(FailedInit(Idle, 0, {}, false, 0), InitFail, FailedInit(BeforeSnapshot(ForFailure), 0, {}, false, 0))
    ensures Leads(FailedInit(BeforeSnapshot(ForFailure), 0, {}, false, 0), Snapshot,
              FailedInit(BeforeCancel(ForFailure, 0, {}), 0, {}, false, 0))
    ensures Leads(FailedInit(BeforeCancel(ForFailure, 0, {}), 0, {}, false, 0), GoCall(0, "t"),
              FailedInit(BeforeCancel(ForFailure, 0, {}), 0, {}, true, 0))
  {
    TrimOne();
    var none: map<string, HandleId> := map[];
    assert none.Values == {};
  }

  lemma FailedInitCancels()
    ensures Leads(FailedInit(BeforeCancel(ForFailure, 0, {}), 0, {}, true, 0), CancelCtx,
              FailedInit(BeforeDrain(ForFailure), 0, {0}, true, 0))
  {
    var none: set<nat> := {};
    assert none + {0} == {0};
  }

  lemma FailedInitDrains()
    ensures Leads(FailedInit(BeforeDrain(ForFailure), 0, {0}, true, 0), Drain, FailedInit(BeforeReset(ForFailure), 0, {0}, true, 0))
  {
    var none: seq<TaskError> := [];
    assert multiset(none) == multiset{};
  }

  lemma FailedInitStops()
    ensures Leads(FailedInit(BeforeReset(ForFailure), 0, {0}, true, 0), Reset, FailedInit(StoppingModules(ForFailure), 1, {0}, true, 0))
    ensures Leads(FailedInit(StoppingModules(ForFailure), 1, {0}, true, 0), StopModule, FailedInit(StoppingModules(ForFailure), 1, {0}, true, 1))
  {
  }

  lemma TrimOne()
    ensures TrimSpace("t") == "t"
  {
  }

  lemma RunNone(s: State)
    ensures Feasible(s, []) && Exec(s, []) == s
  {
  }

  lemma RunOne(s: State, e: Event, rest: seq<Event>)
    requires Enabled(s, e) && Feasible(Apply(s, e), rest)
    ensures Feasible(s, [e] + rest) && Exec(s, [e] + rest) == Exec(Apply(s, e), rest)
  {
    hide Apply, Enabled;
    assert ([e] + rest)[1..] == rest;
  }
}
