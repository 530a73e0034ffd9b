/**
 * The manager and its task supervisor together (modulex.go). The manager's calls, seen as supervisor
 * events, may be interleaved with any starts and ends of tasks; what `StopModules` promises about tasks
 * then holds for the manager's own run.
 */
module ManagedTasks {
  import opened Text
  import S = Supervisor
  import M = Managers

  /** The supervisor events that belong to the manager's own calls and show in its state or its log. */
  predicate Control(e: S.Event) {
    || e.InitBegin? || e.InitOk? || e.InitFail? || e.StartBegin? || e.StartOk? || e.StartFail?
    || e.StopCall? || e.Drain? || e.StopModule? || e.TeardownOver?
  }

  /** The control events of a run. */
  function Project(es: seq<S.Event>): seq<S.Event> {
    if es == [] then [] else (if Control(es[0]) then [es[0]] else []) + Project(es[1..])
  }

  /** What a call log says about the wait for tasks and the module stops. */
  function LogEvents(log: seq<M.Call>): seq<S.Event> {
    if log == [] then [] else
      (match log[0]
       case WaitTasks => [S.Drain]
       case StopCallOf(_) => [S.StopModule]
       case _ => []) + LogEvents(log[1..])
  }

  function NewLog(v: M.View, v': M.View): seq<M.Call> {
    if |v.log| <= |v'.log| then v'.log[|v.log|..] else []
  }

  /** One manager call as control events. */
  function EventsOf(setup: M.Setup, v: M.View, op: M.Op): seq<S.Event> {
    var v' := M.Step(setup, v, op).0;
    var teardown := LogEvents(NewLog(v, v')) + [S.TeardownOver];
    match op
    case Register(_, _) => []
    case DoInit(_, _) =>
      if v.life != S.Configuring then []
      else [S.InitBegin] + if v'.life == S.Initialized then [S.InitOk] else [S.InitFail] + teardown
    case DoStart(_) =>
      if v.life != S.Initialized then []
      else [S.StartBegin] + if v'.life == S.Running then [S.StartOk] else [S.StartFail] + teardown
    case DoStop(_) =>
      [S.StopCall] + if v.life != S.Stopped && v'.life == S.Stopped then teardown else []
  }

  /** A run of manager calls as control events. */
  function RunEvents(setup: M.Setup, v: M.View, ops: seq<M.Op>): seq<S.Event>
    decreases ops
  {
    if ops == [] then [] else EventsOf(setup, v, ops[0]) + RunEvents(setup, M.Step(setup, v, ops[0]).0, ops[1..])
  }

  // ----- Lifecycle and module stops depend on the control events alone -----

  function LifeAfter(life: S.Lifecycle, e: S.Event): S.Lifecycle {
    match e
    case InitBegin => S.Initializing
    case InitOk => S.Initialized
    case StartBegin => S.Starting
    case StartOk => S.Running
    case StopCall => if life == S.Configuring || life == S.Initialized || life == S.Running then S.Stopping else life
    case TeardownOver => S.Stopped
    case _ => life
  }

  function LifeThrough(life: S.Lifecycle, es: seq<S.Event>): S.Lifecycle
    decreases es
  {
    if es == [] then life else LifeThrough(LifeAfter(life, es[0]), es[1..])
  }

  function StopsIn(es: seq<S.Event>): nat {
    if es == [] then 0 else (if es[0].StopModule? then 1 else 0) + StopsIn(es[1..])
  }

  /** The wait and the module stops among some events. */
  function TeardownPart(es: seq<S.Event>): seq<S.Event> {
    if es == [] then [] else (if es[0].Drain? || es[0].StopModule? then [es[0]] else []) + TeardownPart(es[1..])
  }

  lemma StepControls(s: S.State, e: S.Event)
    requires S.Enabled(s, e)
    ensures S.Apply(s, e).life == LifeAfter(s.life, e)
    ensures S.Apply(s, e).moduleStops == s.moduleStops + if e.StopModule? then 1 else 0
  {
    hide S.Apply, S.Enabled;
    if e.GoCall? || e.Finish? {
      S.LifeFrame(s, e);
    } else {
      OtherControls(s, e);
    }
  }

  lemma OtherControls(s: S.State, e: S.Event)
    requires S.Enabled(s, e) && !e.GoCall? && !e.Finish?
    ensures S.Apply(s, e).life == LifeAfter(s.life, e)
    ensures S.Apply(s, e).moduleStops == s.moduleStops + if e.StopModule? then 1 else 0
  {
    hide S.GoVerdict, S.Recorded, TrimSpace;
  }

  lemma {:induction false} ControlDecides(s: S.State, es: seq<S.Event>)
    requires S.Feasible(s, es)
    ensures S.Exec(s, es).life == LifeThrough(s.life, Project(es))
    ensures S.Exec(s, es).moduleStops == s.moduleStops + StopsIn(Project(es))
    decreases es
  {
    hide S.Apply, S.Enabled, LifeAfter;
    if es != [] {
      StepControls(s, es[0]);
      ControlDecides(S.Apply(s, es[0]), es[1..]);
      if Control(es[0]) {
        assert Project(es) == [es[0]] + Project(es[1..]) && Project(es)[1..] == Project(es[1..]);
      } else {
        NotControl(s.life, es[0]);
        assert Project(es) == Project(es[1..]);
      }
    }
  }

  lemma NotControl(life: S.Lifecycle, e: S.Event)
    requires !Control(e)
    ensures LifeAfter(life, e) == life && !e.StopModule?
  {
  }

  // ----- Sequences of events -----

  lemma {:induction false} LifeConcat(life: S.Lifecycle, x: seq<S.Event>, y: seq<S.Event>)
    ensures LifeThrough(life, x + y) == LifeThrough(LifeThrough(life, x), y)
    decreases x
  {
    hide LifeAfter;
    if x == [] {
      assert x + y == y;
    } else {
      assert (x + y)[0] == x[0] && (x + y)[1..] == x[1..] + y;
      LifeConcat(LifeAfter(life, x[0]), x[1..], y);
    }
  }

  lemma {:induction false} StopsConcat(x: seq<S.Event>, y: seq<S.Event>)
    ensures StopsIn(x + y) == StopsIn(x) + StopsIn(y)
    decreases x
  {
    if x == [] {
      assert x + y == y;
    } else {
      assert (x + y)[0] == x[0] && (x + y)[1..] == x[1..] + y;
      StopsConcat(x[1..], y);
    }
  }

  lemma {:induction false} TeardownConcat(x: seq<S.Event>, y: seq<S.Event>)
    ensures TeardownPart(x + y) == TeardownPart(x) + TeardownPart(y)
    decreases x
  {
    if x == [] {
      assert x + y == y;
    } else {
      assert (x + y)[0] == x[0] && (x + y)[1..] == x[1..] + y;
      TeardownConcat(x[1..], y);
      var own := if x[0].Drain? || x[0].StopModule? then [x[0]] else [];
      assert own + (TeardownPart(x[1..]) + TeardownPart(y)) == own + TeardownPart(x[1..]) + TeardownPart(y);
    }
  }

  lemma {:induction false} ProjectConcat(x: seq<S.Event>, y: seq<S.Event>)
    ensures Project(x + y) == Project(x) + Project(y)
    decreases x
  {
    hide Control;
    if x == [] {
      assert x + y == y;
    } else {
      assert (x + y)[0] == x[0] && (x + y)[1..] == x[1..] + y;
      ProjectConcat(x[1..], y);
      var own := if Control(x[0]) then [x[0]] else [];
      assert own + (Project(x[1..]) + Project(y)) == own + Project(x[1..]) + Project(y);
    }
  }

  lemma Concat(life: S.Lifecycle, x: seq<S.Event>, y: seq<S.Event>)
    ensures LifeThrough(life, x + y) == LifeThrough(LifeThrough(life, x), y)
    ensures StopsIn(x + y) == StopsIn(x) + StopsIn(y)
    ensures TeardownPart(x + y) == TeardownPart(x) + TeardownPart(y)
    ensures Project(x + y) == Project(x) + Project(y)
  {
    hide LifeThrough, StopsIn, TeardownPart, Project;
    LifeConcat(life, x, y);
    StopsConcat(x, y);
    TeardownConcat(x, y);
    ProjectConcat(x, y);
  }

  lemma {:induction false} LogConcat(x: seq<M.Call>, y: seq<M.Call>)
    ensures LogEvents(x + y) == LogEvents(x) + LogEvents(y)
    decreases x
  {
    if x == [] {
      assert x + y == y;
    } else {
      assert (x + y)[0] == x[0] && (x + y)[1..] == x[1..] + y;
      LogConcat(x[1..], y);
    }
  }

  predicate OnlyTeardown(es: seq<S.Event>) {
    forall e | e in es :: e.Drain? || e.StopModule?
  }

  lemma {:induction false} LogIsTeardown(log: seq<M.Call>)
    ensures OnlyTeardown(LogEvents(log))
    decreases log
  {
    if log != [] {
      LogIsTeardown(log[1..]);
    }
  }

  lemma TeardownCons(life: S.Lifecycle, e: S.Event, rest: seq<S.Event>)
    requires e.Drain? || e.StopModule?
    ensures LifeThrough(life, [e] + rest) == LifeThrough(life, rest)
    ensures TeardownPart([e] + rest) == [e] + TeardownPart(rest) && Project([e] + rest) == [e] + Project(rest)
  {
    assert ([e] + rest)[1..] == rest;
  }

  lemma {:induction false} TeardownIs(life: S.Lifecycle, es: seq<S.Event>)
    requires OnlyTeardown(es)
    ensures LifeThrough(life, es) == life && TeardownPart(es) == es && Project(es) == es
    decreases es
  {
    if es != [] {
      TeardownTail(life, es);
    }
  }

  lemma {:induction false} TeardownTail(life: S.Lifecycle, es: seq<S.Event>)
    requires OnlyTeardown(es) && es != []
    ensures LifeThrough(life, es) == life && TeardownPart(es) == es && Project(es) == es
    decreases es, 0
  {
    hide LifeThrough, TeardownPart, Project;
    var rest := es[1..];
    assert es[0] in es && es == [es[0]] + rest && forall e | e in rest :: e in es;
    TeardownIs(life, rest);
    TeardownCons(life, es[0], rest);
  }

  lemma One(life: S.Lifecycle, e: S.Event)
    ensures LifeThrough(life, [e]) == LifeAfter(life, e)
    ensures TeardownPart([e]) == if e.Drain? || e.StopModule? then [e] else []
    ensures Project([e]) == if Control(e) then [e] else []
  {
    hide LifeAfter, Control;
    assert [e][1..] == [];
  }

  // ----- One manager call, then a run of them -----

  lemma {:induction false} NoTeardownCalls(log: seq<M.Call>)
    requires forall c | c in log :: !c.WaitTasks? && !c.StopCallOf?
    ensures LogEvents(log) == []
    decreases log
  {
    if log != [] {
      assert log[0] in log;
      NoTeardownCalls(log[1..]);
    }
  }

  /** A phase that succeeds adds no wait and no stop to the log. */
  lemma PhaseLog(setup: M.Setup, v: M.View, op: M.Op)
    requires (op.DoInit? && v.life == S.Configuring) || (op.DoStart? && v.life == S.Initialized)
    requires M.Step(setup, v, op).0.life != S.Stopped
    ensures LogEvents(NewLog(v, M.Step(setup, v, op).0)) == []
  {
    hide M.Phase, M.Inits, M.Starts, M.TeardownCalls, M.TeardownFaults, LogEvents;
    var v' := M.Step(setup, v, op).0;
    if op.DoInit? {
      var reached := M.Reached(op.sorted.order, M.Phase(op.sorted.order, op.env.fails, op.env, 0));
      M.InitsAre(reached);
      assert NewLog(v, v') == M.Inits(reached);
    } else {
      var reached := M.Reached(v.ordered, M.Phase(v.ordered, op.env.fails * setup.starters, op.env, 0));
      M.StartsAre(reached, setup.starters);
      assert NewLog(v, v') == M.Starts(reached, setup.starters);
    }
    NoTeardownCalls(NewLog(v, v'));
  }

  /** What a call's events say about the lifecycle and the teardown is what the call does. */
  ghost predicate Matches(v: M.View, v': M.View, es: seq<S.Event>) {
    && LifeThrough(v.life, es) == v'.life
    && TeardownPart(es) == LogEvents(NewLog(v, v'))
    && Project(es) == es
  }

  lemma TornDownEvents(life: S.Lifecycle, begin: seq<S.Event>, log: seq<M.Call>)
    ensures var es := begin + (LogEvents(log) + [S.TeardownOver]);
            && LifeThrough(life, es) == S.Stopped
            && TeardownPart(es) == TeardownPart(begin) + LogEvents(log)
            && Project(es) == Project(begin) + (LogEvents(log) + [S.TeardownOver])
  {
    hide LifeThrough, TeardownPart, Project, LogEvents;
    var t := LogEvents(log);
    var mid := LifeThrough(life, begin);
    Concat(life, begin, t + [S.TeardownOver]);
    Concat(mid, t, [S.TeardownOver]);
    LogIsTeardown(log);
    TeardownIs(mid, t);
    One(mid, S.TeardownOver);
  }

  lemma TwoEvents(life: S.Lifecycle, a: S.Event, b: S.Event)
    requires Control(a) && Control(b)
    ensures LifeThrough(life, [a] + [b]) == LifeAfter(LifeAfter(life, a), b) && Project([a] + [b]) == [a] + [b]
    ensures !a.Drain? && !a.StopModule? && !b.Drain? && !b.StopModule? ==> TeardownPart([a] + [b]) == []
  {
    hide LifeThrough, TeardownPart, Project, LifeAfter, Control;
    Concat(life, [a], [b]);
    One(life, a);
    One(LifeAfter(life, a), b);
  }

  lemma PhaseMatches(setup: M.Setup, v: M.View, op: M.Op)
    requires (op.DoInit? && v.life == S.Configuring) || (op.DoStart? && v.life == S.Initialized)
    ensures Matches(v, M.Step(setup, v, op).0, EventsOf(setup, v, op))
  {
    hide M.Step, LogEvents, LifeThrough, TeardownPart, Project, NewLog;
    var v' := M.Step(setup, v, op).0;
    var begin, good, bad := BeginOf(op), GoodOf(op), BadOf(op);
    PhaseEnds(setup, v, op);
    TwoEvents(v.life, begin, good);
    TwoEvents(v.life, begin, bad);
    if v'.life != S.Stopped {
      PhaseLog(setup, v, op);
    } else {
      var teardown := LogEvents(NewLog(v, v')) + [S.TeardownOver];
      assert [begin] + ([bad] + teardown) == ([begin] + [bad]) + teardown;
      TornDownEvents(v.life, [begin] + [bad], NewLog(v, v'));
    }
  }

  lemma PhaseEnds(setup: M.Setup, v: M.View, op: M.Op)
    requires (op.DoInit? && v.life == S.Configuring) || (op.DoStart? && v.life == S.Initialized)
    ensures var life := M.Step(setup, v, op).0.life; life == S.Stopped || life == if op.DoInit? then S.Initialized else S.Running
  {
    hide M.Phase, M.TeardownCalls, M.TeardownFaults, M.Inits, M.Starts;
  }

  lemma StopMatches(setup: M.Setup, v: M.View, down: M.Down)
    requires v.life != S.Initializing && v.life != S.Starting && v.life != S.Stopping
    ensures Matches(v, M.Step(setup, v, M.DoStop(down)).0, EventsOf(setup, v, M.DoStop(down)))
  {
    hide M.TeardownCalls, M.TeardownFaults, LogEvents, LifeThrough, TeardownPart, Project;
    var v' := M.Step(setup, v, M.DoStop(down)).0;
    One(v.life, S.StopCall);
    if v.life != S.Stopped {
      TornDownEvents(v.life, [S.StopCall], NewLog(v, v'));
    } else {
      assert [S.StopCall] + [] == [S.StopCall];
      NoTeardownCalls(NewLog(v, v'));
    }
  }

  lemma NothingMatches(v: M.View, v': M.View)
    requires v'.life == v.life && v'.log == v.log
    ensures Matches(v, v', [])
  {
  }

  lemma OpMatches(setup: M.Setup, v: M.View, op: M.Op)
    requires M.Sound(setup, v)
    ensures Matches(v, M.Step(setup, v, op).0, EventsOf(setup, v, op))
  {
    hide Matches, M.Sound, M.TeardownCalls, M.TeardownFaults, M.Phase, TrimSpace, LogEvents;
    M.SoundIsBetweenCalls(setup, v);
    if op.DoStop? {
      StopMatches(setup, v, op.down);
    } else if (op.DoInit? && v.life == S.Configuring) || (op.DoStart? && v.life == S.Initialized) {
      PhaseMatches(setup, v, op);
    } else {
      NothingMatches(v, M.Step(setup, v, op).0);
    }
  }

  lemma MatchesTrans(v: M.View, v': M.View, v'': M.View, x: seq<S.Event>, y: seq<S.Event>)
    requires Matches(v, v', x) && Matches(v', v'', y) && v.log <= v'.log && v'.log <= v''.log
    ensures Matches(v, v'', x + y)
  {
    hide LifeThrough, TeardownPart, Project, LogEvents;
    Concat(v.life, x, y);
    LogConcat(NewLog(v, v'), NewLog(v', v''));
    assert NewLog(v, v'') == NewLog(v, v') + NewLog(v', v'');
  }

  lemma {:induction false} RunMatches(setup: M.Setup, v: M.View, ops: seq<M.Op>)
    requires M.Sound(setup, v) && M.LegalRun(setup, v, ops)
    ensures Matches(v, M.Run(setup, v, ops), RunEvents(setup, v, ops)) && v.log <= M.Run(setup, v, ops).log
    decreases ops
  {
    hide Matches, M.Sound, M.Step, M.Legal, EventsOf;
    if ops == [] {
      NothingMatches(v, v);
    } else {
      var v' := M.Step(setup, v, ops[0]).0;
      OpMatches(setup, v, ops[0]);
      M.StepKeepsSound(setup, v, ops[0]);
      M.StepOnlyMovesForward(setup, v, ops[0]);
      RunMatches(setup, v', ops[1..]);
      MatchesTrans(v, v', M.Run(setup, v, ops), EventsOf(setup, v, ops[0]), RunEvents(setup, v', ops[1..]));
    }
  }

  lemma {:induction false} TeardownOfProject(es: seq<S.Event>)
    ensures TeardownPart(es) == TeardownPart(Project(es))
    decreases es
  {
    if es != [] {
      TeardownOfProject(es[1..]);
      if Control(es[0]) {
        assert Project(es)[1..] == Project(es[1..]);
      } else {
        assert Project(es) == Project(es[1..]);
      }
    }
  }

  lemma {:induction false} StopsOfTeardown(es: seq<S.Event>)
    ensures StopsIn(es) == StopsIn(TeardownPart(es))
    decreases es
  {
    if es != [] {
      StopsOfTeardown(es[1..]);
      if es[0].Drain? || es[0].StopModule? {
        assert TeardownPart(es)[1..] == TeardownPart(es[1..]);
      } else {
        assert TeardownPart(es) == TeardownPart(es[1..]);
      }
    }
  }

  /**
   * However tasks start and end around a run of manager calls, the supervisor reaches the manager's
   * lifecycle state, and its waits and module stops are those of the manager's log, in order.
   */
  lemma TasksFollowTheManager(setup: M.Setup, ops: seq<M.Op>, es: seq<S.Event>)
    requires M.LegalRun(setup, M.FRESH, ops) && S.Feasible(S.INIT, es)
    requires Project(es) == RunEvents(setup, M.FRESH, ops)
    ensures var (v, s) := (M.Run(setup, M.FRESH, ops), S.Exec(S.INIT, es));
            && s.life == v.life
            && TeardownPart(es) == LogEvents(v.log)
            && s.moduleStops == StopsIn(LogEvents(v.log))
  {
    hide M.Run, M.LegalRun, S.Feasible, S.Exec, Project, RunEvents, LifeThrough, TeardownPart, LogEvents, StopsIn;
    M.FreshIsSound(setup);
    RunMatches(setup, M.FRESH, ops);
    ControlDecides(S.INIT, es);
    TeardownOfProject(es);
    StopsOfTeardown(Project(es));
    var v := M.Run(setup, M.FRESH, ops);
    assert NewLog(M.FRESH, v) == v.log;
  }

  // ----- The failure paths leave their mark -----

  predicate Fails(es: seq<S.Event>) {
    exists e | e in es :: e.InitFail? || e.StartFail?
  }

  lemma FirstKind(s: S.State, e: S.Event)
    requires S.Enabled(s, e) && s.waiter.Idle?
    ensures var w := S.Apply(s, e).waiter; w.Idle? || w.kind == S.ForStop || e.InitFail? || e.StartFail?
  {
    hide S.GoVerdict, S.Recorded, TrimSpace;
  }

  lemma {:induction false} FailureLeavesMark(s: S.State, es: seq<S.Event>)
    requires S.Inv(s) && S.Feasible(s, es) && s.waiter.Idle?
    ensures var w := S.Exec(s, es).waiter; w.Idle? || w.kind == S.ForStop || Fails(es)
    decreases es
  {
    hide S.Inv, S.Apply, S.Enabled;
    if es != [] {
      var s' := S.Apply(s, es[0]);
      S.StepKeepsInv(s, es[0]);
      FirstKind(s, es[0]);
      assert es[0] in es && forall e | e in es[1..] :: e in es;
      if s'.waiter.Idle? {
        FailureLeavesMark(s', es[1..]);
      } else {
        S.RunKeepsKind(s', es[1..]);
      }
    }
  }

  lemma {:induction false} FailsInProject(es: seq<S.Event>)
    ensures Fails(es) <==> Fails(Project(es))
    decreases es
  {
    if es != [] {
      FailsInProject(es[1..]);
      assert forall e | e in es :: e == es[0] || e in es[1..];
      assert forall e | e in es[1..] :: e in es;
      assert forall e | e in Project(es[1..]) :: e in Project(es);
      assert forall e | e in Project(es) :: e in Project(es[1..]) || (e == es[0] && Control(e));
      assert Control(es[0]) ==> es[0] in Project(es);
      assert es[0] in es;
    }
  }

  lemma NoFailInTeardown(log: seq<M.Call>)
    ensures !Fails(LogEvents(log) + [S.TeardownOver])
  {
    hide LogEvents;
    LogIsTeardown(log);
  }

  /** A call whose events hold a failed phase leaves the manager stopped; `StopModules` has none. */
  lemma FailingCallStops(setup: M.Setup, v: M.View, op: M.Op)
    ensures Fails(EventsOf(setup, v, op)) ==> M.Step(setup, v, op).0.life == S.Stopped && !op.DoStop?
  {
    hide M.Step, LogEvents, NewLog;
    var v' := M.Step(setup, v, op).0;
    NoFailInTeardown(NewLog(v, v'));
    if (op.DoInit? && v.life == S.Configuring) || (op.DoStart? && v.life == S.Initialized) {
      PhaseEnds(setup, v, op);
    }
    var teardown := LogEvents(NewLog(v, v')) + [S.TeardownOver];
    assert forall e | e in [S.StopCall] + teardown :: e == S.StopCall || e in teardown;
  }

  lemma {:induction false} FailingRunStops(setup: M.Setup, v: M.View, ops: seq<M.Op>)
    requires M.Sound(setup, v) && M.LegalRun(setup, v, ops) && Fails(RunEvents(setup, v, ops))
    ensures M.Run(setup, v, ops).life == S.Stopped
    decreases ops
  {
    hide M.Sound, M.Step, M.Legal, EventsOf;
    if ops != [] {
      var v' := M.Step(setup, v, ops[0]).0;
      M.StepKeepsSound(setup, v, ops[0]);
      if Fails(EventsOf(setup, v, ops[0])) {
        FailingCallStops(setup, v, ops[0]);
        M.RunOnlyMovesForward(setup, v', ops[1..]);
      } else {
        FailingRunStops(setup, v', ops[1..]);
      }
    }
  }

  lemma {:induction false} RunEventsSnoc(setup: M.Setup, v: M.View, ops: seq<M.Op>, op: M.Op)
    ensures RunEvents(setup, v, ops + [op]) == RunEvents(setup, v, ops) + EventsOf(setup, M.Run(setup, v, ops), op)
    decreases ops
  {
    hide M.Step, EventsOf;
    if ops == [] {
      assert ops + [op] == [op] && [op][1..] == [];
    } else {
      assert (ops + [op])[0] == ops[0] && (ops + [op])[1..] == ops[1..] + [op];
      RunEventsSnoc(setup, M.Step(setup, v, ops[0]).0, ops[1..], op);
    }
  }

  lemma {:induction false} PrefixFeasible(s: S.State, x: seq<S.Event>, y: seq<S.Event>)
    requires S.Feasible(s, x + y)
    ensures S.Feasible(s, x)
    decreases x
  {
    hide S.Apply, S.Enabled;
    if x != [] {
      assert (x + y)[0] == x[0] && (x + y)[1..] == x[1..] + y;
      PrefixFeasible(S.Apply(s, x[0]), x[1..], y);
    }
  }

  /**
   * `StopModules` on a manager that was not torn down before: however tasks start and end around the
   * whole run, from its first module Stop on every task ever started is done, unless the wait was cut
   * short by the caller's deadline.
   */
  lemma StopModulesWaitsForTasks(setup: M.Setup, ops: seq<M.Op>, down: M.Down, pre: seq<S.Event>, post: seq<S.Event>)
    requires M.LegalRun(setup, M.FRESH, ops) && M.Run(setup, M.FRESH, ops).life != S.Stopped
    requires S.Feasible(S.INIT, pre + post)
    requires Project(pre + post) == RunEvents(setup, M.FRESH, ops + [M.DoStop(down)])
    ensures S.Feasible(S.INIT, pre)
    ensures var s := S.Exec(S.INIT, pre); s.moduleStops > 0 && !s.timedOut ==> S.AllDone(s)
  {
    hide M.Run, M.LegalRun, M.Sound, S.Feasible, S.Exec, Project, RunEvents, EventsOf, S.AllDone;
    PrefixFeasible(S.INIT, pre, post);
    S.InitInv();
    S.RunKeeps(S.INIT, pre);
    var s := S.Exec(S.INIT, pre);
    NoFailure(setup, ops, down, pre, post);
    FailureLeavesMark(S.INIT, pre);
    if s.moduleStops > 0 && !s.timedOut {
      StoppingMeansDone(s);
    }
  }

  lemma StoppingMeansDone(s: S.State)
    requires S.Inv(s) && s.moduleStops > 0 && !s.timedOut && (s.waiter.Idle? || s.waiter.kind == S.ForStop)
    ensures S.AllDone(s)
  {
    hide S.Registry, S.Ledger, S.Contexts, S.Window, S.Teardown, S.Quiet, S.Goroutines;
  }

  lemma NoFailure(setup: M.Setup, ops: seq<M.Op>, down: M.Down, pre: seq<S.Event>, post: seq<S.Event>)
    requires M.LegalRun(setup, M.FRESH, ops) && M.Run(setup, M.FRESH, ops).life != S.Stopped
    requires Project(pre + post) == RunEvents(setup, M.FRESH, ops + [M.DoStop(down)])
    ensures !Fails(pre)
  {
    hide M.Run, M.LegalRun, M.Sound, Project, RunEvents, EventsOf;
    var v := M.Run(setup, M.FRESH, ops);
    M.FreshIsSound(setup);
    RunEventsSnoc(setup, M.FRESH, ops, M.DoStop(down));
    FailingCallStops(setup, v, M.DoStop(down));
    if Fails(RunEvents(setup, M.FRESH, ops)) {
      FailingRunStops(setup, M.FRESH, ops);
    }
    FailsInProject(pre + post);
    assert forall e | e in pre :: e in pre + post;
  }

  // ----- Every manager run is a supervisor run -----

  /** A supervisor without tasks in the state of a manager between two calls. */
  ghost predicate Bare(s: S.State, life: S.Lifecycle) {
    && s.life == life && s.tasks == map[] && s.handles == map[]
    && (if life == S.Stopped then s.waiter.Over? else s.waiter.Idle?)
  }

  function Repeat(n: nat): seq<S.Event> {
    if n == 0 then [] else [S.StopModule] + Repeat(n - 1)
  }

  /** The teardown of a supervisor without tasks, from the start of the wait. */
  function QuietTeardown(n: nat): seq<S.Event> {
    [S.Snapshot] + ([S.CancelCtx] + ([S.Drain] + ([S.Reset] + (Repeat(n) + [S.TeardownOver]))))
  }

  lemma {:induction false} RepeatProject(n: nat)
    ensures Project(Repeat(n)) == Repeat(n)
  {
    if n > 0 {
      RepeatProject(n - 1);
      assert Repeat(n)[1..] == Repeat(n - 1);
    }
  }

  lemma ProjectCons(e: S.Event, r: seq<S.Event>)
    ensures Project([e] + r) == if Control(e) then [e] + Project(r) else Project(r)
  {
    assert ([e] + r)[1..] == r;
  }

  lemma QuietProject(n: nat)
    ensures Project(QuietTeardown(n)) == [S.Drain] + Repeat(n) + [S.TeardownOver]
  {
    hide Project, Repeat, LifeThrough, TeardownPart, StopsIn;
    var r := Repeat(n) + [S.TeardownOver];
    Concat(S.Stopped, Repeat(n), [S.TeardownOver]);
    One(S.Stopped, S.TeardownOver);
    RepeatProject(n);
    assert Project(r) == r;
    ProjectCons(S.Reset, r);
    ProjectCons(S.Drain, [S.Reset] + r);
    ProjectCons(S.CancelCtx, [S.Drain] + ([S.Reset] + r));
    ProjectCons(S.Snapshot, [S.CancelCtx] + ([S.Drain] + ([S.Reset] + r)));
    assert [S.Drain] + r == [S.Drain] + Repeat(n) + [S.TeardownOver];
  }

  lemma {:induction false} StopsRun(s: S.State, n: nat)
    requires s.waiter.StoppingModules? && s.tasks == map[] && s.handles == map[]
    ensures S.Feasible(s, Repeat(n) + [S.TeardownOver]) && Bare(S.Exec(s, Repeat(n) + [S.TeardownOver]), S.Stopped)
    decreases n
  {
    hide S.Feasible, S.Exec;
    if n == 0 {
      var s' := S.Apply(s, S.TeardownOver);
      S.RunNone(s');
      S.RunOne(s, S.TeardownOver, []);
      assert Repeat(0) + [S.TeardownOver] == [S.TeardownOver] + [];
    } else {
      StopsRun(S.Apply(s, S.StopModule), n - 1);
      S.RunOne(s, S.StopModule, Repeat(n - 1) + [S.TeardownOver]);
      assert Repeat(n) + [S.TeardownOver] == [S.StopModule] + (Repeat(n - 1) + [S.TeardownOver]);
    }
  }

  lemma QuietSteps(s: S.State)
    requires s.waiter.BeforeSnapshot? && s.tasks == map[] && s.handles == map[]
    ensures S.Enabled(s, S.Snapshot)
    ensures var s1 := S.Apply(s, S.Snapshot);
            && S.Enabled(s1, S.CancelCtx)
            && var s2 := S.Apply(s1, S.CancelCtx);
            s2.waiter.BeforeDrain? && s2.tasks == map[] && s2.handles == map[]
  {
    var none: map<string, S.HandleId> := map[];
    assert none.Values == {};
  }

  lemma DrainSteps(s: S.State)
    requires s.waiter.BeforeDrain? && s.tasks == map[] && s.handles == map[]
    ensures S.Enabled(s, S.Drain)
    ensures var s1 := S.Apply(s, S.Drain);
            && S.Enabled(s1, S.Reset)
            && var s2 := S.Apply(s1, S.Reset);
            s2.waiter.StoppingModules? && s2.tasks == map[] && s2.handles == map[]
  {
  }

  lemma QuietRun(s: S.State, n: nat)
    requires s.waiter.BeforeSnapshot? && s.tasks == map[] && s.handles == map[]
    ensures S.Feasible(s, QuietTeardown(n)) && Bare(S.Exec(s, QuietTeardown(n)), S.Stopped)
  {
    hide S.Feasible, S.Exec, Repeat, Bare, S.Apply, S.Enabled;
    QuietSteps(s);
    var s1 := S.Apply(s, S.Snapshot);
    var s2 := S.Apply(s1, S.CancelCtx);
    DrainSteps(s2);
    var s3 := S.Apply(s2, S.Drain);
    var s4 := S.Apply(s3, S.Reset);
    var r := Repeat(n) + [S.TeardownOver];
    StopsRun(s4, n);
    S.RunOne(s3, S.Reset, r);
    S.RunOne(s2, S.Drain, [S.Reset] + r);
    S.RunOne(s1, S.CancelCtx, [S.Drain] + ([S.Reset] + r));
    S.RunOne(s, S.Snapshot, [S.CancelCtx] + ([S.Drain] + ([S.Reset] + r)));
  }

  lemma {:induction false} StopsEvents(log: seq<M.Call>)
    requires forall c | c in log :: c.StopCallOf?
    ensures LogEvents(log) == Repeat(|log|)
    decreases log
  {
    if log != [] {
      assert log[0] in log;
      StopsEvents(log[1..]);
    }
  }

  lemma TeardownLog(setup: M.Setup, ms: seq<string>) returns (n: nat)
    ensures LogEvents(M.TeardownCalls(setup, ms)) == [S.Drain] + Repeat(n)
  {
    hide LogEvents, Repeat, M.Stops;
    var stops, bus := M.Stops(ms, setup.stoppers), M.BusClose(setup);
    M.StopsAre(ms, setup.stoppers);
    n := |stops|;
    StopsEvents(stops);
    NoTeardownCalls(bus);
    LogConcat([M.WaitTasks] + stops, bus);
    LogConcat([M.WaitTasks], stops);
    WaitEvent();
  }

  lemma WaitEvent()
    ensures LogEvents([M.WaitTasks]) == [S.Drain]
  {
    assert [M.WaitTasks][1..] == [];
  }

  /** The events of a call that tears down, with the number of stops. */
  lemma TeardownEvents(setup: M.Setup, v: M.View, op: M.Op) returns (n: nat)
    requires M.Sound(setup, v) && M.Legal(v, op) && v.life != S.Stopped && M.Step(setup, v, op).0.life == S.Stopped
    ensures LogEvents(NewLog(v, M.Step(setup, v, op).0)) == [S.Drain] + Repeat(n)
  {
    hide M.Sound, M.Legal, LogEvents, Repeat, M.TeardownCalls, M.TeardownFaults, M.Phase, M.Inits, M.Starts, TrimSpace, M.TornDownModules;
    var v' := M.Step(setup, v, op).0;
    var pre, calls := TeardownSplit(setup, v, op);
    n := TeardownLog(setup, M.TornDownModules(setup, v, op));
    NoTeardownCalls(pre);
    LogConcat(pre, calls);
  }

  lemma TeardownSplit(setup: M.Setup, v: M.View, op: M.Op) returns (pre: seq<M.Call>, calls: seq<M.Call>)
    requires M.Sound(setup, v) && M.Legal(v, op) && v.life != S.Stopped && M.Step(setup, v, op).0.life == S.Stopped
    ensures calls == M.TeardownCalls(setup, M.TornDownModules(setup, v, op))
    ensures NewLog(v, M.Step(setup, v, op).0) == pre + calls
    ensures forall c | c in pre :: !c.WaitTasks? && !c.StopCallOf?
  {
    hide M.Sound, M.Legal, M.TeardownCalls, M.TeardownFaults, M.Phase, M.Inits, M.Starts, TrimSpace;
    var v' := M.Step(setup, v, op).0;
    calls := M.TeardownCalls(setup, M.TornDownModules(setup, v, op));
    pre := [];
    M.SoundIsBetweenCalls(setup, v);
    if op.DoInit? && op.sorted.Sorted? {
      var reached := M.Reached(op.sorted.order, M.Phase(op.sorted.order, op.env.fails, op.env, 0));
      M.InitsAre(reached);
      pre := M.Inits(reached);
    } else if op.DoStart? {
      var reached := M.Reached(v.ordered, M.Phase(v.ordered, op.env.fails * setup.starters, op.env, 0));
      M.StartsAre(reached, setup.starters);
      pre := M.Starts(reached, setup.starters);
    }
    assert v'.log == v.log + (pre + calls);
  }

  lemma OneStep(s: S.State, e: S.Event)
    requires S.Enabled(s, e)
    ensures S.Feasible(s, [e]) && S.Exec(s, [e]) == S.Apply(s, e)
  {
    hide S.Apply, S.Enabled, S.Feasible, S.Exec;
    S.RunNone(S.Apply(s, e));
    S.RunOne(s, e, []);
    assert [e] + [] == [e];
  }

  lemma TwoSteps(s: S.State, a: S.Event, b: S.Event)
    requires S.Enabled(s, a) && S.Enabled(S.Apply(s, a), b)
    ensures S.Feasible(s, [a] + [b]) && S.Exec(s, [a] + [b]) == S.Apply(S.Apply(s, a), b)
  {
    hide S.Apply, S.Enabled, S.Feasible, S.Exec;
    OneStep(S.Apply(s, a), b);
    S.RunOne(s, a, [b]);
  }

  function BeginOf(op: M.Op): S.Event {
    if op.DoInit? then S.InitBegin else S.StartBegin
  }

  function GoodOf(op: M.Op): S.Event {
    if op.DoInit? then S.InitOk else S.StartOk
  }

  function BadOf(op: M.Op): S.Event {
    if op.DoInit? then S.InitFail else S.StartFail
  }

  lemma PhaseSteps(op: M.Op, s: S.State)
    requires Bare(s, s.life) && ((op.DoInit? && s.life == S.Configuring) || (op.DoStart? && s.life == S.Initialized))
    ensures S.Enabled(s, BeginOf(op))
    ensures var s1 := S.Apply(s, BeginOf(op));
            && S.Enabled(s1, GoodOf(op)) && S.Enabled(s1, BadOf(op))
            && Bare(S.Apply(s1, GoodOf(op)), if op.DoInit? then S.Initialized else S.Running)
            && (var s2 := S.Apply(s1, BadOf(op)); s2.waiter.BeforeSnapshot? && s2.tasks == map[] && s2.handles == map[])
  {
  }

  /** Two events and a teardown, run and seen as control events. */
  lemma BadPhaseRun(a: S.Event, b: S.Event, s: S.State, n: nat)
    requires Control(a) && Control(b) && S.Enabled(s, a) && S.Enabled(S.Apply(s, a), b)
    requires var s2 := S.Apply(S.Apply(s, a), b); s2.waiter.BeforeSnapshot? && s2.tasks == map[] && s2.handles == map[]
    ensures var es := [a] + [b] + QuietTeardown(n);
            && S.Feasible(s, es) && Bare(S.Exec(s, es), S.Stopped)
            && Project(es) == [a] + ([b] + ([S.Drain] + Repeat(n) + [S.TeardownOver]))
  {
    hide S.Apply, S.Enabled, S.Feasible, S.Exec, Bare, Control, Project, LifeThrough, TeardownPart, StopsIn, QuietTeardown, Repeat, LifeAfter;
    TwoSteps(s, a, b);
    QuietRun(S.Apply(S.Apply(s, a), b), n);
    S.RunConcat(s, [a] + [b], QuietTeardown(n));
    Concat(s.life, [a] + [b], QuietTeardown(n));
    TwoEvents(s.life, a, b);
    QuietProject(n);
    var t := [S.Drain] + Repeat(n) + [S.TeardownOver];
    assert [a] + [b] + t == [a] + ([b] + t);
  }

  /** A phase, good or bad, without tasks. */
  lemma PhaseRun(setup: M.Setup, v: M.View, op: M.Op, s: S.State) returns (es: seq<S.Event>)
    requires M.Sound(setup, v) && M.Legal(v, op) && Bare(s, v.life)
    requires (op.DoInit? && v.life == S.Configuring) || (op.DoStart? && v.life == S.Initialized)
    ensures S.Feasible(s, es) && Project(es) == EventsOf(setup, v, op) && Bare(S.Exec(s, es), M.Step(setup, v, op).0.life)
  {
    hide M.Sound, M.Legal, M.Step, S.Feasible, S.Exec, S.Apply, S.Enabled, Project, LogEvents, NewLog, QuietTeardown, Repeat, LifeAfter, LifeThrough;
    PhaseEnds(setup, v, op);
    PhaseSteps(op, s);
    if M.Step(setup, v, op).0.life != S.Stopped {
      TwoSteps(s, BeginOf(op), GoodOf(op));
      TwoEvents(v.life, BeginOf(op), GoodOf(op));
      es := [BeginOf(op)] + [GoodOf(op)];
    } else {
      var n := TeardownEvents(setup, v, op);
      BadPhaseRun(BeginOf(op), BadOf(op), s, n);
      es := [BeginOf(op)] + [BadOf(op)] + QuietTeardown(n);
    }
  }

  lemma StopRun(setup: M.Setup, v: M.View, op: M.Op, s: S.State) returns (es: seq<S.Event>)
    requires M.Sound(setup, v) && M.Legal(v, op) && Bare(s, v.life) && op.DoStop?
    ensures S.Feasible(s, es) && Project(es) == EventsOf(setup, v, op) && Bare(S.Exec(s, es), M.Step(setup, v, op).0.life)
  {
    hide M.Sound, M.Legal, M.TeardownCalls, M.TeardownFaults, S.Feasible, S.Exec, Project, LogEvents, QuietTeardown, Repeat;
    M.SoundIsBetweenCalls(setup, v);
    OneStep(s, S.StopCall);
    One(v.life, S.StopCall);
    es := [S.StopCall];
    if v.life != S.Stopped {
      var n := TeardownEvents(setup, v, op);
      QuietRun(S.Apply(s, S.StopCall), n);
      S.RunConcat(s, [S.StopCall], QuietTeardown(n));
      es := [S.StopCall] + QuietTeardown(n);
      QuietProject(n);
      Concat(v.life, [S.StopCall], QuietTeardown(n));
    }
  }

  lemma OpRun(setup: M.Setup, v: M.View, op: M.Op, s: S.State) returns (es: seq<S.Event>)
    requires M.Sound(setup, v) && M.Legal(v, op) && Bare(s, v.life)
    ensures S.Feasible(s, es) && Project(es) == EventsOf(setup, v, op) && Bare(S.Exec(s, es), M.Step(setup, v, op).0.life)
  {
    hide M.Sound, M.Legal, S.Feasible, S.Exec, M.TeardownCalls, M.TeardownFaults, M.Phase, TrimSpace, LogEvents, Bare;
    if op.DoStop? {
      es := StopRun(setup, v, op, s);
    } else if (op.DoInit? && v.life == S.Configuring) || (op.DoStart? && v.life == S.Initialized) {
      es := PhaseRun(setup, v, op, s);
    } else {
      es := [];
      S.RunNone(s);
    }
  }

  /** Every run of manager calls is the control part of some supervisor run. */
  lemma {:induction false} EveryManagerRunHasOne(setup: M.Setup, v: M.View, ops: seq<M.Op>, s: S.State) returns (es: seq<S.Event>)
    requires M.Sound(setup, v) && M.LegalRun(setup, v, ops) && Bare(s, v.life)
    ensures S.Feasible(s, es) && Project(es) == RunEvents(setup, v, ops) && Bare(S.Exec(s, es), M.Run(setup, v, ops).life)
    decreases ops
  {
    hide M.Sound, M.Legal, M.Step, S.Feasible, S.Exec, EventsOf, Bare;
    if ops == [] {
      es := [];
      S.RunNone(s);
    } else {
      var x := OpRun(setup, v, ops[0], s);
      M.StepKeepsSound(setup, v, ops[0]);
      var y := EveryManagerRunHasOne(setup, M.Step(setup, v, ops[0]).0, ops[1..], S.Exec(s, x));
      S.RunConcat(s, x, y);
      Concat(v.life, x, y);
      es := x + y;
    }
  }
}
