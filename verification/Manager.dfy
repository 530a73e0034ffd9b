/** The module manager's lifecycle (modulex.go). */
module Managers {
  import opened Text
  import opened TopoSort
  import opened Supervisor

  /** Calls the manager and the app runner make to the outside, in order. */
  datatype Call =
    | InitCall(m: string) | StartCall(m: string) | WaitTasks | StopCallOf(m: string) | CloseBus
    | PreStop(i: nat) | PostStop(i: nat)

  /** What an error result is joined from. */
  datatype Fault =
    | StateFault | NameFault | SortFault | CallFault(m: string) | CancelFault
    | TaskFault | ExpiredFault | StopFault(m: string) | BusFault
    | SetupFault | HookFault(pre: bool, i: nat)

  /** Which modules implement Starter and Stopper, and whether an event bus is configured. */
  datatype Setup = Setup(starters: set<string>, stoppers: set<string>, hasBus: bool)

  /** How a teardown is answered: the wait for tasks, the deadline, the Stop calls and the bus. */
  datatype Down = Down(taskErr: bool, expired: bool, stopFails: set<string>, busFails: bool)

  /** How a phase is answered: which calls fail, before which module the context is found cancelled, and
      the teardown after a failure. */
  datatype Env = Env(fails: set<string>, cancelAt: Option<nat>, down: Down)

  /** The manager's fields, with the log of its calls. */
  datatype View = View(life: Lifecycle, modules: Graph, registered: seq<string>, ordered: seq<string>, log: seq<Call>)

  const FRESH := View(Configuring, map[], [], [], [])

  datatype PhaseEnd = PhaseEnd(count: nat, attempted: bool, ok: bool)

  predicate CancelledAt(env: Env, k: nat) {
    env.cancelAt.Some? && k >= env.cancelAt.value
  }

  /** `runPhase` from module `k` on; `fails` are the modules whose call returns an error. */
  function Phase(order: seq<string>, fails: set<string>, env: Env, k: nat): (r: PhaseEnd)
    requires k <= |order|
    ensures k <= r.count <= |order| && (r.attempted ==> r.count < |order| && !r.ok) && (r.ok ==> r.count == |order|)
    decreases |order| - k
  {
    if k == |order| then PhaseEnd(k, false, true)
    else if CancelledAt(env, k) then PhaseEnd(k, false, false)
    else if order[k] in fails then PhaseEnd(k, true, false)
    else Phase(order, fails, env, k + 1)
  }

  function Inits(ms: seq<string>): seq<Call> {
    if ms == [] then [] else Inits(ms[..|ms| - 1]) + [InitCall(ms[|ms| - 1])]
  }

  function Starts(ms: seq<string>, starters: set<string>): seq<Call> {
    if ms == [] then [] else
      var m := ms[|ms| - 1];
      Starts(ms[..|ms| - 1], starters) + if m in starters then [StartCall(m)] else []
  }

  /** Stop calls, last module first. */
  function Stops(ms: seq<string>, stoppers: set<string>): seq<Call> {
    if ms == [] then [] else
      var m := ms[|ms| - 1];
      (if m in stoppers then [StopCallOf(m)] else []) + Stops(ms[..|ms| - 1], stoppers)
  }

  function BusClose(setup: Setup): seq<Call> {
    if setup.hasBus then [CloseBus] else []
  }

  /** What every teardown does: wait for the tasks, stop modules, close the bus. */
  function TeardownCalls(setup: Setup, ms: seq<string>): seq<Call> {
    [WaitTasks] + Stops(ms, setup.stoppers) + BusClose(setup)
  }

  function StopFaults(ms: seq<string>, failing: set<string>): seq<Fault> {
    if ms == [] then [] else
      var m := ms[|ms| - 1];
      (if m in failing then [StopFault(m)] else []) + StopFaults(ms[..|ms| - 1], failing)
  }

  function If(b: bool, f: Fault): seq<Fault> {
    if b then [f] else []
  }

  /** The errors of a teardown, joined in order; only `StopModules` reports an expired context. */
  function TeardownFaults(setup: Setup, ms: seq<string>, down: Down, expired: bool): seq<Fault> {
    If(down.taskErr, TaskFault) + If(expired, ExpiredFault)
    + StopFaults(ms, setup.stoppers * down.stopFails) + If(setup.hasBus && down.busFails, BusFault)
  }

  /** The modules a phase reached: those that succeeded and the one that failed, if it was called. */
  function Reached(order: seq<string>, r: PhaseEnd): seq<string>
    requires r.count <= |order| && (r.attempted ==> r.count < |order|)
  {
    order[..r.count + if r.attempted then 1 else 0]
  }

  /** The error a phase ended with. */
  function PhaseFault(order: seq<string>, r: PhaseEnd): Fault
    requires r.attempted ==> r.count < |order|
  {
    if r.attempted then CallFault(order[r.count]) else CancelFault
  }

  datatype Op =
    | Register(name: string, deps: seq<string>)
    | DoInit(env: Env, sorted: SortResult)
    | DoStart(env: Env)
    | DoStop(down: Down)

  /** The order lists every registered module once, each after its dependencies. */
  ghost predicate Plan(modules: Graph, order: seq<string>) {
    Distinct(order) && Topological(modules, order) && forall n :: n in order <==> n in modules
  }

  /** `sorted` is an answer `sortModules` may give. */
  ghost predicate SortAnswer(modules: Graph, registered: seq<string>, sorted: SortResult) {
    && (sorted.Sorted? <==> Sortable(modules))
    && (sorted.Sorted? ==> Plan(modules, sorted.order) && TieBreak(modules, registered, sorted.order))
    && (sorted.Failed? ==> ErrorIsReal(modules, sorted.error))
  }

  /** One call on the manager: the new state and the errors joined into its result (none is nil). */
  function Step(setup: Setup, v: View, op: Op): (View, seq<Fault>) {
    match op
    case Register(name, deps) =>
      var n := TrimSpace(name);
      if v.life != Configuring then (v, [StateFault])
      else if n == "" || n in v.modules then (v, [NameFault])
      else (v.(modules := v.modules[n := deps], registered := v.registered + [n]), [])
    case DoInit(env, sorted) =>
      if v.life != Configuring then (v, [StateFault])
      else if sorted.Failed? then
        (v.(life := Stopped, ordered := [], log := v.log + TeardownCalls(setup, [])),
         [SortFault] + TeardownFaults(setup, [], env.down, false))
      else
        var r := Phase(sorted.order, env.fails, env, 0);
        var log := v.log + Inits(Reached(sorted.order, r));
        var done := sorted.order[..r.count];
        if r.ok then (v.(life := Initialized, ordered := sorted.order, log := log), [])
        else
          (v.(life := Stopped, ordered := [], log := log + TeardownCalls(setup, done)),
           [PhaseFault(sorted.order, r)] + TeardownFaults(setup, done, env.down, false))
    case DoStart(env) =>
      if v.life != Initialized then (v, [StateFault])
      else
        var r := Phase(v.ordered, env.fails * setup.starters, env, 0);
        var reached := Reached(v.ordered, r);
        var log := v.log + Starts(reached, setup.starters);
        if r.ok then (v.(life := Running, log := log), [])
        else
          (v.(life := Stopped, log := log + TeardownCalls(setup, reached)),
           [PhaseFault(v.ordered, r)] + TeardownFaults(setup, reached, env.down, false))
    case DoStop(down) =>
      if v.life == Stopped || v.life == Stopping then (v, [])
      else if v.life == Initializing || v.life == Starting then (v, [StateFault])
      else
        (v.(life := Stopped, log := v.log + TeardownCalls(setup, v.ordered)),
         TeardownFaults(setup, v.ordered, down, down.expired))
  }

  // ----- What the log can look like -----

  /** The log of a manager that has been torn down: `stopped` is a prefix of the planned order. */
  ghost predicate TornDown(setup: Setup, modules: Graph, log: seq<Call>, plan: seq<string>, pre: seq<Call>, stopped: seq<string>) {
    && Distinct(plan) && Topological(modules, plan) && stopped <= plan
    && log == pre + TeardownCalls(setup, stopped)
    && (forall c | c in pre :: c.InitCall? || c.StartCall?)
    && (forall m | StartCall(m) in pre :: m in stopped)
  }

  /** The invariant of a manager between two calls. */
  ghost predicate Sound(setup: Setup, v: View) {
    && Distinct(v.registered) && (forall n :: n in v.registered <==> n in v.modules)
    && match v.life
       case Configuring => v.log == [] && v.ordered == []
       case Initialized => Plan(v.modules, v.ordered) && v.log == Inits(v.ordered)
       case Running => Plan(v.modules, v.ordered) && v.log == Inits(v.ordered) + Starts(v.ordered, setup.starters)
       case Stopped => exists plan, pre, stopped :: TornDown(setup, v.modules, v.log, plan, pre, stopped)
       case _ => false
  }

  ghost predicate Legal(v: View, op: Op) {
    op.DoInit? && v.life == Configuring ==> SortAnswer(v.modules, v.registered, op.sorted)
  }

  lemma {:induction false} InitsAre(ms: seq<string>)
    ensures forall c :: c in Inits(ms) <==> c.InitCall? && c.m in ms
  {
    if ms != [] {
      InitsAre(ms[..|ms| - 1]);
      assert ms == ms[..|ms| - 1] + [ms[|ms| - 1]];
    }
  }

  lemma {:induction false} StartsAre(ms: seq<string>, starters: set<string>)
    ensures forall c :: c in Starts(ms, starters) <==> c.StartCall? && c.m in ms && c.m in starters
  {
    if ms != [] {
      StartsAre(ms[..|ms| - 1], starters);
      assert ms == ms[..|ms| - 1] + [ms[|ms| - 1]];
    }
  }

  lemma {:induction false} StopsAre(ms: seq<string>, stoppers: set<string>)
    ensures forall c :: c in Stops(ms, stoppers) <==> c.StopCallOf? && c.m in ms && c.m in stoppers
  {
    if ms != [] {
      StopsAre(ms[..|ms| - 1], stoppers);
      assert ms == ms[..|ms| - 1] + [ms[|ms| - 1]];
    }
  }

  lemma FailedInitTearsDown(setup: Setup, v: View, env: Env, sorted: SortResult)
    requires Sound(setup, v) && v.life == Configuring && SortAnswer(v.modules, v.registered, sorted)
    requires Step(setup, v, DoInit(env, sorted)).0.life == Stopped
    ensures Sound(setup, Step(setup, v, DoInit(env, sorted)).0)
  {
    hide Sortable, TieBreak, ErrorIsReal;
    var v' := Step(setup, v, DoInit(env, sorted)).0;
    if sorted.Failed? {
      assert v'.log == [] + TeardownCalls(setup, []);
      assert TornDown(setup, v'.modules, v'.log, [], [], []);
    } else {
      var r := Phase(sorted.order, env.fails, env, 0);
      var pre, stopped := Inits(Reached(sorted.order, r)), sorted.order[..r.count];
      InitsAre(Reached(sorted.order, r));
      assert v.log + pre == pre;
      assert TornDown(setup, v'.modules, v'.log, sorted.order, pre, stopped);
    }
  }

  lemma FailedStartTearsDown(setup: Setup, v: View, env: Env)
    requires Sound(setup, v) && v.life == Initialized && Step(setup, v, DoStart(env)).0.life == Stopped
    ensures Sound(setup, Step(setup, v, DoStart(env)).0)
  {
    var v' := Step(setup, v, DoStart(env)).0;
    var r := Phase(v.ordered, env.fails * setup.starters, env, 0);
    var stopped := Reached(v.ordered, r);
    var pre := v.log + Starts(stopped, setup.starters);
    InitsAre(v.ordered);
    StartsAre(stopped, setup.starters);
    assert TornDown(setup, v'.modules, v'.log, v.ordered, pre, stopped);
  }

  lemma StopTearsDown(setup: Setup, v: View, op: Op)
    requires Sound(setup, v) && op.DoStop? && v.life != Stopped
    ensures Sound(setup, Step(setup, v, op).0)
  {
    hide Edge, Inits, Starts, TeardownCalls, TeardownFaults;
    var v' := Step(setup, v, op).0;
    InitsAre(v.ordered);
    StartsAre(v.ordered, setup.starters);
    assert TornDown(setup, v'.modules, v'.log, v.ordered, v.log, v.ordered);
  }

  lemma StepKeepsSound(setup: Setup, v: View, op: Op)
    requires Sound(setup, v) && Legal(v, op)
    ensures Sound(setup, Step(setup, v, op).0)
  {
    hide Sortable, Topological, TieBreak, ErrorIsReal, TornDown, Stops, TrimSpace;
    var v' := Step(setup, v, op).0;
    match op {
      case Register(name, deps) =>
        if v' != v {
          RegisterKeepsSound(setup, v, name, deps);
        }
      case DoInit(env, sorted) =>
        if v.life == Configuring {
          if v'.life == Stopped {
            FailedInitTearsDown(setup, v, env, sorted);
          } else {
            assert v.log + Inits(sorted.order[..|sorted.order|]) == Inits(sorted.order) by {
              assert sorted.order[..|sorted.order|] == sorted.order;
            }
          }
        }
      case DoStart(env) =>
        if v.life == Initialized {
          if v'.life == Stopped {
            FailedStartTearsDown(setup, v, env);
          } else {
            assert v.ordered[..|v.ordered|] == v.ordered;
          }
        }
      case DoStop(_) =>
        if v.life != Stopped {
          StopTearsDown(setup, v, op);
        }
    }
  }

  lemma RegisterKeepsSound(setup: Setup, v: View, name: string, deps: seq<string>)
    requires Sound(setup, v) && v.life == Configuring
    requires Step(setup, v, Register(name, deps)).0 != v
    ensures Sound(setup, Step(setup, v, Register(name, deps)).0)
  {
    hide TrimSpace;
  }

  lemma FreshIsSound(setup: Setup)
    ensures Sound(setup, FRESH)
  {
  }

  lemma SoundIsBetweenCalls(setup: Setup, v: View)
    requires Sound(setup, v)
    ensures v.life != Initializing && v.life != Starting && v.life != Stopping
  {
  }

  // ----- Whole runs -----

  ghost predicate LegalRun(setup: Setup, v: View, ops: seq<Op>)
    decreases |ops|
  {
    ops == [] || (Legal(v, ops[0]) && LegalRun(setup, Step(setup, v, ops[0]).0, ops[1..]))
  }

  function Run(setup: Setup, v: View, ops: seq<Op>): View
    decreases |ops|
  {
    if ops == [] then v else Run(setup, Step(setup, v, ops[0]).0, ops[1..])
  }

  lemma StepOnlyMovesForward(setup: Setup, v: View, op: Op)
    requires Sound(setup, v)
    ensures var v' := Step(setup, v, op).0;
            Rank(v.life) <= Rank(v'.life) && v.log <= v'.log && (v.life == Stopped ==> v' == v)
  {
    hide TrimSpace, Stops, Starts, Inits;
  }

  /** Over any run of calls the state only moves forward, the log only grows, and a stopped manager never changes. */
  lemma {:induction false} RunOnlyMovesForward(setup: Setup, v: View, ops: seq<Op>)
    requires Sound(setup, v) && LegalRun(setup, v, ops)
    ensures var v' := Run(setup, v, ops);
            && Sound(setup, v')
            && Rank(v.life) <= Rank(v'.life) && v.log <= v'.log && (v.life == Stopped ==> v' == v)
    decreases |ops|
  {
    hide Sound, Step, Legal;
    if ops != [] {
      StepKeepsSound(setup, v, ops[0]);
      StepOnlyMovesForward(setup, v, ops[0]);
      RunOnlyMovesForward(setup, Step(setup, v, ops[0]).0, ops[1..]);
    }
  }

  // ----- What a torn-down log says -----

  lemma {:induction false} StopsOnce(ms: seq<string>, stoppers: set<string>, c: Call)
    requires Distinct(ms)
    ensures multiset(Stops(ms, stoppers))[c] <= 1
  {
    if ms != [] {
      var n := |ms| - 1;
      StopsOnce(ms[..n], stoppers, c);
      StopsAre(ms[..n], stoppers);
      assert ms[n] !in ms[..n];
      assert c !in Stops(ms[..n], stoppers) ==> multiset(Stops(ms[..n], stoppers))[c] == 0;
    }
  }

  /** A module later in the list is stopped before one earlier in the list. */
  lemma {:induction false} StopsReversed(ms: seq<string>, stoppers: set<string>, q: nat, p: nat, i: nat) returns (j: nat)
    requires Distinct(ms) && q < p < |ms| && ms[p] in stoppers
    requires i < |Stops(ms, stoppers)| && Stops(ms, stoppers)[i] == StopCallOf(ms[q])
    ensures j < i && Stops(ms, stoppers)[j] == StopCallOf(ms[p])
    decreases |ms|
  {
    var n := |ms| - 1;
    var shift := if ms[n] in stoppers then 1 else 0;
    var rest := Stops(ms[..n], stoppers);
    assert forall k | shift <= k < |rest| + shift :: Stops(ms, stoppers)[k] == rest[k - shift];
    if p == n {
      j := 0;
    } else {
      j := StopsReversed(ms[..n], stoppers, q, p, i - shift);
      j := j + shift;
    }
  }

  /** Module `d` depends on `m`, directly or not. */
  ghost predicate DependsOn(modules: Graph, d: string, m: string) {
    d != m && Reaches(modules, d, m)
  }

  /**
   * In a torn-down log: the tasks are waited for once, before the first Stop; the bus is closed once if
   * there is one, after the last Stop; no module is stopped twice; and no module is stopped before
   * every module that depends on it, was started and can be stopped.
   */
  ghost predicate Orderly(setup: Setup, modules: Graph, log: seq<Call>) {
    && multiset(log)[CloseBus] == (if setup.hasBus then 1 else 0)
    && multiset(log)[WaitTasks] == 1
    && (forall m :: multiset(log)[StopCallOf(m)] <= 1)
    && (forall i | 0 <= i < |log| && log[i].StopCallOf? :: WaitTasks in log[..i] && CloseBus !in log[..i])
    && forall i, d | 0 <= i < |log| && log[i].StopCallOf? && DependsOn(modules, d, log[i].m)
                     && StartCall(d) in log && d in setup.stoppers :: StopCallOf(d) in log[..i]
  }

  lemma TornDownIsOrderly(setup: Setup, modules: Graph, log: seq<Call>, plan: seq<string>, pre: seq<Call>, stopped: seq<string>)
    requires TornDown(setup, modules, log, plan, pre, stopped)
    ensures Orderly(setup, modules, log)
  {
    hide Reaches, Stops, Topological;
    var stops, bus := Stops(stopped, setup.stoppers), BusClose(setup);
    StopsAre(stopped, setup.stoppers);
    assert multiset(log) == multiset(pre) + multiset{WaitTasks} + multiset(stops) + multiset(bus);
    assert CloseBus !in pre && CloseBus !in stops && WaitTasks !in pre && WaitTasks !in stops && WaitTasks !in bus;
    assert Distinct(stopped);
    forall m ensures multiset(log)[StopCallOf(m)] <= 1 {
      StopsOnce(stopped, setup.stoppers, StopCallOf(m));
      assert StopCallOf(m) !in pre && StopCallOf(m) !in bus;
    }
    forall i | 0 <= i < |log| && log[i].StopCallOf? ensures WaitTasks in log[..i] && CloseBus !in log[..i] {
      StopsInTheMiddle(setup, log, pre, stopped, i);
    }
    forall i, d | 0 <= i < |log| && log[i].StopCallOf? && DependsOn(modules, d, log[i].m) && StartCall(d) in log && d in setup.stoppers
      ensures StopCallOf(d) in log[..i]
    {
      DependentFirst(setup, modules, log, plan, pre, stopped, i, d);
    }
  }

  lemma FourParts(a: seq<Call>, b: seq<Call>, c: seq<Call>, d: seq<Call>, i: nat)
    requires i < |a| + |b| + |c| + |d|
    ensures a + (b + c + d) == a + b + c + d
    ensures (a + b + c + d)[i] ==
            if i < |a| then a[i] else if i < |a| + |b| then b[i - |a|]
            else if i < |a| + |b| + |c| then c[i - |a| - |b|] else d[i - |a| - |b| - |c|]
  {
  }

  /** A Stop call of a torn-down log lies among the stops, after the wait and before the bus. */
  lemma StopsInTheMiddle(setup: Setup, log: seq<Call>, pre: seq<Call>, stopped: seq<string>, i: nat)
    requires log == pre + TeardownCalls(setup, stopped) && (forall c | c in pre :: c.InitCall? || c.StartCall?)
    requires i < |log| && log[i].StopCallOf?
    ensures var stops := Stops(stopped, setup.stoppers);
            && |pre| < i <= |pre| + |stops| && log[i] == stops[i - |pre| - 1]
    ensures WaitTasks in log[..i] && CloseBus !in log[..i]
  {
    hide Stops;
    var stops, bus := Stops(stopped, setup.stoppers), BusClose(setup);
    FourParts(pre, [WaitTasks], stops, bus, i);
    assert log == pre + [WaitTasks] + stops + bus;
    assert forall x | 0 <= x < |pre| :: pre[x] in pre;
    assert |pre| < i <= |pre| + |stops|;
    StopsAre(stopped, setup.stoppers);
    assert log[..i] == pre + [WaitTasks] + stops[..i - |pre| - 1];
    assert forall c | c in stops[..i - |pre| - 1] :: c in stops;
    assert WaitTasks in [WaitTasks] && CloseBus !in [WaitTasks];
    assert CloseBus !in pre && CloseBus !in stops;
  }

  lemma DependentFirst(setup: Setup, modules: Graph, log: seq<Call>, plan: seq<string>, pre: seq<Call>, stopped: seq<string>, i: nat, d: string)
    requires TornDown(setup, modules, log, plan, pre, stopped)
    requires i < |log| && log[i].StopCallOf? && DependsOn(modules, d, log[i].m) && StartCall(d) in log && d in setup.stoppers
    ensures StopCallOf(d) in log[..i]
  {
    hide Reaches, Stops, Topological;
    var stops := Stops(stopped, setup.stoppers);
    StopsAre(stopped, setup.stoppers);
    assert StartCall(d) !in stops && StartCall(d) !in BusClose(setup);
    assert StartCall(d) in pre && d in stopped;
    var p :| 0 <= p < |stopped| && stopped[p] == d;
    assert plan[p] == d;
    DependencyEarlier(modules, plan, p, log[i].m);
    var q :| 0 <= q < p && plan[q] == log[i].m;
    assert stopped[q] == log[i].m;
    StopsInTheMiddle(setup, log, pre, stopped, i);
    var j := StopsReversed(stopped, setup.stoppers, q, p, i - |pre| - 1);
    assert log[|pre| + 1 + j] == stops[j];
    assert log[..i][|pre| + 1 + j] == StopCallOf(d);
  }

  lemma DependencyEarlier(modules: Graph, plan: seq<string>, p: nat, m: string)
    requires Distinct(plan) && Topological(modules, plan) && p < |plan| && DependsOn(modules, plan[p], m)
    ensures m in plan[..p]
  {
    hide Topological, Edge;
    var path :| IsPath(modules, path) && path[0] == plan[p] && path[|path| - 1] == m;
    PathFalls(modules, plan, path, p);
  }

  /** Every run of calls on a fresh manager that ends stopped has an orderly log. */
  lemma EveryTeardownIsOrderly(setup: Setup, ops: seq<Op>)
    requires LegalRun(setup, FRESH, ops) && Run(setup, FRESH, ops).life == Stopped
    ensures Orderly(setup, Run(setup, FRESH, ops).modules, Run(setup, FRESH, ops).log)
  {
    hide Run, LegalRun, TornDown, Orderly;
    FreshIsSound(setup);
    RunOnlyMovesForward(setup, FRESH, ops);
    var v := Run(setup, FRESH, ops);
    var plan, pre, stopped :| TornDown(setup, v.modules, v.log, plan, pre, stopped);
    TornDownIsOrderly(setup, v.modules, v.log, plan, pre, stopped);
  }

  /** A manager that is not stopped yet has stopped nothing and its bus is open. */
  lemma NothingStoppedBefore(setup: Setup, v: View)
    requires Sound(setup, v) && v.life != Stopped
    ensures CloseBus !in v.log && forall m :: StopCallOf(m) !in v.log
  {
    InitsAre(v.ordered);
    StartsAre(v.ordered, setup.starters);
  }

  /** Where a phase ends: at the first module that is not called or whose call fails. */
  lemma {:induction false} PhaseIs(order: seq<string>, fails: set<string>, env: Env, k: nat)
    requires k <= |order|
    ensures var r := Phase(order, fails, env, k);
            && (forall j | k <= j < r.count :: order[j] !in fails && !CancelledAt(env, j))
            && (r.ok <==> r.count == |order|)
            && (r.count < |order| ==> (r.attempted <==> !CancelledAt(env, r.count)))
            && (r.attempted ==> order[r.count] in fails)
    decreases |order| - k
  {
    if k < |order| && !CancelledAt(env, k) && order[k] !in fails {
      PhaseIs(order, fails, env, k + 1);
    }
  }

  /** Module `k` of the order gets its turn: nothing before it failed and the context is not cancelled. */
  predicate GetsItsTurn(order: seq<string>, fails: set<string>, env: Env, k: nat)
    requires k < |order|
  {
    !CancelledAt(env, k) && forall j | 0 <= j < k :: order[j] !in fails
  }

  lemma ReachedIs(order: seq<string>, fails: set<string>, env: Env, k: nat)
    requires k < |order|
    ensures k < |Reached(order, Phase(order, fails, env, 0))| <==> GetsItsTurn(order, fails, env, k)
    ensures k < Phase(order, fails, env, 0).count <==> GetsItsTurn(order, fails, env, k) && order[k] !in fails
  {
    hide Phase;
    PhaseIs(order, fails, env, 0);
  }

  lemma InPrefix(order: seq<string>, n: nat, k: nat)
    requires Distinct(order) && n <= |order| && k < |order|
    ensures order[k] in order[..n] <==> k < n
  {
    if k < n {
      assert order[..n][k] == order[k];
    }
  }

  lemma TeardownCallsAre(setup: Setup, ms: seq<string>)
    ensures forall m :: StopCallOf(m) in TeardownCalls(setup, ms) <==> m in ms && m in setup.stoppers
    ensures forall m :: InitCall(m) !in TeardownCalls(setup, ms)
    ensures CloseBus in TeardownCalls(setup, ms) <==> setup.hasBus
    ensures forall i: nat :: PreStop(i) !in TeardownCalls(setup, ms) && PostStop(i) !in TeardownCalls(setup, ms)
  {
    hide Stops;
    StopsAre(ms, setup.stoppers);
  }

  /** A failed Init stops exactly the modules whose Init was called and did not fail. */
  lemma FailedInitStopsExactly(setup: Setup, v: View, env: Env, sorted: SortResult, m: string)
    requires Sound(setup, v) && v.life == Configuring && SortAnswer(v.modules, v.registered, sorted)
    requires Step(setup, v, DoInit(env, sorted)).0.life == Stopped
    ensures var log := Step(setup, v, DoInit(env, sorted)).0.log;
            StopCallOf(m) in log <==> m in setup.stoppers && InitCall(m) in log && m !in env.fails
  {
    hide Sortable, Topological, TieBreak, ErrorIsReal, TeardownCalls, Inits, Phase, TeardownFaults;
    if sorted.Failed? {
      TeardownCallsAre(setup, []);
    } else {
      var order := sorted.order;
      var r := Phase(order, env.fails, env, 0);
      PhaseIs(order, env.fails, env, 0);
      InitsAre(Reached(order, r));
      TeardownCallsAre(setup, order[..r.count]);
      assert r.attempted ==> Reached(order, r) == order[..r.count] + [order[r.count]];
      assert forall x | x in order[..r.count] :: x !in env.fails;
    }
  }

  /** A failed Start stops exactly the modules that got their turn, the one whose Start failed included. */
  lemma FailedStartStopsExactly(setup: Setup, v: View, env: Env, k: nat)
    requires Sound(setup, v) && v.life == Initialized && Step(setup, v, DoStart(env)).0.life == Stopped
    requires k < |v.ordered|
    ensures var log := Step(setup, v, DoStart(env)).0.log;
            && (StopCallOf(v.ordered[k]) in log <==>
                v.ordered[k] in setup.stoppers && GetsItsTurn(v.ordered, env.fails * setup.starters, env, k))
            && InitCall(v.ordered[k]) in log
    ensures forall m :: StopCallOf(m) in Step(setup, v, DoStart(env)).0.log ==> m in v.ordered
  {
    hide Topological, TeardownCalls, Inits, Starts, Phase, TeardownFaults, GetsItsTurn;
    var fails := env.fails * setup.starters;
    var reached := Reached(v.ordered, Phase(v.ordered, fails, env, 0));
    NothingStoppedBefore(setup, v);
    StartsAre(reached, setup.starters);
    TeardownCallsAre(setup, reached);
    ReachedIs(v.ordered, fails, env, k);
    InPrefix(v.ordered, |reached|, k);
    InitsAre(v.ordered);
  }

  /** `StopModules` stops exactly the initialised modules. */
  lemma StopStopsExactly(setup: Setup, v: View, down: Down, m: string)
    requires Sound(setup, v) && v.life != Stopped
    ensures StopCallOf(m) in Step(setup, v, DoStop(down)).0.log <==> m in setup.stoppers && InitCall(m) in v.log
  {
    hide Topological, TeardownCalls, Inits, Starts, TeardownFaults;
    NothingStoppedBefore(setup, v);
    TeardownCallsAre(setup, v.ordered);
    InitsAre(v.ordered);
    StartsAre(v.ordered, setup.starters);
  }

  /**
   * After a failed Start every initialised module has been stopped exactly when every stopper gets its
   * turn: no module before it fails to start, and the context is not cancelled before it.
   */
  lemma FailedStartLeavesNothingIff(setup: Setup, v: View, env: Env)
    requires Sound(setup, v) && v.life == Initialized && Step(setup, v, DoStart(env)).0.life == Stopped
    ensures var log := Step(setup, v, DoStart(env)).0.log;
            (forall m | m in setup.stoppers && InitCall(m) in log :: StopCallOf(m) in log) <==>
            (forall k | 0 <= k < |v.ordered| && v.ordered[k] in setup.stoppers ::
               !CancelledAt(env, k) && forall j | 0 <= j < k :: v.ordered[j] !in env.fails * setup.starters)
  {
    hide Topological, Phase, Step, Sound, CancelledAt;
    var log := Step(setup, v, DoStart(env)).0.log;
    forall k: nat | k < |v.ordered|
      ensures InitCall(v.ordered[k]) in log
      ensures StopCallOf(v.ordered[k]) in log <==>
              v.ordered[k] in setup.stoppers && GetsItsTurn(v.ordered, env.fails * setup.starters, env, k)
    {
      FailedStartStopsExactly(setup, v, env, k);
    }
    forall m | InitCall(m) in log ensures m in v.ordered {
      StartLogKeepsInits(setup, v, env, m);
    }
  }

  lemma StartLogKeepsInits(setup: Setup, v: View, env: Env, m: string)
    requires Sound(setup, v) && v.life == Initialized && Step(setup, v, DoStart(env)).0.life == Stopped
    ensures InitCall(m) in Step(setup, v, DoStart(env)).0.log ==> m in v.ordered
  {
    hide TeardownCalls, Inits, Topological, Phase, Starts, TeardownFaults;
    var reached := Reached(v.ordered, Phase(v.ordered, env.fails * setup.starters, env, 0));
    InitsAre(v.ordered);
    StartsAre(reached, setup.starters);
    TeardownCallsAre(setup, reached);
  }

  /** Such a leak exists: `a` fails to start, `b` was initialised after it and is never stopped. */
  lemma FailedStartCanLeak() returns (setup: Setup, v: View, env: Env)
    ensures Sound(setup, v) && v.life == Initialized && Step(setup, v, DoStart(env)).0.life == Stopped
    ensures var log := Step(setup, v, DoStart(env)).0.log;
            InitCall("b") in log && "b" in setup.stoppers && StopCallOf("b") !in log
  {
    setup := Setup({"a"}, {"a", "b"}, false);
    env := Env({"a"}, None, Down(false, false, {}, false));
    var ab := ["a", "b"];
    v := View(Initialized, map["a" := [], "b" := []], ab, ab, Inits(ab));
    assert Topological(v.modules, ab);
    assert env.fails * setup.starters == {"a"};
    assert Phase(ab, {"a"}, env, 0) == PhaseEnd(0, true, false);
    FailedStartStopsExactly(setup, v, env, 1);
    assert v.ordered[0] == "a";
  }

  // ----- The manager object -----

  lemma NoCalls(setup: Setup, order: seq<string>)
    ensures Inits(order[..0]) == [] && Starts(order[..0], setup.starters) == []
  {
  }

  lemma OneMoreCall(setup: Setup, order: seq<string>, k: nat)
    requires k < |order|
    ensures Inits(order[..k + 1]) == Inits(order[..k]) + [InitCall(order[k])]
    ensures Starts(order[..k + 1], setup.starters) ==
            Starts(order[..k], setup.starters) + if order[k] in setup.starters then [StartCall(order[k])] else []
  {
    assert order[..k + 1][..k] == order[..k];
  }

  class Manager {
    const setup: Setup
    var state: Lifecycle
    var modules: Graph
    var registered: seq<string>
    var ordered: seq<string>
    var log: seq<Call>

    function Fields(): View
      reads this
    {
      View(state, modules, registered, ordered, log)
    }

    constructor (setup: Setup)
      ensures Fields() == FRESH && this.setup == setup
    {
      this.setup := setup;
      state, modules, registered, ordered, log := Configuring, map[], [], [], [];
    }

    method RegisterModule(name: string, deps: seq<string>) returns (errs: seq<Fault>)
      modifies this
      ensures (Fields(), errs) == Step(setup, old(Fields()), Register(name, deps))
    {
      if state != Configuring {
        return [StateFault];
      }
      var n := TrimSpace(name);
      if n == "" || n in modules {
        return [NameFault];
      }
      modules := modules[n := deps];
      registered := registered + [n];
      errs := [];
    }

    /** `runPhase`: calls the modules in order until one fails or the context is cancelled. */
    method RunPhase(order: seq<string>, starting: bool, env: Env) returns (r: PhaseEnd)
      modifies this`log
      ensures r == Phase(order, if starting then env.fails * setup.starters else env.fails, env, 0)
      ensures log == old(log) + if starting then Starts(Reached(order, r), setup.starters) else Inits(Reached(order, r))
    {
      hide Starts, Inits, CancelledAt;
      ghost var fails := if starting then env.fails * setup.starters else env.fails;
      NoCalls(setup, order);
      for k := 0 to |order|
        invariant Phase(order, fails, env, 0) == Phase(order, fails, env, k)
        invariant log == old(log) + if starting then Starts(order[..k], setup.starters) else Inits(order[..k])
      {
        if CancelledAt(env, k) {
          return PhaseEnd(k, false, false);
        }
        var m := order[k];
        OneMoreCall(setup, order, k);
        var runErr := false;
        if !starting {
          log := log + [InitCall(m)];
          runErr := m in env.fails;
        } else if m in setup.starters {
          log := log + [StartCall(m)];
          runErr := m in env.fails;
        }
        if runErr {
          return PhaseEnd(k, true, false);
        }
      }
      assert order[..|order|] == order;
      r := PhaseEnd(|order|, false, true);
    }

    /** `rollback` and the stop loop of `StopModules`: last module first, errors do not stop the loop. */
    method StopAll(mods: seq<string>, stopFails: set<string>) returns (errs: seq<Fault>)
      modifies this`log
      ensures log == old(log) + Stops(mods, setup.stoppers)
      ensures errs == StopFaults(mods, setup.stoppers * stopFails)
    {
      errs := [];
      var i := |mods|;
      assert mods[..i] == mods;
      while i > 0
        invariant 0 <= i <= |mods|
        invariant log + Stops(mods[..i], setup.stoppers) == old(log) + Stops(mods, setup.stoppers)
        invariant errs + StopFaults(mods[..i], setup.stoppers * stopFails) == StopFaults(mods, setup.stoppers * stopFails)
      {
        i := i - 1;
        assert mods[..i + 1][..i] == mods[..i];
        if mods[i] in setup.stoppers {
          log := log + [StopCallOf(mods[i])];
          if mods[i] in stopFails {
            errs := errs + [StopFault(mods[i])];
          }
        }
      }
    }

    method CloseEventBus(busFails: bool) returns (errs: seq<Fault>)
      modifies this`log
      ensures log == old(log) + BusClose(setup) && errs == If(setup.hasBus && busFails, BusFault)
    {
      if !setup.hasBus {
        return [];
      }
      log := log + [CloseBus];
      errs := If(busFails, BusFault);
    }

    /** `waitForTasks`, as the manager sees it: it waits, and returns an error or not. */
    method WaitForTasks(taskErr: bool) returns (errs: seq<Fault>)
      modifies this`log
      ensures log == old(log) + [WaitTasks] && errs == If(taskErr, TaskFault)
    {
      log := log + [WaitTasks];
      errs := If(taskErr, TaskFault);
    }

    /** `finalizeFailure`: wait for the tasks, stop `mods`, close the bus, end in Stopped, join the errors. */
    method FinalizeFailure(err: Fault, mods: seq<string>, down: Down) returns (errs: seq<Fault>)
      modifies this`log, this`state
      ensures log == old(log) + TeardownCalls(setup, mods) && state == Stopped
      ensures errs == [err] + TeardownFaults(setup, mods, down, false)
    {
      hide Stops, StopFaults;
      var waitErrs := WaitForTasks(down.taskErr);
      var stopErrs := StopAll(mods, down.stopFails);
      var busErrs := CloseEventBus(down.busFails);
      state := Stopped;
      errs := [err] + waitErrs + stopErrs + busErrs;
    }

    method InitModules(env: Env) returns (errs: seq<Fault>, ghost sorted: SortResult)
      requires Sound(setup, Fields())
      modifies this
      ensures modules == old(modules) && registered == old(registered)
      ensures old(state) == Configuring ==> SortAnswer(modules, registered, sorted)
      ensures (Fields(), errs) == Step(setup, old(Fields()), DoInit(env, sorted))
    {
      hide Sortable, Topological, TieBreak, ErrorIsReal, Phase, TeardownCalls, TeardownFaults, Inits;
      sorted := Sorted([]);
      if state != Configuring {
        return [StateFault], sorted;
      }
      state := Initializing;
      var s := SortModules(modules, registered);
      sorted := s;
      if s.Failed? {
        ordered := [];
        errs := FinalizeFailure(SortFault, [], env.down);
        return;
      }
      ordered := s.order;
      var r := RunPhase(s.order, false, env);
      if !r.ok {
        errs := FinalizeFailure(PhaseFault(s.order, r), s.order[..r.count], env.down);
        ordered := [];
        return;
      }
      state := Initialized;
      errs := [];
    }

    method StartModules(env: Env) returns (errs: seq<Fault>)
      modifies this
      ensures (Fields(), errs) == Step(setup, old(Fields()), DoStart(env))
    {
      hide Phase, TeardownCalls, TeardownFaults, Starts;
      if state != Initialized {
        return [StateFault];
      }
      state := Starting;
      var r := RunPhase(ordered, true, env);
      if !r.ok {
        var stopCount := r.count;
        if r.attempted && stopCount < |ordered| {
          stopCount := stopCount + 1;
        }
        errs := FinalizeFailure(PhaseFault(ordered, r), ordered[..stopCount], env.down);
        return;
      }
      state := Running;
      errs := [];
    }

    method StopModules(down: Down) returns (errs: seq<Fault>)
      modifies this
      ensures (Fields(), errs) == Step(setup, old(Fields()), DoStop(down))
    {
      hide Stops, StopFaults;
      match state {
        case Stopped => return [];
        case Stopping => return [];
        case Initializing => return [StateFault];
        case Starting => return [StateFault];
        case _ =>
      }
      state := Stopping;
      var waitErrs := WaitForTasks(down.taskErr);
      var expired := If(down.expired, ExpiredFault);
      var stopErrs := StopAll(ordered, down.stopFails);
      var busErrs := CloseEventBus(down.busFails);
      state := Stopped;
      errs := waitErrs + expired + stopErrs + busErrs;
      assert log == old(log) + TeardownCalls(setup, ordered);
    }
  }

  // ----- Errors -----

  lemma {:induction false} StopFaultsAre(ms: seq<string>, failing: set<string>)
    ensures forall f :: f in StopFaults(ms, failing) <==> f.StopFault? && f.m in ms && f.m in failing
  {
    if ms != [] {
      StopFaultsAre(ms[..|ms| - 1], failing);
      assert ms == ms[..|ms| - 1] + [ms[|ms| - 1]];
    }
  }

  /** The answers the teardown of a call gets. */
  function DownOf(op: Op): Down
    requires !op.Register?
  {
    match op
    case DoInit(env, _) => env.down
    case DoStart(env) => env.down
    case DoStop(down) => down
  }

  lemma TeardownFaultsAre(setup: Setup, ms: seq<string>, down: Down, expired: bool)
    ensures var errs := TeardownFaults(setup, ms, down, expired);
            && (forall m :: StopFault(m) in errs <==> m in ms && m in setup.stoppers && m in down.stopFails)
            && (BusFault in errs <==> setup.hasBus && down.busFails)
            && (TaskFault in errs <==> down.taskErr) && (ExpiredFault in errs <==> expired)
            && (forall f | f in errs :: f.TaskFault? || f.ExpiredFault? || f.StopFault? || f.BusFault?)
  {
    hide StopFaults;
    StopFaultsAre(ms, setup.stoppers * down.stopFails);
  }

  /** The modules a teardown works on. */
  function TornDownModules(setup: Setup, v: View, op: Op): seq<string> {
    match op
    case DoInit(env, sorted) => if sorted.Failed? then [] else sorted.order[..Phase(sorted.order, env.fails, env, 0).count]
    case DoStart(env) => Reached(v.ordered, Phase(v.ordered, env.fails * setup.starters, env, 0))
    case _ => v.ordered
  }

  /** The shape of a step that tears down: nothing is stopped or closed before its teardown. */
  lemma TeardownShape(setup: Setup, v: View, op: Op) returns (pre: seq<Call>, cause: seq<Fault>)
    requires Sound(setup, v) && Legal(v, op) && v.life != Stopped && Step(setup, v, op).0.life == Stopped
    ensures var (v', errs) := Step(setup, v, op);
            var ms := TornDownModules(setup, v, op);
            && !op.Register?
            && v'.log == pre + TeardownCalls(setup, ms)
            && errs == cause + TeardownFaults(setup, ms, DownOf(op), op.DoStop? && op.down.expired)
    ensures CloseBus !in pre && forall m :: StopCallOf(m) !in pre
    ensures (cause == [] <==> op.DoStop?) && forall f | f in cause :: f.SortFault? || f.CallFault? || f.CancelFault?
  {
    hide Sortable, Topological, TieBreak, ErrorIsReal, TeardownCalls, TeardownFaults, Starts, Inits, Phase, TrimSpace;
    NothingStoppedBefore(setup, v);
    pre, cause := v.log, [];
    if op.DoInit? {
      if op.sorted.Failed? {
        cause := [SortFault];
      } else {
        var r := Phase(op.sorted.order, op.env.fails, op.env, 0);
        InitsAre(Reached(op.sorted.order, r));
        pre, cause := v.log + Inits(Reached(op.sorted.order, r)), [PhaseFault(op.sorted.order, r)];
      }
    } else if op.DoStart? {
      var r := Phase(v.ordered, op.env.fails * setup.starters, op.env, 0);
      StartsAre(Reached(v.ordered, r), setup.starters);
      pre, cause := v.log + Starts(Reached(v.ordered, r), setup.starters), [PhaseFault(v.ordered, r)];
    }
  }

  /** A teardown reports every failed Stop it called, a failed bus close and a failed wait, and nothing else of the kind. */
  lemma TeardownReportsAll(setup: Setup, v: View, op: Op)
    requires Sound(setup, v) && Legal(v, op) && v.life != Stopped && Step(setup, v, op).0.life == Stopped
    ensures !op.Register?
    ensures var (v', errs) := Step(setup, v, op);
            && (forall m :: StopFault(m) in errs <==> StopCallOf(m) in v'.log && m in DownOf(op).stopFails)
            && (BusFault in errs <==> CloseBus in v'.log && DownOf(op).busFails)
            && (TaskFault in errs <==> DownOf(op).taskErr)
            && (ExpiredFault in errs <==> op.DoStop? && op.down.expired)
            && (errs == [] ==> op.DoStop?)
  {
    hide Sound, Legal, Step, TeardownCalls, TeardownFaults, TornDownModules, DownOf;
    var pre, cause := TeardownShape(setup, v, op);
    var ms := TornDownModules(setup, v, op);
    TeardownCallsAre(setup, ms);
    TeardownFaultsAre(setup, ms, DownOf(op), op.DoStop? && op.down.expired);
  }
}
