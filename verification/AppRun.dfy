/** The app runner that drives a module manager through its whole life (app/app.go). */
module AppRun {
  import opened Text
  import opened TopoSort
  import opened Supervisor
  import opened Managers
  import opened ManagerOutcomes

  datatype ModuleDecl = ModuleDecl(name: string, deps: seq<string>)

  /** What a setup hook may do with the manager it is given. */
  datatype HookCall =
    | HookRegister(name: string, deps: seq<string>) | HookInit(env: Env) | HookStart(env: Env) | HookStop(down: Down)

  /** Everything outside `Run` decides: the setup hook, module answers, and which hooks fail. */
  datatype World = World(
    setup: seq<HookCall>, setupFails: bool, initEnv: Env, startEnv: Env, down: Down,
    preStop: nat, postStop: nat, failingPre: set<nat>, failingPost: set<nat>)

  function Hooks(pre: bool, n: nat): (calls: seq<Call>)
    ensures |calls| == n && forall i | 0 <= i < n :: calls[i] == if pre then PreStop(i) else PostStop(i)
  {
    seq(n, (i: nat) => if pre then PreStop(i) else PostStop(i))
  }

  function HookFaults(pre: bool, n: nat, failing: set<nat>): seq<Fault> {
    if n == 0 then [] else HookFaults(pre, n - 1, failing) + If(n - 1 in failing, HookFault(pre, n - 1))
  }

  /** The hook loops of `runStop`: every hook runs, failing or not, and every failure is kept. */
  method RunHooks(mgr: Manager, pre: bool, n: nat, failing: set<nat>) returns (errs: seq<Fault>)
    modifies mgr`log
    ensures mgr.log == old(mgr.log) + Hooks(pre, n)
    ensures errs == HookFaults(pre, n, failing)
  {
    errs := [];
    for i := 0 to n
      invariant mgr.log == old(mgr.log) + Hooks(pre, n)[..i]
      invariant errs == HookFaults(pre, i, failing)
    {
      mgr.log := mgr.log + [if pre then PreStop(i) else PostStop(i)];
      errs := errs + If(i in failing, HookFault(pre, i));
    }
  }

  /** What `runStop` adds to the log: the manager's own part is empty if it was torn down before. */
  function StopLog(setup: Setup, v: View, w: World): seq<Call> {
    Hooks(true, w.preStop) + Step(setup, v.(log := []), DoStop(w.down)).0.log + Hooks(false, w.postStop)
  }

  /** What `runStop` returns. */
  function StopErrs(setup: Setup, v: View, w: World): seq<Fault> {
    HookFaults(true, w.preStop, w.failingPre) + Step(setup, v, DoStop(w.down)).1
    + HookFaults(false, w.postStop, w.failingPost)
  }

  method RunStop(mgr: Manager, w: World) returns (errs: seq<Fault>)
    requires Sound(mgr.setup, mgr.Fields())
    modifies mgr
    ensures mgr.state == Stopped && mgr.log == old(mgr.log) + StopLog(mgr.setup, old(mgr.Fields()), w)
    ensures errs == StopErrs(mgr.setup, old(mgr.Fields()), w)
  {
    hide Step, Hooks, Sound, HookFaults;
    ghost var v, op := mgr.Fields(), DoStop(w.down);
    var e1 := RunHooks(mgr, true, w.preStop, w.failingPre);
    ghost var mid := mgr.Fields();
    SoundIsBetweenCalls(mgr.setup, v);
    StopEndsStopped(mgr.setup, mid, op);
    StopAppends(mgr.setup, mid, op);
    StopErrsIgnoreLog(mgr.setup, mid, v.log, op);
    assert mid.(log := []) == v.(log := []) && mid.(log := v.log) == v;
    var e2 := mgr.StopModules(w.down);
    var e3 := RunHooks(mgr, false, w.postStop, w.failingPost);
    errs := e1 + e2 + e3;
    Associate(v.log, Hooks(true, w.preStop), Step(mgr.setup, v.(log := []), op).0.log, Hooks(false, w.postStop));
  }

  lemma Associate(a: seq<Call>, b: seq<Call>, c: seq<Call>, d: seq<Call>)
    ensures a + b + c + d == a + (b + c + d)
  {
  }

  lemma StopErrsIgnoreLog(setup: Setup, v: View, log: seq<Call>, op: Op)
    requires op.DoStop?
    ensures Step(setup, v.(log := log), op).1 == Step(setup, v, op).1
  {
    hide TeardownCalls, TeardownFaults;
  }

  ghost predicate IsHookOp(call: HookCall, op: Op) {
    match call
    case HookRegister(name, deps) => op == Register(name, deps)
    case HookInit(env) => op.DoInit? && op.env == env
    case HookStart(env) => op == DoStart(env)
    case HookStop(down) => op == DoStop(down)
  }

  lemma {:induction false} RunSnoc(setup: Setup, v: View, ops: seq<Op>, op: Op)
    requires LegalRun(setup, v, ops) && Legal(Run(setup, v, ops), op)
    ensures LegalRun(setup, v, ops + [op]) && Run(setup, v, ops + [op]) == Step(setup, Run(setup, v, ops), op).0
    decreases ops
  {
    hide Step, Legal;
    if ops == [] {
      assert ops + [op] == [op] && [op][1..] == [];
    } else {
      assert (ops + [op])[1..] == ops[1..] + [op];
      RunSnoc(setup, Step(setup, v, ops[0]).0, ops[1..], op);
    }
  }

  /** The setup hook's calls, whatever they are, make a legal run. */
  method RunSetup(mgr: Manager, calls: seq<HookCall>) returns (ghost ops: seq<Op>)
    requires mgr.Fields() == FRESH
    modifies mgr
    ensures LegalRun(mgr.setup, FRESH, ops) && mgr.Fields() == Run(mgr.setup, FRESH, ops)
    ensures |ops| == |calls| && forall i | 0 <= i < |calls| :: IsHookOp(calls[i], ops[i])
  {
    hide Step, Sound, Run, LegalRun, SortAnswer;
    ops := [];
    assert LegalRun(mgr.setup, FRESH, ops) && Run(mgr.setup, FRESH, ops) == FRESH by { EmptyRun(mgr.setup); }
    for i := 0 to |calls|
      invariant LegalRun(mgr.setup, FRESH, ops) && mgr.Fields() == Run(mgr.setup, FRESH, ops)
      invariant |ops| == i && forall k | 0 <= k < i :: IsHookOp(calls[k], ops[k])
    {
      FreshIsSound(mgr.setup);
      RunOnlyMovesForward(mgr.setup, FRESH, ops);
      ghost var op;
      match calls[i] {
        case HookRegister(name, deps) =>
          op := Register(name, deps);
          var _ := mgr.RegisterModule(name, deps);
        case HookInit(env) =>
          ghost var sorted;
          var errs;
          errs, sorted := mgr.InitModules(env);
          op := DoInit(env, sorted);
        case HookStart(env) =>
          op := DoStart(env);
          var _ := mgr.StartModules(env);
        case HookStop(down) =>
          op := DoStop(down);
          var _ := mgr.StopModules(down);
      }
      RunSnoc(mgr.setup, FRESH, ops, op);
      ops := ops + [op];
    }
  }

  lemma EmptyRun(setup: Setup)
    ensures LegalRun(setup, FRESH, []) && Run(setup, FRESH, []) == FRESH
  {
  }

  /** Calls made one after the other up to the first error. */
  function RunScript(setup: Setup, v: View, script: seq<Op>): (View, seq<Fault>)
    decreases script
  {
    if script == [] then (v, []) else
      var (v', errs) := Step(setup, v, script[0]);
      if errs != [] then (v', errs) else RunScript(setup, v', script[1..])
  }

  function Registrations(mods: seq<ModuleDecl>): (ops: seq<Op>)
    ensures |ops| == |mods| && forall i | 0 <= i < |mods| :: ops[i] == Register(mods[i].name, mods[i].deps)
  {
    seq(|mods|, i requires 0 <= i < |mods| => Register(mods[i].name, mods[i].deps))
  }

  /** `startModules` after the setup hook: registration, Init, Start. */
  function Script(mods: seq<ModuleDecl>, w: World, sorted: SortResult): seq<Op> {
    Registrations(mods) + [DoInit(w.initEnv, sorted), DoStart(w.startEnv)]
  }

  /** Where `startModules` leaves the manager the setup hook left at `v`, and what it returns. */
  function Started(setup: Setup, v: View, mods: seq<ModuleDecl>, w: World, sorted: SortResult): (View, seq<Fault>) {
    if w.setupFails then (v, [SetupFault]) else RunScript(setup, v, Script(mods, w, sorted))
  }

  // ----- When the start succeeds -----

  function Names(mods: seq<ModuleDecl>): (ns: seq<string>)
    ensures |ns| == |mods| && forall i | 0 <= i < |mods| :: ns[i] == TrimSpace(mods[i].name)
  {
    seq(|mods|, i requires 0 <= i < |mods| => TrimSpace(mods[i].name))
  }

  /** No name in the list is blank or taken. */
  ghost predicate NewNames(g: Graph, ns: seq<string>) {
    forall n | n in ns :: n != "" && n !in g
  }

  /** The modules can be registered: no name is blank, taken, or used twice. */
  ghost predicate NamesFit(g: Graph, mods: seq<ModuleDecl>) {
    Distinct(Names(mods)) && NewNames(g, Names(mods))
  }

  /** The registered modules with the declared ones added. */
  function Merged(g: Graph, mods: seq<ModuleDecl>): Graph
    decreases mods
  {
    if mods == [] then g else Merged(g[TrimSpace(mods[0].name) := mods[0].deps], mods[1..])
  }

  /** Every declared module is in the merged graph with its dependencies, and nothing else is new. */
  lemma {:induction false} MergedIs(g: Graph, mods: seq<ModuleDecl>)
    requires NamesFit(g, mods)
    ensures var m := Merged(g, mods);
            && (forall n :: n in m <==> n in g || n in Names(mods))
            && (forall n | n in g :: m[n] == g[n])
            && (forall i | 0 <= i < |mods| :: m[Names(mods)[i]] == mods[i].deps)
    decreases mods
  {
    hide TrimSpace;
    if mods != [] {
      var n, g' := TrimSpace(mods[0].name), g[TrimSpace(mods[0].name) := mods[0].deps];
      assert Names(mods) == [n] + Names(mods[1..]);
      NamesFitCons(g, mods);
      MergedIs(g', mods[1..]);
      assert forall k | 0 <= k < |mods| :: Names(mods)[k] in Names(mods);
      forall i | 0 <= i < |mods| ensures Merged(g, mods)[Names(mods)[i]] == mods[i].deps {
        if i > 0 {
          assert mods[i] == mods[1..][i - 1] && Names(mods)[i] == Names(mods[1..])[i - 1];
        } else {
          assert n in g';
        }
      }
    }
  }

  lemma DistinctCons(n: string, rest: seq<string>)
    ensures Distinct([n] + rest) <==> Distinct(rest) && n !in rest
  {
    var ns := [n] + rest;
    if Distinct(ns) {
      forall i, j | 0 <= i < j < |rest| ensures rest[i] != rest[j] {
        assert rest[i] == ns[i + 1] && rest[j] == ns[j + 1];
      }
      forall i | 0 <= i < |rest| ensures rest[i] != n {
        assert ns[0] == n && ns[i + 1] == rest[i];
      }
    }
  }

  lemma NewNamesCons(g: Graph, n: string, deps: seq<string>, rest: seq<string>)
    requires n !in rest
    ensures NewNames(g, [n] + rest) <==> n != "" && n !in g && NewNames(g[n := deps], rest)
  {
    assert forall x :: x in [n] + rest <==> x == n || x in rest;
  }

  lemma NamesFitCons(g: Graph, mods: seq<ModuleDecl>)
    requires mods != []
    ensures var n := TrimSpace(mods[0].name);
            NamesFit(g, mods) <==> n != "" && n !in g && NamesFit(g[n := mods[0].deps], mods[1..])
  {
    hide TrimSpace, Distinct, NewNames;
    var n, rest := TrimSpace(mods[0].name), Names(mods[1..]);
    assert Names(mods) == [n] + rest;
    DistinctCons(n, rest);
    if n !in rest {
      NewNamesCons(g, n, mods[0].deps, rest);
    } else {
      TakenIsNotNew(g[n := mods[0].deps], n, rest);
    }
  }

  lemma TakenIsNotNew(g: Graph, n: string, ns: seq<string>)
    requires n in g && n in ns
    ensures !NewNames(g, ns)
  {
  }

  lemma RegistrationsCons(setup: Setup, v: View, mods: seq<ModuleDecl>)
    requires mods != []
    ensures var (v', errs) := Step(setup, v, Register(mods[0].name, mods[0].deps));
            RunScript(setup, v, Registrations(mods)) ==
            if errs != [] then (v', errs) else RunScript(setup, v', Registrations(mods[1..]))
  {
    hide Step;
    assert Registrations(mods)[1..] == Registrations(mods[1..]);
  }

  lemma NamesCons(mods: seq<ModuleDecl>)
    requires mods != []
    ensures Names(mods) == [TrimSpace(mods[0].name)] + Names(mods[1..])
  {
    hide TrimSpace;
  }

  /** Registration goes through exactly while configuring and under names that fit. */
  lemma {:induction false} RegistrationsOutcome(setup: Setup, v: View, mods: seq<ModuleDecl>)
    requires Sound(setup, v)
    ensures var (v', errs) := RunScript(setup, v, Registrations(mods));
            && (errs == [] <==> mods == [] || (v.life == Configuring && NamesFit(v.modules, mods)))
            && (errs == [] ==>
                  v' == v.(modules := Merged(v.modules, mods), registered := v.registered + Names(mods)) && Sound(setup, v'))
    decreases mods
  {
    hide Step, Sound, TrimSpace, NamesFit, Registrations, Names;
    if mods == [] {
      assert Names(mods) == [] && Registrations(mods) == [];
      assert v.registered + Names(mods) == v.registered;
    } else {
      var op := Register(mods[0].name, mods[0].deps);
      var (v', errs) := Step(setup, v, op);
      RegisterOutcome(setup, v, mods[0].name, mods[0].deps);
      RegisterIs(setup, v, mods[0].name, mods[0].deps);
      NamesFitCons(v.modules, mods);
      RegistrationsCons(setup, v, mods);
      NamesCons(mods);
      if errs == [] {
        StepKeepsSound(setup, v, op);
        RegistrationsOutcome(setup, v', mods[1..]);
        assert v.registered + Names(mods) == v'.registered + Names(mods[1..]);
        assert mods[1..] == [] ==> NamesFit(v'.modules, mods[1..]) by { NoNamesFit(v'.modules, mods[1..]); }
      }
    }
  }

  lemma NoNamesFit(g: Graph, mods: seq<ModuleDecl>)
    ensures mods == [] ==> NamesFit(g, mods)
  {
  }

  lemma RegisterIs(setup: Setup, v: View, name: string, deps: seq<string>)
    ensures var (v', errs) := Step(setup, v, Register(name, deps));
            errs == [] ==> v' == v.(modules := v.modules[TrimSpace(name) := deps], registered := v.registered + [TrimSpace(name)])
  {
    hide TrimSpace;
  }

  /** What has to hold for the application to start, in terms of the declared modules and of the answers they give. */
  ghost predicate CanStart(setup: Setup, v: View, mods: seq<ModuleDecl>, w: World, sorted: SortResult) {
    && !w.setupFails && v.life == Configuring && NamesFit(v.modules, mods)
    && Sortable(Merged(v.modules, mods)) && sorted.Sorted?
    && NoneFails(sorted.order, w.initEnv.fails, w.initEnv)
    && NoneFails(sorted.order, w.startEnv.fails * setup.starters, w.startEnv)
  }

  /** `sorted` is what the sort answers, if the start gets as far as sorting. */
  ghost predicate SortedIfReached(v: View, mods: seq<ModuleDecl>, w: World, sorted: SortResult) {
    !w.setupFails && v.life == Configuring && NamesFit(v.modules, mods) ==>
      SortAnswer(Merged(v.modules, mods), v.registered + Names(mods), sorted)
  }

  lemma RegisteredThenInit(setup: Setup, v: View, mods: seq<ModuleDecl>, w: World, sorted: SortResult)
    requires !w.setupFails
    ensures var (v1, regErrs) := RunScript(setup, v, Registrations(mods));
            var (v2, initErrs) := Step(setup, v1, DoInit(w.initEnv, sorted));
            Started(setup, v, mods, w, sorted) ==
            if regErrs != [] then (v1, regErrs) else if initErrs != [] then (v2, initErrs)
            else Step(setup, v2, DoStart(w.startEnv))
  {
    hide Step, RunScript, Registrations;
    var init, start := DoInit(w.initEnv, sorted), DoStart(w.startEnv);
    ScriptConcat(setup, v, Registrations(mods), [init, start]);
    ScriptTail(setup, RunScript(setup, v, Registrations(mods)).0, init, start);
  }

  /** The start succeeds exactly when it can; then every module is initialised and every starter started. */
  lemma StartedOutcome(setup: Setup, v: View, mods: seq<ModuleDecl>, w: World, sorted: SortResult)
    requires Sound(setup, v) && SortedIfReached(v, mods, w, sorted)
    ensures var (v', errs) := Started(setup, v, mods, w, sorted);
            && (errs == [] <==> CanStart(setup, v, mods, w, sorted))
            && (errs == [] ==>
                  && v'.life == Running && v'.modules == Merged(v.modules, mods) && Plan(v'.modules, v'.ordered)
                  && AllInitialised(v'.modules, v'.log) && AllStarted(setup, v'.modules, v'.log))
  {
    hide Step, Sound, Sortable, Plan, TieBreak, ErrorIsReal, NamesFit, NoneFails, RunScript, AllInitialised, AllStarted, Merged;
    if !w.setupFails {
      var (v1, regErrs) := RunScript(setup, v, Registrations(mods));
      RegisteredThenInit(setup, v, mods, w, sorted);
      RegistrationsOutcome(setup, v, mods);
      if mods == [] {
        NoNamesFit(v.modules, mods);
      }
      if regErrs == [] {
        InitOutcome(setup, v1, w.initEnv, sorted);
        var (v2, initErrs) := Step(setup, v1, DoInit(w.initEnv, sorted));
        if initErrs == [] {
          StepKeepsSound(setup, v1, DoInit(w.initEnv, sorted));
          InitFixesOrder(setup, v1, w.initEnv, sorted);
          StartOutcome(setup, v2, w.startEnv);
          StartKeepsOrder(setup, v2, w.startEnv);
        }
      }
    }
  }

  lemma InitFixesOrder(setup: Setup, v: View, env: Env, sorted: SortResult)
    requires Step(setup, v, DoInit(env, sorted)).1 == []
    ensures sorted.Sorted? && Step(setup, v, DoInit(env, sorted)).0.ordered == sorted.order
  {
    hide Phase, TeardownCalls, TeardownFaults;
  }

  lemma StartKeepsOrder(setup: Setup, v: View, env: Env)
    ensures Step(setup, v, DoStart(env)).0.ordered == v.ordered
  {
    hide Phase, TeardownCalls, TeardownFaults;
  }

  lemma {:induction false} ScriptConcat(setup: Setup, v: View, a: seq<Op>, b: seq<Op>)
    ensures var (v', errs) := RunScript(setup, v, a);
            RunScript(setup, v, a + b) == if errs != [] then (v', errs) else RunScript(setup, v', b)
    decreases a
  {
    hide Step;
    if a == [] {
      assert a + b == b;
    } else {
      assert (a + b)[1..] == a[1..] + b;
      ScriptConcat(setup, Step(setup, v, a[0]).0, a[1..], b);
    }
  }

  lemma ScriptTail(setup: Setup, v: View, a: Op, b: Op)
    ensures RunScript(setup, v, [a, b]) ==
            if Step(setup, v, a).1 != [] then Step(setup, v, a) else Step(setup, Step(setup, v, a).0, b)
  {
    hide Step;
    var (v', errs) := Step(setup, v, a);
    assert [a, b][1..] == [b] && [b][1..] == [];
    assert RunScript(setup, v', [b]) == Step(setup, v', b) by {
      var (v'', errs') := Step(setup, v', b);
      assert RunScript(setup, v'', []) == (v'', []);
    }
  }

  /** `startModules`: the setup hook, then registration, Init and Start up to the first error. */
  method StartAll(mgr: Manager, mods: seq<ModuleDecl>, w: World)
    returns (errs: seq<Fault>, ghost hook: seq<Op>, ghost sorted: SortResult)
    requires mgr.Fields() == FRESH
    modifies mgr
    ensures LegalRun(mgr.setup, FRESH, hook) && |hook| == |w.setup|
    ensures forall i | 0 <= i < |w.setup| :: IsHookOp(w.setup[i], hook[i])
    ensures (mgr.Fields(), errs) == Started(mgr.setup, Run(mgr.setup, FRESH, hook), mods, w, sorted)
    ensures Sound(mgr.setup, mgr.Fields())
    ensures SortedIfReached(Run(mgr.setup, FRESH, hook), mods, w, sorted)
    ensures errs == [] <==> CanStart(mgr.setup, Run(mgr.setup, FRESH, hook), mods, w, sorted)
    ensures errs == [] ==>
              && mgr.state == Running && mgr.modules == Merged(Run(mgr.setup, FRESH, hook).modules, mods)
              && AllInitialised(mgr.modules, mgr.log) && AllStarted(mgr.setup, mgr.modules, mgr.log)
  {
    hide Step, Sound, Run, LegalRun, SortAnswer, RunScript, IsHookOp, Merged, NamesFit, AllInitialised, AllStarted, CanStart;
    sorted := Sorted([]);
    hook := RunSetup(mgr, w.setup);
    FreshIsSound(mgr.setup);
    RunOnlyMovesForward(mgr.setup, FRESH, hook);
    ghost var v0 := mgr.Fields();
    if w.setupFails {
      StartedOutcome(mgr.setup, v0, mods, w, sorted);
      return [SetupFault], hook, sorted;
    }
    RegistrationsOutcome(mgr.setup, v0, mods);
    errs := RegisterAll(mgr, mods);
    ghost var v1 := mgr.Fields();
    if errs != [] {
      RegisteredThenInit(mgr.setup, v0, mods, w, sorted);
      StartedOutcome(mgr.setup, v0, mods, w, sorted);
      return;
    }
    errs, sorted := mgr.InitModules(w.initEnv);
    ghost var init := DoInit(w.initEnv, sorted);
    RegisteredThenInit(mgr.setup, v0, mods, w, sorted);
    StartedOutcome(mgr.setup, v0, mods, w, sorted);
    StepKeepsSound(mgr.setup, v1, init);
    if errs != [] {
      return;
    }
    StepKeepsSound(mgr.setup, mgr.Fields(), DoStart(w.startEnv));
    errs := mgr.StartModules(w.startEnv);
  }

  method RegisterAll(mgr: Manager, mods: seq<ModuleDecl>) returns (errs: seq<Fault>)
    requires Sound(mgr.setup, mgr.Fields())
    modifies mgr
    ensures Sound(mgr.setup, mgr.Fields())
    ensures (mgr.Fields(), errs) == RunScript(mgr.setup, old(mgr.Fields()), Registrations(mods))
  {
    hide Step, Sound;
    errs := [];
    ghost var ops, v0 := Registrations(mods), mgr.Fields();
    assert ops[0..] == ops;
    for i := 0 to |mods|
      invariant Sound(mgr.setup, mgr.Fields()) && errs == []
      invariant RunScript(mgr.setup, v0, ops) == RunScript(mgr.setup, mgr.Fields(), ops[i..])
    {
      assert ops[i..][1..] == ops[i + 1..];
      StepKeepsSound(mgr.setup, mgr.Fields(), Register(mods[i].name, mods[i].deps));
      errs := mgr.RegisterModule(mods[i].name, mods[i].deps);
      if errs != [] {
        return;
      }
    }
  }

  /** The bus-closing and hook entries of the whole log after `runStop`. */
  lemma RunStopCloses(setup: Setup, v: View, w: World)
    requires Sound(setup, v)
    ensures var log := v.log + StopLog(setup, v, w);
            && multiset(log)[CloseBus] == (if setup.hasBus then 1 else 0)
            && (forall i: nat :: multiset(log)[PreStop(i)] == if i < w.preStop then 1 else 0)
            && (forall i: nat :: multiset(log)[PostStop(i)] == if i < w.postStop then 1 else 0)
  {
    hide Stops, Topological, Sound, StopLog, Hooks, TeardownFaults, TeardownCalls;
    var log := v.log + StopLog(setup, v, w);
    var v' := Step(setup, v, DoStop(w.down)).0;
    var pre, post := Hooks(true, w.preStop), Hooks(false, w.postStop);
    StopLogSplit(setup, v, w);
    StepKeepsSound(setup, v, DoStop(w.down));
    SoundIsBetweenCalls(setup, v);
    StopEndsStopped(setup, v, DoStop(w.down));
    StoppedLog(setup, v');
    HookKinds(w.preStop, w.postStop);
    forall i: nat ensures multiset(pre)[PreStop(i)] == (if i < w.preStop then 1 else 0)
                       && multiset(post)[PostStop(i)] == (if i < w.postStop then 1 else 0)
    {
      HookOnce(true, w.preStop, i);
      HookOnce(false, w.postStop, i);
    }
  }

  lemma StopEndsStopped(setup: Setup, v: View, op: Op)
    requires op.DoStop? && v.life != Initializing && v.life != Starting && v.life != Stopping
    ensures Step(setup, v, op).0.life == Stopped
  {
  }

  /** Hooks aside, the log after `runStop` is the manager's own log after `StopModules`. */
  lemma StopLogSplit(setup: Setup, v: View, w: World)
    ensures multiset(v.log + StopLog(setup, v, w)) ==
            multiset(Step(setup, v, DoStop(w.down)).0.log)
            + multiset(Hooks(true, w.preStop)) + multiset(Hooks(false, w.postStop))
  {
    hide Stops, Hooks, Step, BusClose;
    var mid := Step(setup, v.(log := []), DoStop(w.down)).0.log;
    StopAppends(setup, v, DoStop(w.down));
    Interleave(v.log, Hooks(true, w.preStop), mid, Hooks(false, w.postStop));
  }

  lemma StopAppends(setup: Setup, v: View, op: Op)
    requires op.DoStop?
    ensures Step(setup, v, op).0.log == v.log + Step(setup, v.(log := []), op).0.log
  {
    hide TeardownCalls, TeardownFaults;
    assert v.log + ([] + TeardownCalls(setup, v.ordered)) == v.log + TeardownCalls(setup, v.ordered);
  }

  lemma Interleave(a: seq<Call>, b: seq<Call>, c: seq<Call>, d: seq<Call>)
    ensures multiset(a + (b + c + d)) == multiset(a + c) + multiset(b) + multiset(d)
  {
  }

  /** A stopped manager's own log closes the bus once and holds no hook. */
  lemma StoppedLog(setup: Setup, v: View)
    requires Sound(setup, v) && v.life == Stopped
    ensures multiset(v.log)[CloseBus] == if setup.hasBus then 1 else 0
    ensures forall i: nat :: PreStop(i) !in v.log && PostStop(i) !in v.log
  {
    hide TeardownCalls, Topological, DependsOn;
    var plan, pre, stopped :| TornDown(setup, v.modules, v.log, plan, pre, stopped);
    TornDownIsOrderly(setup, v.modules, v.log, plan, pre, stopped);
    TeardownCallsAre(setup, stopped);
  }

  lemma HookKinds(p: nat, q: nat)
    ensures CloseBus !in Hooks(true, p) && CloseBus !in Hooks(false, q)
    ensures forall i: nat :: PostStop(i) !in Hooks(true, p) && PreStop(i) !in Hooks(false, q)
  {
  }

  lemma {:induction false} HookOnce(pre: bool, n: nat, i: nat)
    ensures multiset(Hooks(pre, n))[if pre then PreStop(i) else PostStop(i)] == if i < n then 1 else 0
    decreases n
  {
    if n > 0 {
      HookOnce(pre, n - 1, i);
      assert Hooks(pre, n) == Hooks(pre, n - 1) + [if pre then PreStop(n - 1) else PostStop(n - 1)];
    }
  }

  lemma {:induction false} HookFaultsAre(pre: bool, n: nat, failing: set<nat>)
    ensures forall f :: f in HookFaults(pre, n, failing) <==> f.HookFault? && f.pre == pre && f.i < n && f.i in failing
    decreases n
  {
    if n > 0 {
      HookFaultsAre(pre, n - 1, failing);
    }
  }

  /** `runStop` returns nil exactly when no hook fails and the stop it makes reports nothing; no hook failure is lost. */
  lemma RunStopReports(setup: Setup, v: View, w: World)
    ensures forall i: nat :: HookFault(true, i) in StopErrs(setup, v, w) <==> i < w.preStop && i in w.failingPre
    ensures forall i: nat :: HookFault(false, i) in StopErrs(setup, v, w) <==> i < w.postStop && i in w.failingPost
    ensures StopErrs(setup, v, w) == [] <==>
            && (forall i: nat | i < w.preStop :: i !in w.failingPre) && (forall i: nat | i < w.postStop :: i !in w.failingPost)
            && Step(setup, v, DoStop(w.down)).1 == []
  {
    hide Step, HookFaults;
    HookFaultsAre(true, w.preStop, w.failingPre);
    HookFaultsAre(false, w.postStop, w.failingPost);
    StopHasNoHookFault(setup, v, w.down);
    var (a, b, c) := (HookFaults(true, w.preStop, w.failingPre), Step(setup, v, DoStop(w.down)).1, HookFaults(false, w.postStop, w.failingPost));
    assert a != [] ==> a[0] in a;
    assert c != [] ==> c[0] in c;
    forall i: nat | i < w.preStop && i in w.failingPre ensures HookFault(true, i) in a {
    }
    forall i: nat | i < w.postStop && i in w.failingPost ensures HookFault(false, i) in c {
    }
  }

  lemma StopHasNoHookFault(setup: Setup, v: View, down: Down)
    ensures forall f | f in Step(setup, v, DoStop(down)).1 :: !f.HookFault?
  {
    hide StopFaults, TeardownCalls;
    StopFaultsAre(v.ordered, setup.stoppers * down.stopFails);
  }

  // ----- The log of a run -----

  predicate IsShutdown(c: Call) {
    c.WaitTasks? || c.StopCallOf? || c.CloseBus?
  }

  /** Pre-stop hooks run in order before anything is shut down, post-stop hooks in order at the very end. */
  ghost predicate HooksAround(log: seq<Call>, w: World) {
    && (forall i: nat, j: nat | i < j < w.preStop :: Precedes(log, PreStop(i), PreStop(j)))
    && (forall i: nat, c | i < w.preStop && IsShutdown(c) && c in log :: Precedes(log, PreStop(i), c))
    && PostStopLast(log, w)
  }

  ghost predicate PostStopLast(log: seq<Call>, w: World) {
    w.postStop <= |log| && forall i: nat | i < w.postStop :: log[|log| - w.postStop + i] == PostStop(i)
  }

  lemma EndsWithHooks(front: seq<Call>, w: World)
    ensures PostStopLast(front + Hooks(false, w.postStop), w)
  {
    hide Hooks;
    var (post, log) := (Hooks(false, w.postStop), front + Hooks(false, w.postStop));
    assert |post| == w.postStop && forall i | 0 <= i < w.postStop :: post[i] == PostStop(i);
    forall i: nat | i < w.postStop ensures log[|log| - w.postStop + i] == PostStop(i) {
      assert log[|front| + i] == post[i];
    }
  }

  lemma StopLogEnds(setup: Setup, v: View, w: World)
    ensures PostStopLast(v.log + StopLog(setup, v, w), w)
  {
    hide Step, Hooks, PostStopLast;
    var (pre, mid, post) := (Hooks(true, w.preStop), Step(setup, v.(log := []), DoStop(w.down)).0.log, Hooks(false, w.postStop));
    Associate(v.log, pre, mid, post);
    EndsWithHooks(v.log + pre + mid, w);
  }

  lemma StillInitialised(setup: Setup, modules: Graph, log: seq<Call>, post: seq<Call>)
    requires AllInitialised(modules, log) && AllStarted(setup, modules, log)
    requires forall c | c in post :: !c.InitCall? && !c.StartCall?
    ensures AllInitialised(modules, log + post) && AllStarted(setup, modules, log + post)
  {
    hide Edge, Precedes;
    assert [] + log + post == log + post;
    forall c: Call | c.InitCall? || c.StartCall? ensures multiset(log + post)[c] == multiset(log)[c] {
      Absent(post, c);
    }
    forall a, b | Precedes(log, a, b) ensures Precedes(log + post, a, b) {
      PrecedesWithin([], log, post, a, b);
    }
  }

  lemma ShutdownOfRunning(setup: Setup, v: View, w: World)
    requires Sound(setup, v) && v.life == Running
    ensures StopLog(setup, v, w) ==
            Hooks(true, w.preStop) + ([WaitTasks] + Stops(v.ordered, setup.stoppers) + BusClose(setup)) + Hooks(false, w.postStop)
    ensures forall c | c in StopLog(setup, v, w) :: !c.InitCall? && !c.StartCall?
    ensures forall c | c in v.log :: !IsShutdown(c)
    ensures Plan(v.modules, v.ordered)
  {
    hide Topological, Stops, Inits, Starts, TeardownFaults;
    InitsAre(v.ordered);
    StartsAre(v.ordered, setup.starters);
    StopsAre(v.ordered, setup.stoppers);
    assert [] + TeardownCalls(setup, v.ordered) == TeardownCalls(setup, v.ordered);
  }

  lemma HooksComeFirst(setup: Setup, v: View, w: World)
    requires Sound(setup, v) && v.life == Running
    ensures HooksAround(v.log + StopLog(setup, v, w), w)
  {
    hide Sound, StopLog, Stops, Precedes, PostStopLast, Plan;
    ShutdownOfRunning(setup, v, w);
    StopLogEnds(setup, v, w);
    var (pre, down, post) := (Hooks(true, w.preStop), [WaitTasks] + Stops(v.ordered, setup.stoppers) + BusClose(setup), Hooks(false, w.postStop));
    var log := v.log + StopLog(setup, v, w);
    Associate(v.log, pre, down, post);
    HookKinds(w.preStop, w.postStop);
    forall i: nat, j: nat | i < j < w.preStop ensures Precedes(log, PreStop(i), PreStop(j)) {
      assert pre[i] == PreStop(i) && pre[j] == PreStop(j);
      assert Precedes(pre, PreStop(i), PreStop(j)) by { At(pre, i, j); }
      PrecedesWithin(v.log, pre, down + post, PreStop(i), PreStop(j));
      assert v.log + pre + (down + post) == log;
    }
    forall i: nat, c | i < w.preStop && IsShutdown(c) && c in log ensures Precedes(log, PreStop(i), c) {
      assert pre[i] == PreStop(i);
      assert c in down + post;
      PrecedesAcross(v.log + pre, down + post, PreStop(i), c);
      assert v.log + pre + (down + post) == log;
    }
  }

  lemma At(log: seq<Call>, i: nat, j: nat)
    requires i < j < |log|
    ensures Precedes(log, log[i], log[j])
  {
  }

  /** An application that started: every module is initialised, started and stopped once, in dependency order. */
  lemma WholeLife(setup: Setup, v: View, w: World)
    requires Sound(setup, v) && v.life == Running
    requires AllInitialised(v.modules, v.log) && AllStarted(setup, v.modules, v.log)
    ensures var log := v.log + StopLog(setup, v, w);
            && AllInitialised(v.modules, log) && AllStarted(setup, v.modules, log) && AllStopped(setup, v.modules, log)
            && HooksAround(log, w)
  {
    hide Sound, StopLog, Stops, AllInitialised, AllStarted, AllStopped, HooksAround, Plan;
    ShutdownOfRunning(setup, v, w);
    HooksComeFirst(setup, v, w);
    StillInitialised(setup, v.modules, v.log, StopLog(setup, v, w));
    var (pre, stops, post) := (Hooks(true, w.preStop), Stops(v.ordered, setup.stoppers), Hooks(false, w.postStop));
    StoppedIn(setup, v.modules, v.ordered, v.log + pre + [WaitTasks], BusClose(setup) + post);
    Regroup(v.log, pre, [WaitTasks], stops, BusClose(setup), post);
  }

  lemma Regroup(a: seq<Call>, b: seq<Call>, c: seq<Call>, d: seq<Call>, e: seq<Call>, f: seq<Call>)
    ensures a + (b + (c + d + e) + f) == (a + b + c) + d + (e + f)
  {
  }

  /**
   * `Run`, sequential and panic-free: whatever the setup hook does with the manager, and however
   * registration, Init, Start and shutdown turn out, the manager ends stopped, the event bus is closed
   * exactly once, every pre-stop and post-stop hook runs exactly once, and the result joins the error
   * of the start with every error of the shutdown. The start succeeds exactly when it can, and then every
   * module is initialised, started and stopped exactly once, in dependency order, between the hooks.
   */
  method RunApp(setup: Setup, mods: seq<ModuleDecl>, w: World)
    returns (errs: seq<Fault>, mgr: Manager, ghost hook: seq<Op>, ghost sorted: SortResult)
    ensures fresh(mgr) && mgr.setup == setup && mgr.state == Stopped
    ensures multiset(mgr.log)[CloseBus] == if setup.hasBus then 1 else 0
    ensures forall i: nat :: multiset(mgr.log)[PreStop(i)] == if i < w.preStop then 1 else 0
    ensures forall i: nat :: multiset(mgr.log)[PostStop(i)] == if i < w.postStop then 1 else 0
    ensures LegalRun(setup, FRESH, hook) && |hook| == |w.setup| && forall i | 0 <= i < |w.setup| :: IsHookOp(w.setup[i], hook[i])
    ensures var (v, startErrs) := Started(setup, Run(setup, FRESH, hook), mods, w, sorted);
            && errs == startErrs + StopErrs(setup, v, w)
            && mgr.log == v.log + StopLog(setup, v, w)
            && PostStopLast(mgr.log, w)
            && SortedIfReached(Run(setup, FRESH, hook), mods, w, sorted)
            && (startErrs == [] <==> CanStart(setup, Run(setup, FRESH, hook), mods, w, sorted))
            && (startErrs == [] ==>
                  var modules := Merged(Run(setup, FRESH, hook).modules, mods);
                  && AllInitialised(modules, mgr.log) && AllStarted(setup, modules, mgr.log)
                  && AllStopped(setup, modules, mgr.log) && HooksAround(mgr.log, w))
  {
    hide Sound, StopLog, StopErrs, Started, LegalRun, Run, IsHookOp, CanStart, Merged, SortedIfReached, PostStopLast;
    hide AllInitialised, AllStarted, AllStopped, HooksAround;
    mgr := new Manager(setup);
    var fullyStarted := false;
    errs, hook, sorted := StartAll(mgr, mods, w);
    if errs == [] {
      fullyStarted := true;
    }
    ghost var v := mgr.Fields();
    RunStopCloses(setup, v, w);
    StopLogEnds(setup, v, w);
    if fullyStarted {
      WholeLife(setup, v, w);
    }
    var stopErrs := RunStop(mgr, w);
    if fullyStarted {
      errs := stopErrs;
    } else {
      errs := errs + stopErrs;
    }
  }
}
