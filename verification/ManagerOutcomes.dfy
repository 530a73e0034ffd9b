/** What each manager call achieves, read off its log, its errors and the answers it got (modulex.go). */
module ManagerOutcomes {
  import opened Text
  import opened TopoSort
  import opened Supervisor
  import opened Managers

  // ----- Logs -----

  ghost predicate Precedes(log: seq<Call>, a: Call, b: Call) {
    exists i, j | 0 <= i < j < |log| :: log[i] == a && log[j] == b
  }

  lemma PrecedesWithin(pre: seq<Call>, log: seq<Call>, post: seq<Call>, a: Call, b: Call)
    requires Precedes(log, a, b)
    ensures Precedes(pre + log + post, a, b)
  {
    var i, j :| 0 <= i < j < |log| && log[i] == a && log[j] == b;
    var all := pre + log + post;
    assert all[|pre| + i] == a && all[|pre| + j] == b;
  }

  lemma PrecedesAcross(pre: seq<Call>, post: seq<Call>, a: Call, b: Call)
    requires a in pre && b in post
    ensures Precedes(pre + post, a, b)
  {
    var i :| 0 <= i < |pre| && pre[i] == a;
    var j :| 0 <= j < |post| && post[j] == b;
    var all := pre + post;
    assert all[i] == a && all[|pre| + j] == b;
  }

  /** Every module is initialised once, after all its dependencies. */
  ghost predicate AllInitialised(modules: Graph, log: seq<Call>) {
    && (forall m | m in modules :: multiset(log)[InitCall(m)] == 1)
    && (forall m, d | m in modules && Edge(modules, m, d) :: Precedes(log, InitCall(d), InitCall(m)))
  }

  /** Every module that can be started is started once, after its dependencies and after every Init. */
  ghost predicate AllStarted(setup: Setup, modules: Graph, log: seq<Call>) {
    && (forall m | m in modules && m in setup.starters :: multiset(log)[StartCall(m)] == 1)
    && (forall m, d | m in modules && m in setup.starters && d in setup.starters && Edge(modules, m, d) ::
          Precedes(log, StartCall(d), StartCall(m)))
    && (forall m, n | m in modules && n in modules && n in setup.starters :: Precedes(log, InitCall(m), StartCall(n)))
  }

  /** Every module that can be stopped is stopped once, before its dependencies. */
  ghost predicate AllStopped(setup: Setup, modules: Graph, log: seq<Call>) {
    && (forall m | m in modules && m in setup.stoppers :: multiset(log)[StopCallOf(m)] == 1)
    && (forall m, d | m in modules && m in setup.stoppers && d in setup.stoppers && Edge(modules, m, d) ::
          Precedes(log, StopCallOf(m), StopCallOf(d)))
  }

  lemma {:induction false} InitsOnce(ms: seq<string>, m: string)
    requires Distinct(ms)
    ensures multiset(Inits(ms))[InitCall(m)] == if m in ms then 1 else 0
  {
    if ms != [] {
      var n := |ms| - 1;
      InitsOnce(ms[..n], m);
      assert ms == ms[..n] + [ms[n]] && ms[n] !in ms[..n];
    }
  }

  lemma {:induction false} StartsOnce(ms: seq<string>, starters: set<string>, m: string)
    requires Distinct(ms)
    ensures multiset(Starts(ms, starters))[StartCall(m)] == if m in ms && m in starters then 1 else 0
  {
    if ms != [] {
      var n := |ms| - 1;
      StartsOnce(ms[..n], starters, m);
      assert ms == ms[..n] + [ms[n]] && ms[n] !in ms[..n];
    }
  }

  lemma {:induction false} StopsExactlyOnce(ms: seq<string>, stoppers: set<string>, m: string)
    requires Distinct(ms)
    ensures multiset(Stops(ms, stoppers))[StopCallOf(m)] == if m in ms && m in stoppers then 1 else 0
  {
    if ms != [] {
      var n := |ms| - 1;
      StopsExactlyOnce(ms[..n], stoppers, m);
      assert ms == ms[..n] + [ms[n]] && ms[n] !in ms[..n];
    }
  }

  /** A list in dependency order: whatever comes earlier in it is called earlier. */
  lemma {:induction false} CallsInOrder(setup: Setup, ms: seq<string>, p: nat, q: nat)
    requires p < q < |ms|
    ensures Precedes(Inits(ms), InitCall(ms[p]), InitCall(ms[q]))
    ensures ms[p] in setup.starters && ms[q] in setup.starters ==>
              Precedes(Starts(ms, setup.starters), StartCall(ms[p]), StartCall(ms[q]))
    ensures ms[p] in setup.stoppers && ms[q] in setup.stoppers ==>
              Precedes(Stops(ms, setup.stoppers), StopCallOf(ms[q]), StopCallOf(ms[p]))
    decreases |ms|
  {
    hide Precedes;
    var n := |ms| - 1;
    var init := ms[..n];
    if q < n {
      CallsInOrder(setup, init, p, q);
      Grow(setup, ms, p, q);
    } else {
      InitsAre(init);
      StartsAre(init, setup.starters);
      StopsAre(init, setup.stoppers);
      assert init[p] in init;
      PrecedesAcross(Inits(init), [InitCall(ms[n])], InitCall(ms[p]), InitCall(ms[n]));
      if ms[p] in setup.starters && ms[q] in setup.starters {
        PrecedesAcross(Starts(init, setup.starters), [StartCall(ms[n])], StartCall(ms[p]), StartCall(ms[n]));
      }
      if ms[p] in setup.stoppers && ms[q] in setup.stoppers {
        PrecedesAcross([StopCallOf(ms[n])], Stops(init, setup.stoppers), StopCallOf(ms[n]), StopCallOf(ms[p]));
      }
    }
  }

  /** What precedes in the calls of a shorter list precedes in the calls of a longer one. */
  lemma Grow(setup: Setup, ms: seq<string>, p: nat, q: nat)
    requires p < q < |ms| - 1
    ensures var init := ms[..|ms| - 1];
            && (Precedes(Inits(init), InitCall(ms[p]), InitCall(ms[q])) ==>
                Precedes(Inits(ms), InitCall(ms[p]), InitCall(ms[q])))
            && (Precedes(Starts(init, setup.starters), StartCall(ms[p]), StartCall(ms[q])) ==>
                Precedes(Starts(ms, setup.starters), StartCall(ms[p]), StartCall(ms[q])))
            && (Precedes(Stops(init, setup.stoppers), StopCallOf(ms[q]), StopCallOf(ms[p])) ==>
                Precedes(Stops(ms, setup.stoppers), StopCallOf(ms[q]), StopCallOf(ms[p])))
  {
    hide Precedes;
    var n := |ms| - 1;
    var init := ms[..n];
    var (a, b, c) := (Inits(init), Starts(init, setup.starters), Stops(init, setup.stoppers));
    var start := if ms[n] in setup.starters then [StartCall(ms[n])] else [];
    var stop := if ms[n] in setup.stoppers then [StopCallOf(ms[n])] else [];
    if Precedes(a, InitCall(ms[p]), InitCall(ms[q])) {
      PrecedesWithin([], a, [InitCall(ms[n])], InitCall(ms[p]), InitCall(ms[q]));
      assert [] + a + [InitCall(ms[n])] == Inits(ms);
    }
    if Precedes(b, StartCall(ms[p]), StartCall(ms[q])) {
      PrecedesWithin([], b, start, StartCall(ms[p]), StartCall(ms[q]));
      assert [] + b + start == Starts(ms, setup.starters);
    }
    if Precedes(c, StopCallOf(ms[q]), StopCallOf(ms[p])) {
      PrecedesWithin(stop, c, [], StopCallOf(ms[q]), StopCallOf(ms[p]));
      assert stop + c + [] == Stops(ms, setup.stoppers);
    }
  }

  lemma EdgeInPlan(modules: Graph, order: seq<string>, m: string, d: string) returns (p: nat, q: nat)
    requires Plan(modules, order) && m in modules && Edge(modules, m, d)
    ensures p < q < |order| && order[p] == d && order[q] == m
  {
    hide Edge, Topological;
    q :| 0 <= q < |order| && order[q] == m;
    p := EdgeFalls(modules, order, q, d);
  }

  lemma Absent(log: seq<Call>, c: Call)
    requires c !in log
    ensures multiset(log)[c] == 0
  {
  }

  lemma InitialisedIn(modules: Graph, order: seq<string>, pre: seq<Call>, post: seq<Call>)
    requires Plan(modules, order) && (forall c | c in pre || c in post :: !c.InitCall?)
    ensures AllInitialised(modules, pre + Inits(order) + post)
  {
    hide Inits, Edge, Topological, Precedes;
    var log := pre + Inits(order) + post;
    forall m | m in modules ensures multiset(log)[InitCall(m)] == 1 {
      InitsOnce(order, m);
      Absent(pre, InitCall(m));
      Absent(post, InitCall(m));
      assert multiset(log) == multiset(pre) + multiset(Inits(order)) + multiset(post);
    }
    forall m, d | m in modules && Edge(modules, m, d) ensures Precedes(log, InitCall(d), InitCall(m)) {
      var p, q := EdgeInPlan(modules, order, m, d);
      CallsInOrder(Setup({}, {}, false), order, p, q);
      PrecedesWithin(pre, Inits(order), post, InitCall(d), InitCall(m));
    }
  }

  lemma StartedIn(setup: Setup, modules: Graph, order: seq<string>, pre: seq<Call>, post: seq<Call>)
    requires Plan(modules, order) && (forall c | c in pre || c in post :: !c.StartCall?)
    requires forall m | m in order :: InitCall(m) in pre
    ensures AllStarted(setup, modules, pre + Starts(order, setup.starters) + post)
  {
    hide Starts, Edge, Topological, Precedes;
    var starts := Starts(order, setup.starters);
    var log := pre + starts + post;
    forall m | m in modules && m in setup.starters ensures multiset(log)[StartCall(m)] == 1 {
      StartsOnce(order, setup.starters, m);
      Absent(pre, StartCall(m));
      Absent(post, StartCall(m));
      assert multiset(log) == multiset(pre) + multiset(starts) + multiset(post);
    }
    forall m, d | m in modules && m in setup.starters && d in setup.starters && Edge(modules, m, d)
      ensures Precedes(log, StartCall(d), StartCall(m))
    {
      var p, q := EdgeInPlan(modules, order, m, d);
      CallsInOrder(setup, order, p, q);
      PrecedesWithin(pre, starts, post, StartCall(d), StartCall(m));
    }
    forall m, n | m in modules && n in modules && n in setup.starters ensures Precedes(log, InitCall(m), StartCall(n)) {
      StartsAre(order, setup.starters);
      PrecedesAcross(pre, starts, InitCall(m), StartCall(n));
      PrecedesWithin([], pre + starts, post, InitCall(m), StartCall(n));
      assert [] + (pre + starts) + post == log;
    }
  }

  lemma StoppedIn(setup: Setup, modules: Graph, order: seq<string>, pre: seq<Call>, post: seq<Call>)
    requires Plan(modules, order) && (forall c | c in pre || c in post :: !c.StopCallOf?)
    ensures AllStopped(setup, modules, pre + Stops(order, setup.stoppers) + post)
  {
    hide Stops, Edge, Topological, Precedes;
    var stops := Stops(order, setup.stoppers);
    var log := pre + stops + post;
    forall m | m in modules && m in setup.stoppers ensures multiset(log)[StopCallOf(m)] == 1 {
      StopsExactlyOnce(order, setup.stoppers, m);
      Absent(pre, StopCallOf(m));
      Absent(post, StopCallOf(m));
      assert multiset(log) == multiset(pre) + multiset(stops) + multiset(post);
    }
    forall m, d | m in modules && m in setup.stoppers && d in setup.stoppers && Edge(modules, m, d)
      ensures Precedes(log, StopCallOf(m), StopCallOf(d))
    {
      var p, q := EdgeInPlan(modules, order, m, d);
      CallsInOrder(setup, order, p, q);
      PrecedesWithin(pre, stops, post, StopCallOf(m), StopCallOf(d));
    }
  }

  // ----- Init -----

  /** No module of the order fails and none finds the context cancelled. */
  ghost predicate NoneFails(order: seq<string>, fails: set<string>, env: Env) {
    forall k | 0 <= k < |order| :: order[k] !in fails && !CancelledAt(env, k)
  }

  lemma PhaseOkExact(order: seq<string>, fails: set<string>, env: Env)
    ensures Phase(order, fails, env, 0).ok <==> NoneFails(order, fails, env)
  {
    hide Phase, CancelledAt;
    PhaseIs(order, fails, env, 0);
  }

  /** The first thing that goes wrong in a phase: a cancellation found before a module, or the module's own failure. */
  ghost predicate Blames(order: seq<string>, fails: set<string>, env: Env, f: Fault) {
    exists k | 0 <= k < |order| ::
      && (forall j | 0 <= j < k :: order[j] !in fails && !CancelledAt(env, j))
      && if CancelledAt(env, k) then f == CancelFault else order[k] in fails && f == CallFault(order[k])
  }

  lemma PhaseBlames(order: seq<string>, fails: set<string>, env: Env)
    requires !Phase(order, fails, env, 0).ok
    ensures Blames(order, fails, env, PhaseFault(order, Phase(order, fails, env, 0)))
  {
    hide Phase, CancelledAt;
    PhaseIs(order, fails, env, 0);
    var k := Phase(order, fails, env, 0).count;
    assert k < |order|;
  }

  /**
   * `InitModules` succeeds exactly in the configuring state, on a sortable set of modules, none of which
   * fails or finds the context cancelled. Then every registered module has been initialised once, after
   * its dependencies, and is in the order the later phases follow.
   */
  lemma InitOutcome(setup: Setup, v: View, env: Env, sorted: SortResult)
    requires Sound(setup, v) && Legal(v, DoInit(env, sorted))
    ensures var (v', errs) := Step(setup, v, DoInit(env, sorted));
            && (errs == [] <==>
                v.life == Configuring && Sortable(v.modules) && sorted.Sorted? && NoneFails(sorted.order, env.fails, env))
            && v'.modules == v.modules
            && (errs == [] ==> v'.life == Initialized && AllInitialised(v.modules, v'.log) && Plan(v.modules, v'.ordered))
            && (v.life != Configuring ==> v' == v)
            && (v.life == Configuring && errs != [] ==>
                  v'.life == Stopped
                  && if sorted.Failed? then errs[0] == SortFault else Blames(sorted.order, env.fails, env, errs[0]))
  {
    hide Sortable, Topological, TieBreak, ErrorIsReal, Phase, TeardownCalls, TeardownFaults, AllInitialised, NoneFails, Blames;
    if v.life == Configuring && sorted.Sorted? {
      var order := sorted.order;
      PhaseOkExact(order, env.fails, env);
      var r := Phase(order, env.fails, env, 0);
      if r.ok {
        InitialisedIn(v.modules, order, [], []);
        assert Reached(order, r) == order;
        assert v.log + Inits(order) == [] + Inits(order) + [];
      } else {
        PhaseBlames(order, env.fails, env);
      }
    }
  }

  /** Whether Init succeeds or fails, it calls exactly the modules that get their turn, once each. */
  lemma InitCallsExactly(setup: Setup, v: View, env: Env, order: seq<string>, k: nat)
    requires Sound(setup, v) && v.life == Configuring && SortAnswer(v.modules, v.registered, Sorted(order)) && k < |order|
    ensures multiset(Step(setup, v, DoInit(env, Sorted(order))).0.log)[InitCall(order[k])] ==
            if GetsItsTurn(order, env.fails, env, k) then 1 else 0
  {
    hide Sortable, Topological, TieBreak, ErrorIsReal, Phase, TeardownCalls, TeardownFaults, Inits, GetsItsTurn;
    var r := Phase(order, env.fails, env, 0);
    var reached := Reached(order, r);
    ReachedIs(order, env.fails, env, k);
    InPrefix(order, |reached|, k);
    InitsOnce(reached, order[k]);
    TeardownCallsAre(setup, order[..r.count]);
    Absent(TeardownCalls(setup, order[..r.count]), InitCall(order[k]));
    assert v.log + Inits(reached) == Inits(reached);
  }

  // ----- Start -----

  /**
   * `StartModules` succeeds exactly in the initialised state when no starter fails and no module finds the
   * context cancelled. Then every starter has been started once, after its dependencies.
   */
  lemma StartOutcome(setup: Setup, v: View, env: Env)
    requires Sound(setup, v)
    ensures var (v', errs) := Step(setup, v, DoStart(env));
            && (errs == [] <==> v.life == Initialized && NoneFails(v.ordered, env.fails * setup.starters, env))
            && v'.modules == v.modules
            && (errs == [] ==> v'.life == Running && AllInitialised(v.modules, v'.log) && AllStarted(setup, v.modules, v'.log))
            && (v.life != Initialized ==> v' == v)
            && (v.life == Initialized && errs != [] ==>
                  v'.life == Stopped && Blames(v.ordered, env.fails * setup.starters, env, errs[0]))
  {
    hide Topological, Phase, TeardownCalls, TeardownFaults, AllInitialised, AllStarted, NoneFails, Blames, Inits, Starts;
    if v.life == Initialized {
      var order, fails := v.ordered, env.fails * setup.starters;
      PhaseOkExact(order, fails, env);
      var r := Phase(order, fails, env, 0);
      if r.ok {
        InitsAre(order);
        StartsAre(order, setup.starters);
        assert Reached(order, r) == order;
        InitialisedIn(v.modules, order, [], Starts(order, setup.starters));
        StartedIn(setup, v.modules, order, Inits(order), []);
        assert v.log + Starts(order, setup.starters) == [] + Inits(order) + Starts(order, setup.starters)
            == Inits(order) + Starts(order, setup.starters) + [];
      } else {
        PhaseBlames(order, fails, env);
      }
    }
  }

  lemma TeardownHasNoStart(setup: Setup, ms: seq<string>, m: string)
    ensures StartCall(m) !in TeardownCalls(setup, ms)
  {
    hide Stops;
    StopsAre(ms, setup.stoppers);
  }

  /** Whether Start succeeds or fails, it calls exactly the starters that get their turn, once each. */
  lemma StartCallsExactly(setup: Setup, v: View, env: Env, k: nat)
    requires Sound(setup, v) && v.life == Initialized && k < |v.ordered|
    ensures var m := v.ordered[k];
            multiset(Step(setup, v, DoStart(env)).0.log)[StartCall(m)] ==
            if m in setup.starters && GetsItsTurn(v.ordered, env.fails * setup.starters, env, k) then 1 else 0
  {
    hide Topological, Phase, TeardownCalls, TeardownFaults, Inits, Starts, GetsItsTurn;
    var order, fails := v.ordered, env.fails * setup.starters;
    var r := Phase(order, fails, env, 0);
    var reached := Reached(order, r);
    ReachedIs(order, fails, env, k);
    InPrefix(order, |reached|, k);
    StartsOnce(reached, setup.starters, order[k]);
    InitsAre(order);
    Absent(v.log, StartCall(order[k]));
    TeardownHasNoStart(setup, reached, order[k]);
    Absent(TeardownCalls(setup, reached), StartCall(order[k]));
  }

  // ----- Stop -----

  /** Nothing the teardown does is answered with an error. */
  predicate Quiet(setup: Setup, ms: seq<string>, down: Down) {
    && !down.taskErr && !down.expired && !(setup.hasBus && down.busFails)
    && forall m | m in ms && m in setup.stoppers :: m !in down.stopFails
  }

  lemma TeardownQuiet(setup: Setup, ms: seq<string>, down: Down)
    ensures TeardownFaults(setup, ms, down, down.expired) == [] <==> Quiet(setup, ms, down)
    ensures ExpiredFault in TeardownFaults(setup, ms, down, down.expired) <==> down.expired
  {
    hide StopFaults;
    var faults := StopFaults(ms, setup.stoppers * down.stopFails);
    StopFaultsAre(ms, setup.stoppers * down.stopFails);
    if faults != [] {
      assert faults[0] in faults;
    }
    forall m | m in ms && m in setup.stoppers && m in down.stopFails ensures faults != [] {
      assert StopFault(m) in faults;
    }
  }

  /**
   * `StopModules` always ends in the stopped state. It returns nil exactly when the manager was stopped
   * before or nothing it does is answered with an error, and it stops every module of a running manager
   * once, before its dependencies.
   */
  lemma StopOutcome(setup: Setup, v: View, down: Down)
    requires Sound(setup, v)
    ensures var (v', errs) := Step(setup, v, DoStop(down));
            && v'.life == Stopped && v'.modules == v.modules
            && (errs == [] <==> v.life == Stopped || Quiet(setup, v.ordered, down))
            && (v.life != Stopped ==> (ExpiredFault in errs <==> down.expired))
            && (v.life == Stopped ==> v' == v)
            && (v.life == Initialized || v.life == Running ==> AllStopped(setup, v.modules, v'.log))
  {
    hide Topological, TeardownFaults, AllStopped, Inits, Starts, Quiet, Stops;
    TeardownQuiet(setup, v.ordered, down);
    if v.life == Initialized || v.life == Running {
      NothingStoppedBefore(setup, v);
      var pre, post := v.log + [WaitTasks], BusClose(setup);
      StoppedIn(setup, v.modules, v.ordered, pre, post);
      assert v.log + TeardownCalls(setup, v.ordered) == pre + Stops(v.ordered, setup.stoppers) + post;
    }
  }

  // ----- Register -----

  /** A module is accepted exactly while configuring, under a non-blank name that is not taken yet. */
  predicate Accepts(v: View, name: string) {
    v.life == Configuring && TrimSpace(name) != "" && TrimSpace(name) !in v.modules
  }

  lemma RegisterOutcome(setup: Setup, v: View, name: string, deps: seq<string>)
    ensures var (v', errs) := Step(setup, v, Register(name, deps));
            && (errs == [] <==> Accepts(v, name))
            && (errs != [] ==> v' == v)
            && (errs == [] ==>
                  && v'.life == Configuring && v'.log == v.log && v'.registered == v.registered + [TrimSpace(name)]
                  && v'.modules.Keys == v.modules.Keys + {TrimSpace(name)} && v'.modules[TrimSpace(name)] == deps
                  && forall n | n in v.modules && n != TrimSpace(name) :: v'.modules[n] == v.modules[n])
  {
    hide TrimSpace;
  }
}
