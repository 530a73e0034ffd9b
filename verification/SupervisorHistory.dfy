/** What the supervisor's handles say about the calls and the task ends of a run (modulex.go). */
module SupervisorHistory {
  import opened Text
  import opened Supervisor

  // ----- Which calls of Go are accepted -----

  /** A task of that name is still running. */
  ghost predicate InUse(s: State, name: string) {
    exists h :: h in s.handles && s.handles[h].name == name && !s.handles[h].done
  }

  /** What `Go` needs, whatever else the manager is doing, running included. */
  ghost predicate MayRegister(s: State, name: string) {
    && TrimSpace(name) != "" && !InUse(s, TrimSpace(name))
    && s.life != Stopping && s.life != Stopped && s.gen !in s.cancelled
  }

  lemma InUseExact(s: State, name: string)
    requires Registry(s)
    ensures InUse(s, name) <==> name in s.tasks
  {
  }

  /** `Go` registers a handle exactly when it may, under the trimmed name and the current context; otherwise nothing changes. */
  lemma GoExactly(s: State, h: HandleId, name: string)
    requires Inv(s) && Enabled(s, GoCall(h, name))
    ensures var s' := Apply(s, GoCall(h, name));
            && (h in s'.handles <==> MayRegister(s, name))
            && (h in s'.handles ==> s'.handles == s.handles[h := Handle(TrimSpace(name), s.gen, false, None)])
            && (h !in s'.handles ==> s' == s)
  {
    hide TrimSpace, Apply, Teardown, Covered, Ledger, Contexts, Quiet, Window, Goroutines, StopsLast, InUse, Registry;
    InUseExact(s, TrimSpace(name));
    GoFrame(s, h, name);
  }

  // ----- Handles and the events of a run -----

  /** Handles say exactly what the run so far did: which calls made them, whether and how their tasks ended. */
  ghost predicate Truthful(s: State, past: seq<Event>) {
    && (forall h | h in s.handles :: exists name :: GoCall(h, name) in past && s.handles[h].name == TrimSpace(name))
    && (forall h, err :: Finish(h, err) in past <==> h in s.handles && s.handles[h].done && s.handles[h].err == err)
  }

  lemma GoKeepsTruthful(s: State, h: HandleId, name: string, past: seq<Event>)
    requires Inv(s) && Enabled(s, GoCall(h, name)) && Truthful(s, past)
    ensures Truthful(Apply(s, GoCall(h, name)), past + [GoCall(h, name)])
  {
    hide Inv, Apply, TrimSpace, MayRegister;
    GoExactly(s, h, name);
    var s' := Apply(s, GoCall(h, name));
    var past' := past + [GoCall(h, name)];
    forall x | x in s'.handles ensures exists n :: GoCall(x, n) in past' && s'.handles[x].name == TrimSpace(n) {
      if x in s.handles {
        var n :| GoCall(x, n) in past && s.handles[x].name == TrimSpace(n);
        assert GoCall(x, n) in past';
      } else {
        assert GoCall(h, name) in past';
      }
    }
  }

  lemma FinishKeepsTruthful(s: State, h: HandleId, err: Option<string>, past: seq<Event>)
    requires Goroutines(s) && Enabled(s, Finish(h, err)) && Truthful(s, past)
    ensures Truthful(Apply(s, Finish(h, err)), past + [Finish(h, err)])
  {
    hide Apply, TrimSpace, Recorded;
    FinishFrame(s, h, err);
    var s' := Apply(s, Finish(h, err));
    var past' := past + [Finish(h, err)];
    forall x | x in s'.handles ensures exists n :: GoCall(x, n) in past' && s'.handles[x].name == TrimSpace(n) {
      var n :| GoCall(x, n) in past && s.handles[x].name == TrimSpace(n);
      assert GoCall(x, n) in past';
    }
    forall x, y ensures Finish(x, y) in past' <==> x in s'.handles && s'.handles[x].done && s'.handles[x].err == y {
      assert Finish(x, y) in past' <==> Finish(x, y) in past || (x == h && y == err);
    }
  }

  lemma OthersKeepTruthful(s: State, e: Event, past: seq<Event>)
    requires Enabled(s, e) && !e.GoCall? && !e.Finish? && Truthful(s, past)
    ensures Truthful(Apply(s, e), past + [e])
  {
    hide Apply, TrimSpace;
    TasksFrame(s, e);
    forall h | h in s.handles ensures exists n :: GoCall(h, n) in past + [e] && s.handles[h].name == TrimSpace(n) {
      var n :| GoCall(h, n) in past && s.handles[h].name == TrimSpace(n);
      assert GoCall(h, n) in past + [e];
    }
  }

  lemma StepKeepsTruthful(s: State, e: Event, past: seq<Event>)
    requires Inv(s) && Enabled(s, e) && Truthful(s, past)
    ensures Truthful(Apply(s, e), past + [e])
  {
    hide Apply, Truthful, Enabled, Registry, Teardown, Covered, Ledger, Contexts, Quiet, Window, StopsLast;
    if e.GoCall? {
      GoKeepsTruthful(s, e.h, e.name, past);
    } else if e.Finish? {
      FinishKeepsTruthful(s, e.h, e.err, past);
    } else {
      OthersKeepTruthful(s, e, past);
    }
  }

  lemma {:induction false} RunIsTruthful(s: State, es: seq<Event>, past: seq<Event>)
    requires Inv(s) && Feasible(s, es) && Truthful(s, past)
    ensures Inv(Exec(s, es)) && Truthful(Exec(s, es), past + es)
    decreases |es|
  {
    hide Inv, Apply, Enabled, Truthful;
    if es == [] {
      assert past + es == past;
    } else {
      StepKeepsInv(s, es[0]);
      StepKeepsTruthful(s, es[0], past);
      RunIsTruthful(Apply(s, es[0]), es[1..], past + [es[0]]);
      assert past + [es[0]] + es[1..] == past + es;
    }
  }

  lemma InitIsTruthful()
    ensures Truthful(INIT, [])
  {
  }

  /**
   * In every run: each handle comes from a call of `Go` under its name; it is done exactly when its task
   * ended in the run, with the error the task ended with; and the errors recorded are exactly those of the
   * tasks that ended with one, once each.
   */
  lemma HandlesTellTheTruth(es: seq<Event>)
    requires Feasible(INIT, es)
    ensures var s := Exec(INIT, es);
            && (forall h | h in s.handles :: exists name :: GoCall(h, name) in es && s.handles[h].name == TrimSpace(name))
            && (forall h, err :: Finish(h, err) in es <==> h in s.handles && s.handles[h].done && s.handles[h].err == err)
            && (forall x: TaskError :: s.recorded[x] == if Finish(x.h, Some(x.message)) in es then 1 else 0)
  {
    hide Feasible, Exec, TrimSpace, Registry, Teardown, Covered, Contexts, Quiet, Window, Goroutines, StopsLast;
    InitInv();
    InitIsTruthful();
    RunIsTruthful(INIT, es, []);
    assert [] + es == es;
  }

  // ----- Contexts -----

  predicate AfterReset(w: Waiter) {
    w.StoppingModules? || w.Over?
  }

  /** Once the wait has begun the first context is cancelled; once it is over there is a fresh one. */
  ghost predicate Cancelled(s: State) {
    && (s.waiter.Waiting? || s.waiter.BeforeDrain? || s.waiter.BeforeReset? || AfterReset(s.waiter) ==> 0 in s.cancelled)
    && (s.cancelled <= {0})
    && s.gen == (if AfterReset(s.waiter) then 1 else 0)
    && (forall h | h in s.handles && h !in s.late :: s.handles[h].gen == 0)
  }

  lemma OthersKeepCancelled(s: State, e: Event)
    requires Contexts(s) && Teardown(s) && Cancelled(s) && Enabled(s, e) && !e.GoCall? && !e.Finish?
    ensures Cancelled(Apply(s, e))
  {
    TasksFrame(s, e);
  }

  lemma StepKeepsCancelled(s: State, e: Event)
    requires Inv(s) && Cancelled(s) && Enabled(s, e)
    ensures Cancelled(Apply(s, e))
  {
    hide Apply, TrimSpace, Recorded, GoVerdict, Registry, Covered, Ledger, Quiet, Window, Goroutines, StopsLast;
    if e.GoCall? {
      GoFrame(s, e.h, e.name);
    } else if e.Finish? {
      FinishFrame(s, e.h, e.err);
    } else {
      OthersKeepCancelled(s, e);
    }
  }

  lemma {:induction false} RunKeepsCancelled(s: State, es: seq<Event>)
    requires Inv(s) && Feasible(s, es) && Cancelled(s)
    ensures Cancelled(Exec(s, es))
    decreases |es|
  {
    hide Inv, Apply, Enabled, Cancelled;
    if es != [] {
      StepKeepsInv(s, es[0]);
      StepKeepsCancelled(s, es[0]);
      RunKeepsCancelled(Apply(s, es[0]), es[1..]);
    }
  }

  /**
   * On every teardown path: while tasks are waited for, and from then on, every task registered before the
   * wait has a cancelled context; once modules are being stopped the current context is a fresh one.
   */
  lemma TasksAreToldToStop(es: seq<Event>)
    requires Feasible(INIT, es)
    ensures var s := Exec(INIT, es);
            && (s.waiter.Waiting? || AfterDrain(s.waiter) || s.waiter.BeforeDrain? ==>
                  forall h | h in s.handles && h !in s.late :: s.handles[h].gen in s.cancelled)
            && (AfterReset(s.waiter) ==> s.gen !in s.cancelled)
  {
    hide Feasible, Exec, Inv;
    InitInv();
    RunKeepsCancelled(INIT, es);
  }
}
