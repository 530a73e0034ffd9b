/** What the pool's handles and counters say about what its tasks did, over whole runs (workerpool/workerpool.go). */
module PoolHistory {
  import opened WorkerPool

  /** A task and whether its run ended in an error. */
  datatype Outcome = Outcome(t: Id, err: bool)

  /** The outcome the event adds: a worker finishes running the task it is on. */
  function OutcomeOf(s: State, e: Event): seq<Outcome>
    requires Enabled(s, e)
  {
    if e.Execute? then [Outcome(s.workers[e.w].t, e.err)] else []
  }

  /** What the tasks of a run did, in the order they finished. */
  ghost function Outcomes(s: State, es: seq<Event>): seq<Outcome>
    requires Feasible(s, es)
    decreases |es|
  {
    if es == [] then [] else OutcomeOf(s, es[0]) + Outcomes(Apply(s, es[0]), es[1..])
  }

  /** The worker has run task `t`, and remembers how that ended. */
  predicate Remembers(x: Worker, o: Outcome) {
    HasRun(x) && x.t == o.t && x.err == o.err
  }

  /** The outcome has reached the task's handle, or is still with the worker that ran the task. */
  ghost predicate Known(s: State, o: Outcome) {
    || (o.t in s.results && s.results[o.t] == o.err)
    || exists w | 0 <= w < |s.workers| :: Remembers(s.workers[w], o)
  }

  /** Handles and workers say exactly what the run so far did, and no task did anything twice. */
  ghost predicate Truthful(s: State, past: seq<Outcome>) {
    && (forall o :: o in past <==> Known(s, o))
    && (forall i, j | 0 <= i < j < |past| :: past[i].t != past[j].t)
  }

  lemma KnownMove(s: State, s': State, w: nat, o: Outcome)
    requires w < |s.workers| == |s'.workers| && s'.results == s.results && s'.workers == s.workers[w := s'.workers[w]]
    requires (Remembers(s'.workers[w], o) <==> Remembers(s.workers[w], o))
    ensures Known(s', o) <==> Known(s, o)
  {
    if v :| 0 <= v < |s.workers| && Remembers(s.workers[v], o) {
      assert Remembers(s'.workers[v], o);
    }
    if v :| 0 <= v < |s'.workers| && Remembers(s'.workers[v], o) {
      assert Remembers(s.workers[v], o);
    }
  }

  /** A worker's step other than the run itself and the setting of the handle. */
  lemma MoveKeepsKnown(s: State, e: Event, o: Outcome)
    requires Enabled(s, e) && !Apply(s, e).panicked && !e.Execute? && !e.SetResult?
    ensures Known(Apply(s, e), o) <==> Known(s, o)
  {
    if CloserEvent(e) || (SubmitterEvent(e) && !e.Handoff?) {
      ExecutedFrame(s, e);
    } else {
      KnownMove(s, Apply(s, e), e.w, o);
    }
  }

  lemma ExecuteKnown(s: State, w: nat, err: bool, o: Outcome)
    requires Enabled(s, Execute(w, err))
    ensures Known(Apply(s, Execute(w, err)), o) <==> Known(s, o) || o == Outcome(s.workers[w].t, err)
  {
    var s' := Apply(s, Execute(w, err));
    if v :| 0 <= v < |s.workers| && Remembers(s.workers[v], o) {
      assert Remembers(s'.workers[v], o);
    }
    if v :| 0 <= v < |s'.workers| && v != w && Remembers(s'.workers[v], o) {
      assert Remembers(s.workers[v], o);
    }
    assert Remembers(s'.workers[w], Outcome(s.workers[w].t, err));
  }

  lemma SetResultKnown(s: State, w: nat, o: Outcome)
    requires Enabled(s, SetResult(w)) && s.workers[w].t !in s.results && HeldApart(s.workers)
    ensures Known(Apply(s, SetResult(w)), o) <==> Known(s, o)
  {
    var s' := Apply(s, SetResult(w));
    if v :| 0 <= v < |s.workers| && Remembers(s.workers[v], o) {
      if v != w {
        assert Remembers(s'.workers[v], o) && s'.workers[v] == s.workers[v];
      }
    }
    if v :| 0 <= v < |s'.workers| && Remembers(s'.workers[v], o) {
      assert v != w && Remembers(s.workers[v], o);
    }
    assert Remembers(s.workers[w], Outcome(s.workers[w].t, s.workers[w].err));
  }

  /** A task that is running has no outcome yet. */
  lemma RunningIsUnknown(s: State, w: nat, err: bool)
    requires Placed(s) && w < |s.workers| && s.workers[w].Running?
    ensures !Known(s, Outcome(s.workers[w].t, err))
  {
    hide PlacedAt;
    PlacedApart(s);
    NotSetYet(s.subs, s.queue, s.workers, s.results, w);
    forall v | 0 <= v < |s.workers| ensures !Remembers(s.workers[v], Outcome(s.workers[w].t, err)) {
      if v < w {
        assert Holds(s.workers[v]) && Holds(s.workers[w]) ==> s.workers[v].t != s.workers[w].t;
      } else if w < v {
        assert Holds(s.workers[w]) && Holds(s.workers[v]) ==> s.workers[w].t != s.workers[v].t;
      }
    }
  }

  lemma StepKnown(s: State, e: Event, o: Outcome)
    requires Inv(s) && Enabled(s, e)
    ensures Known(Apply(s, e), o) <==> Known(s, o) || o in OutcomeOf(s, e)
  {
    hide Known, Apply, Enabled, Counters, PlacedAt, ExecutedOnce;
    StepKeepsInv(s, e);
    InvMeansNoPanic(Apply(s, e));
    if e.Execute? {
      ExecuteKnown(s, e.w, e.err, o);
    } else if e.SetResult? {
      SettingIsNew(s, e.w);
      SetResultKnown(s, e.w, o);
    } else {
      MoveKeepsKnown(s, e, o);
    }
  }

  lemma SettingIsNew(s: State, w: nat)
    requires Inv(s) && Enabled(s, SetResult(w))
    ensures s.workers[w].t !in s.results && HeldApart(s.workers)
  {
    hide PlacedAt, Counters, Protocol, ExecutedOnce;
    PlacedApart(s);
    NotSetYet(s.subs, s.queue, s.workers, s.results, w);
  }

  lemma StepKeepsTruthful(s: State, e: Event, past: seq<Outcome>)
    requires Inv(s) && Enabled(s, e) && Truthful(s, past)
    ensures Truthful(Apply(s, e), past + OutcomeOf(s, e))
  {
    hide Known, Apply, Counters, PlacedAt, ExecutedOnce, Protocol, Inv;
    var past' := past + OutcomeOf(s, e);
    forall o ensures o in past' <==> Known(Apply(s, e), o) {
      StepKnown(s, e, o);
    }
    if e.Execute? {
      var t := s.workers[e.w].t;
      InvMeansPlaced(s);
      forall i | 0 <= i < |past| ensures past[i].t != t {
        RunningIsUnknown(s, e.w, past[i].err);
        assert past[i] in past;
      }
    }
  }

  lemma InvMeansPlaced(s: State)
    requires Inv(s)
    ensures Placed(s)
  {
  }

  lemma {:induction false} RunIsTruthful(s: State, es: seq<Event>, past: seq<Outcome>)
    requires Inv(s) && Feasible(s, es) && Truthful(s, past)
    ensures Inv(Exec(s, es)) && Truthful(Exec(s, es), past + Outcomes(s, es))
    decreases |es|
  {
    hide Inv, Apply, Enabled, Truthful, OutcomeOf;
    if es == [] {
      assert past + [] == past;
    } else {
      StepKeepsInv(s, es[0]);
      StepKeepsTruthful(s, es[0], past);
      RunIsTruthful(Apply(s, es[0]), es[1..], past + OutcomeOf(s, es[0]));
      assert past + OutcomeOf(s, es[0]) + Outcomes(Apply(s, es[0]), es[1..]) == past + Outcomes(s, es);
    }
  }

  lemma InitIsTruthful(workers: nat, cap: nat)
    ensures Truthful(Init(workers, cap), [])
  {
  }

  /** In every run, a set handle says how its task's one run ended. */
  lemma HandlesTellTheTruth(workers: nat, cap: nat, es: seq<Event>)
    requires Feasible(Init(workers, cap), es)
    ensures var (s, past) := (Exec(Init(workers, cap), es), Outcomes(Init(workers, cap), es));
            && (forall t | t in s.results :: Outcome(t, s.results[t]) in past)
            && (forall i, j | 0 <= i < j < |past| :: past[i].t != past[j].t)
  {
    hide Feasible, Exec, Outcomes, Inv;
    var init := Init(workers, cap);
    InitInv(workers, cap);
    InitIsTruthful(workers, cap);
    RunIsTruthful(init, es, []);
    assert [] + Outcomes(init, es) == Outcomes(init, es);
    var s := Exec(init, es);
    forall t | t in s.results ensures Outcome(t, s.results[t]) in Outcomes(init, es) {
      assert Known(s, Outcome(t, s.results[t]));
    }
  }

  // ----- Counting -----

  function Errors(past: seq<Outcome>): nat {
    if past == [] then 0 else Errors(past[..|past| - 1]) + if past[|past| - 1].err then 1 else 0
  }

  /** The number of events of the run that finish a task, and the number of those that end in an error. */
  function Finished(es: seq<Event>, onlyErrors: bool): nat {
    if es == [] then 0
    else (if es[0].Execute? && (onlyErrors ==> es[0].err) then 1 else 0) + Finished(es[1..], onlyErrors)
  }

  lemma {:induction false} ErrorsConcat(a: seq<Outcome>, b: seq<Outcome>)
    ensures Errors(a + b) == Errors(a) + Errors(b)
    decreases |b|
  {
    if b == [] {
      assert a + b == a;
    } else {
      var n := |b| - 1;
      ErrorsConcat(a, b[..n]);
      assert (a + b)[..|a| + n] == a + b[..n];
    }
  }

  lemma {:induction false} OutcomesCount(s: State, es: seq<Event>)
    requires Feasible(s, es)
    ensures |Outcomes(s, es)| == Finished(es, false) && Errors(Outcomes(s, es)) == Finished(es, true)
    decreases |es|
  {
    hide Apply, Enabled;
    if es != [] {
      var first, rest := OutcomeOf(s, es[0]), Outcomes(Apply(s, es[0]), es[1..]);
      OutcomesCount(Apply(s, es[0]), es[1..]);
      ErrorsConcat(first, rest);
      assert first != [] ==> first[..0] == [];
    }
  }

  /** A map with exactly these outcomes has as many entries, and as many errors. */
  lemma {:induction false} ResultsCount(results: map<Id, bool>, past: seq<Outcome>)
    requires forall i, j | 0 <= i < j < |past| :: past[i].t != past[j].t
    requires forall o :: o in past <==> o.t in results && results[o.t] == o.err
    ensures |results| == |past| && |FailedIds(results)| == Errors(past)
    decreases |past|
  {
    if past == [] {
      assert forall t :: t in results ==> Outcome(t, results[t]) in past;
      assert results.Keys == {} && FailedIds(results) == {};
    } else {
      var n := |past| - 1;
      var last, front := past[n], past[..n];
      assert last in past && past == front + [last];
      var rest := results - {last.t};
      assert results == rest[last.t := last.err];
      forall o ensures o in front <==> o.t in rest && rest[o.t] == o.err {
        assert o in past <==> o in front || o == last;
        if o in front {
          var i :| 0 <= i < n && past[i] == o;
        }
      }
      ResultsCount(rest, front);
      ResultsUpdate(rest, last.t, last.err);
    }
  }

  /** When the pool is done, `completed` is the number of runs and `failed` the number of those that ended in an error. */
  lemma CountersCountRuns(workers: nat, cap: nat, es: seq<Event>)
    requires workers > 0 && Feasible(Init(workers, cap), es) && Exec(Init(workers, cap), es).Done()
    ensures var s := Exec(Init(workers, cap), es);
            && s.completed == Finished(es, false) && s.failed == Finished(es, true)
            && (forall o :: o in Outcomes(Init(workers, cap), es) <==> o.t in s.results && s.results[o.t] == o.err)
  {
    hide Feasible, Exec, Outcomes, Inv, FailedIds, Errors, Finished;
    var init := Init(workers, cap);
    InitInv(workers, cap);
    InitIsTruthful(workers, cap);
    RunIsTruthful(init, es, []);
    SizesFixed(init, es);
    var (s, past) := (Exec(init, es), Outcomes(init, es));
    assert [] + past == past;
    DoneMeansDrained(s);
    DoneKnows(s);
    ResultsCount(s.results, past);
    OutcomesCount(init, es);
  }

  lemma DoneKnows(s: State)
    requires Inv(s) && s.Done()
    ensures forall o :: Known(s, o) <==> o.t in s.results && s.results[o.t] == o.err
  {
    hide Counters, Placed, ExecutedOnce;
  }

  // ----- First in, first out -----

  /** The task that goes onto the channel in this step. */
  function Offered(e: Event): seq<Id> {
    if e.Send? || e.Handoff? then [e.id] else []
  }

  /** The task a worker takes off the channel in this step. */
  function Taken(s: State, e: Event): seq<Id>
    requires Enabled(s, e)
  {
    if (e.Receive? || e.Handoff?) && Apply(s, e).workers[e.w].Got? then [Apply(s, e).workers[e.w].t] else []
  }

  function OfferedIn(es: seq<Event>): seq<Id> {
    if es == [] then [] else Offered(es[0]) + OfferedIn(es[1..])
  }

  ghost function TakenIn(s: State, es: seq<Event>): seq<Id>
    requires Feasible(s, es)
    decreases |es|
  {
    if es == [] then [] else Taken(s, es[0]) + TakenIn(Apply(s, es[0]), es[1..])
  }

  lemma StepIsFifo(s: State, e: Event)
    requires Enabled(s, e) && !Apply(s, e).panicked
    ensures s.queue + Offered(e) == Taken(s, e) + Apply(s, e).queue
  {
  }

  lemma {:induction false} RunIsFifo(s: State, es: seq<Event>)
    requires Inv(s) && Feasible(s, es)
    ensures s.queue + OfferedIn(es) == TakenIn(s, es) + Exec(s, es).queue
    decreases |es|
  {
    hide Inv, Apply, Enabled, Offered, Taken;
    if es != [] {
      var s', rest := Apply(s, es[0]), es[1..];
      StepKeepsInv(s, es[0]);
      InvMeansNoPanic(s');
      StepIsFifo(s, es[0]);
      RunIsFifo(s', rest);
      assert s.queue + (Offered(es[0]) + OfferedIn(rest)) == (s.queue + Offered(es[0])) + OfferedIn(rest);
      assert Taken(s, es[0]) + (s'.queue + OfferedIn(rest)) == (Taken(s, es[0]) + s'.queue) + OfferedIn(rest);
    }
  }

  /** Workers take tasks in the order in which they were sent; what is left is still in the queue. */
  lemma PoolIsFifo(workers: nat, cap: nat, es: seq<Event>)
    requires Feasible(Init(workers, cap), es)
    ensures OfferedIn(es) == TakenIn(Init(workers, cap), es) + Exec(Init(workers, cap), es).queue
  {
    hide Feasible, Exec, Inv, OfferedIn, TakenIn;
    InitInv(workers, cap);
    RunIsFifo(Init(workers, cap), es);
    assert [] + OfferedIn(es) == OfferedIn(es);
  }
}
