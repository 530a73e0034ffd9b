/** What handlers did over a run, and what deliveries and handles say about it (rabbitmq/rabbitmq.go). */
module RabbitHistory {
  import opened Text
  import opened RabbitConsumer
  import Pool = WorkerPool
  import PH = PoolHistory

  /** A handler ran on a delivery and ended this way. */
  datatype Ran = Ran(d: Delivery, o: HandlerOutcome)

  /** The event in which a handler ends, on the loop's own goroutine or on a pool worker. */
  function RanIn(s: State, e: Event): seq<Ran>
    requires Enabled(s, e)
  {
    match e
    case HandleDirect(c, o) => [Ran(s.consumers[c].loop.d, o)]
    case RunTask(c, w, o) => [Ran(s.consumers[c].pool.value.workers[w].t, o)]
    case _ => []
  }

  ghost function History(s: State, es: seq<Event>): seq<Ran>
    requires Feasible(s, es)
    decreases |es|
  {
    if es == [] then [] else RanIn(s, es[0]) + History(Apply(s, es[0]), es[1..])
  }

  /** The record of handler outcomes is what happened, and no handler ran twice on one delivery. */
  ghost predicate Recalls(s: State, past: seq<Ran>) {
    && (forall r :: r in past <==> r.d in s.ran && s.ran[r.d] == r.o)
    && (forall i, j | 0 <= i < j < |past| :: past[i].d != past[j].d)
  }

  lemma RanFrame(s: State, e: Event)
    requires Enabled(s, e)
    ensures var past := RanIn(s, e);
            && (past == [] ==> Apply(s, e).ran == s.ran)
            && (past != [] ==> |past| == 1 && Hit(s, e) == Some(past[0].d) && Apply(s, e).ran == s.ran[past[0].d := past[0].o])
  {
    hide Pool.Apply, Pool.Enabled, Pool.Init, ResolutionOf;
  }

  /** A delivery that is hit now has not been resolved before, so no handler has run on it. */
  lemma HitIsNew(s: State, e: Event)
    requires Inv(s) && Enabled(s, e) && Hit(s, e).Some?
    ensures Hit(s, e).value !in s.ran
  {
    hide Channel, Owned, LoopsGood, Settled, Apply, Enabled, Hit;
    var d, s' := Hit(s, e).value, Apply(s, e);
    StepKeepsInv(s, e);
    ResolvedAtMostOnce(s', d);
    RecordsFrame(s, e);
    assert s'.resolved[d] == s.resolved[d] + 1;
  }

  lemma StepRecalls(s: State, e: Event, past: seq<Ran>)
    requires Inv(s) && Enabled(s, e) && Recalls(s, past)
    ensures Recalls(Apply(s, e), past + RanIn(s, e))
  {
    hide Inv, Apply, Enabled, RanIn, Hit;
    RanFrame(s, e);
    var added := RanIn(s, e);
    if added == [] {
      assert past + added == past;
    } else {
      HitIsNew(s, e);
      var d := added[0].d;
      assert added == [added[0]];
      forall i | 0 <= i < |past| ensures past[i].d != d {
        assert past[i] in past;
      }
    }
  }

  lemma {:induction false} RunRecalls(s: State, es: seq<Event>, past: seq<Ran>)
    requires Inv(s) && Feasible(s, es) && Recalls(s, past)
    ensures Recalls(Exec(s, es), past + History(s, es))
    decreases |es|
  {
    hide Inv, Apply, Enabled, Recalls, RanIn;
    if es == [] {
      assert past + [] == past;
    } else {
      StepKeepsInv(s, es[0]);
      StepRecalls(s, es[0], past);
      RunRecalls(Apply(s, es[0]), es[1..], past + RanIn(s, es[0]));
      assert past + RanIn(s, es[0]) + History(Apply(s, es[0]), es[1..]) == past + History(s, es);
    }
  }

  /**
   * In every run, no handler runs twice on one delivery, and how a resolved delivery is resolved follows
   * from what its handler did in the run: acked after a success, dropped after a failure or a panic,
   * requeued if the context ended or no handler ran at all.
   */
  lemma ResolvedAsHandled(es: seq<Event>, d: Delivery)
    requires Feasible(INIT, es)
    ensures var (s, past) := (Exec(INIT, es), History(INIT, es));
            && (forall i, j | 0 <= i < j < |past| :: past[i].d != past[j].d)
            && (s.resolved[d] > 0 <==> d in s.how)
            && (d in s.how ==>
                  && (s.how[d] == Ack <==> Ran(d, Success) in past)
                  && (s.how[d] == Nack(false) <==> Ran(d, Failure) in past || Ran(d, Panicked) in past)
                  && (s.how[d] == Nack(true) <==> Ran(d, ContextEnded) in past || forall r | r in past :: r.d != d))
  {
    hide Feasible, Exec, History, Channel, LoopsGood, Settled, Owned;
    InitInv();
    RunKeepsInv(INIT, es);
    InitRecalls();
    RunRecalls(INIT, es, []);
    assert [] + History(INIT, es) == History(INIT, es);
    var (s, past) := (Exec(INIT, es), History(INIT, es));
    if d in s.ran {
      assert Ran(d, s.ran[d]) in past;
    }
  }

  lemma InitRecalls()
    ensures Recalls(INIT, [])
  {
  }

  // ----- Handles of pooled deliveries -----

  /** What a pool knows of a task's run is what its handler did. */
  ghost predicate Agrees(p: Pool.State, ran: map<Delivery, HandlerOutcome>) {
    forall o | PH.Known(p, o) :: o.t in ran && (o.err <==> ran[o.t] != Success)
  }

  ghost predicate PoolsAgree(s: State) {
    forall c | c in s.consumers && s.consumers[c].pool.Some? :: Agrees(s.consumers[c].pool.value, s.ran)
  }

  /** A new outcome for a delivery nobody knew about disturbs no pool. */
  lemma AgreesGrows(p: Pool.State, ran: map<Delivery, HandlerOutcome>, d: Delivery, o: HandlerOutcome)
    requires Agrees(p, ran) && d !in ran
    ensures Agrees(p, ran[d := o])
  {
    hide PH.Known;
  }

  lemma PoolStepAgrees(p: Pool.State, e: Pool.Event, ran: map<Delivery, HandlerOutcome>)
    requires Pool.Inv(p) && Pool.Enabled(p, e) && !e.Execute? && Agrees(p, ran)
    ensures Agrees(Pool.Apply(p, e), ran)
  {
    hide PH.Known, Pool.Inv, Pool.Apply, Pool.Enabled;
    forall o | PH.Known(Pool.Apply(p, e), o) ensures o.t in ran && (o.err <==> ran[o.t] != Success) {
      PH.StepKnown(p, e, o);
    }
  }

  lemma RunTaskAgrees(p: Pool.State, w: nat, o: HandlerOutcome, ran: map<Delivery, HandlerOutcome>)
    requires Pool.Inv(p) && Pool.Enabled(p, Pool.Execute(w, o != Success)) && Agrees(p, ran) && p.workers[w].t !in ran
    ensures Agrees(Pool.Apply(p, Pool.Execute(w, o != Success)), ran[p.workers[w].t := o])
  {
    hide PH.Known, Pool.Inv, Pool.Apply;
    var e := Pool.Execute(w, o != Success);
    forall x | PH.Known(Pool.Apply(p, e), x)
      ensures x.t in ran[p.workers[w].t := o] && (x.err <==> ran[p.workers[w].t := o][x.t] != Success)
    {
      PH.StepKnown(p, e, x);
    }
  }

  lemma InitAgrees(workers: nat, cap: nat, ran: map<Delivery, HandlerOutcome>)
    ensures Agrees(Pool.Init(workers, cap), ran)
  {
  }

  /** The pool of consumer `c` after the event, if it has one. */
  lemma OwnPoolAgrees(s: State, e: Event)
    requires Inv(s) && Enabled(s, e) && PoolsAgree(s) && (LoopEvent(e) || e.Depart?)
    ensures var s' := Apply(s, e);
            e.c in s'.consumers && (s'.consumers[e.c].pool.Some? ==> Agrees(s'.consumers[e.c].pool.value, s'.ran))
  {
    hide Inv, Agrees, Pool.Apply, Pool.Enabled, Pool.Init, Pool.Inv, ResolutionOf;
    var x := s.consumers[e.c];
    PoolIsGood(s, e.c);
    if e.PoolStep? {
      PoolStepAgrees(x.pool.value, e.e, s.ran);
    } else if e.RunTask? {
      HitIsNew(s, e);
      RunTaskAgrees(x.pool.value, e.w, e.o, s.ran);
    } else if e.ClosePool? {
      if x.pool.Some? {
        CloseIsEnabled(x.pool.value);
        PoolStepAgrees(x.pool.value, Pool.CloseCall, s.ran);
      }
    } else if e.HandleDirect? && x.pool.Some? {
      HitIsNew(s, e);
      AgreesGrows(x.pool.value, s.ran, x.loop.d, e.o);
    }
  }

  lemma CloseIsEnabled(p: Pool.State)
    ensures Pool.Enabled(p, Pool.CloseCall)
  {
  }

  lemma PoolIsGood(s: State, c: ConsumerId)
    requires Inv(s) && c in s.consumers
    ensures s.consumers[c].pool.Some? ==> Pool.Inv(s.consumers[c].pool.value)
  {
    hide Pool.Inv, Channel, Settled, Owned, Honest;
    assert LoopGood(s.consumers[c]);
  }

  lemma OtherPoolAgrees(s: State, e: Event, c: ConsumerId)
    requires Inv(s) && Enabled(s, e) && PoolsAgree(s) && c in s.consumers && s.consumers[c].pool.Some?
    ensures Agrees(s.consumers[c].pool.value, Apply(s, e).ran)
  {
    hide Inv, Agrees, Apply, Enabled, RanIn, Hit;
    RanFrame(s, e);
    if RanIn(s, e) != [] {
      HitIsNew(s, e);
      AgreesGrows(s.consumers[c].pool.value, s.ran, RanIn(s, e)[0].d, RanIn(s, e)[0].o);
    }
  }

  lemma StepKeepsAgreement(s: State, e: Event)
    requires Inv(s) && Enabled(s, e) && PoolsAgree(s)
    ensures PoolsAgree(Apply(s, e))
  {
    hide Inv, Agrees, Apply, Enabled, Pool.Init;
    var s' := Apply(s, e);
    if LoopEvent(e) || e.Depart? {
      OwnPoolAgrees(s, e);
    }
    forall c | c in s'.consumers && s'.consumers[c].pool.Some? ensures Agrees(s'.consumers[c].pool.value, s'.ran) {
      if c in s.consumers && !EventOf(e, c) {
        OthersLeaveItAlone(s, e, c);
        OtherPoolAgrees(s, e, c);
      } else if c !in s.consumers {
        NewPoolAgrees(s, e, c);
      }
    }
  }

  lemma NewPoolAgrees(s: State, e: Event, c: ConsumerId)
    requires Enabled(s, e) && c !in s.consumers && c in Apply(s, e).consumers && Apply(s, e).consumers[c].pool.Some?
    ensures Agrees(Apply(s, e).consumers[c].pool.value, Apply(s, e).ran)
  {
    hide Agrees, Pool.Apply, Pool.Enabled, Pool.Init;
    if e.Register? && e.size.Some? {
      InitAgrees(e.size.value.workers, e.size.value.cap, s.ran);
    }
  }

  lemma {:induction false} RunKeepsAgreement(s: State, es: seq<Event>)
    requires Inv(s) && Feasible(s, es) && PoolsAgree(s)
    ensures PoolsAgree(Exec(s, es))
    decreases |es|
  {
    hide Inv, Apply, Enabled, PoolsAgree;
    if es != [] {
      StepKeepsInv(s, es[0]);
      StepKeepsAgreement(s, es[0]);
      RunKeepsAgreement(Apply(s, es[0]), es[1..]);
    }
  }

  /** In every run, the handle of a pooled delivery shows an error exactly when its handler did not succeed. */
  lemma HandlesShowHandlers(es: seq<Event>, c: ConsumerId, d: Delivery)
    requires Feasible(INIT, es)
    requires var s := Exec(INIT, es); Pooled(s, c) && d in s.consumers[c].pool.value.results
    ensures var s := Exec(INIT, es);
            d in s.ran && (s.consumers[c].pool.value.results[d] <==> s.ran[d] != Success)
  {
    hide Feasible, Exec, Inv;
    InitInv();
    RunKeepsAgreement(INIT, es);
    var p := Exec(INIT, es).consumers[c].pool.value;
    assert PH.Known(p, PH.Outcome(d, p.results[d]));
  }
}
