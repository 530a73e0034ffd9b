/**
 * The RabbitMQ consume loops (rabbitmq/rabbitmq.go) on top of the worker pool: registration,
 * exactly-once resolution of deliveries, shutdown. Each pooled loop owns a whole pool state.
 */
module RabbitConsumer {
  import opened Text
  import Pool = WorkerPool

  type ConsumerId = nat
  /** A delivery taken from the broker; pooled deliveries use it as their task. */
  type Delivery = Pool.Id

  datatype HandlerOutcome = Success | Failure | ContextEnded | Panicked

  datatype Resolution = Ack | Nack(requeue: bool)

  /** `resolveDelivery`, and the deferred nack after a panic. */
  function ResolutionOf(o: HandlerOutcome): Resolution {
    match o
    case Success => Ack
    case Failure => Nack(false)
    case ContextEnded => Nack(true)
    case Panicked => Nack(false)
  }

  /** Where a consume loop is. */
  datatype Loop =
    | Selecting                  // in the select statement
    | Handling(d: Delivery)      // unpooled: the handler runs on the loop's own goroutine
    | Submitting(d: Delivery)    // pooled: inside processor.Submit
    | Leaving                    // the deferred cleanup has begun
    | ClosingPool                // inside processor.Close(context.Background())
    | Departing                  // about to decrement `active`
    | Exited

  datatype Consumer = Consumer(gen: nat, loop: Loop, pool: Option<Pool.State>, taken: set<Delivery>)

  /** The first `Close` call. */
  datatype CloseCall = NotCalled | WaitingOn(gen: nat) | ReturnedNil | TimedOut

  /** `gen` numbers the `stopped` channels; `closedGens` are the ones that have been closed. */
  datatype State = State(
    closed: bool, active: int, gen: nat, closedGens: set<nat>, closing: CloseCall,
    consumers: map<ConsumerId, Consumer>,
    resolved: multiset<Delivery>, how: map<Delivery, Resolution>, ran: map<Delivery, HandlerOutcome>, panicked: bool)

  /** `NewEventBus` starts with an already closed channel. */
  const INIT := State(false, 0, 0, {0}, NotCalled, map[], multiset{}, map[], map[], false)

  datatype PoolSize = PoolSize(workers: nat, cap: nat)

  datatype Event =
    | Register(c: ConsumerId, size: Option<PoolSize>)      // registerConsumer's critical section
    | Take(c: ConsumerId, d: Delivery)                     // <-msgs
    | HandleDirect(c: ConsumerId, o: HandlerOutcome)
    | SubmitRefused(c: ConsumerId)                         // Submit found its ctx done
    | PoolStep(c: ConsumerId, e: Pool.Event)
    | RunTask(c: ConsumerId, w: nat, o: HandlerOutcome)    // a worker runs the submitted closure
    | AfterSubmit(c: ConsumerId)
    | Quit(c: ConsumerId)                                  // ctx done, or msgs closed
    | ClosePool(c: ConsumerId)
    | PoolClosed(c: ConsumerId)
    | Depart(c: ConsumerId)
    | CloseBegin | CloseReturns | CloseTimesOut

  predicate At(s: State, c: ConsumerId, l: Loop) {
    c in s.consumers && s.consumers[c].loop == l
  }

  predicate Pooled(s: State, c: ConsumerId) {
    c in s.consumers && s.consumers[c].pool.Some?
  }

  predicate Fresh(s: State, d: Delivery) {
    forall c | c in s.consumers :: d !in s.consumers[c].taken
  }

  predicate Enabled(s: State, e: Event) {
    match e
    case Register(c, size) => c !in s.consumers && (size.Some? ==> size.value.workers > 0)
    case Take(c, d) => At(s, c, Selecting) && Fresh(s, d)
    case HandleDirect(c, _) => c in s.consumers && s.consumers[c].loop.Handling?
    case SubmitRefused(c) =>
      c in s.consumers && s.consumers[c].loop.Submitting? && Pooled(s, c) && s.consumers[c].loop.d !in s.consumers[c].pool.value.subs
    case PoolStep(c, e) =>
      && Pooled(s, c) && Pool.Enabled(s.consumers[c].pool.value, e) && !e.CloseCall? && !e.Execute?
      && (e.SubmitBegin? ==> At(s, c, Submitting(e.id)))
    case RunTask(c, w, o) => Pooled(s, c) && Pool.Enabled(s.consumers[c].pool.value, Pool.Execute(w, o != Success))
    case AfterSubmit(c) =>
      && c in s.consumers && s.consumers[c].loop.Submitting? && Pooled(s, c)
      && s.consumers[c].loop.d in s.consumers[c].pool.value.subs && s.consumers[c].pool.value.subs[s.consumers[c].loop.d].Returned?
    case Quit(c) => At(s, c, Selecting)
    case ClosePool(c) => At(s, c, Leaving)
    case PoolClosed(c) => At(s, c, ClosingPool) && Pooled(s, c) && s.consumers[c].pool.value.Done()
    case Depart(c) => At(s, c, Departing)
    case CloseBegin => true
    case CloseReturns => s.closing.WaitingOn? && s.closing.gen in s.closedGens
    case CloseTimesOut => s.closing.WaitingOn?
  }

  function Resolve(s: State, d: Delivery, r: Resolution): State {
    s.(resolved := s.resolved + multiset{d}, how := s.how[d := r])
  }

  /** A handler ran on `d` and ended with `o`. */
  function Handled(s: State, d: Delivery, o: HandlerOutcome): State {
    Resolve(s, d, ResolutionOf(o)).(ran := s.ran[d := o])
  }

  function Update(s: State, c: ConsumerId, x: Consumer): State {
    s.(consumers := s.consumers[c := x])
  }

  /** The step. Closing a closed channel is a panic. */
  function Apply(s: State, e: Event): State
    requires Enabled(s, e)
  {
    match e
    case Register(c, size) =>
      if s.closed then s
      else
        var gen := if s.active == 0 then s.gen + 1 else s.gen;
        var pool := if size.Some? then Some(Pool.Init(size.value.workers, size.value.cap)) else None;
        Update(s.(gen := gen, active := s.active + 1), c, Consumer(gen, Selecting, pool, {}))
    case Take(c, d) =>
      var x := s.consumers[c];
      Update(s, c, x.(loop := if x.pool.Some? then Submitting(d) else Handling(d), taken := x.taken + {d}))
    case HandleDirect(c, o) =>
      var x := s.consumers[c];
      Update(Handled(s, x.loop.d, o), c, x.(loop := Selecting))
    case SubmitRefused(c) =>
      var x := s.consumers[c];
      Update(Resolve(s, x.loop.d, Nack(true)), c, x.(loop := Selecting))
    case PoolStep(c, e) =>
      var x := s.consumers[c];
      Update(s, c, x.(pool := Some(Pool.Apply(x.pool.value, e))))
    case RunTask(c, w, o) =>
      var x := s.consumers[c];
      Update(Handled(s, x.pool.value.workers[w].t, o), c,
        x.(pool := Some(Pool.Apply(x.pool.value, Pool.Execute(w, o != Success)))))
    case AfterSubmit(c) =>
      var x := s.consumers[c];
      var ok := x.pool.value.subs[x.loop.d].ok;
      Update(if ok then s else Resolve(s, x.loop.d, Nack(true)), c, x.(loop := Selecting))
    case Quit(c) => Update(s, c, s.consumers[c].(loop := Leaving))
    case ClosePool(c) =>
      var x := s.consumers[c];
      if x.pool.None? then Update(s, c, x.(loop := Departing))
      else Update(s, c, x.(loop := ClosingPool, pool := Some(Pool.Apply(x.pool.value, Pool.CloseCall))))
    case PoolClosed(c) => Update(s, c, s.consumers[c].(loop := Departing))
    case Depart(c) =>
      var x := s.consumers[c];
      var left := Update(s.(active := s.active - 1), c, x.(loop := Exited));
      if left.active != 0 then left
      else if x.gen in s.closedGens then left.(panicked := true)
      else left.(closedGens := s.closedGens + {x.gen})
    case CloseBegin => if s.closed then s else s.(closed := true, closing := WaitingOn(s.gen))
    case CloseReturns => s.(closing := ReturnedNil)
    case CloseTimesOut => s.(closing := TimedOut)
  }

  // ----- Invariant -----

  function ActiveIds(cs: map<ConsumerId, Consumer>): set<ConsumerId> {
    set c | c in cs.Keys && cs[c].loop != Exited
  }

  /** The `stopped` channel protocol across generations. */
  ghost predicate Channel(s: State) {
    && !s.panicked
    && s.active == |ActiveIds(s.consumers)|
    && (s.active == 0 <==> s.gen in s.closedGens)
    && (forall c | c in ActiveIds(s.consumers) :: s.consumers[c].gen == s.gen)
    && (forall g | g in s.closedGens :: g <= s.gen)
    && (s.closed <==> s.closing != NotCalled)
    && (s.closing.WaitingOn? ==> s.closing.gen == s.gen)
    && (s.closing == ReturnedNil ==> s.active == 0)
  }

  /** Deliveries belong to one loop each. */
  ghost predicate Owned(s: State) {
    forall c, c' | c in s.consumers && c' in s.consumers && c != c' :: s.consumers[c].taken !! s.consumers[c'].taken
  }

  /** How often delivery `d` of loop `x` must have been resolved. */
  function Due(x: Consumer, d: Delivery): int {
    match x.pool
    case None => if x.loop == Handling(d) then 0 else 1
    case Some(p) => p.executed[d] + if x.loop != Submitting(d) && !Pool.WasSent(p.subs, d) then 1 else 0
  }

  ghost predicate LoopGood(x: Consumer) {
    match x.pool
    case None =>
      && !x.loop.Submitting? && !x.loop.ClosingPool?
      && (x.loop.Handling? ==> x.loop.d in x.taken)
    case Some(p) =>
      && !x.loop.Handling?
      && (x.loop.Submitting? ==> x.loop.d in x.taken)
      && Pool.Inv(p) && |p.workers| > 0
      && p.subs.Keys <= x.taken
      && (forall d | d in p.subs && x.loop != Submitting(d) :: p.subs[d].Returned?)
      && (p.closed <==> x.loop.ClosingPool? || x.loop.Departing? || x.loop.Exited?)
      && (x.loop.Departing? || x.loop.Exited? ==> p.Done())
  }

  ghost predicate LoopsGood(s: State) {
    forall c | c in s.consumers :: LoopGood(s.consumers[c])
  }

  /** Every delivery has been resolved as often as it is due; one nobody took, never. */
  ghost predicate Settled(s: State) {
    && (forall c, d | c in s.consumers && d in s.consumers[c].taken :: s.resolved[d] == Due(s.consumers[c], d))
    && (forall d | Fresh(s, d) :: s.resolved[d] == 0)
  }

  /** The resolution fits what the handler did; a delivery no handler saw is requeued. */
  ghost predicate Honest(s: State) {
    forall d ::
      && (d in s.how <==> s.resolved[d] > 0)
      && (d in s.ran ==> d in s.how)
      && (d in s.how ==> s.how[d] == if d in s.ran then ResolutionOf(s.ran[d]) else Nack(true))
  }

  ghost predicate Inv(s: State) {
    Channel(s) && Owned(s) && LoopsGood(s) && Settled(s) && Honest(s)
  }

  // ----- The channel protocol -----

  lemma ActiveMembers(cs: map<ConsumerId, Consumer>, c: ConsumerId, x: Consumer)
    ensures ActiveIds(cs[c := x]) == if x.loop != Exited then ActiveIds(cs) + {c} else ActiveIds(cs) - {c}
  {
  }

  lemma ActiveUpdate(cs: map<ConsumerId, Consumer>, c: ConsumerId, x: Consumer)
    ensures ActiveIds(cs[c := x]) == if x.loop != Exited then ActiveIds(cs) + {c} else ActiveIds(cs) - {c}
    ensures |ActiveIds(cs[c := x])| == |ActiveIds(cs)| + Pool.Bit(x.loop != Exited) - Pool.Bit(c in cs && cs[c].loop != Exited)
  {
    hide ActiveIds;
    ActiveMembers(cs, c, x);
    IsActive(cs, c);
    Pool.CardUpdate(ActiveIds(cs), ActiveIds(cs[c := x]), c);
  }

  lemma IsActive(cs: map<ConsumerId, Consumer>, c: ConsumerId)
    ensures c in ActiveIds(cs) <==> c in cs && cs[c].loop != Exited
  {
  }

  /** Events that only move a loop that stays active. */
  predicate LoopEvent(e: Event) {
    e.Take? || e.HandleDirect? || e.SubmitRefused? || e.PoolStep? || e.RunTask? || e.AfterSubmit? || e.Quit? || e.ClosePool? || e.PoolClosed?
  }

  lemma LoopEventFrame(s: State, e: Event)
    requires Enabled(s, e) && LoopEvent(e)
    ensures var s' := Apply(s, e);
            && e.c in s.consumers && e.c in s'.consumers && s'.consumers == s.consumers[e.c := s'.consumers[e.c]]
            && s'.consumers[e.c].gen == s.consumers[e.c].gen
            && (s'.consumers[e.c].loop == Exited <==> s.consumers[e.c].loop == Exited)
            && s' == s.(consumers := s'.consumers, resolved := s'.resolved, how := s'.how, ran := s'.ran)
  {
    hide Pool.Apply, Pool.Enabled;
  }

  lemma LoopEventKeepsChannel(s: State, e: Event)
    requires Channel(s) && Enabled(s, e) && LoopEvent(e)
    ensures Channel(Apply(s, e))
  {
    hide Apply, Enabled;
    LoopEventFrame(s, e);
    var x := Apply(s, e).consumers[e.c];
    ActiveUpdate(s.consumers, e.c, x);
    assert e.c in ActiveIds(s.consumers) <==> s.consumers[e.c].loop != Exited;
    assert ActiveIds(Apply(s, e).consumers) == ActiveIds(s.consumers);
  }

  /** No `stopped` channel is ever closed twice, and it is closed exactly when no loop is active. */
  lemma ChannelKept(s: State, e: Event)
    requires Channel(s) && Enabled(s, e)
    ensures Channel(Apply(s, e))
  {
    if LoopEvent(e) {
      LoopEventKeepsChannel(s, e);
    } else if e.Register? {
      RegisterKeepsChannel(s, e.c, e.size);
    } else if e.Depart? {
      DepartKeepsChannel(s, e.c);
    }
  }

  lemma RegisterKeepsChannel(s: State, c: ConsumerId, size: Option<PoolSize>)
    requires Channel(s) && Enabled(s, Register(c, size))
    ensures Channel(Apply(s, Register(c, size)))
  {
    hide Pool.Init, ActiveIds;
    if !s.closed {
      var s' := Apply(s, Register(c, size));
      ActiveUpdate(s.consumers, c, s'.consumers[c]);
      IsActive(s.consumers, c);
      assert s.active == 0 ==> ActiveIds(s.consumers) == {};
      forall x | x in ActiveIds(s'.consumers) ensures x in s'.consumers && s'.consumers[x].gen == s'.gen {
        assert x == c || x in ActiveIds(s.consumers);
        IsActive(s.consumers, x);
      }
    }
  }

  lemma DepartKeepsChannel(s: State, c: ConsumerId)
    requires Channel(s) && Enabled(s, Depart(c))
    ensures Channel(Apply(s, Depart(c)))
  {
    assert c in ActiveIds(s.consumers);
    ActiveUpdate(s.consumers, c, s.consumers[c].(loop := Exited));
  }

  // ----- Ownership -----

  lemma LoopTaken(s: State, e: Event)
    requires Enabled(s, e) && LoopEvent(e)
    ensures e.c in s.consumers && e.c in Apply(s, e).consumers
    ensures Apply(s, e).consumers[e.c].taken == s.consumers[e.c].taken + if e.Take? then {e.d} else {}
  {
    hide Pool.Apply, Pool.Enabled, Pool.Init;
  }

  lemma TakenFrame(s: State, e: Event)
    requires Enabled(s, e)
    ensures var s' := Apply(s, e);
            && s.consumers.Keys <= s'.consumers.Keys
            && (forall c | c in s.consumers ::
                  s'.consumers[c].taken == if e.Take? && c == e.c then s.consumers[c].taken + {e.d} else s.consumers[c].taken)
            && (forall c | c in s'.consumers && c !in s.consumers :: s'.consumers[c].taken == {})
  {
    if LoopEvent(e) {
      LoopTakenFrame(s, e);
    } else {
      OtherTakenFrame(s, e);
    }
  }

  lemma LoopTakenFrame(s: State, e: Event)
    requires Enabled(s, e) && LoopEvent(e)
    ensures var s' := Apply(s, e);
            && s.consumers.Keys == s'.consumers.Keys
            && (forall c | c in s.consumers ::
                  s'.consumers[c].taken == if e.Take? && c == e.c then s.consumers[c].taken + {e.d} else s.consumers[c].taken)
  {
    hide Apply, Enabled;
    LoopEventFrame(s, e);
    LoopTaken(s, e);
  }

  lemma OtherTakenFrame(s: State, e: Event)
    requires Enabled(s, e) && !LoopEvent(e)
    ensures var s' := Apply(s, e);
            && s.consumers.Keys <= s'.consumers.Keys
            && (forall c | c in s.consumers :: s'.consumers[c].taken == s.consumers[c].taken)
            && (forall c | c in s'.consumers && c !in s.consumers :: s'.consumers[c].taken == {})
  {
    hide Pool.Apply, Pool.Enabled, Pool.Init;
  }

  lemma OwnedKept(s: State, e: Event)
    requires Owned(s) && Enabled(s, e)
    ensures Owned(Apply(s, e))
  {
    hide Apply;
    TakenFrame(s, e);
    var s' := Apply(s, e);
    forall c, c' | c in s'.consumers && c' in s'.consumers && c != c' ensures s'.consumers[c].taken !! s'.consumers[c'].taken {
      if c in s.consumers && c' in s.consumers {
        assert s.consumers[c].taken !! s.consumers[c'].taken;
      }
    }
  }

  // ----- One loop -----

  /** One event seen from the loop it belongs to: the loop before and after, and the delivery it resolves. */
  function Hit(s: State, e: Event): Option<Delivery>
    requires Enabled(s, e)
  {
    match e
    case HandleDirect(c, _) => Some(s.consumers[c].loop.d)
    case SubmitRefused(c) => Some(s.consumers[c].loop.d)
    case RunTask(c, w, _) => Some(s.consumers[c].pool.value.workers[w].t)
    case AfterSubmit(c) =>
      var x := s.consumers[c];
      if x.pool.value.subs[x.loop.d].ok then None else Some(x.loop.d)
    case _ => None
  }

  /** From `x` to `y` exactly the hit delivery falls due once more. */
  ghost predicate DueMoves(x: Consumer, y: Consumer, hit: Option<Delivery>) {
    && (hit.Some? ==> hit.value in x.taken)
    && (forall d | d in x.taken :: Due(y, d) == Due(x, d) + if hit == Some(d) then 1 else 0)
    && (forall d | d in y.taken && d !in x.taken :: Due(y, d) == 0)
  }

  lemma PoolStepMoves(x: Consumer, e: Pool.Event)
    requires LoopGood(x) && x.pool.Some? && Pool.Enabled(x.pool.value, e) && !e.CloseCall? && !e.Execute?
    requires e.SubmitBegin? ==> x.loop == Submitting(e.id)
    ensures var y := x.(pool := Some(Pool.Apply(x.pool.value, e)));
            LoopGood(y) && DueMoves(x, y, None)
  {
    hide Pool.Inv;
    var p, q := x.pool.value, Pool.Apply(x.pool.value, e);
    Pool.StepKeepsInv(p, e);
    PoolFrame(p, e);
    if e.SubmitBegin? {
      assert e.id in x.taken;
    }
    forall d | d in x.taken ensures Due(x.(pool := Some(q)), d) == Due(x, d) {
      assert x.loop != Submitting(d) ==> (Pool.WasSent(q.subs, d) <==> Pool.WasSent(p.subs, d));
    }
  }

  lemma PoolSubsFrame(p: Pool.State, e: Pool.Event)
    requires Pool.Enabled(p, e)
    ensures var q := Pool.Apply(p, e);
            && (forall d | d in p.subs && p.subs[d].Returned? :: d in q.subs && q.subs[d] == p.subs[d])
            && (if e.SubmitBegin? then q.subs.Keys == p.subs.Keys + {e.id} else q.subs.Keys == p.subs.Keys)
  {
    if !Pool.SubmitterEvent(e) {
      PoolSubsKept(p, e);
    }
  }

  lemma PoolSubsKept(p: Pool.State, e: Pool.Event)
    requires Pool.Enabled(p, e) && !Pool.SubmitterEvent(e)
    ensures Pool.Apply(p, e).subs == p.subs
  {
  }

  /** What a pool event other than a run or a close leaves alone. */
  lemma PoolFrame(p: Pool.State, e: Pool.Event)
    requires Pool.Inv(p) && Pool.Enabled(p, e) && !e.CloseCall?
    ensures var q := Pool.Apply(p, e);
            && |q.workers| == |p.workers| && q.closed == p.closed && (p.Done() ==> q.Done())
            && (!e.Execute? ==> q.executed == p.executed)
            && (forall d | d in p.subs && p.subs[d].Returned? :: d in q.subs && q.subs[d] == p.subs[d])
            && (if e.SubmitBegin? then q.subs.Keys == p.subs.Keys + {e.id} else q.subs.Keys == p.subs.Keys)
            && (forall d | d !in p.subs && d in q.subs :: e == Pool.SubmitBegin(d))
  {
    hide Pool.Inv, Pool.Apply, Pool.Enabled;
    PoolSubsFrame(p, e);
    PoolRestFrame(p, e);
  }

  lemma PoolRestFrame(p: Pool.State, e: Pool.Event)
    requires Pool.Enabled(p, e) && !e.CloseCall?
    ensures var q := Pool.Apply(p, e);
            && |q.workers| == |p.workers| && q.closed == p.closed && (p.Done() ==> q.Done())
            && (!e.Execute? ==> q.executed == p.executed)
  {
  }

  lemma RunTaskMoves(x: Consumer, w: nat, err: bool)
    requires LoopGood(x) && x.pool.Some? && Pool.Enabled(x.pool.value, Pool.Execute(w, err))
    ensures var y := x.(pool := Some(Pool.Apply(x.pool.value, Pool.Execute(w, err))));
            LoopGood(y) && DueMoves(x, y, Some(x.pool.value.workers[w].t))
  {
    hide Pool.Inv;
    var p := x.pool.value;
    Pool.StepKeepsInv(p, Pool.Execute(w, err));
    PoolFrame(p, Pool.Execute(w, err));
    Pool.RanMeansSent(p, p.workers[w].t);
  }

  lemma TakeMoves(x: Consumer, d: Delivery)
    requires LoopGood(x) && x.loop == Selecting && d !in x.taken
    ensures var y := x.(loop := if x.pool.Some? then Submitting(d) else Handling(d), taken := x.taken + {d});
            LoopGood(y) && DueMoves(x, y, None)
  {
    hide Pool.Inv;
    if x.pool.Some? {
      Pool.RanMeansSent(x.pool.value, d);
    }
  }

  lemma ResolveMoves(x: Consumer)
    requires LoopGood(x) && (x.loop.Handling? || (x.loop.Submitting? && x.pool.Some? && !Pool.WasSent(x.pool.value.subs, x.loop.d)))
    requires x.loop.Submitting? && x.loop.d in x.pool.value.subs ==> x.pool.value.subs[x.loop.d].Returned?
    ensures LoopGood(x.(loop := Selecting)) && DueMoves(x, x.(loop := Selecting), Some(x.loop.d))
  {
    hide Pool.Inv;
  }

  lemma AcceptedMoves(x: Consumer)
    requires LoopGood(x) && x.loop.Submitting? && x.pool.Some?
    requires x.loop.d in x.pool.value.subs && x.pool.value.subs[x.loop.d] == Pool.Returned(true)
    ensures LoopGood(x.(loop := Selecting)) && DueMoves(x, x.(loop := Selecting), None)
  {
    hide Pool.Inv;
  }

  lemma LeaveMoves(x: Consumer)
    requires LoopGood(x)
    ensures x.loop == Selecting ==> LoopGood(x.(loop := Leaving)) && DueMoves(x, x.(loop := Leaving), None)
    ensures x.loop == Leaving && x.pool.None? ==> LoopGood(x.(loop := Departing)) && DueMoves(x, x.(loop := Departing), None)
    ensures x.loop == ClosingPool && x.pool.Some? && x.pool.value.Done() ==>
              LoopGood(x.(loop := Departing)) && DueMoves(x, x.(loop := Departing), None)
    ensures x.loop == Departing ==> LoopGood(x.(loop := Exited)) && DueMoves(x, x.(loop := Exited), None)
  {
    hide Pool.Inv;
  }

  lemma ClosePoolMoves(x: Consumer)
    requires LoopGood(x) && x.loop == Leaving && x.pool.Some?
    ensures var y := x.(loop := ClosingPool, pool := Some(Pool.Apply(x.pool.value, Pool.CloseCall)));
            LoopGood(y) && DueMoves(x, y, None)
  {
    hide Pool.Inv;
    Pool.StepKeepsInv(x.pool.value, Pool.CloseCall);
  }

  /** Every event that belongs to a loop keeps that loop good and moves what is due by what it resolves. */
  lemma LoopMoves(s: State, e: Event)
    requires LoopsGood(s) && Enabled(s, e) && (LoopEvent(e) || e.Depart?)
    ensures e.c in s.consumers && e.c in Apply(s, e).consumers
    ensures LoopGood(Apply(s, e).consumers[e.c]) && DueMoves(s.consumers[e.c], Apply(s, e).consumers[e.c], Hit(s, e))
  {
    hide LoopGood, DueMoves, Pool.Apply, Pool.Enabled;
    var x := s.consumers[e.c];
    assert LoopGood(x);
    match e {
      case Take(c, d) => TakeMoves(x, d);
      case HandleDirect(c, _) => ResolveMoves(x);
      case SubmitRefused(c) => ResolveMoves(x);
      case PoolStep(c, pe) => PoolStepMoves(x, pe);
      case RunTask(c, w, o) => RunTaskMoves(x, w, o != Success);
      case AfterSubmit(c) =>
        if x.pool.value.subs[x.loop.d].ok {
          AcceptedMoves(x);
        } else {
          ResolveMoves(x);
        }
      case Quit(c) => LeaveMoves(x);
      case ClosePool(c) =>
        if x.pool.Some? {
          ClosePoolMoves(x);
        } else {
          LeaveMoves(x);
        }
      case PoolClosed(c) => LeaveMoves(x);
      case Depart(c) => LeaveMoves(x);
    }
  }

  lemma InitGood(gen: nat, size: Option<PoolSize>)
    requires size.Some? ==> size.value.workers > 0
    ensures LoopGood(Consumer(gen, Selecting, if size.Some? then Some(Pool.Init(size.value.workers, size.value.cap)) else None, {}))
  {
    hide Pool.Inv;
    if size.Some? {
      Pool.InitInv(size.value.workers, size.value.cap);
    }
  }

  lemma LoopsGoodKept(s: State, e: Event)
    requires LoopsGood(s) && Enabled(s, e)
    ensures LoopsGood(Apply(s, e))
  {
    hide LoopGood, Pool.Apply, Pool.Enabled, Pool.Init;
    if LoopEvent(e) || e.Depart? {
      LoopMoves(s, e);
      OnlyItsLoop(s, e);
    } else if e.Register? {
      InitGood(if s.active == 0 then s.gen + 1 else s.gen, e.size);
    }
  }

  lemma OnlyItsLoop(s: State, e: Event)
    requires Enabled(s, e) && (LoopEvent(e) || e.Depart?)
    ensures e.c in Apply(s, e).consumers && Apply(s, e).consumers == s.consumers[e.c := Apply(s, e).consumers[e.c]]
    ensures Apply(s, e).resolved == s.resolved + if Hit(s, e).Some? then multiset{Hit(s, e).value} else multiset{}
  {
    hide Pool.Apply, Pool.Enabled;
    if LoopEvent(e) {
      LoopEventFrame(s, e);
    }
  }

  lemma SettledKept(s: State, e: Event)
    requires Owned(s) && LoopsGood(s) && Settled(s) && Enabled(s, e)
    ensures Settled(Apply(s, e))
  {
    if LoopEvent(e) || e.Depart? {
      LoopMoves(s, e);
      OnlyItsLoop(s, e);
      TakenFrame(s, e);
      SettledMoves(s, Apply(s, e), e.c, Hit(s, e));
    } else {
      SettledElsewhere(s, e);
    }
  }

  lemma SettledElsewhere(s: State, e: Event)
    requires Settled(s) && Enabled(s, e) && !LoopEvent(e) && !e.Depart?
    ensures Settled(Apply(s, e))
  {
    hide Pool.Init, Due;
    var s' := Apply(s, e);
    assert s'.resolved == s.resolved;
    assert forall d :: Fresh(s', d) ==> Fresh(s, d) by {
      assert forall c | c in s.consumers :: c in s'.consumers && s'.consumers[c] == s.consumers[c];
    }
    assert forall c | c in s'.consumers && c !in s.consumers :: s'.consumers[c].taken == {};
  }

  lemma SettledMoves(s: State, s': State, c: ConsumerId, hit: Option<Delivery>)
    requires Owned(s) && Settled(s) && c in s.consumers && c in s'.consumers
    requires s'.consumers == s.consumers[c := s'.consumers[c]]
    requires s'.resolved == s.resolved + if hit.Some? then multiset{hit.value} else multiset{}
    requires DueMoves(s.consumers[c], s'.consumers[c], hit)
    requires s.consumers[c].taken <= s'.consumers[c].taken
    requires forall d | d in s'.consumers[c].taken && d !in s.consumers[c].taken :: Fresh(s, d)
    ensures Settled(s')
  {
    hide Due;
    var x, y := s.consumers[c], s'.consumers[c];
    forall k, d | k in s'.consumers && d in s'.consumers[k].taken ensures s'.resolved[d] == Due(s'.consumers[k], d) {
      if k == c {
        assert d in x.taken ==> s.resolved[d] == Due(x, d);
        assert d !in x.taken ==> s.resolved[d] == 0 && hit != Some(d);
      } else {
        assert s.resolved[d] == Due(s.consumers[k], d) && d !in x.taken;
      }
    }
    forall d | Fresh(s', d) ensures s'.resolved[d] == 0 {
      assert d !in y.taken;
      assert Fresh(s, d) by {
        forall k | k in s.consumers ensures d !in s.consumers[k].taken {
          assert d !in s'.consumers[k].taken;
        }
      }
    }
  }

  lemma ResolvedAtMostOnce(s: State, d: Delivery)
    requires LoopsGood(s) && Settled(s)
    ensures 0 <= s.resolved[d] <= 1
  {
    hide LoopGood, Due;
    if !Fresh(s, d) {
      var k :| k in s.consumers && d in s.consumers[k].taken;
      DueAtMostOnce(s.consumers[k], d);
    }
  }

  /** What the handler of the delivery that `e` resolves did, if one ran. */
  function OutcomeOf(e: Event): Option<HandlerOutcome> {
    match e
    case HandleDirect(_, o) => Some(o)
    case RunTask(_, _, o) => Some(o)
    case _ => None
  }

  /** Delivery `d` gets its resolution in the step from `s` to `s'`. */
  ghost predicate Recorded(s: State, s': State, d: Delivery, o: Option<HandlerOutcome>) {
    && s'.resolved == s.resolved + multiset{d}
    && s'.how == s.how[d := if o.Some? then ResolutionOf(o.value) else Nack(true)]
    && s'.ran == if o.Some? then s.ran[d := o.value] else s.ran
  }

  lemma RecordsFrame(s: State, e: Event)
    requires Enabled(s, e)
    ensures var s' := Apply(s, e);
            if Hit(s, e).Some? then Recorded(s, s', Hit(s, e).value, OutcomeOf(e))
            else s'.resolved == s.resolved && s'.how == s.how && s'.ran == s.ran
  {
    hide Pool.Apply, Pool.Enabled, Pool.Init, ResolutionOf;
  }

  lemma RecordedKeepsHonest(s: State, s': State, d: Delivery, o: Option<HandlerOutcome>)
    requires Honest(s) && Recorded(s, s', d, o) && s.resolved[d] == 0
    ensures Honest(s')
  {
    hide ResolutionOf;
  }

  lemma HonestKept(s: State, e: Event)
    requires Honest(s) && Enabled(s, e)
    requires LoopsGood(Apply(s, e)) && Settled(Apply(s, e))
    ensures Honest(Apply(s, e))
  {
    hide Apply, LoopsGood, Settled, ResolutionOf, Hit, Enabled;
    RecordsFrame(s, e);
    if Hit(s, e).Some? {
      var d := Hit(s, e).value;
      ResolvedAtMostOnce(Apply(s, e), d);
      assert Apply(s, e).resolved[d] == s.resolved[d] + 1;
      RecordedKeepsHonest(s, Apply(s, e), d, OutcomeOf(e));
    }
  }

  lemma StepKeepsInv(s: State, e: Event)
    requires Inv(s) && Enabled(s, e)
    ensures Inv(Apply(s, e))
  {
    hide Channel, Owned, LoopsGood, Settled, Honest, Apply, Enabled;
    ChannelKept(s, e);
    OwnedKept(s, e);
    LoopsGoodKept(s, e);
    SettledKept(s, e);
    HonestKept(s, e);
  }

  // ----- Whole runs -----

  ghost predicate Feasible(s: State, es: seq<Event>)
    decreases |es|
  {
    es == [] || (Enabled(s, es[0]) && Feasible(Apply(s, es[0]), es[1..]))
  }

  ghost function Exec(s: State, es: seq<Event>): State
    requires Feasible(s, es)
    decreases |es|
  {
    if es == [] then s else Exec(Apply(s, es[0]), es[1..])
  }

  lemma {:induction false} RunKeepsInv(s: State, es: seq<Event>)
    requires Inv(s) && Feasible(s, es)
    ensures Inv(Exec(s, es))
    decreases |es|
  {
    hide Inv, Apply, Enabled;
    if es != [] {
      StepKeepsInv(s, es[0]);
      RunKeepsInv(Apply(s, es[0]), es[1..]);
    }
  }

  lemma InitInv()
    ensures Inv(INIT)
  {
    assert ActiveIds(INIT.consumers) == {};
  }

  lemma DueAtMostOnce(x: Consumer, d: Delivery)
    requires LoopGood(x)
    ensures 0 <= Due(x, d) <= 1
    ensures (x.loop.Departing? || x.loop.Exited?) ==> Due(x, d) == 1
  {
    hide Pool.Inv;
    if x.pool.Some? {
      var p := x.pool.value;
      Pool.RanMeansSent(p, d);
      if p.Done() {
        Pool.DoneMeansDrained(p);
      }
    }
  }

  /**
   * In every interleaving of subscriptions, deliveries, pool goroutines, handler panics and shutdown:
   * no channel is closed twice, no delivery is resolved twice, and when a loop is about to decrement
   * `active` every delivery it took has been resolved exactly once.
   */
  lemma DeliveriesResolvedOnce(es: seq<Event>, c: ConsumerId, d: Delivery)
    requires Feasible(INIT, es)
    ensures var s := Exec(INIT, es);
            && !s.panicked
            && s.resolved[d] <= 1
            && (c in s.consumers && d in s.consumers[c].taken && (s.consumers[c].loop == Departing || s.consumers[c].loop == Exited) ==>
                  s.resolved[d] == 1)
            && (s.active == 0 <==> s.gen in s.closedGens)
  {
    hide Feasible, Exec, LoopGood, Due;
    InitInv();
    RunKeepsInv(INIT, es);
    var s := Exec(INIT, es);
    if !Fresh(s, d) {
      var k :| k in s.consumers && d in s.consumers[k].taken;
      DueAtMostOnce(s.consumers[k], d);
    }
    if c in s.consumers {
      DueAtMostOnce(s.consumers[c], d);
    }
  }

  /**
   * A delivery is acked only if its handler ran and succeeded, is requeued only if no handler ran
   * on it or the handler's context ended, and is dropped only after a failure or a panic.
   */
  lemma ResolutionsAreHonest(es: seq<Event>, d: Delivery)
    requires Feasible(INIT, es) && Exec(INIT, es).resolved[d] > 0
    ensures var s := Exec(INIT, es);
            && d in s.how
            && (s.how[d] == Ack <==> d in s.ran && s.ran[d] == Success)
            && (s.how[d] == Nack(true) <==> d !in s.ran || s.ran[d] == ContextEnded)
  {
    hide Feasible, Exec, Channel, LoopsGood, Settled;
    InitInv();
    RunKeepsInv(INIT, es);
  }

  /** If the first `Close` returned nil, no consumer is left and every delivery ever taken is resolved. */
  lemma NilCloseMeansStopped(es: seq<Event>)
    requires Feasible(INIT, es) && Exec(INIT, es).closing == ReturnedNil
    ensures var s := Exec(INIT, es);
            forall c | c in s.consumers ::
              s.consumers[c].loop == Exited && forall d | d in s.consumers[c].taken :: s.resolved[d] == 1
  {
    hide Feasible, Exec, LoopGood, Due;
    InitInv();
    RunKeepsInv(INIT, es);
    var s := Exec(INIT, es);
    forall c | c in s.consumers
      ensures s.consumers[c].loop == Exited && forall d | d in s.consumers[c].taken :: s.resolved[d] == 1
    {
      assert c !in ActiveIds(s.consumers);
      forall d | d in s.consumers[c].taken ensures s.resolved[d] == 1 {
        DeliveriesResolvedOnce(es, c, d);
      }
    }
  }

  // ----- A loop that has left gets to its end -----

  /** The deferred cleanup has begun. */
  predicate HasLeft(x: Consumer) {
    x.loop.Leaving? || x.loop.ClosingPool? || x.loop.Departing? || x.loop.Exited?
  }

  /** Events of consumer `c`: its loop, its pool and its handlers. */
  predicate EventOf(e: Event, c: ConsumerId) {
    (LoopEvent(e) || e.Depart?) && e.c == c
  }

  function LoopWeight(l: Loop): nat {
    match l
    case Leaving => 5
    case ClosingPool => 2
    case Departing => 1
    case _ => 0
  }

  /** What consumer `x` still has to do once it has left. */
  function LeftMeasure(x: Consumer): nat {
    LoopWeight(x.loop) + if x.pool.Some? then Pool.Measure(x.pool.value) else 0
  }

  lemma PoolStepFalls(x: Consumer, e: Pool.Event)
    requires LoopGood(x) && x.pool.Some? && Pool.Enabled(x.pool.value, e) && Pool.Internal(e)
    ensures LeftMeasure(x.(pool := Some(Pool.Apply(x.pool.value, e)))) < LeftMeasure(x)
  {
    hide Pool.Measure, Pool.Apply, Pool.Enabled, Pool.Inv;
    Pool.StepKeepsInv(x.pool.value, e);
    Pool.InvMeansNoPanic(Pool.Apply(x.pool.value, e));
    Pool.InternalStepDecreases(x.pool.value, e);
  }

  lemma ClosePoolFalls(p: Pool.State)
    requires !p.closed && Pool.Protocol(p)
    ensures Pool.Measure(Pool.Apply(p, Pool.CloseCall)) == Pool.Measure(p) + 2
  {
    hide Pool.SelectingIds, Pool.UncountedIds, Pool.InFlightIds, Pool.Weights;
  }

  lemma PoolProtocol(p: Pool.State)
    requires Pool.Inv(p)
    ensures Pool.Protocol(p)
  {
  }

  /** Every event of a consumer that has left brings it nearer to its end. */
  lemma LeftStepFalls(s: State, e: Event, c: ConsumerId)
    requires LoopsGood(s) && Enabled(s, e) && EventOf(e, c) && c in s.consumers && HasLeft(s.consumers[c])
    ensures c in Apply(s, e).consumers && HasLeft(Apply(s, e).consumers[c])
    ensures LeftMeasure(Apply(s, e).consumers[c]) < LeftMeasure(s.consumers[c])
  {
    hide LoopGood, Pool.Apply, Pool.Enabled, Pool.Measure;
    var x := s.consumers[c];
    assert LoopGood(x);
    if e.PoolStep? {
      assert !e.e.SubmitBegin?;
      PoolStepFalls(x, e.e);
    } else if e.RunTask? {
      PoolStepFalls(x, Pool.Execute(e.w, e.o != Success));
    } else if e.ClosePool? && x.pool.Some? {
      LeavingPool(x);
      ClosePoolFalls(x.pool.value);
    }
  }

  lemma LeavingPool(x: Consumer)
    requires LoopGood(x) && x.loop.Leaving? && x.pool.Some?
    ensures !x.pool.value.closed && Pool.Protocol(x.pool.value)
  {
    hide Pool.Inv, Pool.Protocol;
    PoolProtocol(x.pool.value);
  }

  lemma OthersLeaveItAlone(s: State, e: Event, c: ConsumerId)
    requires Enabled(s, e) && !EventOf(e, c) && c in s.consumers
    ensures c in Apply(s, e).consumers && Apply(s, e).consumers[c] == s.consumers[c]
  {
    hide Pool.Apply, Pool.Enabled, Pool.Init;
    if LoopEvent(e) || e.Depart? {
      OnlyItsLoop(s, e);
    }
  }

  /** A pool that is closing offers its consumer an event. */
  lemma PoolMoves(s: State, c: ConsumerId, pe: Pool.Event) returns (e: Event)
    requires Pooled(s, c) && Pool.Enabled(s.consumers[c].pool.value, pe) && Pool.Internal(pe)
    ensures Enabled(s, e) && EventOf(e, c)
  {
    hide Pool.Enabled;
    e := if pe.Execute? then RunTask(c, pe.w, if pe.err then Failure else Success) else PoolStep(c, pe);
  }

  /** A consumer that has left and is not at its end is never stuck. */
  lemma LeftLoopMoves(s: State, c: ConsumerId) returns (e: Event)
    requires LoopsGood(s) && c in s.consumers && HasLeft(s.consumers[c]) && s.consumers[c].loop != Exited
    ensures Enabled(s, e) && EventOf(e, c)
  {
    hide LoopGood, Pool.Enabled, Pool.Inv;
    var x := s.consumers[c];
    assert LoopGood(x);
    if x.loop.Leaving? {
      e := ClosePool(c);
    } else if x.loop.Departing? {
      e := Depart(c);
    } else {
      ClosingIsPooled(x);
      if x.pool.value.Done() {
        e := PoolClosed(c);
      } else {
        var pe := Pool.NeverStuck(x.pool.value);
        e := PoolMoves(s, c, pe);
      }
    }
  }

  lemma ClosingIsPooled(x: Consumer)
    requires LoopGood(x) && x.loop.ClosingPool?
    ensures x.pool.Some? && Pool.Inv(x.pool.value) && x.pool.value.closed
  {
    hide Pool.Inv;
  }

  /** How many events of a run belong to consumer `c`. */
  function EventsFor(es: seq<Event>, c: ConsumerId): nat {
    if es == [] then 0 else (if EventOf(es[0], c) then 1 else 0) + EventsFor(es[1..], c)
  }

  lemma {:induction false} LeftRun(s: State, es: seq<Event>, c: ConsumerId)
    requires Inv(s) && Feasible(s, es) && c in s.consumers && HasLeft(s.consumers[c])
    ensures Inv(Exec(s, es)) && c in Exec(s, es).consumers && HasLeft(Exec(s, es).consumers[c])
    ensures EventsFor(es, c) + LeftMeasure(Exec(s, es).consumers[c]) <= LeftMeasure(s.consumers[c])
    decreases es
  {
    hide Inv, Apply, Enabled, EventOf, LeftMeasure, HasLeft;
    if es != [] {
      var s' := Apply(s, es[0]);
      StepKeepsInv(s, es[0]);
      GoodLoops(s);
      if EventOf(es[0], c) {
        LeftStepFalls(s, es[0], c);
      } else {
        OthersLeaveItAlone(s, es[0], c);
      }
      LeftRun(s', es[1..], c);
    }
  }

  lemma GoodLoops(s: State)
    requires Inv(s)
    ensures LoopsGood(s)
  {
  }

  /**
   * Once a consume loop has left, in every interleaving with everything else: it and its pool take at
   * most `LeftMeasure` more steps; until it has exited it always has one; and when it has exited every
   * delivery it took is resolved exactly once.
   */
  lemma LeftLoopResolvesAll(before: seq<Event>, es: seq<Event>, c: ConsumerId)
    requires Feasible(INIT, before) && Feasible(Exec(INIT, before), es)
    requires var s := Exec(INIT, before); c in s.consumers && HasLeft(s.consumers[c])
    ensures var (s, s') := (Exec(INIT, before), Exec(Exec(INIT, before), es));
            && EventsFor(es, c) <= LeftMeasure(s.consumers[c])
            && c in s'.consumers
            && (s'.consumers[c].loop == Exited || exists e :: Enabled(s', e) && EventOf(e, c))
            && (s'.consumers[c].loop == Exited ==> forall d | d in s'.consumers[c].taken :: s'.resolved[d] == 1)
  {
    hide Inv, Feasible, Exec, Enabled, EventOf, LeftMeasure, EventsFor;
    var s := Exec(INIT, before);
    InitInv();
    RunKeepsInv(INIT, before);
    LeftRun(s, es, c);
    var s' := Exec(s, es);
    GoodLoops(s');
    if s'.consumers[c].loop != Exited {
      var e := LeftLoopMoves(s', c);
    } else {
      ExitedIsResolved(s', c);
    }
  }

  lemma ExitedIsResolved(s: State, c: ConsumerId)
    requires Inv(s) && c in s.consumers && s.consumers[c].loop == Exited
    ensures forall d | d in s.consumers[c].taken :: s.resolved[d] == 1
  {
    hide Channel, Owned, Honest, LoopGood, Due;
    var x := s.consumers[c];
    assert LoopGood(x);
    forall d | d in x.taken ensures s.resolved[d] == 1 {
      assert s.resolved[d] == Due(x, d);
      DueAtMostOnce(x, d);
    }
  }
}
