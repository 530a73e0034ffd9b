/** Durable consumption over JetStream (nats/jetstream.go). Durations are nanoseconds in an int64. */
module Durable {
  import opened Text

  const MAX_INT64 := 0x7FFF_FFFF_FFFF_FFFF
  const INITIAL_FETCH_BACKOFF := 100_000_000
  const MAX_FETCH_BACKOFF := 30_000_000_000
  const MAX_NAK_DELAY := 300_000_000_000
  const MAX_SHIFTS := 20

  predicate IsInt64(x: int) {
    -MAX_INT64 - 1 <= x <= MAX_INT64
  }

  /** Two's-complement wrap-around to 64 bits. */
  function Wrap(x: int): (r: int)
    ensures IsInt64(r) && (IsInt64(x) ==> r == x)
  {
    var two64 := 2 * (MAX_INT64 + 1);
    var m := x % two64;
    if m <= MAX_INT64 then m else m - two64
  }

  function Pow2(n: nat): (r: nat)
    ensures r >= 1
  {
    if n == 0 then 1 else 2 * Pow2(n - 1)
  }

  function Min(a: int, b: int): int {
    if a < b then a else b
  }

  function Max(a: int, b: int): int {
    if a < b then b else a
  }

  lemma {:induction false} Pow2Monotone(m: nat, n: nat)
    requires m <= n
    ensures Pow2(m) <= Pow2(n)
    decreases n
  {
    if m < n {
      Pow2Monotone(m, n - 1);
    }
  }

  lemma ScaledMonotone(a: nat, m: nat, n: nat)
    requires m <= n
    ensures a * Pow2(m) <= a * Pow2(n)
  {
    Pow2Monotone(m, n);
    MulMonotone(a, Pow2(m), Pow2(n));
  }

  lemma MulMonotone(a: nat, x: nat, y: nat)
    requires x <= y
    ensures a * x <= a * y
  {
  }

  // ----- Delays -----

  /** The delay asked for on the `n`-th delivery. */
  function Delay(ackWait: nat, n: int): int {
    Min(MAX_NAK_DELAY, ackWait * Pow2(Min(Max(n, 1) - 1, MAX_SHIFTS)))
  }

  lemma Doubled(a: nat, i: nat)
    ensures 2 * (a * Pow2(i)) == a * Pow2(i + 1)
  {
  }

  /** No doubling overflows: each starts below the cap. */
  method NakDelay(ackWait: int, deliveryCount: int) returns (delay: int)
    requires 0 < ackWait <= MAX_INT64 && IsInt64(deliveryCount)
    ensures delay == Delay(ackWait, deliveryCount)
  {
    hide Pow2, Wrap;
    var count := if deliveryCount < 1 then 1 else deliveryCount;
    delay := ackWait;
    var shifts := count - 1;
    if shifts > MAX_SHIFTS {
      shifts := MAX_SHIFTS;
    }
    var i := 0;
    assert Pow2(0) == 1 by { PowZero(); }
    while i < shifts && delay < MAX_NAK_DELAY
      invariant 0 <= i <= shifts
      invariant delay == ackWait * Pow2(i) && 0 < delay
    {
      Doubled(ackWait, i);
      delay := Wrap(delay * 2);
      i := i + 1;
    }
    ScaledMonotone(ackWait, i, shifts);
    if delay > MAX_NAK_DELAY {
      delay := MAX_NAK_DELAY;
    }
  }

  lemma PowZero()
    ensures Pow2(0) == 1
  {
  }

  /** The delay starts at the ack wait and doubles 20 times, never above five minutes. */
  lemma DelayDoubles(ackWait: nat, n: int)
    ensures n <= 1 ==> Delay(ackWait, n) == Min(ackWait, 300_000_000_000)
    ensures 1 <= n <= 20 ==> Delay(ackWait, n + 1) == Min(2 * Delay(ackWait, n), 300_000_000_000)
    ensures n >= 21 ==> Delay(ackWait, n + 1) == Delay(ackWait, n)
  {
    hide Pow2;
    PowZero();
    if 1 <= n <= 20 {
      Doubled(ackWait, n - 1);
    }
  }

  /** Later deliveries never wait less. */
  lemma DelayGrows(ackWait: nat, m: int, n: int)
    requires m <= n
    ensures Delay(ackWait, m) <= Delay(ackWait, n) <= MAX_NAK_DELAY
  {
    hide Pow2;
    ScaledMonotone(ackWait, Min(Max(m, 1) - 1, MAX_SHIFTS), Min(Max(n, 1) - 1, MAX_SHIFTS));
  }

  /** The documented schedule: start at the ack wait, double per attempt, cap at five minutes. */
  function Schedule(ackWait: nat, n: int): int
    requires n >= 1
  {
    Min(MAX_NAK_DELAY, ackWait * Pow2(n - 1))
  }

  /** The limit of 20 doublings is invisible exactly when 20 doublings reach the cap. */
  lemma ScheduleExact(ackWait: nat)
    requires ackWait > 0
    ensures (forall n: nat | n >= 1 :: Delay(ackWait, n) == Schedule(ackWait, n))
            <==> ackWait * Pow2(MAX_SHIFTS) >= MAX_NAK_DELAY
  {
    hide Pow2;
    if ackWait * Pow2(MAX_SHIFTS) >= MAX_NAK_DELAY {
      forall n: nat | n >= 1 ensures Delay(ackWait, n) == Schedule(ackWait, n) {
        if n - 1 > MAX_SHIFTS {
          ScaledMonotone(ackWait, MAX_SHIFTS, n - 1);
        }
      }
    } else {
      Doubled(ackWait, MAX_SHIFTS);
      assert ackWait * Pow2(MAX_SHIFTS) >= 1 by { MulMonotone(ackWait, 1, Pow2(MAX_SHIFTS)); }
      assert Delay(ackWait, 22) < Schedule(ackWait, 22);
    }
  }

  /** Doubling, with the wrap-around the guard is there for. */
  function NextFetchBackoff(d: int): (r: int)
    ensures 0 < r <= MAX_FETCH_BACKOFF
  {
    var doubled := Wrap(d * 2);
    if doubled <= 0 || doubled > MAX_FETCH_BACKOFF then MAX_FETCH_BACKOFF else doubled
  }

  /** The backoff before the retry that follows `k + 1` failures in a row. */
  function Backoff(k: nat): int {
    Min(MAX_FETCH_BACKOFF, INITIAL_FETCH_BACKOFF * Pow2(k))
  }

  lemma BackoffStep(k: nat)
    ensures NextFetchBackoff(Backoff(k)) == Backoff(k + 1)
    ensures Backoff(0) == INITIAL_FETCH_BACKOFF
  {
    Doubled(INITIAL_FETCH_BACKOFF, k);
  }

  // ----- One message -----

  datatype Decision = Ack | Nack | DeadLetter | Unknown

  /** `count` is 0 when the delivery carries no metadata. */
  datatype Message = Message(decision: Decision, count: nat)

  datatype Call = DoAck | DoNak(delay: int) | DoPublish | DoTerm

  datatype Config = Config(maxDeliver: nat, ackWait: nat, deadLetters: bool) {
    /** What the options leave: they ignore non-positive values. */
    predicate Valid() {
      maxDeliver > 0 && 0 < ackWait <= MAX_INT64
    }
  }

  predicate Resolves(c: Call) {
    !c.DoPublish?
  }

  /** A decision that is not recognised counts as a refusal. */
  predicate Refuses(d: Decision) {
    d == Nack || d == Unknown
  }

  /** A shown delivery count after which the server would not deliver again. */
  predicate Exhausted(cfg: Config, count: nat) {
    count > 0 && count >= cfg.maxDeliver
  }

  /** The call that resolves a delivery. */
  function Resolution(cfg: Config, m: Message): Call {
    match m.decision
    case Ack => DoAck
    case DeadLetter => DoTerm
    case _ => if Exhausted(cfg, m.count) then DoTerm else DoNak(Delay(cfg.ackWait, m.count))
  }

  /** Every delivery is resolved by exactly one call, the last one made; a dead letter is published first. */
  method HandleMessage(cfg: Config, m: Message) returns (calls: seq<Call>)
    requires cfg.Valid() && m.count <= MAX_INT64
    ensures calls != [] && calls[|calls| - 1] == Resolution(cfg, m) && Resolves(Resolution(cfg, m))
    ensures forall i | 0 <= i < |calls| - 1 :: !Resolves(calls[i])
    ensures DoAck in calls <==> m.decision == Ack
    ensures m.decision == Ack ==> calls == [DoAck]
    ensures DoTerm in calls <==> m.decision == DeadLetter || (Refuses(m.decision) && Exhausted(cfg, m.count))
    ensures DoTerm in calls ==> calls == (if cfg.deadLetters then [DoPublish] else []) + [DoTerm]
    ensures Refuses(m.decision) && !Exhausted(cfg, m.count) ==> calls == [DoNak(Delay(cfg.ackWait, m.count))]
  {
    hide Delay;
    match m.decision
    case Ack =>
      return [DoAck];
    case DeadLetter =>
      calls := SendDeadLetter(cfg);
    case _ =>
      if m.count > 0 && m.count >= cfg.maxDeliver {
        calls := SendDeadLetter(cfg);
        return;
      }
      var delay := NakDelay(cfg.ackWait, m.count);
      return [DoNak(delay)];
  }

  method SendDeadLetter(cfg: Config) returns (calls: seq<Call>)
    ensures calls == (if cfg.deadLetters then [DoPublish] else []) + [DoTerm]
  {
    calls := [];
    if cfg.deadLetters {
      calls := calls + [DoPublish];
    }
    calls := calls + [DoTerm];
  }

  // ----- The life of a message -----

  /** The server redelivers a message after a nak, counting deliveries from `n`. */
  function Life(cfg: Config, decide: nat -> Decision, n: nat): seq<Call>
    requires cfg.Valid() && 1 <= n <= cfg.maxDeliver
    decreases cfg.maxDeliver - n
  {
    var call := Resolution(cfg, Message(decide(n), n));
    if call.DoNak? then [call] + Life(cfg, decide, n + 1) else [call]
  }

  /** Whatever the handler decides, a message is delivered at most `maxDeliver` times, its waits never
      shrink, and it ends at the first delivery it is not refused at, or at the last one: acknowledged if
      the handler acknowledges it there, terminated otherwise. */
  lemma {:induction false} LifeEnds(cfg: Config, decide: nat -> Decision, n: nat)
    requires cfg.Valid() && 1 <= n <= cfg.maxDeliver
    ensures var life := Life(cfg, decide, n);
            && 1 <= |life| <= cfg.maxDeliver - n + 1
            && var last := n + |life| - 1;
            && life[|life| - 1] == (if decide(last) == Ack then DoAck else DoTerm)
            && (forall i | n <= i < last :: Refuses(decide(i)))
            && (Refuses(decide(last)) ==> last == cfg.maxDeliver)
            && (forall i | 0 <= i < |life| - 1 :: life[i] == DoNak(Delay(cfg.ackWait, n + i)))
    decreases cfg.maxDeliver - n
  {
    hide Delay;
    var call := Resolution(cfg, Message(decide(n), n));
    if call.DoNak? {
      LifeEnds(cfg, decide, n + 1);
      var (life, rest) := (Life(cfg, decide, n), Life(cfg, decide, n + 1));
      forall i | 0 <= i < |life| - 1 ensures life[i] == DoNak(Delay(cfg.ackWait, n + i)) {
        if i > 0 {
          assert life[i] == rest[i - 1];
        }
      }
    }
  }

  /** A message that is always refused gets all its deliveries and is then dead-lettered. */
  lemma {:induction false} AlwaysNacked(cfg: Config, decide: nat -> Decision, n: nat)
    requires cfg.Valid() && 1 <= n <= cfg.maxDeliver
    requires forall k: nat :: Refuses(decide(k))
    ensures |Life(cfg, decide, n)| == cfg.maxDeliver - n + 1
    ensures Life(cfg, decide, n)[cfg.maxDeliver - n] == DoTerm
    ensures forall i | 0 <= i < cfg.maxDeliver - n :: Life(cfg, decide, n)[i] == DoNak(Delay(cfg.ackWait, n + i))
    decreases cfg.maxDeliver - n
  {
    hide Delay;
    if n < cfg.maxDeliver {
      AlwaysNacked(cfg, decide, n + 1);
    }
    LifeEnds(cfg, decide, n);
  }

  /** The calls on deliveries `n`, `n + 1`, ..., at most `k` of them, when delivery `i` shows the count
      `count(i)`: the true number, or 0 where the metadata is missing. */
  function Seen(cfg: Config, decide: nat -> Decision, count: nat -> nat, n: nat, k: nat): seq<Call>
    decreases k
  {
    if k == 0 then [] else
      var call := Resolution(cfg, Message(decide(n), count(n)));
      if call.DoNak? then [call] + Seen(cfg, decide, count, n + 1, k - 1) else [call]
  }

  lemma SeenNext(cfg: Config, decide: nat -> Decision, count: nat -> nat, n: nat, k: nat)
    requires Refuses(decide(n)) && k > 0
    ensures Seen(cfg, decide, count, n, k) ==
            if Exhausted(cfg, count(n)) then [DoTerm]
            else [DoNak(Delay(cfg.ackWait, count(n)))] + Seen(cfg, decide, count, n + 1, k - 1)
  {
    hide Delay;
  }

  /** No delivery from `n` on, `k` of them, shows a count that ends the message's life. */
  ghost predicate NoneCounted(cfg: Config, count: nat -> nat, n: nat, k: nat) {
    forall i: nat | n <= i < n + k :: count(i) < cfg.maxDeliver
  }

  function Naks(cfg: Config, count: nat -> nat, n: nat, k: nat): seq<Call> {
    seq(k, i requires i >= 0 => DoNak(Delay(cfg.ackWait, count(n + i))))
  }

  /** A message refused at every delivery goes on being nacked exactly as long as no delivery shows a
      count of `maxDeliver` or more. */
  lemma {:induction false} NackedUntilCounted(cfg: Config, decide: nat -> Decision, count: nat -> nat, n: nat, k: nat)
    requires cfg.Valid() && forall i: nat :: Refuses(decide(i))
    ensures (forall c | c in Seen(cfg, decide, count, n, k) :: c.DoNak?) <==> NoneCounted(cfg, count, n, k)
    ensures NoneCounted(cfg, count, n, k) ==> Seen(cfg, decide, count, n, k) == Naks(cfg, count, n, k)
    decreases k
  {
    hide Delay, Seen;
    if k == 0 {
      SeenNone(cfg, decide, count, n);
    } else {
      var rest := Seen(cfg, decide, count, n + 1, k - 1);
      NackedUntilCounted(cfg, decide, count, n + 1, k - 1);
      SeenNext(cfg, decide, count, n, k);
      assert NoneCounted(cfg, count, n, k) <==> count(n) < cfg.maxDeliver && NoneCounted(cfg, count, n + 1, k - 1);
      if count(n) < cfg.maxDeliver {
        NaksCons(cfg, count, n, k);
        assert forall c | c in rest :: c in Seen(cfg, decide, count, n, k);
      } else {
        assert DoTerm in Seen(cfg, decide, count, n, k);
      }
    }
  }

  lemma SeenNone(cfg: Config, decide: nat -> Decision, count: nat -> nat, n: nat)
    ensures Seen(cfg, decide, count, n, 0) == []
  {
  }

  lemma NaksCons(cfg: Config, count: nat -> nat, n: nat, k: nat)
    requires k > 0
    ensures Naks(cfg, count, n, k) == [DoNak(Delay(cfg.ackWait, count(n)))] + Naks(cfg, count, n + 1, k - 1)
  {
    hide Delay;
    var a, b := Naks(cfg, count, n, k), [DoNak(Delay(cfg.ackWait, count(n)))] + Naks(cfg, count, n + 1, k - 1);
    forall i | 0 <= i < k ensures a[i] == b[i] {
      if i > 0 {
        assert n + 1 + (i - 1) == n + i;
      }
    }
  }

  /** Without metadata there is no such end: a refused message is nacked at every delivery, always with
      the same delay, so no bound on its deliveries holds. */
  lemma NoMetadataNeverDeadLetters(cfg: Config, decide: nat -> Decision, k: nat)
    requires cfg.Valid() && forall i: nat :: Refuses(decide(i))
    ensures Seen(cfg, decide, _ => 0, 1, k) == seq(k, _ => DoNak(Delay(cfg.ackWait, 1)))
  {
    hide Seen;
    NackedUntilCounted(cfg, decide, _ => 0, 1, k);
    assert NoneCounted(cfg, _ => 0, 1, k);
    assert Delay(cfg.ackWait, 0) == Delay(cfg.ackWait, 1);
  }

  /** With true counts the two views of a life agree. */
  lemma {:induction false} SeenIsLife(cfg: Config, decide: nat -> Decision, n: nat, k: nat)
    requires cfg.Valid() && 1 <= n <= cfg.maxDeliver && k > cfg.maxDeliver - n
    ensures Seen(cfg, decide, i => i, n, k) == Life(cfg, decide, n)
    decreases k
  {
    hide Delay;
    if Resolution(cfg, Message(decide(n), n)).DoNak? {
      SeenIsLife(cfg, decide, n + 1, k - 1);
    }
  }

  // ----- The consume loop -----

  datatype Fetch = Batch(msgs: seq<Message>) | Timeout | Terminal | Failure

  /** One fetch and what the loop did about it: the resolutions, in order, and the wait. */
  datatype Round = Round(handled: seq<Call>, wait: Option<int>)

  function Resolutions(cfg: Config, msgs: seq<Message>): (r: seq<Call>)
    ensures |r| == |msgs|
    ensures forall i | 0 <= i < |msgs| :: r[i] == Resolution(cfg, msgs[i])
  {
    seq(|msgs|, i requires 0 <= i < |msgs| => Resolution(cfg, msgs[i]))
  }

  /** The failures in a row that end just before fetch `r`. */
  function FailuresBefore(fetches: seq<Fetch>, r: nat): nat
    requires r <= |fetches|
  {
    if r > 0 && fetches[r - 1].Failure? then 1 + FailuresBefore(fetches, r - 1) else 0
  }

  /** A round the loop got to the end of. */
  predicate Complete(cfg: Config, fetches: seq<Fetch>, rounds: seq<Round>, r: nat)
    requires r < |rounds| <= |fetches|
  {
    match fetches[r]
    case Batch(msgs) => rounds[r] == Round(Resolutions(cfg, msgs), None)
    case Timeout => rounds[r] == Round([], None)
    case Terminal => false
    case Failure => rounds[r] == Round([], Some(Backoff(FailuresBefore(fetches, r))))
  }

  /** A round in which the loop stopped. */
  predicate Stopped(cfg: Config, fetches: seq<Fetch>, rounds: seq<Round>, r: nat)
    requires r < |rounds| <= |fetches|
  {
    && rounds[r].wait.None?
    && (fetches[r].Batch? ==> rounds[r].handled <= Resolutions(cfg, fetches[r].msgs))
    && (!fetches[r].Batch? ==> rounds[r].handled == [])
  }

  /** The context: it reads as done from check number `doneAt` on. */
  predicate Done(checks: nat, doneAt: nat) {
    checks >= doneAt
  }

  /** The batch is handled in order, and cut short only by the context. */
  method HandleBatch(cfg: Config, msgs: seq<Message>, checks: nat, doneAt: nat)
    returns (handled: seq<Call>, checks': nat, keepGoing: bool)
    requires cfg.Valid() && forall m | m in msgs :: m.count <= MAX_INT64
    ensures handled <= Resolutions(cfg, msgs) && checks' >= checks
    ensures keepGoing ==> handled == Resolutions(cfg, msgs)
    ensures checks <= doneAt ==> if keepGoing then checks' <= doneAt else checks' == doneAt + 1
  {
    hide Resolution;
    handled, checks' := [], checks;
    for i := 0 to |msgs|
      invariant handled == Resolutions(cfg, msgs)[..i] && checks' >= checks
      invariant checks <= doneAt ==> checks' <= doneAt
    {
      var calls := HandleMessage(cfg, msgs[i]);
      handled := handled + [calls[|calls| - 1]];
      checks' := checks' + 1;
      if Done(checks' - 1, doneAt) {
        return handled, checks', false;
      }
    }
    return handled, checks', true;
  }

  /** What the loop does after a failed fetch. */
  method HandleFetchError(f: Fetch, backoff: int, checks: nat, doneAt: nat)
    returns (next: int, wait: Option<int>, checks': nat, stop: bool)
    requires !f.Batch?
    ensures checks' > checks
    ensures checks <= doneAt ==> checks' <= doneAt + 1 && (checks' == doneAt + 1 ==> stop)
    ensures stop ==> wait.None? && (f.Terminal? || Done(checks' - 1, doneAt))
    ensures !stop ==> (f.Timeout? && next == INITIAL_FETCH_BACKOFF && wait.None?)
                      || (f.Failure? && next == NextFetchBackoff(backoff) && wait == Some(backoff))
  {
    checks' := checks + 1;
    if Done(checks, doneAt) {
      return backoff, None, checks', true;
    }
    if f.Timeout? {
      return INITIAL_FETCH_BACKOFF, None, checks', false;
    }
    if f.Terminal? {
      return backoff, None, checks', true;
    }
    checks' := checks' + 1;
    if Done(checks' - 1, doneAt) {
      return backoff, None, checks', true;
    }
    return NextFetchBackoff(backoff), Some(backoff), checks', false;
  }

  lemma StillComplete(cfg: Config, fetches: seq<Fetch>, rounds: seq<Round>, round: Round)
    requires |rounds| < |fetches|
    requires forall r: nat | r < |rounds| :: Complete(cfg, fetches, rounds, r)
    ensures forall r: nat | r < |rounds| :: Complete(cfg, fetches, rounds + [round], r)
  {
    hide Resolutions, Backoff;
    forall r: nat | r < |rounds| ensures Complete(cfg, fetches, rounds + [round], r) {
      assert (rounds + [round])[r] == rounds[r] && Complete(cfg, fetches, rounds, r);
    }
  }

  /** Every fetch but the last is dealt with completely before the next one: all its messages are
      resolved, in order, and a failure is waited out for the backoff its run of failures calls for.
      The loop ends at the first check that reads the context as done, on a terminal error, or when no
      fetch returns any more. */
  method ConsumeLoop(cfg: Config, fetches: seq<Fetch>, doneAt: nat) returns (rounds: seq<Round>, done: bool, checks: nat)
    requires cfg.Valid()
    requires forall f | f in fetches && f.Batch? :: forall m | m in f.msgs :: m.count <= MAX_INT64
    ensures |rounds| <= |fetches|
    ensures forall r: nat | r + 1 < |rounds| :: Complete(cfg, fetches, rounds, r)
    ensures rounds != [] ==> Complete(cfg, fetches, rounds, |rounds| - 1)
                             || (Stopped(cfg, fetches, rounds, |rounds| - 1)
                                 && (done || fetches[|rounds| - 1].Terminal?))
    ensures done || |rounds| == |fetches| || (rounds != [] && fetches[|rounds| - 1].Terminal?)
    ensures checks <= doneAt + 1 && (done <==> checks == doneAt + 1)
  {
    hide Resolution, Resolutions, Backoff, NextFetchBackoff;
    rounds, done, checks := [], false, 0;
    var backoff := INITIAL_FETCH_BACKOFF;
    BackoffStep(0);
    while |rounds| < |fetches|
      invariant |rounds| <= |fetches|
      invariant forall r: nat | r < |rounds| :: Complete(cfg, fetches, rounds, r)
      invariant backoff == Backoff(FailuresBefore(fetches, |rounds|))
      invariant !done && checks <= doneAt
      decreases |fetches| - |rounds|
    {
      checks := checks + 1;
      if Done(checks - 1, doneAt) {
        return rounds, true, checks;
      }
      var f := fetches[|rounds|];
      if f.Batch? {
        assert f in fetches;
        backoff := INITIAL_FETCH_BACKOFF;
        var handled, checks', keepGoing := HandleBatch(cfg, f.msgs, checks, doneAt);
        checks := checks';
        StillComplete(cfg, fetches, rounds, Round(handled, None));
        rounds := rounds + [Round(handled, None)];
        if !keepGoing {
          return rounds, true, checks;
        }
      } else {
        var next, wait, checks', stop := HandleFetchError(f, backoff, checks, doneAt);
        checks := checks';
        StillComplete(cfg, fetches, rounds, Round([], wait));
        rounds := rounds + [Round([], wait)];
        if stop {
          return rounds, Done(checks - 1, doneAt), checks;
        }
        BackoffStep(FailuresBefore(fetches, |rounds| - 1));
        backoff := next;
      }
    }
  }
}
