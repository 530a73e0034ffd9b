/** The approval broker read off its calls alone (approval/approval.go, approval/broker.go). */
module ApprovalHistory {
  import opened Approval
  import opened Text

  predicate Queries(call: Call) {
    Consumes(call) || call.DryRun? || call.DryRunToken?
  }

  /** Call `j` is a grant with an action, an approver and a positive lifetime. */
  predicate Accepted(calls: seq<Timed>, j: nat) {
    && j < |calls| && calls[j].call.GrantCall?
    && calls[j].call.scope.action != "" && calls[j].call.approvedBy != "" && calls[j].call.ttl > 0
  }

  /** Grant `j` came before query `i`, is of its scope, is the one it names if it names one, and has not run out. */
  predicate Covers(calls: seq<Timed>, j: nat, i: nat) {
    && j < i < |calls| && Accepted(calls, j) && Queries(calls[i].call)
    && calls[i].call.scope == calls[j].call.scope
    && (calls[i].call.CheckToken? || calls[i].call.DryRunToken? ==>
          calls[i].call.token != "" && calls[i].call.token == calls[j].call.token)
    && calls[i].now < calls[j].now + calls[j].call.ttl
    && calls[j].now + calls[j].call.ttl != 0
  }

  /** Grant `j` covers query `i` and no earlier call was paid with it. */
  ghost predicate Open(hash: string -> nat, calls: seq<Timed>, j: nat, i: nat)
    ensures Open(hash, calls, j, i) ==> Covers(calls, j, i)
    decreases i, 1
  {
    Covers(calls, j, i) && !PaidBefore(hash, calls, j, i)
  }

  ghost predicate PaidBefore(hash: string -> nat, calls: seq<Timed>, j: nat, i: nat)
    requires i <= |calls|
    decreases i, 0
  {
    exists k: nat :: k < i && Consumes(calls[k].call) && Pays(hash, calls, k, j)
  }

  /** The grant made earlier, and at one instant the one with the smaller digest. */
  predicate MadeBefore(hash: string -> nat, calls: seq<Timed>, j: nat, other: nat)
    requires Accepted(calls, j) && Accepted(calls, other)
  {
    || calls[j].now < calls[other].now
    || (calls[j].now == calls[other].now && hash(calls[j].call.token) < hash(calls[other].call.token))
  }

  /** Call `i` is a check and `j` is the first made of the grants open to it. */
  ghost predicate Pays(hash: string -> nat, calls: seq<Timed>, i: nat, j: nat)
    decreases i, 2
  {
    && i < |calls| && Consumes(calls[i].call) && Open(hash, calls, j, i)
    && forall other: nat | other != j && other < i && Open(hash, calls, other, i) :: MadeBefore(hash, calls, j, other)
  }

  /** What the grants of the first `n` calls must look like. */
  function Entry(hash: string -> nat, made: Timed, used: bool): Grant
    requires made.call.GrantCall?
  {
    var c := made.call;
    Grant(c.token, hash(c.token), c.scope, c.approvedBy, made.now, made.now + c.ttl, used)
  }

  ghost predicate Reflects(hash: string -> nat, calls: seq<Timed>, n: nat, gs: Grants)
    requires n <= |calls|
  {
    && (forall t | t in gs :: exists j: nat :: j < n && Accepted(calls, j) && calls[j].call.token == t)
    && forall j: nat | j < n && Accepted(calls, j) ::
         calls[j].call.token in gs && gs[calls[j].call.token] == Entry(hash, calls[j], PaidBefore(hash, calls, j, n))
  }

  /** With distinct digests, some matching grant comes before all the others. */
  lemma BestExists(hash: string -> nat, gs: Grants, scope: Scope, t: string)
    requires Injective(hash) && Keyed(hash, gs) && t in gs && gs[t].Matches(scope)
    ensures Best(gs, scope).Some? && IsBest(gs, scope, Best(gs, scope).value)
  {
    var best, rest := t, gs.Keys - {t};
    while rest != {}
      invariant rest <= gs.Keys && best in gs && best !in rest && gs[best].Matches(scope)
      invariant forall u | u in gs && u !in rest && u != best && gs[u].Matches(scope) :: gs[best].Before(gs[u])
      decreases rest
    {
      var u :| u in rest;
      rest := rest - {u};
      if gs[u].Matches(scope) && gs[u].Before(gs[best]) {
        best := u;
      }
    }
    BestIs(gs, scope, best);
  }

  /** The token a query names. */
  function Named(call: Call): Option<string>
    requires Queries(call)
  {
    if call.CheckToken? || call.DryRunToken? then Some(call.token) else None
  }

  predicate Fits(call: Call, gs: Grants, t: string)
    requires Queries(call)
  {
    t in gs && gs[t].Matches(call.scope) && (Named(call).Some? ==> call.token != "" && call.token == t)
  }

  lemma OpenIsLive(hash: string -> nat, calls: seq<Timed>, i: nat, gs: Grants, j: nat)
    requires i < |calls| && Queries(calls[i].call) && Reflects(hash, calls, i, gs) && j < i && Accepted(calls, j)
    ensures Open(hash, calls, j, i) <==> Fits(calls[i].call, LiveAt(gs, calls[i].now), calls[j].call.token)
  {
    var g := gs[calls[j].call.token];
    assert g == Entry(hash, calls[j], PaidBefore(hash, calls, j, i));
  }

  lemma FoundFits(hash: string -> nat, live: Grants, call: Call, t: string)
    requires Injective(hash) && Keyed(hash, live) && Queries(call) && Fits(call, live, t)
    ensures Found(live, Named(call), call.scope).Some?
    ensures Fits(call, live, Found(live, Named(call), call.scope).value)
  {
    if Named(call).None? {
      BestExists(hash, live, call.scope, t);
    }
  }

  lemma ReflectsKeyed(hash: string -> nat, calls: seq<Timed>, n: nat, gs: Grants)
    requires n <= |calls| && Reflects(hash, calls, n, gs)
    ensures Keyed(hash, gs)
  {
  }

  /** The search finds something exactly when a grant is open to the query. */
  lemma FoundIffOpen(hash: string -> nat, calls: seq<Timed>, i: nat, gs: Grants)
    requires Injective(hash) && i < |calls| && Queries(calls[i].call) && Reflects(hash, calls, i, gs)
    ensures var found := Found(LiveAt(gs, calls[i].now), Named(calls[i].call), calls[i].call.scope);
            found.Some? <==> exists j: nat :: Open(hash, calls, j, i)
  {
    hide Open, PaidBefore;
    var call, live := calls[i].call, LiveAt(gs, calls[i].now);
    var found := Found(live, Named(call), call.scope);
    ReflectsKeyed(hash, calls, i, gs);
    if found.Some? {
      FoundIsLive(live, Named(call), call.scope);
      var j: nat :| j < i && Accepted(calls, j) && calls[j].call.token == found.value;
      OpenIsLive(hash, calls, i, gs, j);
    }
    if j: nat :| Open(hash, calls, j, i) {
      OpenIsLive(hash, calls, i, gs, j);
      FoundFits(hash, live, call, calls[j].call.token);
    }
  }

  /** What a check consumes is the grant that pays for it. */
  lemma FoundIffPays(hash: string -> nat, calls: seq<Timed>, i: nat, gs: Grants, j: nat)
    requires Injective(hash) && UniqueTokens(calls)
    requires i < |calls| && Consumes(calls[i].call) && Reflects(hash, calls, i, gs) && j < i && Accepted(calls, j)
    ensures Found(LiveAt(gs, calls[i].now), Named(calls[i].call), calls[i].call.scope) == Some(calls[j].call.token)
            <==> Pays(hash, calls, i, j)
  {
    hide Open, PaidBefore;
    var call, live := calls[i].call, LiveAt(gs, calls[i].now);
    var found := Found(live, Named(call), call.scope);
    ReflectsKeyed(hash, calls, i, gs);
    OpenIsLive(hash, calls, i, gs, j);
    if found == Some(calls[j].call.token) {
      FoundIsLive(live, Named(call), call.scope);
      forall other: nat | other != j && other < i && Open(hash, calls, other, i)
        ensures MadeBefore(hash, calls, j, other)
      {
        OpenIsLive(hash, calls, i, gs, other);
        FoundPrecedes(hash, live, call, calls[j].call.token, calls[other].call.token);
        EntryAt(hash, calls, i, gs, j);
        EntryAt(hash, calls, i, gs, other);
      }
    } else if Pays(hash, calls, i, j) {
      FoundFits(hash, live, call, calls[j].call.token);
      var k: nat :| k < i && Accepted(calls, k) && calls[k].call.token == found.value;
      OpenIsLive(hash, calls, i, gs, k);
      FoundPrecedes(hash, live, call, calls[k].call.token, calls[j].call.token);
      EntryAt(hash, calls, i, gs, j);
      EntryAt(hash, calls, i, gs, k);
      assert false;
    }
  }

  lemma EntryAt(hash: string -> nat, calls: seq<Timed>, n: nat, gs: Grants, j: nat)
    requires n <= |calls| && Reflects(hash, calls, n, gs) && j < n && Accepted(calls, j)
    ensures calls[j].call.token in gs
    ensures gs[calls[j].call.token].approvedAt == calls[j].now
    ensures gs[calls[j].call.token].tokenHash == hash(calls[j].call.token)
  {
  }

  /** The grant found precedes every other one that fits the query. */
  lemma FoundPrecedes(hash: string -> nat, live: Grants, call: Call, t: string, u: string)
    requires Injective(hash) && Keyed(hash, live) && Queries(call)
    requires Found(live, Named(call), call.scope) == Some(t) && Fits(call, live, u) && t != u
    ensures t in live && live[t].Before(live[u])
  {
    if Named(call).None? {
      BestExists(hash, live, call.scope, u);
    }
  }

  lemma PaidLater(hash: string -> nat, calls: seq<Timed>, j: nat, i: nat)
    requires i < |calls|
    ensures PaidBefore(hash, calls, j, i + 1) <==> PaidBefore(hash, calls, j, i) || Pays(hash, calls, i, j)
  {
    if PaidBefore(hash, calls, j, i + 1) {
      var k: nat :| k < i + 1 && Consumes(calls[k].call) && Pays(hash, calls, k, j);
    }
    if PaidBefore(hash, calls, j, i) {
      var k: nat :| k < i && Consumes(calls[k].call) && Pays(hash, calls, k, j);
      assert k < i + 1;
    }
  }

  lemma ReflectsCheck(hash: string -> nat, calls: seq<Timed>, i: nat, gs: Grants)
    requires Injective(hash) && UniqueTokens(calls)
    requires i < |calls| && Consumes(calls[i].call) && Reflects(hash, calls, i, gs)
    ensures Reflects(hash, calls, i + 1, SpecStep(hash, gs, calls[i].now, calls[i].call).0)
  {
    hide Pays, PaidBefore, Found, LiveAt;
    var gs' := SpecStep(hash, gs, calls[i].now, calls[i].call).0;
    var found := Found(LiveAt(gs, calls[i].now), Named(calls[i].call), calls[i].call.scope);
    assert gs' == MarkUsed(gs, found);
    forall j: nat | j < i + 1 && Accepted(calls, j)
      ensures calls[j].call.token in gs'
      ensures gs'[calls[j].call.token] == Entry(hash, calls[j], PaidBefore(hash, calls, j, i + 1))
    {
      FoundIffPays(hash, calls, i, gs, j);
      PaidLater(hash, calls, j, i);
    }
  }

  lemma ReflectsOther(hash: string -> nat, calls: seq<Timed>, i: nat, gs: Grants)
    requires UniqueTokens(calls) && i < |calls| && !Consumes(calls[i].call) && Reflects(hash, calls, i, gs)
    ensures Reflects(hash, calls, i + 1, SpecStep(hash, gs, calls[i].now, calls[i].call).0)
  {
    hide PaidBefore, Found, LiveAt;
    var gs' := SpecStep(hash, gs, calls[i].now, calls[i].call).0;
    forall j: nat | j < i + 1 && Accepted(calls, j)
      ensures calls[j].call.token in gs'
      ensures gs'[calls[j].call.token] == Entry(hash, calls[j], PaidBefore(hash, calls, j, i + 1))
    {
      PaidLater(hash, calls, j, i);
      if j == i {
        NeverPaidYet(hash, calls, i);
      }
    }
  }

  lemma NeverPaidYet(hash: string -> nat, calls: seq<Timed>, j: nat)
    requires j <= |calls|
    ensures !PaidBefore(hash, calls, j, j)
  {
  }

  lemma {:induction false} StateReflects(hash: string -> nat, calls: seq<Timed>, n: nat)
    requires Injective(hash) && UniqueTokens(calls) && n <= |calls|
    ensures Reflects(hash, calls, n, SpecState(hash, calls[..n]))
  {
    hide SpecStep;
    if n > 0 {
      var i := n - 1;
      StateReflects(hash, calls, i);
      var gs := SpecState(hash, calls[..i]);
      assert calls[..n][..i] == calls[..i];
      if Consumes(calls[i].call) {
        ReflectsCheck(hash, calls, i, gs);
      } else {
        ReflectsOther(hash, calls, i, gs);
      }
    }
  }

  /** A check or a dry run passes exactly when some earlier grant is open to it. */
  lemma PassExactly(hash: string -> nat, calls: seq<Timed>, i: nat)
    requires Injective(hash) && ClockMonotone(calls) && UniqueTokens(calls) && i < |calls| && Queries(calls[i].call)
    ensures ImplAnswer(hash, calls, i) ==
            if exists j: nat :: Open(hash, calls, j, i) then Pass else ApprovalRequired
  {
    BrokerRefines(hash, calls, i);
    StateReflects(hash, calls, i);
    FoundIffOpen(hash, calls, i, SpecState(hash, calls[..i]));
  }

  /** What a check consumes is, of the grants open to it, the one made first. */
  lemma ChargeExactly(hash: string -> nat, calls: seq<Timed>, i: nat, j: nat)
    requires Injective(hash) && UniqueTokens(calls) && i < |calls| && j < i && Accepted(calls, j)
    ensures Charge(hash, calls, i) == Some(calls[j].call.token) <==> Pays(hash, calls, i, j)
  {
    if Consumes(calls[i].call) {
      StateReflects(hash, calls, i);
      FoundIffPays(hash, calls, i, SpecState(hash, calls[..i]), j);
    }
  }

  /** A grant call is answered with the grant it asked for, or with the first thing wrong with it. */
  lemma GrantExactly(hash: string -> nat, calls: seq<Timed>, j: nat)
    requires ClockMonotone(calls) && j < |calls| && calls[j].call.GrantCall?
    ensures Accepted(calls, j) <==> ImplAnswer(hash, calls, j) == Granted(Entry(hash, calls[j], false))
    ensures ImplAnswer(hash, calls, j) == Refused(EmptyAction) <==> calls[j].call.scope.action == ""
    ensures ImplAnswer(hash, calls, j) == Refused(EmptyApprover) <==>
            calls[j].call.scope.action != "" && calls[j].call.approvedBy == ""
    ensures ImplAnswer(hash, calls, j) == Refused(NonPositiveTTL) <==>
            calls[j].call.scope.action != "" && calls[j].call.approvedBy != "" && calls[j].call.ttl <= 0
  {
  }

  /** A dry run answers what the check would answer in its place. */
  lemma DryRunForetells(hash: string -> nat, calls: seq<Timed>, now: int, scope: Scope, token: string)
    ensures ImplAnswer(hash, calls + [Timed(now, DryRun(scope))], |calls|) ==
            ImplAnswer(hash, calls + [Timed(now, Check(scope))], |calls|)
    ensures ImplAnswer(hash, calls + [Timed(now, DryRunToken(token, scope))], |calls|) ==
            ImplAnswer(hash, calls + [Timed(now, CheckToken(token, scope))], |calls|)
  {
    hide ImplState, Found, LiveAt;
    forall x: Timed ensures (calls + [x])[..|calls|] == calls {
    }
  }
}
