/** The approval broker and its file store (approval/approval.go, approval/broker.go, approval/store.go). */
module Approval {
  import opened Text

  datatype Scope = Scope(action: string, resource: string)

  /** Times are nanoseconds; 0 is Go's zero time. A digest is its number, whose order is the order of its hex form. */
  datatype Grant = Grant(
    token: string, tokenHash: nat, scope: Scope, approvedBy: string, approvedAt: int, expiresAt: int, used: bool)
  {
    predicate Expired(now: int) {
      expiresAt == 0 || now >= expiresAt
    }

    predicate Live(now: int) {
      !used && !Expired(now)
    }

    predicate Matches(s: Scope) {
      scope.action == s.action && scope.resource == s.resource
    }

    /** Earlier approval first, ties by digest. */
    predicate Before(other: Grant) {
      approvedAt < other.approvedAt || (approvedAt == other.approvedAt && tokenHash < other.tokenHash)
    }
  }

  type Grants = map<string, Grant>

  ghost predicate Injective(hash: string -> nat) {
    forall a: string, b: string :: hash(a) == hash(b) ==> a == b
  }

  /** Every grant is stored under its own token with the digest of that token. */
  ghost predicate Keyed(hash: string -> nat, gs: Grants) {
    forall t | t in gs :: gs[t].token == t && gs[t].tokenHash == hash(t)
  }

  /** The grants that can still authorise something. */
  function LiveAt(gs: Grants, now: int): Grants {
    map t | t in gs && gs[t].Live(now) :: gs[t]
  }

  /** `t` is the matching grant that precedes every other matching grant. */
  ghost predicate IsBest(gs: Grants, scope: Scope, t: string) {
    && t in gs && gs[t].Matches(scope)
    && forall u | u in gs && gs[u].Matches(scope) && u != t :: gs[t].Before(gs[u])
  }

  /** The grant a search by scope picks. */
  ghost function Best(gs: Grants, scope: Scope): Option<string> {
    if exists t :: IsBest(gs, scope, t) then
      var t :| IsBest(gs, scope, t);
      Some(t)
    else None
  }

  lemma BestIs(gs: Grants, scope: Scope, t: string)
    requires IsBest(gs, scope, t)
    ensures Best(gs, scope) == Some(t)
  {
    var u := Best(gs, scope).value;
    assert IsBest(gs, scope, u);
    assert u != t ==> gs[t].Before(gs[u]) && gs[u].Before(gs[t]);
  }

  lemma NoBest(gs: Grants, scope: Scope)
    requires forall t | t in gs :: !gs[t].Matches(scope)
    ensures Best(gs, scope).None?
  {
  }

  // ----- Calls -----

  datatype Call =
    | GrantCall(token: string, scope: Scope, approvedBy: string, ttl: int)
    | Check(scope: Scope)
    | CheckToken(token: string, scope: Scope)
    | DryRun(scope: Scope)
    | DryRunToken(token: string, scope: Scope)
    | SaveLoad

  datatype Refusal = EmptyAction | EmptyApprover | NonPositiveTTL

  datatype Answer = Granted(grant: Grant) | Refused(why: Refusal) | Pass | ApprovalRequired | Reloaded

  function Validate(scope: Scope, approvedBy: string, ttl: int): Option<Refusal> {
    if scope.action == "" then Some(EmptyAction)
    else if approvedBy == "" then Some(EmptyApprover)
    else if ttl <= 0 then Some(NonPositiveTTL)
    else None
  }

  function NewGrant(hash: string -> nat, token: string, scope: Scope, approvedBy: string, ttl: int, now: int): Grant {
    Grant(token, hash(token), scope, approvedBy, now, now + ttl, false)
  }

  /** The search on a set of live grants: by token if one is given, else the best match. */
  ghost function Found(live: Grants, token: Option<string>, scope: Scope): Option<string> {
    match token
    case Some(t) => if t != "" && t in live && live[t].Matches(scope) then Some(t) else None
    case None => Best(live, scope)
  }

  function Verdict(found: Option<string>): Answer {
    if found.Some? then Pass else ApprovalRequired
  }

  function MarkUsed(gs: Grants, found: Option<string>): Grants {
    if found.Some? && found.value in gs then gs[found.value := gs[found.value].(used := true)] else gs
  }

  /** A broker that never forgets a grant: it filters the live ones only to look. */
  ghost function SpecStep(hash: string -> nat, gs: Grants, now: int, call: Call): (Grants, Answer) {
    match call
    case GrantCall(token, scope, who, ttl) =>
      var bad := Validate(scope, who, ttl);
      if bad.Some? then (gs, Refused(bad.value))
      else
        var g := NewGrant(hash, token, scope, who, ttl, now);
        (gs[token := g], Granted(g))
    case Check(scope) =>
      var found := Found(LiveAt(gs, now), None, scope);
      (MarkUsed(gs, found), Verdict(found))
    case CheckToken(token, scope) =>
      var found := Found(LiveAt(gs, now), Some(token), scope);
      (MarkUsed(gs, found), Verdict(found))
    case DryRun(scope) => (gs, Verdict(Found(LiveAt(gs, now), None, scope)))
    case DryRunToken(token, scope) => (gs, Verdict(Found(LiveAt(gs, now), Some(token), scope)))
    case SaveLoad => (gs, Reloaded)
  }

  /** The broker as coded: it prunes on the way. An empty token is denied before anything is pruned. */
  ghost function ImplStep(hash: string -> nat, gs: Grants, now: int, call: Call): (Grants, Answer) {
    var live := LiveAt(gs, now);
    match call
    case GrantCall(token, scope, who, ttl) =>
      var bad := Validate(scope, who, ttl);
      if bad.Some? then (gs, Refused(bad.value))
      else
        var g := NewGrant(hash, token, scope, who, ttl, now);
        (live[token := g], Granted(g))
    case Check(scope) =>
      var found := Found(live, None, scope);
      (MarkUsed(live, found), Verdict(found))
    case CheckToken(token, scope) =>
      if token == "" then (gs, ApprovalRequired) else
        var found := Found(live, Some(token), scope);
        (MarkUsed(live, found), Verdict(found))
    case DryRun(scope) => (live, Verdict(Found(live, None, scope)))
    case DryRunToken(token, scope) =>
      if token == "" then (gs, ApprovalRequired) else (live, Verdict(Found(live, Some(token), scope)))
    case SaveLoad => (Loaded(hash, gs), Reloaded)
  }

  /** What `Load` rebuilds from a saved broker: digests are recomputed. */
  function Loaded(hash: string -> nat, gs: Grants): Grants {
    map t | t in gs :: gs[t].(token := t, tokenHash := hash(t))
  }

  datatype Timed = Timed(now: int, call: Call)

  ghost function SpecState(hash: string -> nat, calls: seq<Timed>): Grants {
    if calls == [] then map[] else
      var i := |calls| - 1;
      SpecStep(hash, SpecState(hash, calls[..i]), calls[i].now, calls[i].call).0
  }

  ghost function ImplState(hash: string -> nat, calls: seq<Timed>): Grants {
    if calls == [] then map[] else
      var i := |calls| - 1;
      ImplStep(hash, ImplState(hash, calls[..i]), calls[i].now, calls[i].call).0
  }

  /** What the never-pruning broker answers to call `i` of a history. */
  ghost function SpecAnswer(hash: string -> nat, calls: seq<Timed>, i: nat): Answer
    requires i < |calls|
  {
    SpecStep(hash, SpecState(hash, calls[..i]), calls[i].now, calls[i].call).1
  }

  /** What the coded broker answers to call `i` of a history. */
  ghost function ImplAnswer(hash: string -> nat, calls: seq<Timed>, i: nat): Answer
    requires i < |calls|
  {
    ImplStep(hash, ImplState(hash, calls[..i]), calls[i].now, calls[i].call).1
  }

  predicate ClockMonotone(calls: seq<Timed>) {
    forall i, j | 0 <= i < j < |calls| :: calls[i].now <= calls[j].now
  }

  // ----- Refinement -----

  /** Both brokers can authorise the same things from `now` on. */
  ghost predicate Agree(hash: string -> nat, impl: Grants, spec: Grants, now: int) {
    Keyed(hash, impl) && Keyed(hash, spec) && LiveAt(impl, now) == LiveAt(spec, now)
  }

  lemma LiveLater(a: Grants, b: Grants, now: int, later: int)
    requires LiveAt(a, now) == LiveAt(b, now) && now <= later
    ensures LiveAt(a, later) == LiveAt(b, later)
  {
    forall t | t in LiveAt(a, later) ensures t in LiveAt(b, later) && LiveAt(b, later)[t] == a[t] {
      assert t in LiveAt(a, now);
    }
    forall t | t in LiveAt(b, later) ensures t in LiveAt(a, later) {
      assert t in LiveAt(b, now);
    }
  }

  lemma LiveAfterUse(gs: Grants, found: Option<string>, now: int)
    requires found.Some? ==> found.value in gs
    ensures LiveAt(MarkUsed(gs, found), now) ==
            if found.Some? then LiveAt(gs, now) - {found.value} else LiveAt(gs, now)
  {
  }

  lemma LiveIdempotent(gs: Grants, now: int)
    ensures LiveAt(LiveAt(gs, now), now) == LiveAt(gs, now)
  {
  }

  lemma LiveAfterInsert(gs: Grants, t: string, g: Grant, now: int)
    ensures LiveAt(gs[t := g], now) == if g.Live(now) then LiveAt(gs, now)[t := g] else LiveAt(gs, now) - {t}
  {
  }

  lemma LiveInsert(a: Grants, b: Grants, t: string, g: Grant, now: int)
    requires LiveAt(a, now) == LiveAt(b, now)
    ensures LiveAt(a[t := g], now) == LiveAt(b[t := g], now)
  {
    LiveAfterInsert(a, t, g, now);
    LiveAfterInsert(b, t, g, now);
  }

  lemma FoundIsLive(live: Grants, token: Option<string>, scope: Scope)
    ensures Found(live, token, scope).Some? ==>
              Found(live, token, scope).value in live && live[Found(live, token, scope).value].Matches(scope)
  {
  }

  /** One call at a time no earlier than the last keeps the brokers in agreement and gives one answer. */
  lemma StepRefines(hash: string -> nat, impl: Grants, spec: Grants, last: int, now: int, call: Call)
    requires Agree(hash, impl, spec, last) && last <= now
    ensures ImplStep(hash, impl, now, call).1 == SpecStep(hash, spec, now, call).1
    ensures Agree(hash, ImplStep(hash, impl, now, call).0, SpecStep(hash, spec, now, call).0, now)
  {
    LiveLater(impl, spec, last, now);
    var live := LiveAt(impl, now);
    LiveIdempotent(impl, now);
    match call {
      case GrantCall(token, scope, who, ttl) =>
        LiveInsert(live, spec, token, NewGrant(hash, token, scope, who, ttl, now), now);
      case Check(scope) =>
        UseRefines(live, spec, Found(live, None, scope), now);
        FoundIsLive(live, None, scope);
      case CheckToken(token, scope) =>
        FoundIsLive(live, Some(token), scope);
        UseRefines(live, spec, Found(live, Some(token), scope), now);
      case DryRun(scope) =>
      case DryRunToken(token, scope) =>
      case SaveLoad =>
        assert Loaded(hash, impl) == impl;
    }
  }

  lemma UseRefines(live: Grants, spec: Grants, found: Option<string>, now: int)
    requires live == LiveAt(spec, now) && (found.Some? ==> found.value in live)
    ensures LiveAt(MarkUsed(live, found), now) == LiveAt(MarkUsed(spec, found), now)
  {
    LiveIdempotent(spec, now);
    LiveAfterUse(live, found, now);
    LiveAfterUse(spec, found, now);
  }

  lemma {:induction false} StatesAgree(hash: string -> nat, calls: seq<Timed>, now: int)
    requires ClockMonotone(calls)
    requires forall i | 0 <= i < |calls| :: calls[i].now <= now
    ensures Agree(hash, ImplState(hash, calls), SpecState(hash, calls), now)
  {
    if calls != [] {
      var i := |calls| - 1;
      StatesAgree(hash, calls[..i], calls[i].now);
      var impl, spec := ImplState(hash, calls[..i]), SpecState(hash, calls[..i]);
      StepRefines(hash, impl, spec, calls[i].now, calls[i].now, calls[i].call);
      LiveLater(ImplState(hash, calls), SpecState(hash, calls), calls[i].now, now);
    }
  }

  /** Pruning is unobservable: every call of every history gets the never-pruning broker's answer. */
  lemma BrokerRefines(hash: string -> nat, calls: seq<Timed>, i: nat)
    requires ClockMonotone(calls) && i < |calls|
    ensures ImplAnswer(hash, calls, i) == SpecAnswer(hash, calls, i)
  {
    StatesAgree(hash, calls[..i], calls[i].now);
    StepRefines(hash, ImplState(hash, calls[..i]), SpecState(hash, calls[..i]), calls[i].now, calls[i].now, calls[i].call);
  }

  // ----- Reads and restarts leave no trace -----

  predicate LeavesNoTrace(call: Call) {
    call.DryRun? || call.DryRunToken? || call.SaveLoad?
  }

  lemma SpecKeepsState(hash: string -> nat, gs: Grants, now: int, call: Call)
    requires LeavesNoTrace(call)
    ensures SpecStep(hash, gs, now, call).0 == gs
  {
  }

  lemma {:induction false} SpecStateSkips(hash: string -> nat, a: seq<Timed>, x: Timed, b: seq<Timed>)
    requires LeavesNoTrace(x.call)
    ensures SpecState(hash, a + [x] + b) == SpecState(hash, a + b)
    decreases |b|
  {
    hide SpecStep;
    if b == [] {
      SpecKeepsState(hash, SpecState(hash, a), x.now, x.call);
      assert (a + [x] + b)[..|a|] == a && a + b == a;
    } else {
      var i := |b| - 1;
      SpecStateSkips(hash, a, x, b[..i]);
      assert (a + [x] + b)[..|a| + 1 + i] == a + [x] + b[..i];
      assert (a + b)[..|a| + i] == a + b[..i];
    }
  }

  /** Inserting a dry run or a save and reload anywhere changes no later answer. */
  lemma InsertionInvisible(hash: string -> nat, a: seq<Timed>, x: Timed, b: seq<Timed>, i: nat)
    requires ClockMonotone(a + [x] + b) && LeavesNoTrace(x.call) && i < |b|
    ensures ImplAnswer(hash, a + [x] + b, |a| + 1 + i) == ImplAnswer(hash, a + b, |a| + i)
  {
    hide SpecStep, ImplStep, SpecState, ImplState;
    var with, without := a + [x] + b, a + b;
    assert forall k | 0 <= k < |without| :: without[k] == with[if k < |a| then k else k + 1];
    BrokerRefines(hash, with, |a| + 1 + i);
    BrokerRefines(hash, without, |a| + i);
    SpecStateSkips(hash, a, x, b[..i]);
    assert with[..|a| + 1 + i] == a + [x] + b[..i];
    assert without[..|a| + i] == a + b[..i];
  }

  // ----- Every pass is paid for by one grant -----

  /** The grant that call `i` consumes, if it consumes one. */
  ghost function Charge(hash: string -> nat, calls: seq<Timed>, i: nat): Option<string>
    requires i < |calls|
  {
    var live := LiveAt(SpecState(hash, calls[..i]), calls[i].now);
    match calls[i].call
    case Check(scope) => Found(live, None, scope)
    case CheckToken(token, scope) => Found(live, Some(token), scope)
    case _ => None
  }

  predicate Consumes(call: Call) {
    call.Check? || call.CheckToken?
  }

  /** Fresh random tokens: no two grants of the history share one. */
  predicate UniqueTokens(calls: seq<Timed>) {
    forall i, j | 0 <= i < j < |calls| && calls[i].call.GrantCall? && calls[j].call.GrantCall? ::
      calls[i].call.token != calls[j].call.token
  }

  /** Call `j` granted token `t`, and `g` is that grant, perhaps used since. */
  predicate GrantedAt(hash: string -> nat, calls: seq<Timed>, j: nat, t: string, g: Grant) {
    && j < |calls| && calls[j].call.GrantCall? && calls[j].call.token == t
    && var c := calls[j].call;
    && Validate(c.scope, c.approvedBy, c.ttl).None?
    && g.(used := false) == NewGrant(hash, t, c.scope, c.approvedBy, c.ttl, calls[j].now)
  }

  lemma {:induction false} Origin(hash: string -> nat, calls: seq<Timed>, t: string) returns (j: nat)
    requires t in SpecState(hash, calls)
    ensures GrantedAt(hash, calls, j, t, SpecState(hash, calls)[t])
    decreases |calls|
  {
    var i := |calls| - 1;
    var before := SpecState(hash, calls[..i]);
    if calls[i].call.GrantCall? && calls[i].call.token == t && SpecAnswer(hash, calls, i).Granted? {
      j := i;
    } else {
      j := Origin(hash, calls[..i], t);
    }
  }

  lemma UsedStays(hash: string -> nat, gs: Grants, now: int, call: Call, t: string)
    requires t in gs && gs[t].used && (call.GrantCall? ==> call.token != t)
    ensures t in SpecStep(hash, gs, now, call).0 && SpecStep(hash, gs, now, call).0[t].used
  {
    hide Found, LiveAt;
  }

  lemma ChargedIsUsed(hash: string -> nat, calls: seq<Timed>, k: nat, t: string)
    requires k < |calls| && Charge(hash, calls, k) == Some(t)
    ensures var gs := SpecStep(hash, SpecState(hash, calls[..k]), calls[k].now, calls[k].call).0;
            t in gs && gs[t].used
  {
    hide SpecState, Found;
    var live := LiveAt(SpecState(hash, calls[..k]), calls[k].now);
    if calls[k].call.Check? {
      FoundIsLive(live, None, calls[k].call.scope);
    } else {
      FoundIsLive(live, Some(calls[k].call.token), calls[k].call.scope);
    }
  }

  lemma {:induction false} ChargedStaysUsed(hash: string -> nat, calls: seq<Timed>, k: nat, n: nat, t: string)
    requires UniqueTokens(calls) && k < n <= |calls| && Charge(hash, calls, k) == Some(t)
    ensures t in SpecState(hash, calls[..n]) && SpecState(hash, calls[..n])[t].used
    decreases n
  {
    hide SpecStep, Charge;
    var i := n - 1;
    assert calls[..n][..i] == calls[..i];
    if k == i {
      ChargedIsUsed(hash, calls, k, t);
    } else {
      ChargedStaysUsed(hash, calls, k, i, t);
      var j := Origin(hash, calls[..i], t);
      assert calls[i].call.GrantCall? ==> calls[i].call.token != t;
      UsedStays(hash, SpecState(hash, calls[..i]), calls[i].now, calls[i].call, t);
    }
  }

  /**
   * Each pass of `Check` or `CheckToken` is charged to an earlier, unexpired grant of exactly that
   * scope, and no two passes of a history are charged to the same grant.
   */
  lemma EveryPassIsCharged(hash: string -> nat, calls: seq<Timed>, i: nat) returns (t: string, j: nat)
    requires ClockMonotone(calls) && UniqueTokens(calls) && i < |calls|
    requires Consumes(calls[i].call) && ImplAnswer(hash, calls, i) == Pass
    ensures Charge(hash, calls, i) == Some(t)
    ensures j < i && calls[j].call.GrantCall? && calls[j].call.token == t && ImplAnswer(hash, calls, j).Granted?
    ensures calls[j].call.scope == calls[i].call.scope
    ensures calls[j].now <= calls[i].now < calls[j].now + calls[j].call.ttl
    ensures calls[i].call.CheckToken? ==> calls[i].call.token == t
    ensures forall k | 0 <= k < |calls| && k != i :: Charge(hash, calls, k) != Some(t)
  {
    BrokerRefines(hash, calls, i);
    var state := SpecState(hash, calls[..i]);
    t := Charge(hash, calls, i).value;
    FoundIsLive(LiveAt(state, calls[i].now), None, calls[i].call.scope);
    assert t in state && state[t].Live(calls[i].now) && state[t].Matches(calls[i].call.scope);
    j := Origin(hash, calls[..i], t);
    forall k | 0 <= k < |calls| && k != i ensures Charge(hash, calls, k) != Some(t) {
      if Charge(hash, calls, k) == Some(t) {
        if k < i {
          ChargedStaysUsed(hash, calls, k, i, t);
        } else {
          ChargedStaysUsed(hash, calls, i, k, t);
          FoundIsLive(LiveAt(SpecState(hash, calls[..k]), calls[k].now), None, calls[k].call.scope);
        }
        assert false;
      }
    }
  }

  // ----- The broker object -----

  datatype StoredGrant = StoredGrant(
    token: string, scope: Scope, approvedBy: string, approvedAt: int, expiresAt: int, used: bool)

  class Broker {
    const hash: string -> nat
    var grants: Grants

    ghost predicate Valid()
      reads this
    {
      Injective(hash) && Keyed(hash, grants)
    }

    constructor (hash: string -> nat)
      requires Injective(hash)
      ensures Valid() && grants == map[] && this.hash == hash
    {
      this.hash := hash;
      grants := map[];
    }

    /** Deletes dead grants one by one, in whatever order the map is iterated. */
    method Prune(now: int)
      modifies this
      ensures grants == LiveAt(old(grants), now)
    {
      var rest := grants.Keys;
      while rest != {}
        invariant rest <= old(grants).Keys
        invariant grants == map t | t in old(grants) && (t in rest || old(grants)[t].Live(now)) :: old(grants)[t]
        decreases rest
      {
        var t :| t in rest;
        if grants[t].used || grants[t].Expired(now) {
          grants := grants - {t};
        }
        rest := rest - {t};
      }
    }

    /** The result is determined, although the iteration order is not. */
    method FindMatch(token: string, scope: Scope, now: int) returns (found: Option<string>)
      requires Valid()
      modifies this
      ensures Valid() && grants == LiveAt(old(grants), now)
      ensures found == Found(grants, if token == "" then None else Some(token), scope)
    {
      Prune(now);
      if token != "" {
        found := if token in grants && grants[token].Matches(scope) then Some(token) else None;
        return;
      }
      found := None;
      var rest := grants.Keys;
      while rest != {}
        invariant rest <= grants.Keys
        invariant found.Some? ==> found.value in grants && grants[found.value].Matches(scope)
        invariant forall t | t in grants && t !in rest && grants[t].Matches(scope) ::
                    found.Some? && (t == found.value || grants[found.value].Before(grants[t]))
        decreases rest
      {
        var t :| t in rest;
        if grants[t].Matches(scope) && (found.None? || grants[t].Before(grants[found.value])) {
          found := Some(t);
        }
        rest := rest - {t};
      }
      if found.Some? {
        BestIs(grants, scope, found.value);
      } else {
        NoBest(grants, scope);
      }
    }

    method GrantFor(token: string, scope: Scope, approvedBy: string, ttl: int, now: int) returns (answer: Answer)
      requires Valid()
      modifies this
      ensures Valid()
      ensures (grants, answer) == ImplStep(hash, old(grants), now, GrantCall(token, scope, approvedBy, ttl))
    {
      var bad := Validate(scope, approvedBy, ttl);
      if bad.Some? {
        return Refused(bad.value);
      }
      var g := NewGrant(hash, token, scope, approvedBy, ttl, now);
      Prune(now);
      grants := grants[token := g];
      answer := Granted(g);
    }

    method CheckScope(scope: Scope, now: int) returns (answer: Answer)
      requires Valid()
      modifies this
      ensures Valid()
      ensures (grants, answer) == ImplStep(hash, old(grants), now, Check(scope))
    {
      var found := FindMatch("", scope, now);
      if found.None? {
        return ApprovalRequired;
      }
      grants := grants[found.value := grants[found.value].(used := true)];
      answer := Pass;
    }

    method CheckWithToken(token: string, scope: Scope, now: int) returns (answer: Answer)
      requires Valid()
      modifies this
      ensures Valid()
      ensures (grants, answer) == ImplStep(hash, old(grants), now, CheckToken(token, scope))
    {
      if token == "" {
        return ApprovalRequired;
      }
      var found := FindMatch(token, scope, now);
      if found.None? {
        return ApprovalRequired;
      }
      grants := grants[found.value := grants[found.value].(used := true)];
      answer := Pass;
    }

    method DryRunScope(scope: Scope, now: int) returns (answer: Answer)
      requires Valid()
      modifies this
      ensures Valid()
      ensures (grants, answer) == ImplStep(hash, old(grants), now, DryRun(scope))
    {
      var found := FindMatch("", scope, now);
      answer := if found.None? then ApprovalRequired else Pass;
    }

    method DryRunWithToken(token: string, scope: Scope, now: int) returns (answer: Answer)
      requires Valid()
      modifies this
      ensures Valid()
      ensures (grants, answer) == ImplStep(hash, old(grants), now, DryRunToken(token, scope))
    {
      if token == "" {
        return ApprovalRequired;
      }
      var found := FindMatch(token, scope, now);
      answer := if found.None? then ApprovalRequired else Pass;
    }
  }

  /** What `Load` puts into a fresh broker, entry by entry. */
  function FromStored(hash: string -> nat, stored: seq<StoredGrant>): Grants {
    if stored == [] then map[] else
      var s := stored[|stored| - 1];
      FromStored(hash, stored[..|stored| - 1])[s.token :=
        Grant(s.token, hash(s.token), s.scope, s.approvedBy, s.approvedAt, s.expiresAt, s.used)]
  }

  lemma FromStoredSnoc(hash: string -> nat, stored: seq<StoredGrant>, s: StoredGrant)
    ensures FromStored(hash, stored + [s]) ==
            FromStored(hash, stored)[s.token :=
              Grant(s.token, hash(s.token), s.scope, s.approvedBy, s.approvedAt, s.expiresAt, s.used)]
  {
    assert (stored + [s])[..|stored|] == stored;
  }

  /** The grants that are not waiting in `rest` any more. */
  function SavedSoFar(grants: Grants, rest: set<string>): Grants {
    map t | t in grants && t !in rest :: grants[t]
  }

  lemma SaveOneMore(grants: Grants, rest: set<string>, t: string)
    requires t in rest && t in grants
    ensures SavedSoFar(grants, rest - {t}) == SavedSoFar(grants, rest)[t := grants[t]]
  {
  }

  lemma NothingSaved(hash: string -> nat, grants: Grants)
    ensures FromStored(hash, []) == SavedSoFar(grants, grants.Keys)
  {
  }

  lemma AllSaved(grants: Grants)
    ensures SavedSoFar(grants, {}) == grants
  {
  }

  /** The file on disk, if any. */
  class FileStore {
    var file: Option<seq<StoredGrant>>

    constructor ()
      ensures file.None?
    {
      file := None;
    }

    /** The list is in map iteration order; whatever that is, loading it gives the saved grants back. */
    method Save(b: Broker)
      requires b.Valid()
      modifies this
      ensures file.Some? && FromStored(b.hash, file.value) == b.grants
    {
      hide FromStored, SavedSoFar;
      assert FromStored(b.hash, []) == SavedSoFar(b.grants, b.grants.Keys) by { NothingSaved(b.hash, b.grants); }
      var stored: seq<StoredGrant> := [];
      var rest := b.grants.Keys;
      while rest != {}
        invariant unchanged(b)
        invariant rest <= b.grants.Keys
        invariant FromStored(b.hash, stored) == SavedSoFar(b.grants, rest)
        decreases rest
      {
        var t :| t in rest;
        var g := b.grants[t];
        var s := StoredGrant(g.token, g.scope, g.approvedBy, g.approvedAt, g.expiresAt, g.used);
        FromStoredSnoc(b.hash, stored, s);
        SaveOneMore(b.grants, rest, t);
        stored := stored + [s];
        rest := rest - {t};
      }
      AllSaved(b.grants);
      file := Some(stored);
    }

    method Load(hash: string -> nat) returns (b: Broker)
      requires Injective(hash)
      ensures fresh(b) && b.Valid() && b.hash == hash
      ensures b.grants == if file.None? then map[] else FromStored(hash, file.value)
    {
      b := new Broker(hash);
      if file.Some? {
        var stored := file.value;
        for i := 0 to |stored|
          invariant b.Valid() && b.hash == hash && fresh(b)
          invariant b.grants == FromStored(hash, stored[..i])
        {
          var s := stored[i];
          assert stored[..i + 1][..i] == stored[..i];
          b.grants := b.grants[s.token :=
            Grant(s.token, hash(s.token), s.scope, s.approvedBy, s.approvedAt, s.expiresAt, s.used)];
        }
        assert stored[..|stored|] == stored;
      }
    }
  }

  /** A save followed by a load is a broker with the same grants: the model's `SaveLoad` call. */
  method SaveThenLoad(store: FileStore, b: Broker) returns (b': Broker)
    requires b.Valid()
    modifies store
    ensures b'.Valid() && b'.hash == b.hash
    ensures (b'.grants, Reloaded) == ImplStep(b.hash, old(b.grants), 0, SaveLoad)
  {
    store.Save(b);
    b' := store.Load(b.hash);
    assert Loaded(b.hash, b.grants) == b.grants;
  }
}
