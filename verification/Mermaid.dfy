/** Node identifiers of the exported dependency diagram (modulex.go). */
module Mermaid {
  import opened Text

  predicate IsSafeChar(c: char) {
    'A' <= c <= 'Z' || 'a' <= c <= 'z' || '0' <= c <= '9' || c == '_' || c == '-'
  }

  /** A name that needs no escaping. */
  predicate IsSafe(name: string) {
    name != "" && forall c | c in name :: IsSafeChar(c)
  }

  function Synthetic(n: nat): string {
    "n" + Itoa(n)
  }

  lemma SyntheticIsSafe(n: nat)
    ensures IsSafe(Synthetic(n))
  {
    hide Itoa;
    assert AllDigits(Itoa(n));
  }

  lemma SyntheticInjective(m: nat, n: nat)
    requires Synthetic(m) == Synthetic(n)
    ensures m == n
  {
    hide Itoa;
    assert Synthetic(m)[1..] == Itoa(m) && Synthetic(n)[1..] == Itoa(n);
    ItoaInjective(m, n);
  }

  /** The reserved identifiers the counter has passed. */
  ghost function Passed(reserved: set<string>, counter: nat): set<string> {
    set n: nat | n < counter && Synthetic(n) in reserved :: Synthetic(n)
  }

  /** The reserved identifiers still ahead of the counter; each time it is blocked there is one less. */
  ghost function Ahead(reserved: set<string>, counter: nat): set<string> {
    reserved - Passed(reserved, counter)
  }

  lemma AheadShrinks(reserved: set<string>, counter: nat)
    requires Synthetic(counter) in reserved
    ensures Ahead(reserved, counter + 1) < Ahead(reserved, counter)
  {
    hide Synthetic;
    var (before, after) := (Passed(reserved, counter), Passed(reserved, counter + 1));
    if Synthetic(counter) in before {
      var n: nat :| n < counter && Synthetic(n) == Synthetic(counter);
      SyntheticInjective(n, counter);
    }
    assert Synthetic(counter) in after && before <= after;
    assert Synthetic(counter) in Ahead(reserved, counter);
  }

  /** The first free identifier at or after the counter; the search ends. */
  method NextFree(reserved: set<string>, counter: nat) returns (free: nat)
    ensures free >= counter && Synthetic(free) !in reserved
    ensures forall n: nat | counter <= n < free :: Synthetic(n) in reserved
  {
    hide Ahead, Synthetic;
    free := counter;
    while Synthetic(free) in reserved
      invariant free >= counter
      invariant forall n: nat | counter <= n < free :: Synthetic(n) in reserved
      decreases Ahead(reserved, free)
    {
      AheadShrinks(reserved, free);
      free := free + 1;
    }
  }

  /** What the identifiers assigned so far satisfy. */
  ghost predicate Assigned(ids: map<string, string>, reserved: set<string>, counter: nat) {
    && (forall x | x in ids && IsSafe(x) :: ids[x] == x)
    && (forall x | x in ids && !IsSafe(x) :: ids[x] !in reserved
                                             && exists n: nat :: n < counter && ids[x] == Synthetic(n))
    && forall x, y | x in ids && y in ids && !IsSafe(x) && !IsSafe(y) && ids[x] == ids[y] :: x == y
  }

  lemma AssignFresh(ids: map<string, string>, reserved: set<string>, counter: nat, name: string, free: nat)
    requires Assigned(ids, reserved, counter) && name !in ids && !IsSafe(name)
    requires free >= counter && Synthetic(free) !in reserved
    ensures Assigned(ids[name := Synthetic(free)], reserved, free + 1)
  {
    hide IsSafe, Synthetic;
    forall x | x in ids && !IsSafe(x) ensures ids[x] != Synthetic(free) {
      var n: nat :| n < counter && ids[x] == Synthetic(n);
      if ids[x] == Synthetic(free) {
        SyntheticInjective(n, free);
      }
    }
  }

  /** Every name gets an identifier made of safe characters only, a safe name keeps itself, and no two
      names share one. */
  method NodeIDs(names: seq<string>) returns (ids: map<string, string>)
    ensures ids.Keys == set x | x in names
    ensures forall x | x in ids && IsSafe(x) :: ids[x] == x
    ensures forall x | x in ids :: IsSafe(ids[x])
    ensures forall x, y | x in ids && y in ids && ids[x] == ids[y] :: x == y
  {
    hide IsSafe, Synthetic;
    var reserved: set<string> := {};
    for i := 0 to |names|
      invariant forall x :: x in reserved <==> x in names[..i] && IsSafe(x)
    {
      assert names[..i + 1] == names[..i] + [names[i]];
      if IsSafe(names[i]) {
        reserved := reserved + {names[i]};
      }
    }
    assert names[..|names|] == names;
    ids := map[];
    var counter := 0;
    for i := 0 to |names|
      invariant forall x :: x in ids <==> x in names[..i]
      invariant Assigned(ids, reserved, counter)
    {
      assert names[..i + 1] == names[..i] + [names[i]];
      if names[i] in ids {
        continue;
      }
      if IsSafe(names[i]) {
        ids := ids[names[i] := names[i]];
        continue;
      }
      var free := NextFree(reserved, counter);
      AssignFresh(ids, reserved, counter, names[i], free);
      ids := ids[names[i] := Synthetic(free)];
      counter := free + 1;
    }
    Distinct(ids, reserved, counter);
  }

  lemma Distinct(ids: map<string, string>, reserved: set<string>, counter: nat)
    requires Assigned(ids, reserved, counter)
    requires forall x | x in ids && IsSafe(x) :: x in reserved
    ensures forall x | x in ids :: IsSafe(ids[x])
    ensures forall x, y | x in ids && y in ids && ids[x] == ids[y] :: x == y
  {
    hide IsSafe, Synthetic;
    forall x | x in ids ensures IsSafe(ids[x]) {
      if !IsSafe(x) {
        var n: nat :| n < counter && ids[x] == Synthetic(n);
        SyntheticIsSafe(n);
      }
    }
  }
}
