/** The scope a batch must be approved for: a digest of its sorted path list (patchapply/patchapply.go). */
module BatchScopes {
  import opened Text
  import opened Approval

  /** Go's `<=` on strings. */
  predicate StringLE(a: string, b: string) {
    a == "" || (b != "" && (a[0] < b[0] || (a[0] == b[0] && StringLE(a[1..], b[1..]))))
  }

  lemma {:induction false} StringLETotal(a: string, b: string)
    ensures StringLE(a, b) || StringLE(b, a)
    ensures StringLE(a, b) && StringLE(b, a) ==> a == b
  {
    if a != "" && b != "" && a[0] == b[0] {
      StringLETotal(a[1..], b[1..]);
      assert a == [a[0]] + a[1..] && b == [b[0]] + b[1..];
    }
  }

  lemma {:induction false} StringLETransitive(a: string, b: string, c: string)
    requires StringLE(a, b) && StringLE(b, c)
    ensures StringLE(a, c)
  {
    if a != "" && a[0] == b[0] && b[0] == c[0] {
      StringLETransitive(a[1..], b[1..], c[1..]);
    }
  }

  ghost predicate Sorted(s: seq<string>) {
    forall i, j | 0 <= i < j < |s| :: StringLE(s[i], s[j])
  }

  function Insert(x: string, s: seq<string>): seq<string> {
    if s == [] || StringLE(x, s[0]) then [x] + s else [s[0]] + Insert(x, s[1..])
  }

  /** `sort.Strings` on a copy of the list. */
  function Sort(s: seq<string>): seq<string> {
    if s == [] then [] else Insert(s[0], Sort(s[1..]))
  }

  lemma {:induction false} InsertKeeps(x: string, s: seq<string>)
    ensures multiset(Insert(x, s)) == multiset(s) + multiset{x}
  {
    hide StringLE;
    if s != [] && !StringLE(x, s[0]) {
      InsertKeeps(x, s[1..]);
      assert s == [s[0]] + s[1..];
    }
  }

  lemma SortedCons(x: string, s: seq<string>)
    requires Sorted(s) && forall y | y in s :: StringLE(x, y)
    ensures Sorted([x] + s)
  {
    hide StringLE;
    var r := [x] + s;
    forall i, j | 0 <= i < j < |r| ensures StringLE(r[i], r[j]) {
      assert r[j] == s[j - 1] && s[j - 1] in s;
      if i > 0 {
        assert r[i] == s[i - 1];
      }
    }
  }

  lemma BelowHead(x: string, s: seq<string>)
    requires Sorted(s) && s != [] && StringLE(x, s[0])
    ensures forall y | y in s :: StringLE(x, y)
  {
    hide StringLE;
    forall j | 0 <= j < |s| ensures StringLE(x, s[j]) {
      if j > 0 {
        StringLETransitive(x, s[0], s[j]);
      }
    }
  }

  lemma {:induction false} InsertSorts(x: string, s: seq<string>)
    requires Sorted(s)
    ensures Sorted(Insert(x, s))
  {
    hide StringLE;
    if s != [] {
      var rest := s[1..];
      if StringLE(x, s[0]) {
        BelowHead(x, s);
        SortedCons(x, s);
      } else {
        StringLETotal(x, s[0]);
        InsertSorts(x, rest);
        InsertKeeps(x, rest);
        forall y | y in Insert(x, rest) ensures StringLE(s[0], y) {
          assert y in multiset(Insert(x, rest));
          assert y == x || y in rest;
        }
        SortedCons(s[0], Insert(x, rest));
      }
    }
  }

  lemma {:induction false} SortSorts(s: seq<string>)
    ensures Sorted(Sort(s)) && multiset(Sort(s)) == multiset(s)
  {
    hide Insert;
    if s != [] {
      SortSorts(s[1..]);
      InsertSorts(s[0], Sort(s[1..]));
      InsertKeeps(s[0], Sort(s[1..]));
      assert s == [s[0]] + s[1..];
    }
  }

  lemma SortedHead(a: seq<string>, x: string)
    requires Sorted(a) && a != [] && x in multiset(a)
    ensures StringLE(a[0], x)
  {
    var i :| 0 <= i < |a| && a[i] == x;
    StringLETotal(a[0], a[0]);
  }

  lemma TailMultiset(a: seq<string>)
    requires a != []
    ensures multiset(a[1..]) == multiset(a) - multiset{a[0]}
  {
    assert a == [a[0]] + a[1..];
  }

  /** A sorted list is determined by its elements. */
  lemma {:induction false} SortedUnique(a: seq<string>, b: seq<string>)
    requires Sorted(a) && Sorted(b) && multiset(a) == multiset(b)
    ensures a == b
  {
    hide StringLE, Sorted;
    assert |multiset(a)| == |a| && |multiset(b)| == |b|;
    if a != [] {
      SameHead(a, b);
      TailMultiset(a);
      TailMultiset(b);
      SortedTail(a);
      SortedTail(b);
      SortedUnique(a[1..], b[1..]);
      assert a == [a[0]] + a[1..] && b == [b[0]] + b[1..];
    }
  }

  lemma SortedTail(a: seq<string>)
    requires Sorted(a) && a != []
    ensures Sorted(a[1..])
  {
    hide StringLE;
  }

  lemma SameHead(a: seq<string>, b: seq<string>)
    requires Sorted(a) && Sorted(b) && multiset(a) == multiset(b) && a != [] && b != []
    ensures a[0] == b[0]
  {
    hide StringLE, Sorted;
    assert a[0] in multiset(a) && b[0] in multiset(b);
    SortedHead(a, b[0]);
    SortedHead(b, a[0]);
    StringLETotal(a[0], b[0]);
  }

  /** `batchResource`; `digest` is the hex form of SHA-256. */
  function BatchResource(digest: string -> string, paths: seq<string>): string {
    digest(Join(Sort(paths), '\0'))
  }

  function BatchScope(digest: string -> string, action: string, paths: seq<string>): Scope {
    Scope(action, BatchResource(digest, paths))
  }

  predicate Listable(paths: seq<string>) {
    forall p | p in paths :: p != "" && '\0' !in p
  }

  /**
   * Two batches need the same approval exactly when they ask for the same action and name the same paths
   * the same number of times: order is irrelevant, and no other list of paths shares the scope.
   */
  lemma BatchScopeExact(digest: string -> string, x: string, a: seq<string>, y: string, b: seq<string>)
    requires forall s, t :: digest(s) == digest(t) ==> s == t
    requires Listable(a) && Listable(b)
    ensures BatchScope(digest, x, a) == BatchScope(digest, y, b) <==> x == y && multiset(a) == multiset(b)
  {
    SortSorts(a);
    SortSorts(b);
    var sa, sb := Sort(a), Sort(b);
    forall p | p in sa ensures p in a { assert p in multiset(sa); }
    forall p | p in sb ensures p in b { assert p in multiset(sb); }
    if multiset(a) == multiset(b) {
      SortedUnique(sa, sb);
    }
    if Join(sa, '\0') == Join(sb, '\0') {
      assert sa != [] ==> sa[0] in sa && Join(sa, '\0') != "";
      assert sb != [] ==> sb[0] in sb && Join(sb, '\0') != "";
      if sa != [] {
        SplitJoin(sa, '\0');
        SplitJoin(sb, '\0');
      }
    }
  }
}
