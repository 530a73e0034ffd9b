/** The CHANGELOG.md exception of the protected-path gate (review/protectedpaths.go). */
module Changelog {
  import opened Text
  import opened DiffText
  import opened ProtectedPaths

  predicate IsUnreleased(line: string) {
    HasPrefix(line, "## [Unreleased]")
  }

  predicate IsVersionHeader(line: string) {
    HasPrefix(line, "## [")
  }

  /** `[i, j)` is the section of unreleased changes: from its first header to the next version header. */
  ghost predicate IsSection(lines: seq<string>, i: nat, j: nat) {
    && i < j <= |lines|
    && IsUnreleased(lines[i])
    && (forall m | 0 <= m < i :: !IsUnreleased(lines[m]))
    && (forall m | i < m < j :: !IsVersionHeader(lines[m]))
    && (j < |lines| ==> IsVersionHeader(lines[j]))
  }

  lemma SectionUnique(lines: seq<string>, i: nat, j: nat, i': nat, j': nat)
    requires IsSection(lines, i, j) && IsSection(lines, i', j')
    ensures i == i' && j == j'
  {
    hide IsUnreleased, IsVersionHeader;
    assert i == i';
  }

  method UnreleasedSectionRange(content: string) returns (r: (nat, nat))
    ensures r == (0, 0) <==> forall l | l in SplitLines(content) :: !IsUnreleased(l)
    ensures r == (0, 0) ==> forall l | l in SplitLines(content) :: !("## [Unreleased]" <= l)
    ensures r != (0, 0) ==> r.0 >= 1 && IsSection(SplitLines(content), r.0 - 1, r.1)
    ensures r != (0, 0) ==>
              var lines := SplitLines(content);
              && "## [Unreleased]" <= lines[r.0 - 1] && (forall m | 0 <= m < r.0 - 1 :: !("## [Unreleased]" <= lines[m]))
              && (forall m | r.0 <= m < r.1 :: !("## [" <= lines[m])) && (r.1 < |lines| ==> "## [" <= lines[r.1])
  {
    hide SplitLines;
    var lines := SplitLines(content);
    for i := 0 to |lines|
      invariant forall m | 0 <= m < i :: !IsUnreleased(lines[m])
    {
      if IsUnreleased(lines[i]) {
        for j := i + 1 to |lines|
          invariant forall m | i < m < j :: !IsVersionHeader(lines[m])
        {
          if IsVersionHeader(lines[j]) {
            return (i + 1, j);
          }
        }
        return (i + 1, |lines|);
      }
    }
    return (0, 0);
  }

  predicate RangeWithin(start: nat, count: nat, r: (nat, nat)) {
    count == 0 || (r != (0, 0) && start >= r.0 && start + count - 1 <= r.1)
  }

  /** The span is empty or lies in the section of unreleased changes. */
  ghost predicate Within(lines: seq<string>, start: nat, count: nat) {
    count == 0 || exists i: nat, j: nat :: IsSection(lines, i, j) && i + 1 <= start && start + count - 1 <= j
  }

  ghost predicate Accepts(base: seq<string>, head: seq<string>, hunks: seq<Hunk>) {
    forall h | h in hunks :: Within(base, h.oldStart, h.oldCount) && Within(head, h.newStart, h.newCount)
  }

  lemma WithinExact(lines: seq<string>, start: nat, count: nat, r: (nat, nat))
    requires r == (0, 0) <==> forall l | l in lines :: !IsUnreleased(l)
    requires r != (0, 0) ==> r.0 >= 1 && IsSection(lines, r.0 - 1, r.1)
    ensures RangeWithin(start, count, r) <==> Within(lines, start, count)
  {
    hide IsUnreleased, IsVersionHeader;
    if count > 0 && Within(lines, start, count) {
      var i: nat, j: nat :| IsSection(lines, i, j) && i + 1 <= start && start + count - 1 <= j;
      assert lines[i] in lines;
      SectionUnique(lines, i, j, r.0 - 1, r.1);
    }
    if count > 0 && RangeWithin(start, count, r) {
      assert IsSection(lines, r.0 - 1, r.1);
    }
  }

  method ChangelogEditIsWithinUnreleased(base: Option<string>, head: Option<string>, diff: Option<string>)
    returns (ok: bool)
    ensures ok <==> base.Some? && head.Some? && diff.Some?
                    && Accepts(SplitLines(base.value), SplitLines(head.value), HunksIn(Split(diff.value, '\n')))
  {
    hide SplitLines, HunksIn, Split, IsSection, IsUnreleased;
    if base.None? || head.None? || diff.None? {
      return false;
    }
    var hunks := ParseHunks(diff.value);
    for k := 0 to |hunks|
      invariant Accepts(SplitLines(base.value), SplitLines(head.value), hunks[..k])
    {
      var h := hunks[k];
      var oldRange := UnreleasedSectionRange(base.value);
      var newRange := UnreleasedSectionRange(head.value);
      WithinExact(SplitLines(base.value), h.oldStart, h.oldCount, oldRange);
      WithinExact(SplitLines(head.value), h.newStart, h.newCount, newRange);
      if !(RangeWithin(h.oldStart, h.oldCount, oldRange) && RangeWithin(h.newStart, h.newCount, newRange)) {
        return false;
      }
      assert hunks[..k + 1] == hunks[..k] + [h];
    }
    assert hunks[..|hunks|] == hunks;
    return true;
  }

  // ----- What acceptance means for the edit -----

  /** Line `p` of the base file is line `q` of the head file. */
  ghost predicate Survives(e: Edit, p: nat, q: nat) {
    exists t :: 0 <= t < |e| && e[t].Keep? && BaseAt(e, t) == p && HeadAt(e, t) == q
  }

  /** Surviving lines are unchanged and keep their order. */
  lemma SurvivorsInOrder(e: Edit, p: nat, q: nat, p': nat, q': nat)
    requires Survives(e, p, q) && Survives(e, p', q')
    ensures p < |Base(e)| && q < |Head(e)| && Base(e)[p] == Head(e)[q]
    ensures p < p' <==> q < q'
  {
    hide Base, Head;
    var t: nat :| t < |e| && e[t].Keep? && BaseAt(e, t) == p && HeadAt(e, t) == q;
    var u: nat :| u < |e| && e[u].Keep? && BaseAt(e, u) == p' && HeadAt(e, u) == q';
    KeptLine(e, t);
    KeptOrder(e, t, u);
    KeptOrder(e, u, t);
  }

  lemma KeptLine(e: Edit, t: nat)
    requires t < |e| && e[t].Keep?
    ensures BaseAt(e, t) < |Base(e)| && HeadAt(e, t) < |Head(e)| && Base(e)[BaseAt(e, t)] == Head(e)[HeadAt(e, t)]
  {
    hide Base, Head;
    StepAt(e, t);
    var (p, q) := (BaseAt(e, t), HeadAt(e, t));
    assert Base(e)[p..p + 1][0] == e[t].line && Head(e)[q..q + 1][0] == e[t].line;
  }

  lemma KeptOrder(e: Edit, t: nat, u: nat)
    requires t < |e| && e[t].Keep? && u < |e|
    ensures t < u ==> BaseAt(e, t) < BaseAt(e, u) && HeadAt(e, t) < HeadAt(e, u)
  {
    hide Base, Head;
    if t < u {
      StepAt(e, t);
      Monotone(e, t + 1, u);
    }
  }

  ghost predicate InSection(lines: seq<string>, p: nat) {
    exists i: nat, j: nat :: IsSection(lines, i, j) && i <= p < j
  }

  ghost predicate SurvivesToHead(e: Edit, p: nat) {
    exists q: nat :: Survives(e, p, q)
  }

  ghost predicate SurvivesFromBase(e: Edit, q: nat) {
    exists p: nat :: Survives(e, p, q)
  }

  /** An accepted edit changes lines only inside the two sections. */
  lemma ChangeWithin(e: Edit, t: nat)
    requires Accepts(Base(e), Head(e), HunksOf(e, 0, 0))
    requires t < |e| && e[t].Change?
    ensures Within(Base(e), BaseAt(e, t) + 1, |e[t].dels|) && Within(Head(e), HeadAt(e, t) + 1, |e[t].adds|)
  {
    hide Base, Head, HunksOf, IsSection, Within;
    HunksComplete(e, 0, 0, t);
    var h := HunkAt(BaseAt(e, t), HeadAt(e, t), e[t].dels, e[t].adds);
    assert h in HunksOf(e, 0, 0) && Within(Base(e), h.oldStart, h.oldCount) && Within(Head(e), h.newStart, h.newCount);
    NothingIsWithin(Base(e), BaseAt(e, t) + 1);
    NothingIsWithin(Head(e), HeadAt(e, t) + 1);
  }

  lemma NothingIsWithin(lines: seq<string>, start: nat)
    ensures Within(lines, start, 0)
  {
  }

  lemma BaseLineSurvives(e: Edit, p: nat)
    requires Accepts(Base(e), Head(e), HunksOf(e, 0, 0))
    requires p < |Base(e)| && !InSection(Base(e), p)
    ensures SurvivesToHead(e, p)
  {
    hide Base, Head, HunksOf, IsSection;
    assert e[..|e|] == e;
    var t := LocateBase(e, p, |e|);
    StepAt(e, t);
    if e[t].Change? {
      ChangeWithin(e, t);
    }
    assert Survives(e, p, HeadAt(e, t));
  }

  lemma HeadLineSurvives(e: Edit, q: nat)
    requires Accepts(Base(e), Head(e), HunksOf(e, 0, 0))
    requires q < |Head(e)| && !InSection(Head(e), q)
    ensures SurvivesFromBase(e, q)
  {
    hide Base, Head, HunksOf, IsSection;
    assert e[..|e|] == e;
    var t := LocateHead(e, q, |e|);
    StepAt(e, t);
    if e[t].Change? {
      ChangeWithin(e, t);
    }
    assert Survives(e, BaseAt(e, t), q);
  }

  /** Every base line outside the section survives the edit, and every head line outside its section
      is a surviving base line. */
  lemma OutsideSurvives(e: Edit)
    requires Accepts(Base(e), Head(e), HunksOf(e, 0, 0))
    ensures forall p: nat | p < |Base(e)| && !InSection(Base(e), p) :: SurvivesToHead(e, p)
    ensures forall q: nat | q < |Head(e)| && !InSection(Head(e), q) :: SurvivesFromBase(e, q)
  {
    hide Base, Head, HunksOf, IsSection;
    forall p: nat | p < |Base(e)| && !InSection(Base(e), p) ensures SurvivesToHead(e, p) {
      BaseLineSurvives(e, p);
    }
    forall q: nat | q < |Head(e)| && !InSection(Head(e), q) ensures SurvivesFromBase(e, q) {
      HeadLineSurvives(e, q);
    }
  }

  // ----- Is the text around the section unchanged? -----

  /** Step `t` does not change the first `n` lines of either file. */
  predicate Spares(e: Edit, t: nat, n: nat)
    requires t < |e|
  {
    e[t].Change? ==> (e[t].dels != [] ==> BaseAt(e, t) >= n) && (e[t].adds != [] ==> HeadAt(e, t) >= n)
  }

  lemma {:induction false} PrefixKept(e: Edit, n: nat)
    requires n <= |Base(e)| && n <= |Head(e)|
    requires forall t: nat | t < |e| :: Spares(e, t, n)
    ensures Base(e)[..n] == Head(e)[..n]
  {
    if n > 0 {
      assert e[..0] == [] && Spares(e, 0, n);
      var rest := e[1..];
      var m := if e[0].Keep? then n - 1 else n;
      forall t: nat | t < |rest| ensures Spares(rest, t, m) {
        assert e[t + 1] == rest[t] && Spares(e, t + 1, n);
        TailAt(e, t);
      }
      PrefixKept(rest, m);
    }
  }

  /** Step `t` does not change the last `n` lines of either file. */
  predicate SparesEnd(e: Edit, t: nat, n: nat)
    requires t < |e|
  {
    e[t].Change? ==>
      && (e[t].dels != [] ==> BaseAt(e, t + 1) + n <= |Base(e)|)
      && (e[t].adds != [] ==> HeadAt(e, t + 1) + n <= |Head(e)|)
  }

  lemma FrontSpared(e: Edit, t: nat, n: nat)
    requires t + 1 < |e| && SparesEnd(e, t, n) && n > 0
    requires e[|e| - 1].Keep? || (e[|e| - 1].dels == [] && e[|e| - 1].adds == [])
    ensures SparesEnd(e[..|e| - 1], t, if e[|e| - 1].Keep? then n - 1 else n)
  {
    hide Base, Head;
    OneMore(e, |e| - 1);
    assert e[..|e|] == e;
    assert e[..|e| - 1][..t + 1] == e[..t + 1];
  }

  lemma {:induction false} SuffixKept(e: Edit, n: nat)
    requires n <= |Base(e)| && n <= |Head(e)|
    requires forall t: nat | t < |e| :: SparesEnd(e, t, n)
    ensures Base(e)[|Base(e)| - n..] == Head(e)[|Head(e)| - n..]
    decreases e
  {
    hide Base, Head, SparesEnd;
    if n > 0 {
      NotEmpty(e);
      var last := |e| - 1;
      LastSpared(e, n);
      var front := e[..last];
      OneMore(e, last);
      assert e[..last + 1] == e;
      var m := if e[last].Keep? then n - 1 else n;
      forall t: nat | t < |front| ensures SparesEnd(front, t, m) {
        FrontSpared(e, t, n);
      }
      SuffixKept(front, m);
      LastLines(Base(front), Head(front), BasePart(e[last]), m);
    }
  }

  lemma NotEmpty(e: Edit)
    requires |Base(e)| > 0
    ensures |e| > 0
  {
  }

  lemma LastSpared(e: Edit, n: nat)
    requires |e| > 0 && n > 0 && SparesEnd(e, |e| - 1, n)
    ensures e[|e| - 1].Keep? || (e[|e| - 1].dels == [] && e[|e| - 1].adds == [])
  {
    assert e[..|e|] == e;
  }

  lemma LastLines(x: seq<string>, y: seq<string>, z: seq<string>, m: nat)
    requires m <= |x| && m <= |y| && x[|x| - m..] == y[|y| - m..]
    ensures (x + z)[|x| - m..] == (y + z)[|y| - m..]
  {
    assert (x + z)[|x| - m..] == x[|x| - m..] + z;
    assert (y + z)[|y| - m..] == y[|y| - m..] + z;
  }

  /** Step `t` removes lines only inside `[i, j)` and adds lines only inside `[k, l)`. */
  predicate Inside(e: Edit, t: nat, i: nat, j: nat, k: nat, l: nat)
    requires t < |e|
  {
    e[t].Change? ==>
      && (e[t].dels != [] ==> i <= BaseAt(e, t) && BaseAt(e, t + 1) <= j)
      && (e[t].adds != [] ==> k <= HeadAt(e, t) && HeadAt(e, t + 1) <= l)
  }

  lemma WithinSection(lines: seq<string>, start: nat, count: nat, i: nat, j: nat)
    requires IsSection(lines, i, j) && Within(lines, start, count) && count > 0
    ensures i + 1 <= start && start + count - 1 <= j
  {
    hide IsSection;
    var i': nat, j': nat :| IsSection(lines, i', j') && i' + 1 <= start && start + count - 1 <= j';
    SectionUnique(lines, i, j, i', j');
  }

  lemma AcceptedInside(e: Edit, t: nat, i: nat, j: nat, k: nat, l: nat)
    requires Accepts(Base(e), Head(e), HunksOf(e, 0, 0))
    requires IsSection(Base(e), i, j) && IsSection(Head(e), k, l)
    requires t < |e|
    ensures Inside(e, t, i, j, k, l)
  {
    hide Base, Head, HunksOf, IsSection, Within, Accepts;
    if e[t].Change? {
      ChangeWithin(e, t);
      StepAt(e, t);
      if e[t].dels != [] {
        WithinSection(Base(e), BaseAt(e, t) + 1, |e[t].dels|, i, j);
      }
      if e[t].adds != [] {
        WithinSection(Head(e), HeadAt(e, t) + 1, |e[t].adds|, k, l);
      }
    }
  }

  /** The text around the section is unchanged. */
  predicate SameAround(base: seq<string>, head: seq<string>, i: nat, j: nat, k: nat, l: nat)
    requires i <= j <= |base| && k <= l <= |head|
  {
    base[..i] == head[..k] && base[j..] == head[l..]
  }

  /** An accepted edit leaves the text around the section unchanged exactly when the section starts at
      the same line and as many lines follow it. */
  lemma SameAroundExactly(e: Edit, i: nat, j: nat, k: nat, l: nat)
    requires Accepts(Base(e), Head(e), HunksOf(e, 0, 0))
    requires IsSection(Base(e), i, j) && IsSection(Head(e), k, l)
    ensures SameAround(Base(e), Head(e), i, j, k, l) <==> i == k && |Base(e)| - j == |Head(e)| - l
  {
    hide Base, Head, HunksOf, Accepts;
    var (base, head) := (Base(e), Head(e));
    if i == k && |base| - j == |head| - l {
      forall t: nat | t < |e| ensures Spares(e, t, i) {
        AcceptedInside(e, t, i, j, k, l);
      }
      var n := |base| - j;
      forall t: nat | t < |e| ensures SparesEnd(e, t, n) {
        AcceptedInside(e, t, i, j, k, l);
      }
      PrefixKept(e, i);
      SuffixKept(e, n);
    } else {
      assert |base[..i]| == i && |head[..k]| == k;
      assert |base[j..]| == |base| - j && |head[l..]| == |head| - l;
    }
  }

  // ----- When the header itself survives -----

  /** If the section's header survives as the head's section header, the next version header does too. */
  lemma SameFollowing(e: Edit, i: nat, j: nat, k: nat, l: nat)
    requires Accepts(Base(e), Head(e), HunksOf(e, 0, 0))
    requires IsSection(Base(e), i, j) && IsSection(Head(e), k, l)
    requires Survives(e, i, k)
    ensures j == |Base(e)| <==> l == |Head(e)|
    ensures j < |Base(e)| ==> Survives(e, j, l)
  {
    hide Base, Head, HunksOf, Accepts, IsUnreleased, IsVersionHeader, Survives;
    if j < |Base(e)| {
      NotInSection(Base(e), i, j, j);
      BaseLineSurvives(e, j);
      var q: nat :| Survives(e, j, q);
      SurvivorsInOrder(e, i, k, j, q);
      SurvivorsInOrder(e, j, q, i, k);
      assert l <= q;
      var p := FollowedBy(e, i, j, k, l);
      SurvivorsInOrder(e, j, q, p, l);
    } else if l < |Head(e)| {
      var _ := FollowedBy(e, i, j, k, l);
    }
  }

  /** The header after the head's section comes from the base's header after its section. */
  lemma FollowedBy(e: Edit, i: nat, j: nat, k: nat, l: nat) returns (p: nat)
    requires Accepts(Base(e), Head(e), HunksOf(e, 0, 0))
    requires IsSection(Base(e), i, j) && IsSection(Head(e), k, l)
    requires Survives(e, i, k) && l < |Head(e)|
    ensures Survives(e, p, l) && j <= p < |Base(e)|
  {
    hide Base, Head, HunksOf, Accepts, IsUnreleased, IsVersionHeader, Survives;
    NotInSection(Head(e), k, l, l);
    HeadLineSurvives(e, l);
    p :| Survives(e, p, l);
    SurvivorsInOrder(e, i, k, p, l);
    SurvivorsInOrder(e, p, l, i, k);
    assert IsVersionHeader(Base(e)[p]);
  }

  lemma NotInSection(lines: seq<string>, i: nat, j: nat, p: nat)
    requires IsSection(lines, i, j) && !(i <= p < j)
    ensures !InSection(lines, p)
  {
    hide IsSection;
    if InSection(lines, p) {
      var i': nat, j': nat :| IsSection(lines, i', j') && i' <= p < j';
      SectionUnique(lines, i, j, i', j');
    }
  }

  /** Steps that remove nothing advance the head file at least as far as the base file, and exactly as
      far when they also add nothing. */
  lemma {:induction false} Advance(e: Edit, t: nat, u: nat)
    requires t <= u <= |e|
    requires forall s | t <= s < u :: e[s].Change? ==> e[s].dels == []
    ensures HeadAt(e, u) - HeadAt(e, t) >= BaseAt(e, u) - BaseAt(e, t)
    ensures (forall s | t <= s < u :: e[s].Change? ==> e[s].adds == []) ==>
              HeadAt(e, u) - HeadAt(e, t) == BaseAt(e, u) - BaseAt(e, t)
    decreases u - t
  {
    if t < u {
      StepAt(e, u - 1);
      Advance(e, t, u - 1);
    }
  }

  lemma HeaderKeptStart(e: Edit, i: nat, j: nat, k: nat, l: nat)
    requires Accepts(Base(e), Head(e), HunksOf(e, 0, 0))
    requires IsSection(Base(e), i, j) && IsSection(Head(e), k, l)
    requires Survives(e, i, k)
    ensures i == k
  {
    hide Base, Head, HunksOf, IsSection, Accepts;
    var t0: nat :| t0 < |e| && e[t0].Keep? && BaseAt(e, t0) == i && HeadAt(e, t0) == k;
    forall s | 0 <= s < t0 ensures e[s].Change? ==> e[s].dels == [] && e[s].adds == [] {
      AcceptedInside(e, s, i, j, k, l);
      StepAt(e, s);
      Monotone(e, s + 1, t0);
    }
    Advance(e, 0, t0);
    NothingBefore(e);
  }

  lemma NothingBefore(e: Edit)
    ensures BaseAt(e, 0) == 0 && HeadAt(e, 0) == 0
    ensures BaseAt(e, |e|) == |Base(e)| && HeadAt(e, |e|) == |Head(e)|
  {
    assert e[..0] == [] && e[..|e|] == e;
  }

  lemma HeaderKeptEnd(e: Edit, i: nat, j: nat, k: nat, l: nat)
    requires Accepts(Base(e), Head(e), HunksOf(e, 0, 0))
    requires IsSection(Base(e), i, j) && IsSection(Head(e), k, l)
    requires Survives(e, j, l)
    ensures |Base(e)| - j == |Head(e)| - l
  {
    hide Base, Head, HunksOf, IsSection, Accepts;
    var t: nat :| t < |e| && e[t].Keep? && BaseAt(e, t) == j && HeadAt(e, t) == l;
    StepAt(e, t);
    forall s | t <= s < |e| ensures e[s].Change? ==> e[s].dels == [] && e[s].adds == [] {
      if s > t {
        AcceptedInside(e, s, i, j, k, l);
        StepAt(e, s);
        Monotone(e, t + 1, s);
      }
    }
    Advance(e, t, |e|);
    NothingBefore(e);
  }

  /** A base line after the section has at least as many lines after it in the head file. */
  lemma TailGrows(e: Edit, i: nat, j: nat, k: nat, l: nat, q: nat)
    requires Accepts(Base(e), Head(e), HunksOf(e, 0, 0))
    requires IsSection(Base(e), i, j) && IsSection(Head(e), k, l)
    requires Survives(e, j, q)
    ensures |Base(e)| - j <= |Head(e)| - q
  {
    hide Base, Head, HunksOf, IsSection, Accepts;
    var t: nat :| t < |e| && e[t].Keep? && BaseAt(e, t) == j && HeadAt(e, t) == q;
    StepAt(e, t);
    forall s | t <= s < |e| ensures e[s].Change? ==> e[s].dels == [] {
      if s > t {
        AcceptedInside(e, s, i, j, k, l);
        StepAt(e, s);
        Monotone(e, t + 1, s);
      }
    }
    Advance(e, t, |e|);
    NothingBefore(e);
  }

  /** A second header put above the surviving one makes the head's section end before it. */
  lemma HeaderPushedDown(e: Edit, i: nat, j: nat, k: nat, l: nat, q: nat)
    requires Accepts(Base(e), Head(e), HunksOf(e, 0, 0))
    requires IsSection(Base(e), i, j) && IsSection(Head(e), k, l)
    requires Survives(e, i, q) && q != k
    ensures |Base(e)| - j < |Head(e)| - l
  {
    hide Base, Head, HunksOf, Accepts, Survives;
    SurvivorsInOrder(e, i, q, i, q);
    assert IsUnreleased(Head(e)[q]) && k < q;
    assert IsVersionHeader(Head(e)[q]);
    assert l <= q;
    if j < |Base(e)| {
      NotInSection(Base(e), i, j, j);
      BaseLineSurvives(e, j);
      var r: nat :| Survives(e, j, r);
      SurvivorsInOrder(e, i, q, j, r);
      TailGrows(e, i, j, k, l, r);
    }
  }

  /** When the section's header survives, the text around the section is unchanged exactly when the
      surviving header is the one the head's section starts with. */
  lemma HeaderDecides(e: Edit, i: nat, j: nat, k: nat, l: nat, q: nat)
    requires Accepts(Base(e), Head(e), HunksOf(e, 0, 0))
    requires IsSection(Base(e), i, j) && IsSection(Head(e), k, l)
    requires Survives(e, i, q)
    ensures SameAround(Base(e), Head(e), i, j, k, l) <==> q == k
  {
    hide Base, Head, HunksOf, Accepts, Survives, IsUnreleased, IsVersionHeader, SameAround;
    SameAroundExactly(e, i, j, k, l);
    if q == k {
      HeaderKeptStart(e, i, j, k, l);
      SameFollowing(e, i, j, k, l);
      if j < |Base(e)| {
        HeaderKeptEnd(e, i, j, k, l);
      }
    } else {
      HeaderPushedDown(e, i, j, k, l, q);
    }
  }

  /** Inserting two lines at the top of a file. */
  function InsertTop(block: seq<string>, kept: seq<string>): Edit {
    [Change([], block)] + Keeps(kept)
  }

  lemma InsertTopIs(block: seq<string>, kept: seq<string>)
    requires |block| == 2
    ensures var e := InsertTop(block, kept);
            Base(e) == kept && Head(e) == block + kept && HunksOf(e, 0, 0) == [Hunk(0, 0, 1, 2)]
  {
    var e := InsertTop(block, kept);
    KeepsAll(kept, 0, 2);
    assert e[1..] == Keeps(kept);
    assert [] + kept == kept;
  }

  /** A second header put above the section of any file that starts with it is accepted, and the old
      section then counts as text after the new one. */
  lemma SecondHeaderAccepted(block: seq<string>, kept: seq<string>, n: nat)
    requires |block| == 2 && IsUnreleased(block[0]) && !IsVersionHeader(block[1]) && IsSection(kept, 0, n)
    ensures var e := InsertTop(block, kept);
            && Base(e) == kept && Head(e) == block + kept && HunksOf(e, 0, 0) == [Hunk(0, 0, 1, 2)]
            && Accepts(Base(e), Head(e), HunksOf(e, 0, 0))
            && IsSection(Head(e), 0, 2) && !SameAround(Base(e), Head(e), 0, n, 0, 2)
  {
    hide HunksOf, Base, Head, InsertTop;
    InsertTopIs(block, kept);
    HeaderKinds(kept[0]);
    SectionOfHead(block, kept);
    assert |(block + kept)[2..]| == |kept|;
  }

  lemma HeaderKinds(line: string)
    requires IsUnreleased(line)
    ensures IsVersionHeader(line)
  {
    assert "## [" <= "## [Unreleased]";
  }

  lemma SectionOfHead(block: seq<string>, kept: seq<string>)
    requires |block| == 2 && IsUnreleased(block[0]) && !IsVersionHeader(block[1])
    requires kept != [] && IsVersionHeader(kept[0])
    ensures IsSection(block + kept, 0, 2)
  {
    hide IsUnreleased, IsVersionHeader;
  }

  /** Such a file, with a block that has only one place to go: no line of it equals the old header. */
  lemma SecondHeaderMovesText() returns (e: Edit, i: nat, j: nat, k: nat, l: nat)
    ensures Accepts(Base(e), Head(e), HunksOf(e, 0, 0)) && HunksOf(e, 0, 0) == [Hunk(0, 0, 1, 2)]
    ensures IsSection(Base(e), i, j) && IsSection(Head(e), k, l)
    ensures Base(e)[j..] == ["## [1.0.0]", "- released"]
    ensures Head(e)[l..] == ["## [Unreleased]", "- entry", "## [1.0.0]", "- released"]
    ensures !SameAround(Base(e), Head(e), i, j, k, l)
  {
    hide Base, Head, HunksOf, InsertTop, Accepts, SameAround;
    var block := ["## [Unreleased] next", "- new"];
    var kept := ["## [Unreleased]", "- entry", "## [1.0.0]", "- released"];
    assert block[0][..15] == "## [Unreleased]" && block[1][0] == '-';
    assert kept[1][0] == '-' && kept[2][..4] == "## [";
    assert IsSection(kept, 0, 2);
    SecondHeaderAccepted(block, kept, 2);
    e, i, j, k, l := InsertTop(block, kept), 0, 2, 0, 2;
    assert kept[2..] == ["## [1.0.0]", "- released"] && (block + kept)[2..] == kept;
  }
}
