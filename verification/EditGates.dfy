/** Which edits the two exceptions of the protected-path gate let through, exactly (review/protectedpaths.go). */
module EditGates {
  import opened Text
  import opened DiffText
  import opened ProtectedPaths
  import opened Changelog

  /** A base line inside a change does not survive. */
  lemma RemovedIsGone(e: Edit, t: nat, p: nat)
    requires t < |e| && e[t].Change? && BaseAt(e, t) <= p < BaseAt(e, t + 1)
    ensures !SurvivesToHead(e, p)
  {
    hide Base, Head, BaseAt, HeadAt;
    forall u | 0 <= u < |e| && e[u].Keep? ensures BaseAt(e, u) != p {
      StepAt(e, u);
      if u < t {
        Monotone(e, u + 1, t);
      } else if t < u {
        Monotone(e, t + 1, u);
      }
    }
  }

  /** And a head line inside a change comes from nowhere. */
  lemma AddedIsNew(e: Edit, t: nat, q: nat)
    requires t < |e| && e[t].Change? && HeadAt(e, t) <= q < HeadAt(e, t + 1)
    ensures !SurvivesFromBase(e, q)
  {
    hide Base, Head, BaseAt, HeadAt;
    forall u | 0 <= u < |e| && e[u].Keep? ensures HeadAt(e, u) != q {
      StepAt(e, u);
      if u < t {
        Monotone(e, u + 1, t);
      } else if t < u {
        Monotone(e, t + 1, u);
      }
    }
  }

  // ----- go.mod -----

  /** Every line of a closed retract directive survives, and none is new. */
  ghost predicate RetractLinesSurvive(e: Edit) {
    && (forall p: nat | p < |Base(e)| && RetractLine(Base(e), p + 1) :: SurvivesToHead(e, p))
    && (forall q: nat | q < |Head(e)| && RetractLine(Head(e), q + 1) :: SurvivesFromBase(e, q))
  }

  lemma AcceptedBaseLine(e: Edit, p: nat)
    requires GoModAccepts(Base(e), Head(e), HunksOf(e, 0, 0)) && p < |Base(e)| && RetractLine(Base(e), p + 1)
    ensures SurvivesToHead(e, p)
  {
    hide Base, Head, HunksOf, RetractLine;
    assert e[..|e|] == e;
    var t := LocateBase(e, p, |e|);
    StepAt(e, t);
    if e[t].Change? {
      HunksComplete(e, 0, 0, t);
    }
    assert Survives(e, p, HeadAt(e, t));
  }

  lemma AcceptedHeadLine(e: Edit, q: nat)
    requires GoModAccepts(Base(e), Head(e), HunksOf(e, 0, 0)) && q < |Head(e)| && RetractLine(Head(e), q + 1)
    ensures SurvivesFromBase(e, q)
  {
    hide Base, Head, HunksOf, RetractLine;
    assert e[..|e|] == e;
    var t := LocateHead(e, q, |e|);
    StepAt(e, t);
    if e[t].Change? {
      HunksComplete(e, 0, 0, t);
    }
    assert Survives(e, BaseAt(e, t), q);
  }

  lemma RemovedAvoids(e: Edit, t: nat)
    requires RetractLinesSurvive(e) && t < |e| && e[t].Change?
    ensures Avoids(Base(e), BaseAt(e, t) + 1, |e[t].dels|)
  {
    hide Base, Head, HeadAt, RetractLine, SurvivesToHead, SurvivesFromBase;
    StepAt(e, t);
    forall n: nat | BaseAt(e, t) + 1 <= n < BaseAt(e, t) + 1 + |e[t].dels| ensures !RetractLine(Base(e), n) {
      RemovedIsGone(e, t, n - 1);
    }
  }

  lemma AddedAvoids(e: Edit, t: nat)
    requires RetractLinesSurvive(e) && t < |e| && e[t].Change?
    ensures Avoids(Head(e), HeadAt(e, t) + 1, |e[t].adds|)
  {
    hide Base, Head, BaseAt, RetractLine, SurvivesToHead, SurvivesFromBase;
    StepAt(e, t);
    forall n: nat | HeadAt(e, t) + 1 <= n < HeadAt(e, t) + 1 + |e[t].adds| ensures !RetractLine(Head(e), n) {
      AddedIsNew(e, t, n - 1);
    }
  }

  lemma HunkAvoids(e: Edit, t: nat)
    requires RetractLinesSurvive(e) && t < |e| && e[t].Change?
    ensures var h := HunkAt(BaseAt(e, t), HeadAt(e, t), e[t].dels, e[t].adds);
            Avoids(Base(e), h.oldStart, h.oldCount) && Avoids(Head(e), h.newStart, h.newCount)
  {
    hide Base, Head, BaseAt, HeadAt, RetractLine, RetractLinesSurvive;
    RemovedAvoids(e, t);
    AddedAvoids(e, t);
  }

  /** The go.mod exception lets an edit through exactly when it leaves every retract line alone. */
  lemma GoModAcceptsExactly(e: Edit)
    ensures GoModAccepts(Base(e), Head(e), HunksOf(e, 0, 0)) <==> RetractLinesSurvive(e)
  {
    hide Base, Head, HunksOf, RetractLine, SurvivesToHead, SurvivesFromBase, Avoids;
    if GoModAccepts(Base(e), Head(e), HunksOf(e, 0, 0)) {
      forall p: nat | p < |Base(e)| && RetractLine(Base(e), p + 1) ensures SurvivesToHead(e, p) {
        AcceptedBaseLine(e, p);
      }
      forall q: nat | q < |Head(e)| && RetractLine(Head(e), q + 1) ensures SurvivesFromBase(e, q) {
        AcceptedHeadLine(e, q);
      }
    }
    if RetractLinesSurvive(e) {
      forall h | h in HunksOf(e, 0, 0)
        ensures Avoids(Base(e), h.oldStart, h.oldCount) && Avoids(Head(e), h.newStart, h.newCount)
      {
        var t := HunksSound(e, 0, 0, h);
        HunkAvoids(e, t);
      }
    }
  }

  // ----- CHANGELOG.md -----

  /** Every line outside the unreleased section survives, and none is new. */
  ghost predicate ReleasedLinesSurvive(e: Edit) {
    && (forall p: nat | p < |Base(e)| && !InSection(Base(e), p) :: SurvivesToHead(e, p))
    && (forall q: nat | q < |Head(e)| && !InSection(Head(e), q) :: SurvivesFromBase(e, q))
  }

  /** A span of lines that are all in the section lies within it. */
  lemma SpanWithin(lines: seq<string>, start: nat, count: nat)
    requires count > 0 && start >= 1 && forall p: nat | start - 1 <= p < start - 1 + count :: InSection(lines, p)
    ensures Within(lines, start, count)
  {
    hide IsSection;
    var first, last := start - 1, start + count - 2;
    assert InSection(lines, first) && InSection(lines, last);
    var i: nat, j: nat :| IsSection(lines, i, j) && i <= first < j;
    var k: nat, l: nat :| IsSection(lines, k, l) && k <= last < l;
    SectionUnique(lines, i, j, k, l);
  }

  lemma HunkWithin(e: Edit, t: nat)
    requires ReleasedLinesSurvive(e) && t < |e| && e[t].Change?
    ensures var h := HunkAt(BaseAt(e, t), HeadAt(e, t), e[t].dels, e[t].adds);
            Within(Base(e), h.oldStart, h.oldCount) && Within(Head(e), h.newStart, h.newCount)
  {
    hide Base, Head, InSection, SurvivesToHead, SurvivesFromBase, Within;
    StepAt(e, t);
    NothingIsWithin(Base(e), BaseAt(e, t));
    NothingIsWithin(Head(e), HeadAt(e, t));
    var a, b := BaseAt(e, t), HeadAt(e, t);
    if e[t].dels != [] {
      forall p: nat | a <= p < a + |e[t].dels| ensures InSection(Base(e), p) {
        RemovedIsGone(e, t, p);
      }
      SpanWithin(Base(e), a + 1, |e[t].dels|);
    }
    if e[t].adds != [] {
      forall q: nat | b <= q < b + |e[t].adds| ensures InSection(Head(e), q) {
        AddedIsNew(e, t, q);
      }
      SpanWithin(Head(e), b + 1, |e[t].adds|);
    }
  }

  /** The changelog exception lets an edit through exactly when it leaves every line outside the unreleased section alone. */
  lemma ChangelogAcceptsExactly(e: Edit)
    ensures Accepts(Base(e), Head(e), HunksOf(e, 0, 0)) <==> ReleasedLinesSurvive(e)
  {
    hide Base, Head, HunksOf, InSection, SurvivesToHead, SurvivesFromBase, Within;
    if Accepts(Base(e), Head(e), HunksOf(e, 0, 0)) {
      OutsideSurvives(e);
    }
    if ReleasedLinesSurvive(e) {
      forall h | h in HunksOf(e, 0, 0)
        ensures Within(Base(e), h.oldStart, h.oldCount) && Within(Head(e), h.newStart, h.newCount)
      {
        var t := HunksSound(e, 0, 0, h);
        HunkWithin(e, t);
      }
    }
  }
}
