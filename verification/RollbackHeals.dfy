/** Rolling a batch back on a disk that others have changed since (patchapply/patchapply.go). */
module RollbackHeals {
  import opened Text
  import opened Paths
  import opened FileTree
  import opened PatchApply
  import opened PatchTheorems

  /** An entry without its original content is refused and nothing is touched. */
  lemma UnrestorableIsRefused(t: Tree, target: Path, e: Entry)
    requires e.existedBefore && e.originalContent.None?
    ensures UndoOne(t, target, e).tree == t && UndoOne(t, target, e).err.Some?
  {
    hide Resolve;
  }

  /** And a rollback that meets such an entry says so, whatever the other entries do. */
  lemma {:induction false} UnrestorableIsReported(t: Tree, target: Path, entries: seq<Entry>, k: nat)
    requires k < |entries| && entries[k].existedBefore && entries[k].originalContent.None?
    ensures RollbackAt(t, target, entries).errs != []
    decreases |entries|
  {
    hide UndoOne;
    var i := |entries| - 1;
    if k == i {
      UnrestorableIsRefused(t, target, entries[i]);
    } else {
      UnrestorableIsReported(UndoOne(t, target, entries[i]).tree, target, entries[..i], k);
    }
  }

  // ----- One entry -----

  /** The entry of step `k`, seen from the tree before the batch. */
  lemma EntryFacts(b: Batch, k: nat)
    requires b.Sized() && b.Ready() && k < |b.changes| && b.Succeeds(|b.changes|)
    ensures var e, p := b.StepAt(k).entry, b.fulls[k];
            && ResolveLexical(b.target, e.path) == Ok(p) && b.target != [] && b.target < p
            && (e.existedBefore <==> p in b.before.files)
            && (e.existedBefore ==>
                  e.originalContent == Some(b.before.files[p].content) && e.originalMode == b.before.files[p].mode)
            && (!e.existedBefore ==> Stat(b.before, p) == Absent)
            && WellFormed(b.before)
  {
    hide Batch.Ready, Batch.StepAt, Batch.At, ResolveLexical, Between, Stat;
    BatchFacts(b, k);
    ReadyTree(b);
    BetweenHolds(b, k);
    assert b.StepAt(k).ok && WellFormed(b.At(k)) by { BetweenIsWellFormed(b, k); }
    StepShape(b, k);
  }

  lemma BetweenIsWellFormed(b: Batch, k: nat)
    requires b.Ready() && k <= |b.changes| && Between(b, k)
    ensures WellFormed(b.At(k))
  {
    hide Batch.Ready;
  }

  lemma RemovedIsAbsent(t: Tree, target: Path, p: Path, e: Entry)
    requires WellFormed(t) && p != [] && !e.existedBefore && Stat(t, p) != BelowFile
    requires RestoreAt(t, target, p, e).err.None?
    ensures Stat(RestoreAt(t, target, p, e).tree, p) == Absent
  {
    hide RemoveChain, HasChild;
    var t', r := RemoveAt(t, p).tree, RestoreAt(t, target, p, e).tree;
    RemovePreserves(t, p);
    if e.createdDir.Some? {
      RemoveChainFrame(t', Dir(p), e.createdDir.value);
    }
    assert r.files == t'.files && r.dirs <= t'.dirs;
    RemoveTouchesOne(t, p);
    NoFileAbove(t, p);
  }

  lemma NoFileAbove(t: Tree, p: Path)
    requires WellFormed(t) && Stat(t, p) != BelowFile
    ensures forall m | 0 <= m < |p| :: p[..m] !in t.files
  {
    forall m | 0 <= m < |p| ensures p[..m] !in t.files {
      if p in t.files || p in t.dirs {
        AncestorIsDir(t, p, m);
      }
    }
  }

  /** An undo that reports nothing leaves its path as it was before the batch. */
  lemma UndoHeals(b: Batch, k: nat, t: Tree)
    requires b.Sized() && b.Ready() && k < |b.changes| && b.Succeeds(|b.changes|) && WellFormed(t)
    requires UndoOne(t, b.target, b.StepAt(k).entry).err.None?
    ensures SameAt(b, UndoOne(t, b.target, b.StepAt(k).entry).tree, k)
  {
    hide Batch.Ready, Batch.StepAt, ResolveLexical, Stat, EnsureDirAt, RemoveAt, RemoveCreatedAt, WellFormed;
    EntryFacts(b, k);
    var e, p := b.StepAt(k).entry, b.fulls[k];
    assert Resolve(t, b.target, e.path) == Ok(p);
    ResolvedTargetExists(t, b.target, p);
    AnchoredExact(t, b.target, p);
    if !e.existedBefore {
      RemovedIsAbsent(t, b.target, p, e);
    }
  }

  // ----- The other entries -----

  /** Undoing the creation of a file only takes away. */
  lemma RemovalShrinks(t: Tree, target: Path, p: Path, e: Entry)
    requires WellFormed(t) && !e.existedBefore
    ensures var r := RestoreAt(t, target, p, e).tree; r.dirs <= t.dirs && r.files.Keys <= t.files.Keys
  {
    hide RemoveChain, HasChild, WellFormed;
    RemovePreserves(t, p);
    RemoveTouchesOne(t, p);
    if e.createdDir.Some? {
      RemoveChainFrame(RemoveAt(t, p).tree, Dir(p), e.createdDir.value);
    }
  }

  /** A path that was missing does not come up on the way to one that existed. */
  lemma MissingIsApart(b: Tree, p: Path, q: Path)
    requires WellFormed(b) && Stat(b, p) == Absent && q in b.files
    ensures !(p <= q) && !(q <= p)
  {
    assert |q| < |p| ==> p[..|q|] != q;
    if p <= q {
      assert p == q[..|p|] && p != q;
      AncestorIsDir(b, q, |p|);
    }
  }

  lemma UndoKeepsFile(t: Tree, target: Path, p: Path, q: Path, e: Entry)
    requires WellFormed(t) && ResolveLexical(target, e.path) == Ok(p) && q != p
    ensures var r := UndoOne(t, target, e).tree;
            (q in r.files <==> q in t.files) && (q in r.files ==> r.files[q] == t.files[q])
  {
    hide ResolveLexical, UndoOne, WellFormed;
    UndoFrame(t, target, e);
  }

  lemma UndoKeepsAbsent(b: Tree, t: Tree, target: Path, p: Path, q: Path, e: Entry)
    requires WellFormed(b) && WellFormed(t) && ResolveLexical(target, e.path) == Ok(p) && p != q
    requires e.existedBefore <==> p in b.files
    requires Stat(b, q) == Absent && Stat(t, q) == Absent
    ensures Stat(UndoOne(t, target, e).tree, q) == Absent
  {
    hide ResolveLexical, RestoreAt, WellFormed, Anchored;
    var r := UndoOne(t, target, e).tree;
    UndoFrame(t, target, e);
    if e.existedBefore {
      MissingIsApart(b, q, p);
      assert q in r.dirs - t.dirs ==> OnTheWay(target, p, q);
      forall m | 0 <= m < |q| ensures q[..m] !in r.files {
        assert q[..m] <= q && q[..m] != p && q[..m] !in t.files;
      }
    } else {
      RemovalShrinks(t, target, p, e);
    }
  }

  lemma UndoKeepsOthers(b: Batch, k: nat, j: nat, t: Tree)
    requires b.Sized() && b.Ready() && k < |b.changes| && j < |b.changes| && j != k && b.Succeeds(|b.changes|)
    requires WellFormed(t) && SameAt(b, t, j)
    ensures SameAt(b, UndoOne(t, b.target, b.StepAt(k).entry).tree, j)
  {
    hide Batch.Ready, Batch.StepAt, ResolveLexical, Stat, UndoOne, WellFormed;
    EntryFacts(b, k);
    BatchFacts(b, k);
    var e, p, q := b.StepAt(k).entry, b.fulls[k], b.fulls[j];
    if q in b.before.files {
      UndoKeepsFile(t, b.target, p, q, e);
    } else {
      EntryFacts(b, j);
      UndoKeepsAbsent(b.before, t, b.target, p, q, e);
    }
  }

  // ----- The whole journal -----

  lemma {:induction false} HealsPrefix(b: Batch, k: nat, t: Tree)
    requires b.Sized() && b.Ready() && k <= |b.changes| && b.Succeeds(|b.changes|) && WellFormed(t)
    requires forall j | k <= j < |b.changes| :: SameAt(b, t, j)
    requires RollbackAt(t, b.target, b.Applied(k)).errs == []
    ensures forall j | 0 <= j < |b.changes| :: SameAt(b, RollbackAt(t, b.target, b.Applied(k)).tree, j)
    decreases k
  {
    hide Batch.Ready, Batch.StepAt, UndoOne, SameAt, WellFormed, Batch.Succeeds;
    if k > 0 {
      var i := k - 1;
      var e := b.StepAt(i).entry;
      assert b.Applied(k)[..i] == b.Applied(i) && b.Applied(k)[i] == e;
      var o := UndoOne(t, b.target, e);
      UndoFrame(t, b.target, e);
      UndoHeals(b, i, t);
      forall j | k <= j < |b.changes| ensures SameAt(b, o.tree, j) {
        UndoKeepsOthers(b, i, j, t);
      }
      HealsPrefix(b, i, o.tree);
    }
  }

  /**
   * Whatever others have done to the tree since a successful batch: a rollback that reports no error leaves
   * every path of the batch as it was before the batch, a zero mode apart.
   */
  lemma RollbackHealsAnyTree(b: Batch, t: Tree)
    requires b.Sized() && b.Ready() && b.Succeeds(|b.changes|) && WellFormed(t)
    requires RollbackAt(t, b.target, b.Applied(|b.changes|)).errs == []
    ensures forall k | 0 <= k < |b.changes| :: SameAt(b, RollbackAt(t, b.target, b.Applied(|b.changes|)).tree, k)
  {
    HealsPrefix(b, |b.changes|, t);
  }
}
