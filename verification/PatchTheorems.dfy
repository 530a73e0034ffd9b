/** What the journal guarantees: all-or-nothing, inversion, idempotence, verification and framing. */
module PatchTheorems {
  import opened Text
  import opened Paths
  import opened FileTree
  import opened PatchApply

  /** The first step at or after `k` that fails, or the number of changes. */
  function FirstFailure(b: Batch, k: nat): (f: nat)
    requires b.Sized() && k <= |b.changes|
    ensures k <= f <= |b.changes|
    ensures f < |b.changes| ==> !b.StepAt(f).ok
    ensures forall j | k <= j < f :: b.StepAt(j).ok
    decreases |b.changes| - k
  {
    if k == |b.changes| || !b.StepAt(k).ok then k else FirstFailure(b, k + 1)
  }

  /** What is on disk when `applyAll` returns, and the rollback errors if a step failed. */
  function ApplyAllAt(b: Batch): Rolled
    requires b.Sized()
  {
    var f := FirstFailure(b, 0);
    if f == |b.changes| then Rolled(b.At(f), []) else RollbackAt(b.StepAt(f).tree, b.target, UndoList(b, f))
  }

  /**
   * All or nothing: a batch that fails, at whatever step and in whichever os call, leaves every
   * directory, every file and all content as before. Modes too, exactly when no existing file that
   * the undo rewrote had mode zero. The undo reports no error exactly when no undone change names a
   * missing path above or below an earlier write.
   */
  lemma AllOrNothing(b: Batch)
    requires b.Sized() && b.Ready() && FirstFailure(b, 0) < |b.changes|
    ensures var t := ApplyAllAt(b).tree;
            && t.dirs == b.before.dirs && t.files.Keys == b.before.files.Keys
            && (forall p | p in t.files :: t.files[p].content == b.before.files[p].content)
            && (t == b.before <==>
                forall p | p in b.Existing(Undone(b, FirstFailure(b, 0))) :: p in b.before.files && b.before.files[p].mode != 0)
    ensures ApplyAllAt(b).errs == [] <==> forall j | 0 <= j < Undone(b, FirstFailure(b, 0)) :: !b.Clashes(j)
  {
    hide Batch.Ready, RollbackAt, Batch.StepAt, Batch.Clashes;
    var f := FirstFailure(b, 0);
    FailureRestores(b, f);
    var ps := b.Existing(Undone(b, f));
    NormalisedIsIdentity(b.before, ps);
    forall p | p in ps ensures p in b.before.files {
      var j :| 0 <= j < Undone(b, f) && b.entries[j].existedBefore && p == b.fulls[j];
      BatchFacts(b, j);
    }
  }

  /** The mode side condition is needed: a mode-zero file becomes 0644 even when its very write fails. */
  lemma ZeroModeIsNotRestored() returns (b: Batch)
    ensures b.Sized() && b.Ready() && FirstFailure(b, 0) < |b.changes|
    ensures ApplyAllAt(b).tree != b.before
  {
    hide Resolve, EnsureDirAt, RollbackAt;
    var target: Path := ["t"];
    var p := target + ["a"];
    var t := Tree(map[p := File([1], 0)], {[], target});
    var change := Change("a", [2], false, None);
    var entry := Entry("a", true, Some([1]), 0, Pending, None);
    b := Batch(t, target, [change], [p], [entry], [WriteFault]);
    assert Dir(p) == target && Dir(target) == [];
    TwoNames();
    PlainPath(t, target, ["a"]);
    assert [change][..0] == [] && [p][..0] == [];
    assert ValidatePaths(t, target, []) == Accepted([]);
    assert [] + [p] == [p] && [] + [entry] == [entry];
    assert ValidatePaths(t, target, [change]) == Accepted([] + [p]);
    assert Capture(t, [], []) == Accepted([]);
    assert Capture(t, [change], [p]) == Accepted([] + [entry]);
    assert b.Fault(0) == WriteFault;
    assert FirstFailure(b, 0) == 0 && Undone(b, 0) == 1;
    AllOrNothing(b);
    assert p in b.Existing(1) by {
      assert b.entries[0].existedBefore && b.fulls[0] == p;
    }
  }

  /** Walking plain names visits them. */
  lemma {:induction false} WalkNames(segs: seq<string>)
    requires forall s | s in segs :: IsName(s)
    ensures Walk(segs) == Some(segs)
  {
    hide IsName;
    if segs != [] {
      var init, seg := segs[..|segs| - 1], segs[|segs| - 1];
      WalkNames(init);
      StepToName(init, seg);
      assert init + [seg] == segs;
    }
  }

  lemma StepToName(at: Path, seg: string)
    requires IsName(seg)
    ensures WalkStep(at, seg) == Some(at + [seg])
  {
  }

  predicate PlainNames(segs: seq<string>) {
    segs != [] && forall s | s in segs :: IsName(s) && '/' !in s
  }

  lemma {:induction false} JoinStart(segs: seq<string>)
    requires PlainNames(segs)
    ensures var rel := Join(segs, '/'); rel != "" && rel[0] != '/'
  {
    assert segs[0] in segs && segs[0][0] in segs[0];
    assert Join(segs, '/')[0] == segs[0][0];
  }

  /** A relative path of plain names resolves to itself, unless a file lies above it. */
  lemma PlainPath(t: Tree, target: Path, segs: seq<string>)
    requires WellFormed(t) && target in t.dirs && target != [] && PlainNames(segs) && Stat(t, target + segs) != BelowFile
    ensures Resolve(t, target, Join(segs, '/')) == Ok(target + segs)
  {
    hide WellFormed, Stat, Walk, Split, Join, ResolveLexical, Anchored, IsName;
    SplitJoin(segs, '/');
    WalkNames(segs);
    JoinStart(segs);
    ResolveLexicalExact(target, Join(segs, '/'));
    AnchoredExact(t, target, target + segs);
  }

  // ----- Concrete batches -----

  /** An empty directory `t` under the root. */
  const EMPTY_TARGET := Tree(map[], {[], ["t"]})

  function NewEntry(c: Change): Entry {
    Entry(c.path, false, None, 0, Pending, None)
  }

  /** Two changes of missing paths in the empty directory. */
  function PairBatch(c0: Change, c1: Change, segs0: seq<string>, segs1: seq<string>): Batch {
    Batch(EMPTY_TARGET, ["t"], [c0, c1], [["t"] + segs0, ["t"] + segs1], [NewEntry(c0), NewEntry(c1)], [])
  }

  lemma EmptyTargetIs(segs: seq<string>)
    requires segs != []
    ensures WellFormed(EMPTY_TARGET) && Stat(EMPTY_TARGET, ["t"] + segs) == Absent
  {
    assert Dir(["t"]) == [];
  }

  lemma PairReady(c0: Change, c1: Change, segs0: seq<string>, segs1: seq<string>)
    requires PlainNames(segs0) && PlainNames(segs1) && segs0 != segs1
    requires c0.path == Join(segs0, '/') && c1.path == Join(segs1, '/') && c0.expected.None? && c1.expected.None?
    ensures PairBatch(c0, c1, segs0, segs1).Sized() && PairBatch(c0, c1, segs0, segs1).Ready()
  {
    hide Resolve, WellFormed, Stat, IsName, Join;
    var t, target, p0, p1 := EMPTY_TARGET, ["t"], ["t"] + segs0, ["t"] + segs1;
    EmptyTargetIs(segs0);
    EmptyTargetIs(segs1);
    PlainPath(t, target, segs0);
    PlainPath(t, target, segs1);
    assert p0[1..] == segs0 && p1[1..] == segs1;
    ValidatePair(t, target, c0, c1, p0, p1);
    CapturePair(t, c0, c1, p0, p1);
  }

  lemma ValidatePair(t: Tree, target: Path, c0: Change, c1: Change, p0: Path, p1: Path)
    requires Resolve(t, target, c0.path) == Ok(p0) && Resolve(t, target, c1.path) == Ok(p1) && p0 != p1
    ensures ValidatePaths(t, target, [c0, c1]) == Accepted([p0, p1])
  {
    hide Resolve;
    assert [c0, c1][..1] == [c0] && [c0][..0] == [];
    assert ValidatePaths(t, target, []) == Accepted([]);
    assert ValidatePaths(t, target, [c0]) == Accepted([] + [p0]);
    assert [] + [p0] == [p0] && [p0] + [p1] == [p0, p1];
  }

  lemma CapturePair(t: Tree, c0: Change, c1: Change, p0: Path, p1: Path)
    requires Stat(t, p0) == Absent && Stat(t, p1) == Absent && c0.expected.None? && c1.expected.None?
    ensures Capture(t, [c0, c1], [p0, p1]) == Accepted([NewEntry(c0), NewEntry(c1)])
  {
    hide Stat;
    var e0, e1 := NewEntry(c0), NewEntry(c1);
    assert [c0, c1][..1] == [c0] && [p0, p1][..1] == [p0] && [c0][..0] == [] && [p0][..0] == [];
    assert Capture(t, [], []) == Accepted([]);
    assert Capture(t, [c0], [p0]) == Accepted([] + [e0]);
    assert [] + [e0] == [e0] && [e0] + [e1] == [e0, e1];
  }

  /** The first write of such a batch goes through. */
  lemma FirstWrite(c0: Change, c1: Change, segs0: seq<string>, segs1: seq<string>)
    requires PlainNames(segs0) && !c0.delete
    ensures PairBatch(c0, c1, segs0, segs1).StepAt(0).ok
  {
    hide TopMissing, Chain, IsName;
    var t, p := EMPTY_TARGET, ["t"] + segs0;
    EmptyTargetIs(segs0);
    EnsureDirEffect(t, Dir(p), false);
    DirOfNew(segs0);
    var d := EnsureDirAt(t, Dir(p), false);
    assert d.err.None?;
    assert p !in d.tree.dirs by {
      if d.created.Some? {
        ChainIsShort(Dir(p), |d.created.value|, p);
      }
    }
  }

  lemma ChainIsShort(d: Path, lo: nat, p: Path)
    requires lo <= |d| && |p| > |d|
    ensures p !in Chain(d, lo, |d|)
  {
  }

  lemma DirOfNew(segs: seq<string>)
    requires segs != []
    ensures Stat(EMPTY_TARGET, Dir(["t"] + segs)) == if |segs| == 1 then DirNode else Absent
  {
    var p := ["t"] + segs;
    if |segs| == 1 {
      assert Dir(p) == ["t"];
    } else {
      assert |Dir(p)| > 1;
    }
  }

  lemma TwoNames()
    ensures PlainNames(["a"]) && PlainNames(["a", "b"]) && Join(["a"], '/') == "a" && Join(["a", "b"], '/') == "a/b"
  {
    assert ["a", "b"][1..] == ["b"];
  }

  /** Writing `a` and then deleting the missing `a/b` succeeds, and `Rollback` then refuses the journal. */
  lemma BuriedDeleteRefuses() returns (b: Batch)
    ensures b.Sized() && b.Ready() && b.Succeeds(|b.changes|) && Buried(b)
    ensures RollbackCall(b.At(|b.changes|), b.target, b.Applied(|b.changes|)).None?
  {
    hide Batch.Ready, RollbackCall, Batch.At, Batch.Applied, PlainNames, Join;
    TwoNames();
    var c0, c1 := Change("a", [], false, None), Change("a/b", [], true, None);
    b := PairBatch(c0, c1, ["a"], ["a", "b"]);
    PairReady(c0, c1, ["a"], ["a", "b"]);
    FirstWrite(c0, c1, ["a"], ["a", "b"]);
    NoopSucceeds(b, 1);
    assert b.fulls[0] == b.fulls[1][..2] && b.fulls[0] < b.fulls[1];
    RollbackInverts(b);
  }

  /** Writing `a/b` and then deleting the missing `a` succeeds, and `Rollback` restores the tree but reports an error. */
  lemma TangledDeleteReports() returns (b: Batch)
    ensures b.Sized() && b.Ready() && b.Succeeds(|b.changes|) && !Buried(b)
    ensures var r := RollbackCall(b.At(|b.changes|), b.target, b.Applied(|b.changes|));
            r.Some? && r.value.tree == b.before && r.value.errs != []
  {
    hide Batch.Ready, RollbackCall, Batch.At, Batch.Applied, PlainNames, Join;
    TwoNames();
    var c0, c1 := Change("a/b", [], false, None), Change("a", [], true, None);
    b := PairBatch(c0, c1, ["a", "b"], ["a"]);
    PairReady(c0, c1, ["a", "b"], ["a"]);
    FirstWrite(c0, c1, ["a", "b"], ["a"]);
    NoopSucceeds(b, 1);
    assert b.fulls[1] == b.fulls[0][..2] && b.fulls[1] <= b.fulls[0] && b.Tangled(1);
    assert |b.fulls[0]| == 3 && |b.fulls[1]| == 2;
    RollbackInverts(b);
    assert b.Existing(2) == {};
  }

  /** Writing `a` and then `a/b` fails, and the undo restores the tree but reports an error. */
  lemma ClashingWriteReports() returns (b: Batch)
    ensures b.Sized() && b.Ready() && FirstFailure(b, 0) < |b.changes|
    ensures ApplyAllAt(b).tree == b.before && ApplyAllAt(b).errs != []
  {
    hide Batch.Ready, ApplyAllAt, PlainNames, Join, Batch.StepAt, Batch.Existing;
    TwoNames();
    var c0, c1 := Change("a", [], false, None), Change("a/b", [], false, None);
    b := PairBatch(c0, c1, ["a"], ["a", "b"]);
    PairReady(c0, c1, ["a"], ["a", "b"]);
    FirstWrite(c0, c1, ["a"], ["a", "b"]);
    assert b.fulls[0] == b.fulls[1][..2] && b.fulls[0] <= b.fulls[1] && b.Clashes(1);
    assert b.Succeeds(1);
    ClashingWriteFails(b, 1);
    assert FirstFailure(b, 0) == 1;
    WriteUndoesItself(b, 1);
    AllOrNothing(b);
    NothingExisted(b, 2);
  }

  lemma NothingExisted(b: Batch, k: nat)
    requires b.Sized() && k <= |b.changes| && forall j | 0 <= j < k :: !b.entries[j].existedBefore
    ensures b.Existing(k) == {}
  {
  }

  lemma WriteUndoesItself(b: Batch, k: nat)
    requires b.Sized() && k < |b.changes| && !b.changes[k].delete
    ensures b.StepAt(k).undoSelf
  {
    hide EnsureDirAt, WriteAt;
  }

  lemma NoopSucceeds(b: Batch, k: nat)
    requires b.Sized() && k < |b.changes| && b.IsNoop(k)
    ensures b.StepAt(k).ok
  {
  }

  // ----- Rolling back a successful batch -----

  /** A delete of a missing path lies below a file the batch writes. */
  ghost predicate Buried(b: Batch)
    requires b.Sized()
  {
    exists i, k | 0 <= i < |b.changes| && 0 <= k < |b.changes| :: !b.changes[i].delete && b.IsNoop(k) && b.fulls[i] < b.fulls[k]
  }

  lemma ResolvesAfter(b: Batch, k: nat)
    requires b.Sized() && b.Ready() && k < |b.changes| && b.Succeeds(|b.changes|)
    ensures Resolve(b.At(|b.changes|), b.target, b.changes[k].path).Ok? <==>
            !(b.IsNoop(k) && exists i | 0 <= i < |b.changes| :: !b.changes[i].delete && b.fulls[i] < b.fulls[k])
  {
    hide Batch.Ready, Batch.StepAt, ResolveLexical, Batch.At;
    var n := |b.changes|;
    var t, p := b.At(n), b.fulls[k];
    BetweenHolds(b, n);
    BatchFacts(b, k);
    ReadyTree(b);
    AnchoredExact(t, b.target, p);
    if !b.changes[k].delete {
      assert p in t.files;
    } else if b.entries[k].existedBefore {
      forall m | 0 <= m < |p| ensures p[..m] !in t.files {
        AncestorIsDir(t, Dir(p), m);
        assert Dir(p)[..m] == p[..m];
      }
    } else {
      assert p !in t.files;
      if m :| 0 <= m < |p| && p[..m] in t.files {
        assert p[..m] !in b.before.files;
        var i :| 0 <= i < n && !b.changes[i].delete && p[..m] == b.fulls[i];
        assert b.fulls[i] < p;
        FileAbove(t, p, m);
      }
      forall i | 0 <= i < n && !b.changes[i].delete && b.fulls[i] < p ensures Stat(t, p) == BelowFile {
        var f := b.fulls[i];
        assert f == p[..|f|] && f in t.files;
        FileAbove(t, p, |f|);
      }
    }
  }

  /** What `Rollback` does once its gate has let it through: refuse if a path no longer resolves, else undo. */
  function RollbackCall(t: Tree, target: Path, entries: seq<Entry>): Option<Rolled> {
    if exists k | 0 <= k < |entries| :: Resolve(t, target, entries[k].path).Bad? then None
    else Some(RollbackAt(t, target, entries))
  }

  /**
   * Rolling back a successful batch restores the tree (modes as above) unless a no-op delete lies
   * below a file the batch wrote; then the call refuses. It reports no error exactly when no
   * no-op delete is tangled with an earlier write.
   */
  lemma RollbackInverts(b: Batch)
    requires b.Sized() && b.Ready() && b.Succeeds(|b.changes|)
    ensures var n := |b.changes|;
            var r := RollbackCall(b.At(n), b.target, b.Applied(n));
            && (r.None? <==> Buried(b))
            && (r.Some? ==>
                  && r.value.tree == Normalised(b.before, b.Existing(n))
                  && (r.value.tree == b.before <==> forall p | p in b.Existing(n) :: p in b.before.files && b.before.files[p].mode != 0)
                  && (r.value.errs == [] <==> forall k | 0 <= k < n :: !b.Tangled(k)))
  {
    hide Batch.Ready, RollbackAt, Resolve, Batch.Tangled, Batch.StepAt, Batch.At;
    var n := |b.changes|;
    forall k | 0 <= k < n ensures b.Applied(n)[k].path == b.changes[k].path {
      EntryPath(b, k);
    }
    forall k | 0 <= k < n { ResolvesAfter(b, k); }
    UndoRun(b, n, {});
    NormalisedNone(b.At(n));
    assert {} + b.Existing(n) == b.Existing(n);
    NormalisedIsIdentity(b.before, b.Existing(n));
    forall p | p in b.Existing(n) ensures p in b.before.files {
      var j :| 0 <= j < n && b.entries[j].existedBefore && p == b.fulls[j];
      BatchFacts(b, j);
    }
  }

  lemma EntryPath(b: Batch, k: nat)
    requires b.Sized() && b.Ready() && k < |b.changes|
    ensures b.StepAt(k).entry.path == b.changes[k].path
  {
    hide Batch.Ready, EnsureDirAt, WriteAt, RemoveAt;
    BatchFacts(b, k);
  }

  /** The tree a rollback of the whole batch leaves. */
  function Restored(b: Batch): Tree
    requires b.Sized()
  {
    Normalised(b.before, b.Existing(|b.changes|))
  }

  lemma CreatedDirWasMissing(b: Batch, k: nat)
    requires b.Sized() && b.Ready() && k < |b.changes| && b.Succeeds(k + 1)
    requires !b.entries[k].existedBefore && b.StepAt(k).entry.createdDir.Some?
    ensures Stat(b.before, b.StepAt(k).entry.createdDir.value) == Absent
  {
    hide Batch.Ready, Batch.At, ResolveLexical;
    BetweenHolds(b, k);
    BatchFacts(b, k);
    StepShape(b, k);
    var t, p := b.At(k), b.fulls[k];
    if b.changes[k].delete {
      NoopCreatesNothing(b, k);
    } else {
      var fault := b.Fault(k) == MkdirFault;
      EnsureDirEffect(t, Dir(p), fault);
      MissingChain(t, Dir(p));
      var c := b.StepAt(k).entry.createdDir.value;
      assert c == Dir(p)[..|c|] == p[..|c|] && c !in t.dirs;
      assert forall m | 0 <= m < |c| :: c[..m] == p[..m];
    }
  }

  lemma NoopCreatesNothing(b: Batch, k: nat)
    requires b.Sized() && b.Ready() && k < |b.changes| && b.IsNoop(k)
    ensures b.StepAt(k).entry.createdDir.None?
  {
    hide Batch.Ready;
    BatchFacts(b, k);
  }

  /** Once restored, undoing any entry again changes nothing and reports nothing. */
  lemma Settled(b: Batch, k: nat)
    requires b.Sized() && b.Ready() && k < |b.changes| && b.Succeeds(|b.changes|)
    ensures UndoOne(Restored(b), b.target, b.StepAt(k).entry) == Outcome(Restored(b), None)
    ensures Resolve(Restored(b), b.target, b.changes[k].path) == Ok(b.fulls[k])
  {
    hide Batch.Ready, ResolveLexical, Batch.At, Batch.StepAt, RemoveChain, EnsureDirAt;
    var r, p, n := Restored(b), b.fulls[k], |b.changes|;
    BatchFacts(b, k);
    ReadyTree(b);
    BetweenHolds(b, k);
    StepShape(b, k);
    NormalisedLike(b.before, b.Existing(n));
    AnchoredExact(r, b.target, p);
    if b.entries[k].existedBefore {
      assert p in b.Existing(n) && Stat(r, p) == FileNode;
      UndoExistingFile(r, b.target, p, b.StepAt(k).entry);
      var f := b.before.files[p];
      assert r.files[p] == Normal(f);
      assert r.files[p := File(f.content, ModeOrDefault(f.mode))] == r.files;
    } else if b.StepAt(k).entry.createdDir.Some? {
      CreatedDirWasMissing(b, k);
    }
  }

  /** A second rollback of the same journal is a no-op. */
  lemma RollbackIdempotent(b: Batch)
    requires b.Sized() && b.Ready() && b.Succeeds(|b.changes|)
    ensures RollbackCall(Restored(b), b.target, b.Applied(|b.changes|)) == Some(Rolled(Restored(b), []))
  {
    hide Batch.Ready, UndoOne, RollbackAt, Resolve, Batch.StepAt, Restored;
    var n := |b.changes|;
    var ts := seq(n + 1, _ => Restored(b));
    var errs := seq(n, _ => None);
    forall k | 0 <= k < n
      ensures UndoOne(ts[k + 1], b.target, b.Applied(n)[k]) == Outcome(ts[k], errs[k])
      ensures Resolve(Restored(b), b.target, b.Applied(n)[k].path).Ok?
    {
      Settled(b, k);
      EntryPath(b, k);
    }
    RollbackAlong(ts, b.target, b.Applied(n), errs);
  }

  // ----- Verify -----

  /** One iteration of `Verify` finds nothing to report. */
  predicate VerifyOne(t: Tree, target: Path, e: Entry) {
    match Resolve(t, target, e.path)
    case Bad(_) => false
    case Ok(full) =>
      match ReadCurrent(t, full)
      case ReadFailed => false
      case Read(existed, content, mode) =>
        && existed == e.existedBefore
        && BytesOf(content) == BytesOf(e.originalContent)
        && !(existed && e.originalMode != 0 && mode != e.originalMode)
  }

  /** Tree `t` agrees with the tree before the batch at batch file `k`; a zero mode is not compared. */
  ghost predicate SameAt(b: Batch, t: Tree, k: nat)
    requires b.Sized() && k < |b.changes|
  {
    var p := b.fulls[k];
    if p in b.before.files then
      && p in t.files && t.files[p].content == b.before.files[p].content
      && (b.before.files[p].mode != 0 ==> t.files[p].mode == b.before.files[p].mode)
    else Stat(t, p) == Absent
  }

  /** On any later tree, `Verify` is silent exactly when the tree agrees with the original at every journal path. */
  lemma VerifyExact(b: Batch, t: Tree, k: nat)
    requires b.Sized() && b.Ready() && k < |b.changes| && b.Succeeds(|b.changes|)
    requires WellFormed(t) && b.target in t.dirs
    ensures VerifyOne(t, b.target, b.Applied(|b.changes|)[k]) <==> SameAt(b, t, k)
  {
    hide Batch.Ready, ResolveLexical, Batch.At, Batch.StepAt;
    BatchFacts(b, k);
    ReadyTree(b);
    BetweenHolds(b, k);
    StepShape(b, k);
    AnchoredExact(t, b.target, b.fulls[k]);
  }

  /** After a rollback `Verify` is silent, zero modes or not. */
  lemma RollbackVerifies(b: Batch, k: nat)
    requires b.Sized() && b.Ready() && k < |b.changes| && b.Succeeds(|b.changes|)
    ensures VerifyOne(Restored(b), b.target, b.Applied(|b.changes|)[k])
  {
    hide Batch.Ready, ResolveLexical, VerifyOne, Batch.StepAt;
    ReadyTree(b);
    NormalisedLike(b.before, b.Existing(|b.changes|));
    VerifyExact(b, Restored(b), k);
    BatchFacts(b, k);
  }

  // ----- What a rollback may touch, whatever happened since -----

  lemma ResolvedTargetExists(t: Tree, target: Path, p: Path)
    requires WellFormed(t) && target < p && target != [] && Anchored(t, target, p).None?
    ensures target in t.dirs
    decreases |p|
  {
    if Stat(t, p) == Absent {
      if Dir(p) == target {
        if target !in t.dirs {
          AnchorAbove(t, target, target);
        }
      } else {
        ResolvedTargetExists(t, target, Dir(p));
      }
    } else {
      AncestorIsDir(t, p, |target|);
      assert p[..|target|] == target;
    }
  }

  lemma {:induction false} AnchorAbove(t: Tree, target: Path, dir: Path)
    requires WellFormed(t) && target !in t.dirs && dir <= target && target != []
    requires dir == target ==> target !in t.files
    ensures Anchored(t, target, dir).Some?
    decreases |dir|
  {
    if Stat(t, dir) == Absent {
      assert dir != [];
      AnchorAbove(t, target, Dir(dir));
    } else if dir != target {
      assert |dir| < |target|;
    }
  }

  /** Where journal entry `e` points, if its path is acceptable at all. */
  function EntryPaths(target: Path, e: Entry): set<Path> {
    match ResolveLexical(target, e.path)
    case Bad(_) => {}
    case Ok(full) => {full}
  }

  /** A path that one undo step may create or remove as a directory: inside the target, on the way to the entry. */
  predicate OnTheWay(target: Path, full: Path, d: Path) {
    IsWithin(target, d) && d <= full
  }

  lemma EnsureDirFrame(t: Tree, target: Path, full: Path)
    requires WellFormed(t) && target in t.dirs && target != [] && target < full
    ensures var r := EnsureDirAt(t, Dir(full), false).tree;
            t.dirs <= r.dirs && r.files == t.files && forall d | d in r.dirs - t.dirs :: OnTheWay(target, full, d)
  {
    EnsureDirEffect(t, Dir(full), false);
    var e := EnsureDirAt(t, Dir(full), false);
    forall m | 0 <= m <= |target| ensures full[..m] in t.dirs {
      AncestorIsDir(t, target, m);
      assert target[..m] == full[..m];
    }
    if e.created.Some? {
      forall d | d in e.tree.dirs - t.dirs ensures OnTheWay(target, full, d) {
        var k :| |e.created.value| <= k <= |Dir(full)| && d == Dir(full)[..k];
        assert d == full[..k] && k > |target|;
      }
    }
  }

  /** Trees `t` and `r` differ only in the file `full` and in directories on the way to it. */
  ghost predicate Confined(t: Tree, r: Tree, target: Path, full: Path) {
    && (forall q | q != full :: (q in r.files <==> q in t.files) && (q in r.files ==> r.files[q] == t.files[q]))
    && (forall d | d in t.dirs - r.dirs || d in r.dirs - t.dirs :: OnTheWay(target, full, d))
  }

  lemma RemovalConfined(t: Tree, target: Path, full: Path, e: Entry)
    requires WellFormed(t) && target != [] && target < full && !e.existedBefore
    ensures var r := RestoreAt(t, target, full, e).tree; WellFormed(r) && Confined(t, r, target, full)
  {
    hide RemoveChain, HasChild, WellFormed;
    RemovePreserves(t, full);
    var t', r := RemoveAt(t, full).tree, RestoreAt(t, target, full, e).tree;
    RemoveTouchesOne(t, full);
    if e.createdDir.Some? {
      RemoveChainFrame(t', Dir(full), e.createdDir.value);
    }
    ChainConfined(t, t', r, target, full, e);
  }

  lemma RemoveTouchesOne(t: Tree, p: Path)
    ensures var t' := RemoveAt(t, p).tree;
            && t'.dirs <= t.dirs && (forall d | d in t.dirs - t'.dirs :: d == p)
            && (forall q | q != p :: (q in t'.files <==> q in t.files) && (q in t'.files ==> t'.files[q] == t.files[q]))
  {
    hide HasChild;
  }

  lemma ChainConfined(t: Tree, t': Tree, r: Tree, target: Path, full: Path, e: Entry)
    requires target != [] && target < full && !e.existedBefore
    requires t' == RemoveAt(t, full).tree && r == RestoreAt(t, target, full, e).tree
    requires t'.dirs <= t.dirs && forall d | d in t.dirs - t'.dirs :: d == full
    requires forall q | q != full :: (q in t'.files <==> q in t.files) && (q in t'.files ==> t'.files[q] == t.files[q])
    requires e.createdDir.Some? ==>
               var c := RemoveChain(t', Dir(full), e.createdDir.value).tree;
               c.files == t'.files && c.dirs <= t'.dirs
               && forall d | d in t'.dirs - c.dirs :: IsWithin(e.createdDir.value, d) && d <= Dir(full)
    ensures Confined(t, r, target, full)
  {
    hide RemoveChain, RemoveAt, Stat;
    assert r.files == t'.files && r.dirs <= t'.dirs;
    forall d | d in t.dirs - r.dirs ensures OnTheWay(target, full, d) {
      if d in t'.dirs {
        assert IsWithin(target, e.createdDir.value) && IsWithin(e.createdDir.value, d) && d <= Dir(full);
        WithinTransitive(target, e.createdDir.value, d);
        PrefixOfDir(d, full);
      } else {
        assert d in t.dirs - t'.dirs;
        assert d == full && IsWithin(target, full);
      }
    }
  }

  lemma PrefixOfDir(d: Path, full: Path)
    requires d <= Dir(full)
    ensures d <= full
  {
  }

  lemma WithinTransitive(a: Path, b: Path, c: Path)
    requires IsWithin(a, b) && IsWithin(b, c)
    ensures IsWithin(a, c)
  {
  }

  lemma RestorationConfined(t: Tree, target: Path, full: Path, e: Entry)
    requires WellFormed(t) && target in t.dirs && target != [] && target < full && e.existedBefore
    ensures var r := RestoreAt(t, target, full, e).tree; WellFormed(r) && Confined(t, r, target, full)
  {
    hide EnsureDirAt;
    EnsureDirFrame(t, target, full);
    EnsureDirEffect(t, Dir(full), false);
    if e.originalContent.Some? {
      WritePreserves(EnsureDirAt(t, Dir(full), false).tree, full, e.originalContent.value, ModeOrDefault(e.originalMode));
    }
  }

  /** One undo step on any tree and any entry, genuine or not. */
  lemma UndoFrame(t: Tree, target: Path, e: Entry)
    requires WellFormed(t)
    ensures var r := UndoOne(t, target, e).tree;
            && WellFormed(r)
            && (r == t || exists full | full in EntryPaths(target, e) :: Confined(t, r, target, full))
  {
    hide ResolveLexical, RestoreAt, Anchored, Confined, WellFormed;
    if Resolve(t, target, e.path).Ok? {
      var full := Resolve(t, target, e.path).full;
      ResolveLexicalExact(target, e.path);
      ResolvedTargetExists(t, target, full);
      assert full in EntryPaths(target, e);
      if e.existedBefore {
        RestorationConfined(t, target, full, e);
      } else {
        RemovalConfined(t, target, full, e);
      }
    }
  }

  /** All paths of a journal. */
  function JournalPaths(target: Path, entries: seq<Entry>): set<Path> {
    set e, p | e in entries && p in EntryPaths(target, e) :: p
  }

  /**
   * Whatever happened to the disk since, and whatever the journal says: a rollback changes no file
   * outside the journal, creates and removes directories only on the way to a journal path inside
   * the target, and leaves a well-formed tree, so no directory with something left in it is gone.
   */
  lemma {:induction false} RollbackFrame(t: Tree, target: Path, entries: seq<Entry>)
    requires WellFormed(t)
    ensures var r := RollbackAt(t, target, entries).tree;
            && WellFormed(r)
            && (forall q | q !in JournalPaths(target, entries) ::
                  (q in r.files <==> q in t.files) && (q in r.files ==> r.files[q] == t.files[q]))
            && (forall d | d in t.dirs - r.dirs || d in r.dirs - t.dirs ::
                  exists full | full in JournalPaths(target, entries) :: OnTheWay(target, full, d))
    decreases |entries|
  {
    hide UndoOne, EntryPaths, OnTheWay, WellFormed;
    if entries != [] {
      var i := |entries| - 1;
      var e, rest := entries[i], entries[..i];
      var mid := UndoOne(t, target, e).tree;
      var r := RollbackAt(t, target, entries).tree;
      assert r == RollbackAt(mid, target, rest).tree;
      UndoFrame(t, target, e);
      RollbackFrame(mid, target, rest);
      assert JournalPaths(target, rest) <= JournalPaths(target, entries);
      if mid != t {
        var full :| full in EntryPaths(target, e) && Confined(t, mid, target, full);
        assert e in entries && full in JournalPaths(target, entries);
      }
      forall d | d in t.dirs - r.dirs || d in r.dirs - t.dirs
        ensures exists full | full in JournalPaths(target, entries) :: OnTheWay(target, full, d)
      {
        if d in mid.dirs - r.dirs || d in r.dirs - mid.dirs {
          var full :| full in JournalPaths(target, rest) && OnTheWay(target, full, d);
          assert full in JournalPaths(target, entries);
        } else {
          assert d in t.dirs - mid.dirs || d in mid.dirs - t.dirs;
        }
      }
    }
  }
}
