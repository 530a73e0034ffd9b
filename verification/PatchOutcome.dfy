/** What `Apply` does to the tree and when, stated on the tree, the changes and the faults alone. */
module PatchOutcome {
  import opened Text
  import opened Paths
  import opened FileTree
  import opened PatchApply
  import opened PatchTheorems

  // ----- The tree a successful batch leaves -----

  /** An overwritten file keeps its mode; a new one, or one without permission bits, gets 0644. */
  function WrittenMode(t: Tree, p: Path): nat {
    if p in t.files && t.files[p].mode != 0 then t.files[p].mode else 0x1A4
  }

  /** Some change writes below the directory `d`. */
  ghost predicate WritesBelow(changes: seq<Change>, fulls: seq<Path>, d: Path)
    requires |fulls| == |changes|
  {
    exists i | 0 <= i < |changes| :: !changes[i].delete && d < fulls[i]
  }

  /** The files of `t'`: the writes are there, the deleted paths are not, and every other path is as in `t`. */
  ghost predicate FilesPatched(t: Tree, changes: seq<Change>, fulls: seq<Path>, t': Tree)
    requires |fulls| == |changes|
  {
    && (forall i | 0 <= i < |changes| && !changes[i].delete ::
          fulls[i] in t'.files && t'.files[fulls[i]] == File(changes[i].newContent, WrittenMode(t, fulls[i])))
    && (forall i | 0 <= i < |changes| && changes[i].delete :: fulls[i] !in t'.files)
    && (forall p | p !in fulls :: p in t'.files <==> p in t.files)
    && (forall p | p !in fulls && p in t.files :: t'.files[p] == t.files[p])
  }

  /** `t'` is `t` with the changes made; the only new directories are the ones the writes need. */
  ghost predicate Patched(t: Tree, changes: seq<Change>, fulls: seq<Path>, t': Tree)
    requires |fulls| == |changes|
  {
    && FilesPatched(t, changes, fulls, t')
    && forall d :: d in t'.dirs <==> d in t.dirs || WritesBelow(changes, fulls, d)
  }

  /** The files one successful step leaves. */
  lemma StepFiles(b: Batch, k: nat)
    requires b.Ready() && k < |b.changes| && Between(b, k) && b.StepAt(k).ok
    ensures var p, c := b.fulls[k], b.changes[k];
            b.At(k + 1).files ==
            if c.delete then b.At(k).files - {p}
            else b.At(k).files[p := File(c.newContent, WrittenMode(b.before, p))]
  {
    hide ResolveLexical, TopMissing, Used, Accounted;
    BatchFacts(b, k);
    var t, p := b.At(k), b.fulls[k];
    if b.changes[k].delete {
      assert b.entries[k].existedBefore ==> Stat(t, p) == FileNode;
      assert p !in t.files ==> t.files - {p} == t.files;
    } else {
      EnsureDirEffect(t, Dir(p), b.Fault(k) == MkdirFault);
    }
  }

  /** One more change, at a path no earlier one names. */
  lemma FilesNext(t: Tree, changes: seq<Change>, fulls: seq<Path>, c: Change, p: Path, u: Tree, u': Tree)
    requires |fulls| == |changes| && FilesPatched(t, changes, fulls, u) && p !in fulls
    requires u'.files == if c.delete then u.files - {p} else u.files[p := File(c.newContent, WrittenMode(t, p))]
    ensures FilesPatched(t, changes + [c], fulls + [p], u')
  {
    hide WrittenMode;
    var cs, ps := changes + [c], fulls + [p];
    assert forall q | q !in ps :: q !in fulls && q != p;
    forall i | 0 <= i < |cs| && i < |changes| ensures cs[i] == changes[i] && ps[i] == fulls[i] && ps[i] != p {
      assert fulls[i] in fulls;
    }
  }

  lemma {:induction false} FilesHold(b: Batch, k: nat)
    requires b.Sized() && b.Ready() && k <= |b.changes| && b.Succeeds(k)
    ensures FilesPatched(b.before, b.changes[..k], b.fulls[..k], b.At(k))
  {
    hide Batch.Ready, Batch.StepAt, FilesPatched;
    if k == 0 {
      NothingPatched(b.before);
      assert b.changes[..0] == [] && b.fulls[..0] == [];
    } else {
      var i := k - 1;
      FilesHold(b, i);
      BetweenHolds(b, i);
      StepFiles(b, i);
      BatchFacts(b, i);
      FilesNext(b.before, b.changes[..i], b.fulls[..i], b.changes[i], b.fulls[i], b.At(i), b.At(k));
      assert b.changes[..k] == b.changes[..i] + [b.changes[i]] && b.fulls[..k] == b.fulls[..i] + [b.fulls[i]];
    }
  }

  lemma NothingPatched(t: Tree)
    ensures FilesPatched(t, [], [], t)
  {
  }

  /** The directories after a successful run: the old ones and those above a write. */
  lemma DirsHold(b: Batch, d: Path)
    requires b.Sized() && b.Ready() && b.Succeeds(|b.changes|)
    ensures d in b.At(|b.changes|).dirs <==> d in b.before.dirs || WritesBelow(b.changes, b.fulls, d)
  {
    hide Batch.Ready, Batch.StepAt, Batch.At;
    var n := |b.changes|;
    BetweenHolds(b, n);
    var t := b.At(n);
    if d in t.dirs && d !in b.before.dirs {
      assert WrittenBelow(b, n, d);
    }
    if i :| 0 <= i < n && !b.changes[i].delete && d < b.fulls[i] {
      AncestorIsDir(t, b.fulls[i], |d|);
      assert d == b.fulls[i][..|d|];
    }
  }

  /** A batch whose every step succeeds leaves exactly the tree its changes ask for. */
  lemma SuccessPatches(b: Batch)
    requires b.Sized() && b.Ready() && FirstFailure(b, 0) == |b.changes|
    ensures Patched(b.before, b.changes, b.fulls, ApplyAllAt(b).tree)
  {
    hide Batch.Ready, Batch.StepAt, Batch.At, WritesBelow, FilesPatched;
    var n := |b.changes|;
    FilesHold(b, n);
    assert b.changes[..n] == b.changes && b.fulls[..n] == b.fulls;
    forall d { DirsHold(b, d); }
  }

  /** Only one tree is a patched one. */
  lemma PatchedIsUnique(t: Tree, changes: seq<Change>, fulls: seq<Path>, a: Tree, b: Tree)
    requires |fulls| == |changes| && Patched(t, changes, fulls, a) && Patched(t, changes, fulls, b)
    ensures a == b
  {
    hide WritesBelow, WrittenMode;
    assert a.dirs == b.dirs;
    forall p ensures (p in a.files <==> p in b.files) && (p in a.files ==> a.files[p] == b.files[p]) {
      if p in fulls {
        var i :| 0 <= i < |fulls| && fulls[i] == p;
        assert changes[i].delete || !changes[i].delete;
      }
    }
    assert a.files == b.files;
  }

  // ----- When a batch succeeds -----

  /** An earlier change writes a file at, above or below the path of change `k`. */
  ghost predicate InTheWay(b: Batch, k: nat)
    requires b.Sized() && k < |b.changes|
  {
    exists i | 0 <= i < k :: !b.changes[i].delete && (b.fulls[i] <= b.fulls[k] || b.fulls[k] <= b.fulls[i])
  }

  /** The directory is there when change `k` runs: from the start, or because an earlier write needed it. */
  ghost predicate DirReady(b: Batch, k: nat, d: Path)
    requires b.Sized() && k < |b.changes|
  {
    d in b.before.dirs || exists i | 0 <= i < k :: !b.changes[i].delete && d < b.fulls[i]
  }

  /** Change `k` cannot be made: an os call it needs fails, or an earlier write is in the way of a new file. */
  ghost predicate Blocked(b: Batch, k: nat)
    requires b.Sized() && k < |b.changes|
  {
    var isNew := b.fulls[k] !in b.before.files;
    if b.changes[k].delete then !isNew && b.Fault(k) == RemoveFault
    else
      || b.Fault(k) == WriteFault
      || (isNew && InTheWay(b, k))
      || (isNew && b.Fault(k) == MkdirFault && !DirReady(b, k, Dir(b.fulls[k])))
  }

  lemma DirReadyExact(b: Batch, k: nat, d: Path)
    requires b.Sized() && b.Ready() && k < |b.changes| && b.Succeeds(k)
    ensures d in b.At(k).dirs <==> DirReady(b, k, d)
  {
    hide Batch.Ready, Batch.StepAt, Batch.At;
    BetweenHolds(b, k);
    var t := b.At(k);
    if d in t.dirs && d !in b.before.dirs {
      assert WrittenBelow(b, k, d);
    }
    if i :| 0 <= i < k && !b.changes[i].delete && d < b.fulls[i] {
      AncestorIsDir(t, b.fulls[i], |d|);
      assert d == b.fulls[i][..|d|];
    }
  }

  lemma DeleteOkExact(b: Batch, k: nat)
    requires b.Sized() && b.Ready() && k < |b.changes| && b.Succeeds(k) && b.changes[k].delete
    ensures b.StepAt(k).ok <==> !Blocked(b, k)
  {
    hide Batch.Ready, ResolveLexical, Used, Accounted;
    BatchFacts(b, k);
    BetweenHolds(b, k);
    assert b.entries[k].existedBefore ==> Stat(b.At(k), b.fulls[k]) == FileNode;
  }

  lemma OverwriteOkExact(b: Batch, k: nat)
    requires b.Sized() && b.Ready() && k < |b.changes| && b.Succeeds(k)
    requires !b.changes[k].delete && b.fulls[k] in b.before.files
    ensures b.StepAt(k).ok <==> !Blocked(b, k)
  {
    hide Batch.Ready, ResolveLexical, Used, Accounted, InTheWay, DirReady;
    BatchFacts(b, k);
    BetweenHolds(b, k);
    var t, p := b.At(k), b.fulls[k];
    assert p in t.files;
    assert Stat(t, Dir(p)) == DirNode;
  }

  lemma NewFileOkExact(b: Batch, k: nat)
    requires b.Sized() && b.Ready() && k < |b.changes| && b.Succeeds(k)
    requires !b.changes[k].delete && b.fulls[k] !in b.before.files
    ensures b.StepAt(k).ok <==> !Blocked(b, k)
  {
    hide Batch.Ready, ResolveLexical, Used, Accounted, InTheWay, DirReady, Between, Chain;
    BatchFacts(b, k);
    BetweenTree(b, k);
    var t, p, fault := b.At(k), b.fulls[k], b.Fault(k) == MkdirFault;
    InTheWayIsClash(b, k);
    if InTheWay(b, k) {
      ClashingWriteFails(b, k);
    } else {
      ClashExact(b, k);
      DirReadyExact(b, k, Dir(p));
      ParentOfAbsent(t, p);
      NotInNewDirs(t, p, fault);
      EnsureDirEffect(t, Dir(p), fault);
    }
  }

  lemma BetweenTree(b: Batch, k: nat)
    requires b.Sized() && b.Ready() && k <= |b.changes| && b.Succeeds(k)
    ensures Between(b, k) && WellFormed(b.At(k))
  {
    hide Batch.Ready, Batch.StepAt;
    BetweenHolds(b, k);
  }

  lemma InTheWayIsClash(b: Batch, k: nat)
    requires b.Sized() && b.Ready() && k < |b.changes| && b.fulls[k] !in b.before.files
    ensures InTheWay(b, k) <==> b.Clashes(k)
  {
    hide Batch.Ready;
    BatchFacts(b, k);
  }

  lemma ParentOfAbsent(t: Tree, p: Path)
    requires WellFormed(t) && p != [] && Stat(t, p) == Absent
    ensures Stat(t, Dir(p)) == if Dir(p) in t.dirs then DirNode else Absent
  {
    assert Dir(p) == p[..|p| - 1];
    assert forall m | 0 <= m < |Dir(p)| :: Dir(p)[..m] == p[..m];
  }

  lemma NotInNewDirs(t: Tree, p: Path, fault: bool)
    requires p != [] && p !in t.dirs
    ensures p !in EnsureDirAt(t, Dir(p), fault).tree.dirs
  {
    assert forall q | q in Chain(Dir(p), 0, |Dir(p)|) :: |q| < |p|;
  }

  /** A step goes through exactly when nothing blocks its change. */
  lemma StepOkExact(b: Batch, k: nat)
    requires b.Sized() && b.Ready() && k < |b.changes| && b.Succeeds(k)
    ensures b.StepAt(k).ok <==> !Blocked(b, k)
  {
    hide Batch.Ready, Batch.StepAt, Blocked;
    if b.changes[k].delete {
      DeleteOkExact(b, k);
    } else if b.fulls[k] in b.before.files {
      OverwriteOkExact(b, k);
    } else {
      NewFileOkExact(b, k);
    }
  }

  /** A batch stops at the first change that is blocked, and nowhere else. */
  lemma StopsAtFirstBlocked(b: Batch)
    requires b.Sized() && b.Ready()
    ensures var f := FirstFailure(b, 0);
            && (f < |b.changes| ==> Blocked(b, f))
            && forall j | 0 <= j < f :: !Blocked(b, j)
  {
    hide Batch.Ready, Batch.StepAt, Blocked;
    var f := FirstFailure(b, 0);
    forall j | 0 <= j < |b.changes| && j <= f ensures b.StepAt(j).ok <==> !Blocked(b, j) {
      StepOkExact(b, j);
    }
  }

  // ----- When a batch is refused -----

  /** The walk stays inside the target and no file lies above its end. */
  predicate Resolvable(t: Tree, target: Path, rel: string) {
    ResolveLexical(target, rel).Ok? && Stat(t, ResolveLexical(target, rel).full) != BelowFile
  }

  lemma ResolveExact(t: Tree, target: Path, rel: string)
    requires WellFormed(t) && target in t.dirs
    ensures Resolve(t, target, rel).Ok? <==> Resolvable(t, target, rel)
    ensures Resolvable(t, target, rel) ==> Resolve(t, target, rel) == ResolveLexical(target, rel)
  {
    hide ResolveLexical, WellFormed, Stat, Anchored, Walk, Split;
    ResolveLexicalExact(target, rel);
    if ResolveLexical(target, rel).Ok? {
      AnchoredExact(t, target, ResolveLexical(target, rel).full);
    }
  }

  /** An earlier change resolves to the same path. */
  ghost predicate Repeats(target: Path, changes: seq<Change>, i: nat)
    requires i < |changes|
  {
    exists j | 0 <= j < i :: ResolveLexical(target, changes[j].path) == ResolveLexical(target, changes[i].path)
  }

  ghost predicate PathFine(t: Tree, target: Path, changes: seq<Change>, i: nat)
    requires i < |changes|
  {
    Resolvable(t, target, changes[i].path) && !Repeats(target, changes, i)
  }

  /** The paths of the first `n` changes are fine. */
  ghost predicate PathsFine(t: Tree, target: Path, changes: seq<Change>, n: nat)
    requires n <= |changes|
  {
    forall i | 0 <= i < n :: PathFine(t, target, changes, i)
  }

  lemma ValidateNext(t: Tree, target: Path, changes: seq<Change>, i: nat)
    requires WellFormed(t) && target in t.dirs && i < |changes| && PathsFine(t, target, changes, i)
    requires ValidatePaths(t, target, changes[..i]).Accepted?
    ensures var fulls := ValidatePaths(t, target, changes[..i]).value;
            |fulls| == i && forall j | 0 <= j < i :: ResolveLexical(target, changes[j].path) == Ok(fulls[j])
    ensures Resolvable(t, target, changes[i].path) ==> ResolveLexical(target, changes[i].path).Ok?
    ensures ValidatePaths(t, target, changes[..i + 1]) ==
            if !Resolvable(t, target, changes[i].path) then Rejected(BadPath(i))
            else if Repeats(target, changes, i) then Rejected(DuplicateTarget(i))
            else Accepted(ValidatePaths(t, target, changes[..i]).value + [ResolveLexical(target, changes[i].path).full])
  {
    hide ResolveLexical, Resolve, Resolvable;
    ValidatedPaths(t, target, changes[..i]);
    assert changes[..i + 1][..i] == changes[..i];
    forall j | 0 <= j < i ensures ResolveLexical(target, changes[j].path) == Ok(ValidatePaths(t, target, changes[..i]).value[j]) {
      assert PathFine(t, target, changes, j);
      ResolveExact(t, target, changes[j].path);
    }
    ResolveExact(t, target, changes[i].path);
  }

  /** Path validation accepts exactly the batches whose paths are all fine, and names the first that is not. */
  lemma {:induction false} ValidateExact(t: Tree, target: Path, changes: seq<Change>, n: nat)
    requires WellFormed(t) && target in t.dirs && n <= |changes|
    ensures match ValidatePaths(t, target, changes[..n])
            case Accepted(fulls) =>
              && PathsFine(t, target, changes, n) && |fulls| == n
              && (forall i | 0 <= i < n :: ResolveLexical(target, changes[i].path) == Ok(fulls[i]))
            case Rejected(why) =>
              && (why.BadPath? || why.DuplicateTarget?) && why.at < n && PathsFine(t, target, changes, why.at)
              && (if why.BadPath? then !Resolvable(t, target, changes[why.at].path)
                  else Resolvable(t, target, changes[why.at].path) && Repeats(target, changes, why.at))
  {
    hide ResolveLexical, Resolvable, Repeats, ValidatePaths;
    if n == 0 {
      assert ValidatePaths(t, target, changes[..0]) == Accepted([]) by { ValidateNothing(t, target, changes[..0]); }
    } else {
      var i := n - 1;
      ValidateExact(t, target, changes, i);
      if ValidatePaths(t, target, changes[..i]).Accepted? {
        ValidateNext(t, target, changes, i);
      } else {
        ValidateStays(t, target, changes, i);
      }
    }
  }

  lemma ValidateNothing(t: Tree, target: Path, none: seq<Change>)
    requires none == []
    ensures ValidatePaths(t, target, none) == Accepted([])
  {
  }

  lemma ValidateStays(t: Tree, target: Path, changes: seq<Change>, i: nat)
    requires i < |changes| && ValidatePaths(t, target, changes[..i]).Rejected?
    ensures ValidatePaths(t, target, changes[..i + 1]) == ValidatePaths(t, target, changes[..i])
  {
    assert changes[..i + 1][..i] == changes[..i];
  }

  /** A path can be read if a file or nothing is there. */
  predicate Readable(t: Tree, p: Path) {
    Stat(t, p) == FileNode || Stat(t, p) == Absent
  }

  /** The bytes on disk; a missing file has none. */
  function BytesAt(t: Tree, p: Path): Bytes {
    if p in t.files then t.files[p].content else []
  }

  predicate AsExpected(t: Tree, c: Change, p: Path) {
    c.expected.Some? ==> c.expected.value == BytesAt(t, p)
  }

  /** The first `n` changes can be read and find what they expect. */
  ghost predicate PriorsFine(t: Tree, changes: seq<Change>, fulls: seq<Path>, n: nat)
    requires |fulls| == |changes| && n <= |changes|
  {
    forall i | 0 <= i < n :: Readable(t, fulls[i]) && AsExpected(t, changes[i], fulls[i])
  }

  lemma CaptureOneExact(t: Tree, c: Change, p: Path, i: nat)
    ensures CaptureOne(t, c, p, i) ==
            if !Readable(t, p) then Rejected(Unreadable(i))
            else if !AsExpected(t, c, p) then Rejected(PriorMismatch(i))
            else Accepted(if p in t.files then Entry(c.path, true, Some(t.files[p].content), t.files[p].mode, Pending, None)
                          else Entry(c.path, false, None, 0, Pending, None))
  {
  }

  /** The capture accepts exactly the batches whose changes all find what they expect, and names the first that does not. */
  lemma {:induction false} CaptureExact(t: Tree, changes: seq<Change>, fulls: seq<Path>, n: nat)
    requires |fulls| == |changes| && n <= |changes|
    ensures match Capture(t, changes[..n], fulls[..n])
            case Accepted(_) => PriorsFine(t, changes, fulls, n)
            case Rejected(why) =>
              && (why.Unreadable? || why.PriorMismatch?) && why.at < n && PriorsFine(t, changes, fulls, why.at)
              && (if why.Unreadable? then !Readable(t, fulls[why.at])
                  else Readable(t, fulls[why.at]) && !AsExpected(t, changes[why.at], fulls[why.at]))
  {
    hide CaptureOne, Readable, AsExpected;
    if n > 0 {
      var i := n - 1;
      CaptureExact(t, changes, fulls, i);
      CaptureOneExact(t, changes[i], fulls[i], i);
      assert changes[..n][..i] == changes[..i] && fulls[..n][..i] == fulls[..i];
    }
  }

  /** Where each change of a batch with fine paths lands. */
  ghost function Fulls(target: Path, changes: seq<Change>): (fulls: seq<Path>)
    ensures |fulls| == |changes|
    ensures forall i | 0 <= i < |changes| && ResolveLexical(target, changes[i].path).Ok? ::
              ResolveLexical(target, changes[i].path) == Ok(fulls[i])
  {
    seq(|changes|, i requires 0 <= i < |changes| =>
      var r := ResolveLexical(target, changes[i].path); if r.Ok? then r.full else [])
  }

  /** Why `Apply` refuses a batch, read off the tree, the changes and the gate's answer; the checks come in this order. */
  ghost predicate RefusedFor(t: Tree, target: Path, changes: seq<Change>, gate: bool, why: Rejection) {
    var n := |changes|;
    match why
    case NotADirectory => target !in t.dirs
    case BadPath(i) =>
      target in t.dirs && i < n && PathsFine(t, target, changes, i) && !Resolvable(t, target, changes[i].path)
    case DuplicateTarget(i) =>
      && target in t.dirs && i < n && PathsFine(t, target, changes, i)
      && Resolvable(t, target, changes[i].path) && Repeats(target, changes, i)
    case ApprovalRequired => target in t.dirs && PathsFine(t, target, changes, n) && !gate
    case Unreadable(i) =>
      && target in t.dirs && PathsFine(t, target, changes, n) && gate && i < n
      && var fulls := Fulls(target, changes);
      PriorsFine(t, changes, fulls, i) && !Readable(t, fulls[i])
    case PriorMismatch(i) =>
      && target in t.dirs && PathsFine(t, target, changes, n) && gate && i < n
      && var fulls := Fulls(target, changes);
      PriorsFine(t, changes, fulls, i) && Readable(t, fulls[i]) && !AsExpected(t, changes[i], fulls[i])
  }

  /** A batch that passes every check. */
  ghost predicate Admitted(t: Tree, target: Path, changes: seq<Change>, gate: bool) {
    && target in t.dirs && PathsFine(t, target, changes, |changes|) && gate
    && PriorsFine(t, changes, Fulls(target, changes), |changes|)
  }

  /** There is at most one reason, and none exactly when the batch is admitted. */
  lemma OneReason(t: Tree, target: Path, changes: seq<Change>, gate: bool, a: Rejection, b: Rejection)
    requires RefusedFor(t, target, changes, gate, a)
    ensures !Admitted(t, target, changes, gate)
    ensures RefusedFor(t, target, changes, gate, b) ==> a == b
  {
    hide Resolvable, Repeats, Readable, AsExpected, Fulls;
    forall i | 0 <= i < |changes|
      ensures PathFine(t, target, changes, i) <==> Resolvable(t, target, changes[i].path) && !Repeats(target, changes, i)
    {
    }
  }

  // ----- The journal -----

  function OutcomeOf(b: Batch, k: nat): EntryOutcome
    requires b.Sized() && k < |b.changes|
  {
    if !b.changes[k].delete then Written else if b.fulls[k] in b.before.files then Deleted else Noop
  }

  /** `e` records what was on disk at the path of change `k`, what was done, and the topmost directory that
      had to be created for it. */
  ghost predicate Records(b: Batch, k: nat, e: Entry)
    requires b.Sized() && k < |b.changes|
  {
    var p := b.fulls[k];
    && e.path == b.changes[k].path
    && (e.existedBefore <==> p in b.before.files)
    && e.originalContent == (if p in b.before.files then Some(b.before.files[p].content) else None)
    && e.originalMode == (if p in b.before.files then b.before.files[p].mode else 0)
    && e.outcome == OutcomeOf(b, k)
    && (e.createdDir.None? <==> b.changes[k].delete || DirReady(b, k, Dir(p)))
    && (e.createdDir.Some? ==>
          var d := e.createdDir.value;
          d <= Dir(p) && !DirReady(b, k, d) && DirReady(b, k, Dir(d)))
  }

  lemma StepEntry(b: Batch, k: nat)
    requires b.Sized() && b.Ready() && k < |b.changes| && b.StepAt(k).ok
    ensures var e, s := b.entries[k], b.StepAt(k).entry;
            s == e.(outcome := OutcomeOf(b, k),
                    createdDir := if b.changes[k].delete then None
                                  else EnsureDirAt(b.At(k), Dir(b.fulls[k]), b.Fault(k) == MkdirFault).created)
  {
    hide Batch.Ready, EnsureDirAt, WriteAt;
    BatchFacts(b, k);
  }

  /** Every entry of a successful batch's journal records its change. */
  lemma JournalRecords(b: Batch, k: nat)
    requires b.Sized() && b.Ready() && k < |b.changes| && b.Succeeds(k + 1)
    ensures Records(b, k, b.StepAt(k).entry)
  {
    hide Batch.Ready, Batch.StepAt, Batch.At, DirReady, OutcomeOf, TopMissing, Between;
    BatchFacts(b, k);
    assert b.StepAt(k).ok && b.Succeeds(k);
    StepEntry(b, k);
    if !b.changes[k].delete {
      BetweenTree(b, k);
      var t, dir, fault := b.At(k), Dir(b.fulls[k]), b.Fault(k) == MkdirFault;
      DirReadyExact(b, k, dir);
      StepMadeDir(b, k);
      if dir !in t.dirs {
        MissingChain(t, dir);
        var top := TopMissing(t, dir);
        DirReadyExact(b, k, top);
        DirReadyExact(b, k, Dir(top));
        assert top == dir[..|top|];
      }
    }
  }

  lemma StepMadeDir(b: Batch, k: nat)
    requires b.Sized() && b.Ready() && k < |b.changes| && b.StepAt(k).ok && !b.changes[k].delete && WellFormed(b.At(k))
    ensures var t, d := b.At(k), Dir(b.fulls[k]);
            EnsureDirAt(t, d, b.Fault(k) == MkdirFault).created ==
            (if d in t.dirs then None else Some(TopMissing(t, d)))
    ensures var t, d := b.At(k), Dir(b.fulls[k]); d !in t.dirs ==> Stat(t, d) == Absent
  {
    hide Batch.Ready, TopMissing, WriteAt;
  }
}
