/** The write-ahead journal of patchapply/patchapply.go: forward steps, LIFO undo, verification. */
module PatchApply {
  import opened Text
  import opened Paths
  import opened FileTree

  datatype Change = Change(path: string, newContent: Bytes, delete: bool, expected: Option<Bytes>)

  datatype EntryOutcome = Pending | Written | Deleted | Noop

  datatype Entry = Entry(
    path: string, existedBefore: bool, originalContent: Option<Bytes>, originalMode: nat,
    outcome: EntryOutcome, createdDir: Option<Path>)

  /** Which os call of one forward step fails for a reason outside the tree. */
  datatype Fault = NoFault | MkdirFault | WriteFault | RemoveFault

  const DEFAULT_NEW_FILE_MODE: nat := 420 // 0o644

  function ModeOrDefault(mode: nat): nat {
    if mode == 0 then DEFAULT_NEW_FILE_MODE else mode
  }

  // ----- resolvedPath and readCurrent -----

  /** `verifyNoSymlinkEscape`: the nearest existing ancestor must lie within the target. */
  function Anchored(t: Tree, target: Path, dir: Path): Option<PathError>
    decreases |dir|
  {
    match Stat(t, dir)
    case BelowFile => Some(NotResolvable)
    case Absent => if Dir(dir) == dir then None else Anchored(t, target, Dir(dir))
    case _ => if IsWithin(target, dir) then None else Some(Traversal)
  }

  /** `resolvedPath`. */
  function Resolve(t: Tree, target: Path, rel: string): Resolved {
    match ResolveLexical(target, rel)
    case Bad(e) => Bad(e)
    case Ok(full) =>
      match Anchored(t, target, full)
      case Some(e) => Bad(e)
      case None => Ok(full)
  }

  datatype Read = Read(existed: bool, content: Option<Bytes>, mode: nat) | ReadFailed

  /** `readCurrent`: a missing path is not an error, a directory or ENOTDIR is. */
  function ReadCurrent(t: Tree, p: Path): Read {
    match Stat(t, p)
    case FileNode => Read(true, Some(t.files[p].content), t.files[p].mode)
    case Absent => Read(false, None, 0)
    case _ => ReadFailed
  }

  /** `bytes.Equal` treats nil and empty alike. */
  function BytesOf(content: Option<Bytes>): Bytes {
    if content.Some? then content.value else []
  }

  // ----- Forward direction -----

  datatype Rejection = BadPath(at: nat) | DuplicateTarget(at: nat) | ApprovalRequired | Unreadable(at: nat) | PriorMismatch(at: nat) | NotADirectory

  datatype Checked<T> = Accepted(value: T) | Rejected(why: Rejection)

  /** `validateChangePaths`. */
  function ValidatePaths(t: Tree, target: Path, changes: seq<Change>): Checked<seq<Path>> {
    if changes == [] then Accepted([]) else
      var i := |changes| - 1;
      match ValidatePaths(t, target, changes[..i])
      case Rejected(why) => Rejected(why)
      case Accepted(fulls) =>
        match Resolve(t, target, changes[i].path)
        case Bad(_) => Rejected(BadPath(i))
        case Ok(full) => if full in fulls then Rejected(DuplicateTarget(i)) else Accepted(fulls + [full])
  }

  function CaptureOne(t: Tree, c: Change, full: Path, i: nat): Checked<Entry> {
    match ReadCurrent(t, full)
    case ReadFailed => Rejected(Unreadable(i))
    case Read(existed, content, mode) =>
      if c.expected.Some? && BytesOf(content) != c.expected.value then Rejected(PriorMismatch(i))
      else Accepted(Entry(c.path, existed, content, mode, Pending, None))
  }

  /** `captureCurrentState`. */
  function Capture(t: Tree, changes: seq<Change>, fulls: seq<Path>): Checked<seq<Entry>>
    requires |changes| == |fulls|
  {
    if changes == [] then Accepted([]) else
      var i := |changes| - 1;
      match Capture(t, changes[..i], fulls[..i])
      case Rejected(why) => Rejected(why)
      case Accepted(entries) =>
        match CaptureOne(t, changes[i], fulls[i], i)
        case Rejected(why) => Rejected(why)
        case Accepted(e) => Accepted(entries + [e])
  }

  /** One forward step: the new tree, the journal entry, whether it succeeded, and whether a failure undoes it too. */
  datatype Step = Step(tree: Tree, entry: Entry, ok: bool, undoSelf: bool)

  /** The body of `applyAll`'s loop, with `applyDelete` and `applyWrite`. */
  function Forward(t: Tree, full: Path, c: Change, e: Entry, fault: Fault): Step {
    if c.delete then
      if !e.existedBefore then Step(t, e.(outcome := Noop), true, false)
      else if fault == RemoveFault then Step(t, e, false, false)
      else
        var r := RemoveAt(t, full);
        if r.err.Some? then Step(r.tree, e, false, false)
        else Step(r.tree, e.(outcome := Deleted), true, false)
    else
      var mode := if e.existedBefore then ModeOrDefault(e.originalMode) else DEFAULT_NEW_FILE_MODE;
      var d := EnsureDirAt(t, Dir(full), fault == MkdirFault);
      if d.err.Some? then Step(d.tree, e, false, true)
      else if fault == WriteFault then Step(d.tree, e.(createdDir := d.created), false, true)
      else
        var w := WriteAt(d.tree, full, c.newContent, mode);
        if w.err.Some? then Step(w.tree, e.(createdDir := d.created), false, true)
        else Step(w.tree, e.(outcome := Written, createdDir := d.created), true, true)
  }

  // ----- Undo direction -----

  /** `restoreEntry`. */
  function RestoreAt(t: Tree, target: Path, full: Path, e: Entry): Outcome {
    if !e.existedBefore then
      var r := RemoveAt(t, full);
      if r.err.Some? && r.err.value != NotExist then r
      else if e.createdDir.None? then Outcome(r.tree, None)
      else RemoveCreatedAt(r.tree, target, Dir(full), e.createdDir.value)
    else if e.originalContent.None? then Outcome(t, Some(NotRestorable))
    else
      var d := EnsureDirAt(t, Dir(full), false);
      if d.err.Some? then Outcome(d.tree, d.err)
      else WriteAt(d.tree, full, e.originalContent.value, ModeOrDefault(e.originalMode))
  }

  /** One iteration of `rollbackEntries`. */
  function UndoOne(t: Tree, target: Path, e: Entry): Outcome {
    match Resolve(t, target, e.path)
    case Bad(_) => Outcome(t, Some(Unresolved))
    case Ok(full) => RestoreAt(t, target, full, e)
  }

  datatype Rolled = Rolled(tree: Tree, errs: seq<Errno>)

  function ErrList(err: Option<Errno>): seq<Errno> {
    if err.Some? then [err.value] else []
  }

  /** `rollbackEntries`: last entry first, collecting errors instead of stopping. */
  function RollbackAt(t: Tree, target: Path, entries: seq<Entry>): Rolled
    decreases |entries|
  {
    if entries == [] then Rolled(t, []) else
      var i := |entries| - 1;
      var o := UndoOne(t, target, entries[i]);
      var rest := RollbackAt(o.tree, target, entries[..i]);
      Rolled(rest.tree, ErrList(o.err) + rest.errs)
  }

  // ----- A captured batch and its run -----

  datatype Batch = Batch(
    before: Tree, target: Path, changes: seq<Change>, fulls: seq<Path>, entries: seq<Entry>, faults: seq<Fault>)
  {
    predicate Sized() {
      |fulls| == |changes| == |entries|
    }

    /** What `Apply` knows once steps 1 to 4 have passed. */
    ghost predicate Ready() {
      && Sized() && WellFormed(before) && target in before.dirs
      && ValidatePaths(before, target, changes) == Accepted(fulls)
      && Capture(before, changes, fulls) == Accepted(entries)
    }

    function Fault(k: nat): Fault {
      if k < |faults| then faults[k] else NoFault
    }

    /** The tree after `k` forward steps. */
    function At(k: nat): Tree
      requires Sized() && k <= |changes|
    {
      if k == 0 then before else StepAt(k - 1).tree
    }

    function StepAt(k: nat): Step
      requires Sized() && k < |changes|
    {
      Forward(if k == 0 then before else StepAt(k - 1).tree, fulls[k], changes[k], entries[k], Fault(k))
    }

    /** The journal after `k` forward steps. */
    function Applied(k: nat): (es: seq<Entry>)
      requires Sized() && k <= |changes|
      ensures |es| == k && forall j | 0 <= j < k :: es[j] == StepAt(j).entry
    {
      if k == 0 then [] else Applied(k - 1) + [StepAt(k - 1).entry]
    }

    ghost predicate Succeeds(k: nat)
      requires Sized() && k <= |changes|
    {
      forall j | 0 <= j < k :: StepAt(j).ok
    }

    /** Batch files among the first `k` that were on disk before the batch. */
    function Existing(k: nat): set<Path>
      requires Sized() && k <= |changes|
    {
      set j | 0 <= j < k && entries[j].existedBefore :: fulls[j]
    }

    /** A delete of a missing path. */
    predicate IsNoop(k: nat)
      requires Sized() && k < |changes|
    {
      changes[k].delete && !entries[k].existedBefore
    }

    /** Change `k` names a missing path above or below a file that an earlier change writes. */
    ghost predicate Clashes(k: nat)
      requires Sized() && k < |changes|
    {
      !entries[k].existedBefore
      && exists i | 0 <= i < k :: !changes[i].delete && (fulls[i] <= fulls[k] || fulls[k] <= fulls[i])
    }

    /** A delete that clashes; it does nothing on the way forward. */
    ghost predicate Tangled(k: nat)
      requires Sized() && k < |changes|
    {
      changes[k].delete && Clashes(k)
    }
  }

  lemma {:induction false} AnchoredExact(t: Tree, target: Path, p: Path)
    requires WellFormed(t) && target in t.dirs && target != [] && target <= p
    ensures Anchored(t, target, p).None? <==> Stat(t, p) != BelowFile
    decreases |p|
  {
    if Stat(t, p) == Absent {
      assert Stat(t, target) == DirNode;
      assert target != p && target == p[..|target|];
      AnchoredExact(t, target, Dir(p));
      assert forall k | 0 <= k < |Dir(p)| :: Dir(p)[..k] == p[..k];
    }
  }

  lemma {:induction false} ValidatedPaths(t: Tree, target: Path, changes: seq<Change>)
    requires ValidatePaths(t, target, changes).Accepted?
    ensures var fulls := ValidatePaths(t, target, changes).value;
            && |fulls| == |changes|
            && (forall i | 0 <= i < |fulls| :: Resolve(t, target, changes[i].path) == Ok(fulls[i]))
            && (forall i, j | 0 <= i < j < |fulls| :: fulls[i] != fulls[j])
  {
    if changes != [] {
      ValidatedPaths(t, target, changes[..|changes| - 1]);
    }
  }

  lemma {:induction false} CapturedEntries(t: Tree, changes: seq<Change>, fulls: seq<Path>)
    requires |changes| == |fulls| && Capture(t, changes, fulls).Accepted?
    ensures var entries := Capture(t, changes, fulls).value;
            && |entries| == |changes|
            && (forall i | 0 <= i < |entries| :: CaptureOne(t, changes[i], fulls[i], i) == Accepted(entries[i]))
  {
    if changes != [] {
      CapturedEntries(t, changes[..|changes| - 1], fulls[..|changes| - 1]);
    }
  }

  /** What `Ready` says of one change. */
  lemma BatchFacts(b: Batch, k: nat)
    requires b.Ready() && k < |b.changes|
    ensures b.target != [] && b.target < b.fulls[k]
    ensures ResolveLexical(b.target, b.changes[k].path) == Ok(b.fulls[k])
    ensures b.entries[k].path == b.changes[k].path && b.entries[k].createdDir.None?
    ensures b.entries[k].existedBefore <==> b.fulls[k] in b.before.files
    ensures b.entries[k].existedBefore ==>
              var f := b.before.files[b.fulls[k]];
              b.entries[k].originalContent == Some(f.content) && b.entries[k].originalMode == f.mode
    ensures !b.entries[k].existedBefore ==>
              && Stat(b.before, b.fulls[k]) == Absent
              && b.entries[k].originalContent.None? && b.entries[k].originalMode == 0
    ensures forall j | 0 <= j < |b.changes| && j != k :: b.fulls[j] != b.fulls[k]
  {
    hide ValidatePaths, Capture, ResolveLexical, Anchored, Walk, Split, WellFormed;
    ValidatedPaths(b.before, b.target, b.changes);
    CapturedEntries(b.before, b.changes, b.fulls);
    assert Resolve(b.before, b.target, b.changes[k].path) == Ok(b.fulls[k]);
    ResolveLexicalExact(b.target, b.changes[k].path);
    assert CaptureOne(b.before, b.changes[k], b.fulls[k], k) == Accepted(b.entries[k]);
  }

  lemma ReadyTree(b: Batch)
    requires b.Ready()
    ensures WellFormed(b.before) && b.target in b.before.dirs
  {
  }

  // ----- Mode normalisation -----

  function Normal(f: File): File {
    f.(mode := ModeOrDefault(f.mode))
  }

  /** The tree with a zero mode replaced by the default on the paths `ps`; undo restores this, not more. */
  function Normalised(t: Tree, ps: set<Path>): Tree {
    t.(files := map p | p in t.files :: if p in ps then Normal(t.files[p]) else t.files[p])
  }

  lemma NormalisedLike(t: Tree, ps: set<Path>)
    requires WellFormed(t)
    ensures var n := Normalised(t, ps);
            && WellFormed(n) && n.dirs == t.dirs && n.files.Keys == t.files.Keys
            && (forall p :: Stat(n, p) == Stat(t, p))
  {
  }

  lemma {:induction false} TopMissingNormalised(t: Tree, ps: set<Path>, d: Path)
    requires WellFormed(t)
    ensures TopMissing(Normalised(t, ps), d) == TopMissing(t, d)
    decreases |d|
  {
    NormalisedLike(t, ps);
    if Dir(d) != d {
      TopMissingNormalised(t, ps, Dir(d));
    }
  }

  lemma NormalisedNone(t: Tree)
    ensures Normalised(t, {}) == t
  {
    assert Normalised(t, {}).files == t.files;
  }

  lemma EnsureDirNormalised(t: Tree, ps: set<Path>, d: Path, fault: bool)
    requires WellFormed(t)
    ensures var e := EnsureDirAt(t, d, fault);
            EnsureDirAt(Normalised(t, ps), d, fault) == Ensured(Normalised(e.tree, ps), e.created, e.err)
  {
    NormalisedLike(t, ps);
    TopMissingNormalised(t, ps, d);
  }

  lemma NormalisedWrite(t: Tree, ps: set<Path>, p: Path, f: File)
    requires p !in ps
    ensures Normalised(t.(files := t.files[p := f]), ps) ==
            var n := Normalised(t, ps); n.(files := n.files[p := f])
  {
    assert Normalised(t.(files := t.files[p := f]), ps).files == Normalised(t, ps).files[p := f];
  }

  /** Normalising changes nothing exactly when no file it applies to has mode zero. */
  lemma NormalisedIsIdentity(t: Tree, ps: set<Path>)
    ensures Normalised(t, ps) == t <==> forall p | p in ps && p in t.files :: t.files[p].mode != 0
  {
    var n := Normalised(t, ps);
    if forall p | p in ps && p in t.files :: t.files[p].mode != 0 {
      assert n.files == t.files;
    }
    if n == t {
      forall p | p in ps && p in t.files ensures t.files[p].mode != 0 {
        assert n.files[p] == Normal(t.files[p]);
      }
    }
  }

  // ----- Undoing one step -----

  /** Undo of a new file: the file (if the write got that far) and its directory chain go, nothing else. */
  lemma UndoNewFile(u: Tree, target: Path, p: Path, e: Entry, f: File)
    requires WellFormed(u) && target in u.dirs && target != [] && target < p
    requires ResolveLexical(target, e.path) == Ok(p) && !e.existedBefore
    requires p !in u.files && p !in u.dirs
    requires EnsureDirAt(u, Dir(p), false).err.None? && e.createdDir == EnsureDirAt(u, Dir(p), false).created
    ensures var d := EnsureDirAt(u, Dir(p), false).tree;
            && UndoOne(d, target, e) == Outcome(u, None)
            && UndoOne(d.(files := d.files[p := f]), target, e) == Outcome(u, None)
  {
    hide ResolveLexical, Anchored, RemoveChain, TopMissing, HasChild;
    var ens := EnsureDirAt(u, Dir(p), false);
    var d := ens.tree;
    var w := d.(files := d.files[p := f]);
    EnsureDirEffect(u, Dir(p), false);
    assert p !in d.dirs by {
      if ens.created.Some? {
        assert forall q | q in Chain(Dir(p), |ens.created.value|, |Dir(p)|) :: |q| < |p|;
      }
    }
    assert WellFormed(w);
    assert Stat(d, p) == Absent by {
      forall k | 0 <= k < |p| ensures p[..k] !in d.files {
        AncestorIsDir(d, Dir(p), k);
        assert Dir(p)[..k] == p[..k];
      }
    }
    AnchoredExact(d, target, p);
    AnchoredExact(w, target, p);
    assert RemoveAt(w, p).tree == d by {
      assert w.files - {p} == d.files;
    }
    if ens.created.Some? {
      MissingChain(u, Dir(p));
      var top := ens.created.value;
      assert top == Dir(p)[..|top|] && top in Chain(Dir(p), |top|, |Dir(p)|);
      assert target == Dir(p)[..|target|];
      assert target <= top;
      assert Dir(p)[..|Dir(p)|] == Dir(p);
      RemoveChainUndoes(u, Dir(p), |top|, |Dir(p)|);
    }
  }

  /** Undo of a step on an existing file puts content and (normalised) mode back. */
  lemma UndoExistingFile(u: Tree, target: Path, p: Path, e: Entry)
    requires WellFormed(u) && target in u.dirs && target != [] && target < p
    requires ResolveLexical(target, e.path) == Ok(p) && e.existedBefore && e.originalContent.Some?
    requires Dir(p) in u.dirs && p !in u.dirs
    ensures UndoOne(u, target, e) ==
            Outcome(u.(files := u.files[p := File(e.originalContent.value, ModeOrDefault(e.originalMode))]), None)
  {
    hide ResolveLexical, Anchored, TopMissing;
    assert Stat(u, p) != BelowFile by {
      forall k | 0 <= k < |p| ensures p[..k] !in u.files {
        AncestorIsDir(u, Dir(p), k);
        assert Dir(p)[..k] == p[..k];
      }
    }
    AnchoredExact(u, target, p);
  }

  // ----- The state between two steps -----

  /** Batch files not reached yet are as they were. */
  ghost predicate Untouched(b: Batch, t: Tree, k: nat)
    requires b.Sized()
  {
    forall j | k <= j < |b.changes| ::
      && (b.fulls[j] in t.files <==> b.fulls[j] in b.before.files)
      && (b.fulls[j] in t.files ==> t.files[b.fulls[j]] == b.before.files[b.fulls[j]])
  }

  /** Some write among the first `k` changes lies strictly below `d`. */
  ghost predicate WrittenBelow(b: Batch, k: nat, d: Path)
    requires b.Sized() && k <= |b.changes|
  {
    exists i | 0 <= i < k :: !b.changes[i].delete && d < b.fulls[i]
  }

  /** Every directory the batch created is in use by one of its writes. */
  ghost predicate Used(b: Batch, t: Tree, k: nat)
    requires b.Sized() && k <= |b.changes|
  {
    forall d | d in t.dirs - b.before.dirs :: HasChild(t, d) && WrittenBelow(b, k, d)
  }

  /** The files the batch added are exactly its writes. */
  ghost predicate Accounted(b: Batch, t: Tree, k: nat)
    requires b.Sized() && k <= |b.changes|
  {
    && (forall i | 0 <= i < k && !b.changes[i].delete :: b.fulls[i] in t.files)
    && (forall f | f in t.files && f !in b.before.files :: exists i | 0 <= i < k :: !b.changes[i].delete && f == b.fulls[i])
  }

  /** What holds after `k` successful forward steps. */
  ghost predicate Between(b: Batch, k: nat)
    requires b.Ready() && k <= |b.changes|
  {
    var t := b.At(k);
    && WellFormed(t) && b.before.dirs <= t.dirs
    && Untouched(b, t, k) && Used(b, t, k) && Accounted(b, t, k)
  }

  lemma DeleteKeepsBetween(b: Batch, k: nat, t: Tree, t': Tree)
    requires b.Sized() && b.Ready() && k < |b.changes| && WellFormed(t) && b.before.dirs <= t.dirs
    requires WellFormed(b.before) && Untouched(b, t, k) && Used(b, t, k) && Accounted(b, t, k)
    requires b.changes[k].delete && t'.dirs == t.dirs
    requires if b.entries[k].existedBefore then t'.files == t.files - {b.fulls[k]} else t'.files == t.files
    ensures WellFormed(t') && Untouched(b, t', k + 1) && Used(b, t', k + 1) && Accounted(b, t', k + 1)
  {
    hide Batch.At, Batch.Ready;
    BatchFacts(b, k);
    var p := b.fulls[k];
    DeleteKeepsUsed(b, k, t, t');
    assert forall f | f in t'.files :: f in t.files && t'.files[f] == t.files[f];
    assert forall i | 0 <= i < |b.changes| && i != k && b.fulls[i] in t.files :: b.fulls[i] in t'.files;
  }

  lemma DeleteKeepsUsed(b: Batch, k: nat, t: Tree, t': Tree)
    requires b.Sized() && k < |b.changes| && WellFormed(b.before) && Used(b, t, k)
    requires t'.dirs == t.dirs && (forall f | f in t.files && f !in t'.files :: f in b.before.files)
    ensures Used(b, t', k + 1)
  {
    forall d | d in t'.dirs - b.before.dirs ensures HasChild(t', d) && WrittenBelow(b, k + 1, d) {
      assert HasChild(t, d) && WrittenBelow(b, k, d);
      if f :| f in t.files.Keys && f != [] && Dir(f) == d {
        assert f in t'.files.Keys;
      }
    }
  }

  lemma WriteKeepsUsed(b: Batch, k: nat, t: Tree, d: Ensured, t': Tree, fault: bool)
    requires b.Sized() && b.Ready() && k < |b.changes| && WellFormed(t) && Used(b, t, k)
    requires !b.changes[k].delete
    requires d == EnsureDirAt(t, Dir(b.fulls[k]), fault) && d.err.None?
    requires t'.dirs == d.tree.dirs && t'.files.Keys == t.files.Keys + {b.fulls[k]}
    ensures Used(b, t', k + 1)
  {
    hide Batch.At, EnsureDirAt, Batch.Ready, Untouched, Accounted;
    BatchFacts(b, k);
    var p := b.fulls[k];
    var dir := Dir(p);
    EnsureDirEffect(t, dir, fault);
    forall q | q in t'.dirs - b.before.dirs ensures HasChild(t', q) && WrittenBelow(b, k + 1, q) {
      if q in t.dirs {
        assert HasChild(t, q) && WrittenBelow(b, k, q);
      } else {
        var m := |TopMissing(t, dir)|;
        var j :| m <= j <= |dir| && q == dir[..j];
        assert q < p;
        if j < |dir| {
          var child := dir[..j + 1];
          assert child in Chain(dir, m, |dir|) && Dir(child) == q;
        } else {
          assert dir == q && p in t'.files.Keys;
        }
      }
    }
  }

  lemma WriteKeepsBetween(b: Batch, k: nat, t: Tree, d: Ensured, t': Tree, f: File, fault: bool)
    requires b.Ready() && k < |b.changes| && t == b.At(k) && Between(b, k)
    requires !b.changes[k].delete
    requires d == EnsureDirAt(t, Dir(b.fulls[k]), fault) && d.err.None? && b.fulls[k] !in d.tree.dirs
    requires t' == d.tree.(files := d.tree.files[b.fulls[k] := f])
    ensures WellFormed(t') && b.before.dirs <= t'.dirs
    ensures Untouched(b, t', k + 1) && Used(b, t', k + 1) && Accounted(b, t', k + 1)
  {
    BatchFacts(b, k);
    EnsureDirEffect(t, Dir(b.fulls[k]), fault);
    WriteKeepsUsed(b, k, t, d, t', fault);
    forall f | f in t'.files && f !in b.before.files
      ensures exists i | 0 <= i < k + 1 :: !b.changes[i].delete && f == b.fulls[i]
    {
      if f != b.fulls[k] {
        var i :| 0 <= i < k && !b.changes[i].delete && f == b.fulls[i];
      }
    }
  }

  lemma StepKeepsBetween(b: Batch, k: nat)
    requires b.Ready() && k < |b.changes| && Between(b, k) && b.StepAt(k).ok
    ensures Between(b, k + 1)
  {
    hide TopMissing;
    BatchFacts(b, k);
    var t, p, c, e := b.At(k), b.fulls[k], b.changes[k], b.entries[k];
    if c.delete {
      DeleteKeepsBetween(b, k, t, b.At(k + 1));
    } else {
      var fault := b.Fault(k) == MkdirFault;
      var mode := if e.existedBefore then ModeOrDefault(e.originalMode) else DEFAULT_NEW_FILE_MODE;
      WriteKeepsBetween(b, k, t, EnsureDirAt(t, Dir(p), fault), b.At(k + 1), File(c.newContent, mode), fault);
    }
  }

  lemma {:induction false} BetweenHolds(b: Batch, k: nat)
    requires b.Ready() && k <= |b.changes| && b.Succeeds(k)
    ensures Between(b, k)
  {
    if k > 0 {
      BetweenHolds(b, k - 1);
      StepKeepsBetween(b, k - 1);
    }
  }

  // ----- Undoing the run -----

  /** Undoing an entry that created nothing touches nothing, but it reports an error if something is in the way. */
  lemma UndoNothing(b: Batch, k: nat, u: Tree, e: Entry)
    requires b.Ready() && k < |b.changes| && Between(b, k) && !b.entries[k].existedBefore
    requires e.path == b.entries[k].path && !e.existedBefore && e.createdDir.None?
    requires WellFormed(u) && u.dirs == b.At(k).dirs && u.files.Keys == b.At(k).files.Keys
    ensures UndoOne(u, b.target, e).tree == u
    ensures UndoOne(u, b.target, e).err.None? <==> Stat(b.At(k), b.fulls[k]) == Absent
  {
    hide ResolveLexical, Batch.At, Anchored, Accounted;
    BatchFacts(b, k);
    var t, p := b.At(k), b.fulls[k];
    assert Stat(u, p) == Stat(t, p);
    AnchoredExact(u, b.target, p);
    if p in t.dirs {
      assert HasChild(t, p);
      assert HasChild(u, p);
    }
  }

  /** Undo of a step on an existing file, on a tree whose other batch files are already normalised. */
  lemma UndoExistingNormalised(t: Tree, t': Tree, ps: set<Path>, target: Path, p: Path, e: Entry)
    requires WellFormed(t) && WellFormed(t') && t'.dirs == t.dirs && target in t.dirs && target != [] && target < p
    requires ResolveLexical(target, e.path) == Ok(p) && e.existedBefore && p in t.files && p !in ps
    requires e.originalContent == Some(t.files[p].content) && e.originalMode == t.files[p].mode
    requires t'.files - {p} == t.files - {p}
    ensures UndoOne(Normalised(t', ps), target, e) == Outcome(Normalised(t, ps + {p}), None)
  {
    hide ResolveLexical, UndoOne, Stat, Normalised;
    NormalisedLike(t', ps);
    NormalisedAt(t', ps, p);
    UndoExistingFile(Normalised(t', ps), target, p, e);
    NormalisedUpdate(t, t', ps, p);
  }

  lemma NormalisedAt(t: Tree, ps: set<Path>, p: Path)
    ensures Normalised(t, ps).dirs == t.dirs && Normalised(t, ps).files.Keys == t.files.Keys
  {
  }

  /** Putting back one file, normalised, on a tree that differs from `t` only there. */
  lemma NormalisedUpdate(t: Tree, t': Tree, ps: set<Path>, p: Path)
    requires p in t.files && p !in ps && t'.dirs == t.dirs && t'.files - {p} == t.files - {p}
    ensures Normalised(t, ps + {p}) == Normalised(t', ps).(files := Normalised(t', ps).files[p := Normal(t.files[p])])
  {
    hide Normal;
    var want, got := Normalised(t, ps + {p}).files, Normalised(t', ps).files[p := Normal(t.files[p])];
    forall q | q != p ensures (q in t'.files <==> q in t.files) && (q in t.files ==> t'.files[q] == t.files[q]) {
      assert q in t'.files <==> q in t'.files - {p};
      assert q in t.files <==> q in t.files - {p};
      if q in t.files {
        assert t.files[q] == (t.files - {p})[q] == (t'.files - {p})[q] == t'.files[q];
      }
    }
    assert want.Keys == got.Keys;
    assert want == got;
  }

  /** Undo of a new file, on a tree whose other batch files are already normalised. */
  lemma UndoNewNormalised(t: Tree, d: Ensured, ps: set<Path>, target: Path, p: Path, e: Entry, f: File, fault: bool)
    requires WellFormed(t) && target in t.dirs && target != [] && target < p
    requires ResolveLexical(target, e.path) == Ok(p) && !e.existedBefore && p !in t.files && p !in t.dirs && p !in ps
    requires d == EnsureDirAt(t, Dir(p), fault) && d.err.None? && e.createdDir == d.created
    ensures UndoOne(Normalised(d.tree, ps), target, e) == Outcome(Normalised(t, ps), None)
    ensures UndoOne(Normalised(d.tree.(files := d.tree.files[p := f]), ps), target, e) == Outcome(Normalised(t, ps), None)
  {
    hide ResolveLexical, UndoOne, TopMissing;
    NormalisedLike(t, ps);
    EnsureDirNormalised(t, ps, Dir(p), fault);
    EnsureDirNormalised(t, ps, Dir(p), false);
    NormalisedWrite(d.tree, ps, p, f);
    assert EnsureDirAt(t, Dir(p), false) == d;
    UndoNewFile(Normalised(t, ps), target, p, e, f);
  }

  /** The shape of one successful step. */
  lemma StepShape(b: Batch, k: nat)
    requires b.Ready() && k < |b.changes| && b.StepAt(k).ok && WellFormed(b.At(k))
    ensures var t, t', p, c, e, s := b.At(k), b.At(k + 1), b.fulls[k], b.changes[k], b.entries[k], b.StepAt(k).entry;
            && s.path == e.path && s.existedBefore == e.existedBefore
            && s.originalContent == e.originalContent && s.originalMode == e.originalMode
            && (b.IsNoop(k) ==> t' == t)
            && (e.existedBefore && p in t.files ==> t'.dirs == t.dirs && t'.files - {p} == t.files - {p})
            && (!e.existedBefore && !c.delete ==>
                  var d := EnsureDirAt(t, Dir(p), b.Fault(k) == MkdirFault);
                  && d.err.None? && p !in d.tree.dirs && s.createdDir == d.created
                  && t' == d.tree.(files := d.tree.files[p := File(c.newContent, DEFAULT_NEW_FILE_MODE)]))
  {
    hide ResolveLexical, TopMissing;
    var t, t', p := b.At(k), b.At(k + 1), b.fulls[k];
    if p in t.files {
      assert Stat(t, Dir(p)) == DirNode;
    }
  }

  /** `ps` grows by the undone path if that path existed before. */
  function Grown(b: Batch, k: nat, ps: set<Path>): set<Path>
    requires b.Sized() && k < |b.changes|
  {
    if b.entries[k].existedBefore then ps + {b.fulls[k]} else ps
  }

  /** Undoing the last of `k + 1` steps gives the tree after `k`, up to zero modes. */
  lemma UndoStep(b: Batch, k: nat, ps: set<Path>)
    requires b.Ready() && k < |b.changes| && Between(b, k) && b.StepAt(k).ok && b.fulls[k] !in ps
    ensures var o := UndoOne(Normalised(b.At(k + 1), ps), b.target, b.StepAt(k).entry);
            && o.tree == Normalised(b.At(k), Grown(b, k, ps))
            && (o.err.None? <==> !(b.IsNoop(k) && Stat(b.At(k), b.fulls[k]) != Absent))
  {
    BatchFacts(b, k);
    StepKeepsBetween(b, k);
    StepShape(b, k);
    var t, t', p := b.At(k), b.At(k + 1), b.fulls[k];
    if b.entries[k].existedBefore {
      UndoExistingNormalised(t, t', ps, b.target, p, b.StepAt(k).entry);
    } else if b.changes[k].delete {
      NormalisedLike(t, ps);
      UndoNothing(b, k, Normalised(t, ps), b.StepAt(k).entry);
    } else {
      var fault := b.Fault(k) == MkdirFault;
      var d := EnsureDirAt(t, Dir(p), fault);
      EnsureDirEffect(t, Dir(p), fault);
      UndoNewNormalised(t, d, ps, b.target, p, b.StepAt(k).entry, t'.files[p], fault);
    }
  }

  /** A path that was missing is obstructed when its change runs exactly when it clashes with an earlier write. */
  lemma ClashExact(b: Batch, k: nat)
    requires b.Ready() && k < |b.changes| && Between(b, k)
    ensures !b.entries[k].existedBefore && Stat(b.At(k), b.fulls[k]) != Absent <==> b.Clashes(k)
  {
    hide Batch.At, ResolveLexical;
    BatchFacts(b, k);
    var t, p := b.At(k), b.fulls[k];
    if !b.entries[k].existedBefore {
      if p in t.dirs {
        assert WrittenBelow(b, k, p);
      } else if m :| 0 <= m < |p| && p[..m] in t.files {
        assert p[..m] !in b.before.files;
        assert exists i | 0 <= i < k :: !b.changes[i].delete && p[..m] == b.fulls[i];
      }
      if i :| 0 <= i < k && !b.changes[i].delete && (b.fulls[i] <= p || p <= b.fulls[i]) {
        var f := b.fulls[i];
        assert f in t.files && f != p;
        if f <= p {
          assert f == p[..|f|];
        } else {
          AncestorIsDir(t, f, |p|);
          assert p == f[..|p|];
        }
      }
    }
  }

  /** The undo of a delete of a missing path is obstructed exactly when that delete is tangled with an earlier write. */
  lemma TangledExact(b: Batch, k: nat)
    requires b.Ready() && k < |b.changes| && Between(b, k)
    ensures b.IsNoop(k) && Stat(b.At(k), b.fulls[k]) != Absent <==> b.Tangled(k)
  {
    hide Batch.At, Batch.Ready, Batch.Clashes, Between, Stat;
    ClashExact(b, k);
  }

  /** A write that clashes cannot succeed. */
  lemma ClashingWriteFails(b: Batch, k: nat)
    requires b.Sized() && b.Ready() && k < |b.changes| && b.Succeeds(k) && !b.changes[k].delete && b.Clashes(k)
    ensures !b.StepAt(k).ok
  {
    hide Batch.At, Batch.Ready, ResolveLexical, Used, Accounted;
    BetweenHolds(b, k);
    BatchFacts(b, k);
    ClashExact(b, k);
    if b.StepAt(k).ok {
      StepShape(b, k);
      WrittenWasAbsent(b.At(k), b.fulls[k], b.Fault(k) == MkdirFault);
    }
  }

  lemma WrittenWasAbsent(t: Tree, p: Path, fault: bool)
    requires WellFormed(t) && p != [] && p !in t.files
    requires var d := EnsureDirAt(t, Dir(p), fault); d.err.None? && p !in d.tree.dirs
    ensures Stat(t, p) == Absent
  {
    hide EnsureDirAt;
    EnsureDirEffect(t, Dir(p), fault);
    var d := EnsureDirAt(t, Dir(p), fault);
    assert p !in t.dirs;
    forall k | 0 <= k < |p| ensures p[..k] !in t.files {
      AncestorIsDir(d.tree, Dir(p), k);
      assert Dir(p)[..k] == p[..k];
    }
  }

  /** If undoing entry `k` leads from `ts[k + 1]` to `ts[k]`, a rollback walks from the last tree to the first. */
  lemma {:induction false} RollbackAlong(ts: seq<Tree>, target: Path, es: seq<Entry>, errs: seq<Option<Errno>>)
    requires |ts| == |es| + 1 && |errs| == |es|
    requires forall k | 0 <= k < |es| :: UndoOne(ts[k + 1], target, es[k]) == Outcome(ts[k], errs[k])
    ensures RollbackAt(ts[|es|], target, es).tree == ts[0]
    ensures RollbackAt(ts[|es|], target, es).errs == [] <==> forall k | 0 <= k < |es| :: errs[k].None?
    decreases |es|
  {
    hide UndoOne;
    var n := |es|;
    if es != [] {
      assert UndoOne(ts[n], target, es[n - 1]) == Outcome(ts[n - 1], errs[n - 1]);
      RollbackAlong(ts[..|es|], target, es[..|es| - 1], errs[..|es| - 1]);
    }
  }

  /** The batch files from change `from` up to `to` that existed before. */
  function Later(b: Batch, from: nat, to: nat): set<Path>
    requires b.Sized() && to <= |b.changes|
  {
    set j | from <= j < to && b.entries[j].existedBefore :: b.fulls[j]
  }

  /** The tree after `k` of `n` steps, as the rollback leaves it. */
  function Rewound(b: Batch, k: nat, n: nat, ps: set<Path>): Tree
    requires b.Sized() && k <= n <= |b.changes|
  {
    Normalised(b.At(k), ps + Later(b, k, n))
  }

  lemma UndoLast(b: Batch, k: nat, n: nat, ps: set<Path>)
    requires b.Sized() && b.Ready() && k < n <= |b.changes| && b.Succeeds(k + 1)
    requires b.fulls[k] !in ps
    ensures var o := UndoOne(Rewound(b, k + 1, n, ps), b.target, b.StepAt(k).entry);
            o.tree == Rewound(b, k, n, ps) && (o.err.None? <==> !b.Tangled(k))
  {
    hide Batch.Ready, UndoOne, Normalised, Batch.StepAt, Between;
    BatchFacts(b, k);
    BetweenHolds(b, k);
    var qs := ps + Later(b, k + 1, n);
    UndoStep(b, k, qs);
    TangledExact(b, k);
    assert Grown(b, k, qs) == ps + Later(b, k, n);
  }

  /** Undoing all of `k` successful steps restores the tree, up to zero modes. */
  lemma UndoRun(b: Batch, k: nat, ps: set<Path>)
    requires b.Sized() && b.Ready() && k <= |b.changes| && b.Succeeds(k)
    requires forall j | 0 <= j < k :: b.fulls[j] !in ps
    ensures var r := RollbackAt(Normalised(b.At(k), ps), b.target, b.Applied(k));
            && r.tree == Normalised(b.before, ps + b.Existing(k))
            && (r.errs == [] <==> forall j | 0 <= j < k :: !b.Tangled(j))
  {
    hide UndoOne, RollbackAt, Batch.Ready, Batch.StepAt, Batch.Tangled, Rewound, Normalised, Batch.At;
    var es := b.Applied(k);
    var ts := seq(k + 1, j requires 0 <= j <= k => Rewound(b, j, k, ps));
    var errs := seq(k, j requires 0 <= j < k => UndoOne(ts[j + 1], b.target, es[j]).err);
    forall j | 0 <= j < k
      ensures UndoOne(ts[j + 1], b.target, es[j]) == Outcome(ts[j], errs[j])
      ensures errs[j].None? <==> !b.Tangled(j)
    {
      UndoLast(b, j, k, ps);
    }
    RollbackAlong(ts, b.target, es, errs);
    RewoundEnds(b, k, ps);
  }

  lemma RewoundEnds(b: Batch, k: nat, ps: set<Path>)
    requires b.Sized() && k <= |b.changes|
    ensures Rewound(b, k, k, ps) == Normalised(b.At(k), ps)
    ensures Rewound(b, 0, k, ps) == Normalised(b.before, ps + b.Existing(k))
  {
    hide Normalised;
    assert ps + Later(b, k, k) == ps;
    assert Later(b, 0, k) == b.Existing(k);
  }

  /** The entries `applyAll` hands to `rollbackEntries` when step `k` fails. */
  function UndoList(b: Batch, k: nat): seq<Entry>
    requires b.Sized() && k < |b.changes|
  {
    b.Applied(k) + if b.StepAt(k).undoSelf then [b.StepAt(k).entry] else []
  }

  /** How many changes that list covers. */
  function Undone(b: Batch, k: nat): nat
    requires b.Sized() && k < |b.changes|
  {
    if b.StepAt(k).undoSelf then k + 1 else k
  }

  /** Undoing a write that failed, wherever it failed, gives the tree before that write. */
  lemma UndoFailedWrite(b: Batch, k: nat)
    requires b.Ready() && k < |b.changes| && b.Succeeds(k) && !b.StepAt(k).ok && b.StepAt(k).undoSelf
    ensures UndoOne(b.StepAt(k).tree, b.target, b.StepAt(k).entry).tree ==
            Normalised(b.At(k), Grown(b, k, {}))
    ensures UndoOne(b.StepAt(k).tree, b.target, b.StepAt(k).entry).err.None? <==> !b.Clashes(k)
    ensures forall j | 0 <= j < k :: b.fulls[j] !in Grown(b, k, {})
  {
    hide ResolveLexical, UndoOne, TopMissing, Used, Accounted, Batch.Clashes;
    BatchFacts(b, k);
    BetweenHolds(b, k);
    ClashExact(b, k);
    var t, p, fault := b.At(k), b.fulls[k], b.Fault(k) == MkdirFault;
    var s := b.StepAt(k);
    var d := EnsureDirAt(t, Dir(p), fault);
    EnsureDirEffect(t, Dir(p), fault);
    assert Normalised(t, {}) == t && Normalised(d.tree, {}) == d.tree;
    assert s.tree == d.tree;
    if b.entries[k].existedBefore {
      assert Stat(t, Dir(p)) == DirNode && s.tree == t;
      UndoExistingNormalised(t, t, {}, b.target, p, s.entry);
    } else if s.entry.createdDir.None? {
      UndoNothing(b, k, t, s.entry);
    } else {
      assert p !in t.dirs;
      UndoNewNormalised(t, d, {}, b.target, p, s.entry, File([], 0), fault);
      assert Stat(t, Dir(p)) == Absent;
      BelowAbsent(t, p);
    }
  }

  lemma BelowAbsent(t: Tree, p: Path)
    requires WellFormed(t) && p != [] && Stat(t, Dir(p)) == Absent && p !in t.files && p !in t.dirs
    ensures Stat(t, p) == Absent
  {
    forall k | 0 <= k < |p| ensures p[..k] !in t.files {
      if k < |Dir(p)| {
        assert Dir(p)[..k] == p[..k];
      } else {
        assert p[..k] == Dir(p);
      }
    }
  }

  lemma FailedDeleteTouchesNothing(b: Batch, k: nat)
    requires b.Sized() && k < |b.changes| && !b.StepAt(k).ok && !b.StepAt(k).undoSelf
    ensures b.StepAt(k).tree == b.At(k)
  {
  }

  /** Undoing one more entry, then the rest. */
  lemma RollbackSnoc(t: Tree, target: Path, es: seq<Entry>, e: Entry)
    ensures var o := UndoOne(t, target, e);
            && RollbackAt(t, target, es + [e]).tree == RollbackAt(o.tree, target, es).tree
            && (RollbackAt(t, target, es + [e]).errs == [] <==> o.err.None? && RollbackAt(o.tree, target, es).errs == [])
  {
    hide UndoOne;
    assert (es + [e])[..|es|] == es;
  }

  lemma GrownExisting(b: Batch, k: nat)
    requires b.Sized() && k < |b.changes|
    ensures Grown(b, k, {}) + b.Existing(k) == b.Existing(k + 1)
  {
  }

  /** After a failed write the undo reports nothing exactly when neither that write nor an earlier delete clashes. */
  lemma FailedWriteRestores(b: Batch, k: nat)
    requires b.Sized() && b.Ready() && k < |b.changes| && b.Succeeds(k) && !b.StepAt(k).ok && b.StepAt(k).undoSelf
    ensures var r := RollbackAt(b.StepAt(k).tree, b.target, b.Applied(k) + [b.StepAt(k).entry]);
            && r.tree == Normalised(b.before, b.Existing(k + 1))
            && (r.errs == [] <==> !b.Clashes(k) && forall j | 0 <= j < k :: !b.Tangled(j))
  {
    hide UndoOne, RollbackAt, Normalised, Grown, Batch.Ready, Batch.StepAt, Batch.Applied, Batch.Existing, Batch.Succeeds;
    hide Batch.Clashes, Batch.Tangled;
    var s := b.StepAt(k);
    RollbackSnoc(s.tree, b.target, b.Applied(k), s.entry);
    UndoFailedWrite(b, k);
    UndoRun(b, k, Grown(b, k, {}));
    GrownExisting(b, k);
  }

  /** A successful prefix has no clashing write, so its tangled deletes are all its clashes. */
  lemma ClashesOfPrefix(b: Batch, k: nat)
    requires b.Sized() && b.Ready() && k <= |b.changes| && b.Succeeds(k)
    ensures forall j | 0 <= j < k :: b.Tangled(j) <==> b.Clashes(j)
  {
    hide Batch.Ready, Batch.Clashes, Batch.StepAt;
    forall j | 0 <= j < k ensures b.Tangled(j) <==> b.Clashes(j) {
      if b.Clashes(j) && !b.changes[j].delete {
        ClashingWriteFails(b, j);
        assert !b.StepAt(j).ok;
      }
    }
  }

  /**
   * Whichever step fails, the undo leaves the tree from before the batch, up to zero modes. It reports no
   * error exactly when no undone change names a missing path above or below an earlier write.
   */
  lemma FailureRestores(b: Batch, k: nat)
    requires b.Sized() && b.Ready() && k < |b.changes| && b.Succeeds(k) && !b.StepAt(k).ok
    ensures var r := RollbackAt(b.StepAt(k).tree, b.target, UndoList(b, k));
            && r.tree == Normalised(b.before, b.Existing(Undone(b, k)))
            && (r.errs == [] <==> forall j | 0 <= j < Undone(b, k) :: !b.Clashes(j))
  {
    hide UndoOne, RollbackAt, Batch.Ready, Batch.StepAt, Batch.Clashes, Batch.Tangled, Batch.Succeeds, Batch.Existing, Normalised;
    ClashesOfPrefix(b, k);
    if b.StepAt(k).undoSelf {
      FailedWriteRestores(b, k);
    } else {
      UndoRun(b, k, {});
      FailedDeleteTouchesNothing(b, k);
      NormalisedNone(b.At(k));
      assert {} + b.Existing(k) == b.Existing(k);
      assert UndoList(b, k) == b.Applied(k);
    }
  }
}
