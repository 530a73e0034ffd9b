/**
 * A symlink-free filesystem and the os calls that patchapply makes on it, first as functions on
 * trees, then as a mutable disk whose methods are proved against those functions.
 */
module FileTree {
  import opened Text
  import opened Paths

  newtype byte = x: int | 0 <= x < 256
  type Bytes = seq<byte>

  datatype File = File(content: Bytes, mode: nat)

  datatype Tree = Tree(files: map<Path, File>, dirs: set<Path>)

  /** Every file and directory sits in a directory, and no path is both. */
  ghost predicate WellFormed(t: Tree) {
    && [] in t.dirs
    && (forall d | d in t.dirs :: Dir(d) in t.dirs)
    && (forall f | f in t.files :: Dir(f) in t.dirs && f !in t.dirs)
  }

  datatype Node = FileNode | DirNode | Absent | BelowFile

  datatype Errno = NotExist | NotDirectory | NotEmpty | IsDirectory | Faulted | OutsideTarget | NotRestorable | Unresolved

  datatype Outcome = Outcome(tree: Tree, err: Option<Errno>)

  /** `os.Stat`: `Absent` is `os.IsNotExist`, `BelowFile` is ENOTDIR, which is not. */
  function Stat(t: Tree, p: Path): Node {
    if p in t.files then FileNode
    else if p in t.dirs then DirNode
    else if exists k | 0 <= k < |p| :: p[..k] in t.files then BelowFile
    else Absent
  }

  /** What `os.ReadDir` would list is not empty. */
  predicate HasChild(t: Tree, d: Path) {
    || (exists f | f in t.files.Keys :: f != [] && Dir(f) == d)
    || (exists e | e in t.dirs :: e != [] && Dir(e) == d)
  }

  /** `os.Remove`: a file, or a directory that is already empty. */
  function RemoveAt(t: Tree, p: Path): Outcome {
    match Stat(t, p)
    case FileNode => Outcome(t.(files := t.files - {p}), None)
    case DirNode =>
      if p == [] || HasChild(t, p) then Outcome(t, Some(NotEmpty))
      else Outcome(t.(dirs := t.dirs - {p}), None)
    case Absent => Outcome(t, Some(NotExist))
    case BelowFile => Outcome(t, Some(NotDirectory))
  }

  /** `writeViaRename` as one atomic step. */
  function WriteAt(t: Tree, p: Path, content: Bytes, mode: nat): Outcome {
    if Dir(p) !in t.dirs then Outcome(t, Some(NotExist))
    else if p in t.dirs then Outcome(t, Some(IsDirectory))
    else Outcome(t.(files := t.files[p := File(content, mode)]), None)
  }

  /** The directories `d[..lo]`, ..., `d[..hi]`. */
  function Chain(d: Path, lo: nat, hi: nat): set<Path>
    requires hi <= |d|
  {
    set k | lo <= k <= hi :: d[..k]
  }

  /** The topmost missing ancestor of a missing directory. */
  function TopMissing(t: Tree, d: Path): Path
    decreases |d|
  {
    var parent := Dir(d);
    if parent == d then d
    else if Stat(t, parent) == FileNode || Stat(t, parent) == DirNode then d
    else TopMissing(t, parent)
  }

  datatype Ensured = Ensured(tree: Tree, created: Option<Path>, err: Option<Errno>)

  /** `ensureDir`; `fault` makes `os.MkdirAll` fail without creating anything. */
  function EnsureDirAt(t: Tree, d: Path, fault: bool): Ensured {
    match Stat(t, d)
    case DirNode => Ensured(t, None, None)
    case FileNode => Ensured(t, None, Some(NotDirectory))
    case BelowFile => Ensured(t, None, Some(NotDirectory))
    case Absent =>
      if fault then Ensured(t, None, Some(Faulted))
      else Ensured(t.(dirs := t.dirs + Chain(d, 0, |d|)), Some(TopMissing(t, d)), None)
  }

  /** The upward walk of `removeCreatedDir`: remove `dir` and its ancestors up to `created` while empty. */
  function RemoveChain(t: Tree, dir: Path, created: Path): Outcome
    decreases |dir|
  {
    if !IsWithin(created, dir) then Outcome(t, None)
    else
      match Stat(t, dir)
      case FileNode => Outcome(t, Some(NotDirectory))
      case BelowFile => Outcome(t, Some(NotDirectory))
      case Absent =>
        if dir == created then Outcome(t, None) else RemoveChain(t, Dir(dir), created)
      case DirNode =>
        if HasChild(t, dir) then Outcome(t, None)
        else
          var removed := RemoveAt(t, dir);
          if removed.err.Some? then removed
          else if dir == created then removed
          else RemoveChain(removed.tree, Dir(dir), created)
  }

  /** `removeCreatedDir`. */
  function RemoveCreatedAt(t: Tree, target: Path, fileDir: Path, created: Path): Outcome {
    match Stat(t, created)
    case Absent => Outcome(t, None)
    case BelowFile => Outcome(t, Some(NotDirectory))
    case _ =>
      if !IsWithin(target, created) then Outcome(t, Some(OutsideTarget))
      else RemoveChain(t, fileDir, created)
  }

  // ----- Facts about trees -----

  lemma {:induction false} AncestorIsDir(t: Tree, p: Path, k: nat)
    requires WellFormed(t) && k <= |p|
    requires p in t.dirs || (p in t.files && k < |p|)
    ensures p[..k] in t.dirs && p[..k] !in t.files
    decreases |p|
  {
    if k < |p| {
      AncestorIsDir(t, Dir(p), k);
      assert Dir(p)[..k] == p[..k];
    } else {
      assert p[..k] == p;
    }
  }

  lemma FileAbove(t: Tree, p: Path, k: nat)
    requires WellFormed(t) && k < |p| && p[..k] in t.files
    ensures Stat(t, p) == BelowFile
  {
    if p in t.files || p in t.dirs {
      AncestorIsDir(t, p, k);
    }
  }

  lemma RemovePreserves(t: Tree, p: Path)
    requires WellFormed(t)
    ensures WellFormed(RemoveAt(t, p).tree)
  {
  }

  lemma WritePreserves(t: Tree, p: Path, content: Bytes, mode: nat)
    requires WellFormed(t)
    ensures WellFormed(WriteAt(t, p, content, mode).tree)
  {
  }

  /** The missing directories form a chain from `TopMissing` down, hanging off an existing directory. */
  lemma {:induction false} MissingChain(t: Tree, d: Path)
    requires WellFormed(t) && Stat(t, d) == Absent
    ensures var top := TopMissing(t, d);
            && 1 <= |top| <= |d| && top == d[..|top|]
            && Dir(top) in t.dirs
            && (forall k | |top| <= k <= |d| :: d[..k] !in t.dirs && d[..k] !in t.files)
            && (forall k | 0 <= k < |top| :: d[..k] in t.dirs)
    decreases |d|
  {
    var parent := Dir(d);
    assert parent == d[..|d| - 1];
    assert d == d[..|d|];
    if Stat(t, parent) == Absent {
      MissingChain(t, parent);
      assert forall k | 0 <= k < |d| :: parent[..k] == d[..k];
    } else {
      assert Stat(t, parent) == DirNode by {
        assert forall k | 0 <= k < |parent| :: parent[..k] == d[..k];
      }
      forall k | 0 <= k < |d| ensures d[..k] in t.dirs {
        AncestorIsDir(t, parent, k);
        assert parent[..k] == d[..k];
      }
    }
  }

  /** A successful `ensureDir` adds exactly the missing chain. */
  lemma EnsureDirEffect(t: Tree, d: Path, fault: bool)
    requires WellFormed(t)
    ensures var e := EnsureDirAt(t, d, fault);
            && WellFormed(e.tree) && e.tree.files == t.files
            && (e.err.None? ==> d in e.tree.dirs)
            && (e.created.None? ==> e.tree == t)
            && (e.created.Some? ==>
                  && Stat(t, d) == Absent && e.created == Some(TopMissing(t, d))
                  && |TopMissing(t, d)| <= |d|
                  && e.tree.dirs == t.dirs + Chain(d, |TopMissing(t, d)|, |d|))
  {
    if Stat(t, d) == Absent && !fault {
      MissingChain(t, d);
      var m := |TopMissing(t, d)|;
      var e := EnsureDirAt(t, d, fault).tree;
      assert e.dirs == t.dirs + Chain(d, m, |d|) by {
        forall p | p in Chain(d, 0, |d|) ensures p in t.dirs + Chain(d, m, |d|) {
          var k :| 0 <= k <= |d| && p == d[..k];
        }
      }
      forall p | p in Chain(d, m, |d|) ensures Dir(p) in e.dirs && p !in e.files {
        var k :| m <= k <= |d| && p == d[..k];
        assert Dir(p) == d[..k - 1] && d[..k - 1] in Chain(d, 0, |d|);
      }
      assert d == d[..|d|];
    }
  }

  lemma ChainPop(d: Path, m: nat, j: nat)
    requires m <= j <= |d|
    ensures m < j ==> Chain(d, m, j) == Chain(d, m, j - 1) + {d[..j]} && d[..j] !in Chain(d, m, j - 1)
    ensures m == j ==> Chain(d, m, j) == {d[..j]}
  {
    assert forall k | m <= k < j :: |d[..k]| != |d[..j]|;
  }

  /** The lowest directory of a chain that is new to the tree is empty. */
  lemma ChainEndIsEmpty(t: Tree, d: Path, m: nat, j: nat)
    requires WellFormed(t) && 1 <= m <= j <= |d| && d[..j] !in t.dirs
    ensures !HasChild(t.(dirs := t.dirs + Chain(d, m, j)), d[..j])
  {
    forall e | e in Chain(d, m, j) && e != [] ensures Dir(e) != d[..j] {
      var k :| m <= k <= j && e == d[..k];
      assert |Dir(e)| == k - 1;
    }
  }

  /** Removing a freshly created, still empty chain gives back the tree without it. */
  lemma {:induction false} RemoveChainUndoes(t: Tree, d: Path, m: nat, j: nat)
    requires WellFormed(t) && 1 <= m <= j <= |d|
    requires forall k | m <= k <= |d| :: d[..k] !in t.dirs && d[..k] !in t.files
    ensures RemoveChain(t.(dirs := t.dirs + Chain(d, m, j)), d[..j], d[..m]) == Outcome(t, None)
    decreases j
  {
    hide HasChild, WellFormed, Chain;
    var full := t.(dirs := t.dirs + Chain(d, m, j));
    var dir := d[..j];
    ChainPop(d, m, j);
    ChainEndIsEmpty(t, d, m, j);
    assert IsWithin(d[..m], dir);
    var less := full.(dirs := full.dirs - {dir});
    assert RemoveAt(full, dir) == Outcome(less, None);
    if j == m {
      assert less.dirs == t.dirs;
    } else {
      assert |d[..m]| != |dir|;
      assert less.dirs == t.dirs + Chain(d, m, j - 1);
      assert Dir(dir) == d[..j - 1];
      RemoveChainUndoes(t, d, m, j - 1);
    }
  }

  /**
   * What the walk may do to any tree: files stay, and a directory disappears only if it lies
   * between `created` and the start of the walk.
   */
  lemma {:induction false} RemoveChainFrame(t: Tree, dir: Path, created: Path)
    requires WellFormed(t)
    ensures var r := RemoveChain(t, dir, created).tree;
            && WellFormed(r) && r.files == t.files && r.dirs <= t.dirs
            && (forall d | d in t.dirs - r.dirs :: IsWithin(created, d) && d <= dir)
    decreases |dir|
  {
    if !IsWithin(created, dir) {
      return;
    }
    var r := RemoveChain(t, dir, created).tree;
    match Stat(t, dir) {
      case FileNode =>
      case BelowFile =>
      case Absent =>
        if dir != created {
          RemoveChainFrame(t, Dir(dir), created);
        }
      case DirNode =>
        var t' := RemoveAt(t, dir).tree;
        RemovePreserves(t, dir);
        if !HasChild(t, dir) && dir != [] {
          assert t'.dirs == t.dirs - {dir} && t'.files == t.files;
          if dir == created {
            assert r == t';
          } else {
            RemoveChainFrame(t', Dir(dir), created);
            assert forall d | d in t.dirs - r.dirs :: d == dir || d in t'.dirs - r.dirs;
          }
        } else {
          assert r == t;
        }
    }
  }

  // ----- The disk -----

  /** The mutable filesystem; one method per os call or walk in patchapply.go. */
  class Disk {
    var files: map<Path, File>
    var dirs: set<Path>

    function State(): Tree
      reads this
    {
      Tree(files, dirs)
    }

    constructor (t: Tree)
      ensures State() == t
    {
      files, dirs := t.files, t.dirs;
    }

    method Remove(p: Path) returns (err: Option<Errno>)
      modifies this
      ensures Outcome(State(), err) == RemoveAt(old(State()), p)
    {
      match Stat(State(), p) {
        case FileNode =>
          files := files - {p};
          err := None;
        case DirNode =>
          if p == [] || HasChild(State(), p) {
            err := Some(NotEmpty);
          } else {
            dirs := dirs - {p};
            err := None;
          }
        case Absent => err := Some(NotExist);
        case BelowFile => err := Some(NotDirectory);
      }
    }

    method WriteViaRename(p: Path, content: Bytes, mode: nat) returns (err: Option<Errno>)
      modifies this
      ensures Outcome(State(), err) == WriteAt(old(State()), p, content, mode)
    {
      if Dir(p) !in dirs {
        err := Some(NotExist);
      } else if p in dirs {
        err := Some(IsDirectory);
      } else {
        files := files[p := File(content, mode)];
        err := None;
      }
    }

    /** Finds the topmost missing ancestor by walking up, then creates the whole chain. */
    method EnsureDir(d: Path, fault: bool) returns (created: Option<Path>, err: Option<Errno>)
      requires WellFormed(State())
      modifies this
      ensures Ensured(State(), created, err) == EnsureDirAt(old(State()), d, fault)
    {
      created, err := None, None;
      match Stat(State(), d) {
        case DirNode => return;
        case FileNode => return None, Some(NotDirectory);
        case BelowFile => return None, Some(NotDirectory);
        case Absent =>
      }
      var top := d;
      var climbing := true;
      while climbing
        invariant unchanged(this)
        invariant top <= d && Stat(State(), top) == Absent
        invariant TopMissing(State(), d) == if climbing then TopMissing(State(), top) else top
        decreases climbing, |top|
      {
        var parent := Dir(top);
        assert top != [] ==> parent <= d && forall k | 0 <= k < |parent| :: parent[..k] == top[..k];
        if parent == top {
          climbing := false;
        } else if Stat(State(), parent) == FileNode || Stat(State(), parent) == DirNode {
          climbing := false;
        } else {
          top := parent;
        }
      }
      if fault {
        return None, Some(Faulted);
      }
      dirs := dirs + Chain(d, 0, |d|);
      created := Some(top);
    }

    method RemoveCreatedDir(target: Path, fileDir: Path, created: Path) returns (err: Option<Errno>)
      modifies this
      ensures Outcome(State(), err) == RemoveCreatedAt(old(State()), target, fileDir, created)
    {
      match Stat(State(), created) {
        case Absent => return None;
        case BelowFile => return Some(NotDirectory);
        case _ =>
      }
      if !IsWithin(target, created) {
        return Some(OutsideTarget);
      }
      var dir := fileDir;
      while IsWithin(created, dir)
        invariant RemoveChain(State(), dir, created) == RemoveChain(old(State()), fileDir, created)
        decreases |dir|
      {
        match Stat(State(), dir) {
          case FileNode => return Some(NotDirectory);
          case BelowFile => return Some(NotDirectory);
          case Absent =>
          case DirNode =>
            if HasChild(State(), dir) {
              return None;
            }
            err := Remove(dir);
            if err.Some? {
              return;
            }
        }
        if dir == created {
          return None;
        }
        dir := Dir(dir);
      }
      err := None;
    }
  }
}
