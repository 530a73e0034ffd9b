/** Paths as sequences of segments below the filesystem root (patchapply/path.go). */
module Paths {
  import opened Text

  /** `[]` is "/", `["a", "b"]` is "/a/b". */
  type Path = seq<string>

  /** `filepath.Dir` on a clean absolute path; the root is its own parent. */
  function Dir(p: Path): Path {
    if p == [] then [] else p[..|p| - 1]
  }

  /** The segments of a clean absolute path are non-empty and hold no separator. */
  predicate CleanSegments(p: Path) {
    forall i | 0 <= i < |p| :: p[i] != "" && '/' !in p[i]
  }

  function Suffix(p: Path): string {
    if p == [] then "" else "/" + p[0] + Suffix(p[1..])
  }

  /** The string form of a clean absolute path. */
  function Render(p: Path): string {
    if p == [] then "/" else Suffix(p)
  }

  /** `isWithin` exactly as written, on strings. */
  predicate IsWithinText(base: string, target: string) {
    target == base || HasPrefix(target, base + "/")
  }

  /** `isWithin` on segments: ancestry, except that the root contains only itself. */
  predicate IsWithin(base: Path, target: Path) {
    target == base || (base != [] && base <= target)
  }

  lemma SuffixHead(a: string, restA: string, b: string, restB: string)
    requires '/' !in a && '/' !in b
    requires restA == "" || restA[0] == '/'
    requires restB == "" || restB[0] == '/'
    requires a + restA <= b + restB
    requires restA != ""
    ensures a == b && restA <= restB
  {
    assert (a + restA)[|a|] == '/' && (b + restB)[|a|] == '/';
    assert |b| <= |a|;
    assert forall k {:trigger (b + restB)[k]} | 0 <= k < |a| :: a[k] == (a + restA)[k] == (b + restB)[k];
    assert restB != "" ==> (b + restB)[|b|] == '/';
    assert |a| == |b|;
    assert a == (a + restA)[..|a|] == (b + restB)[..|b|] == b;
    assert restA == (a + restA)[|a|..] && restB == (b + restB)[|b|..];
  }

  lemma {:induction false} SuffixConcat(a: Path, b: Path)
    ensures Suffix(a + b) == Suffix(a) + Suffix(b)
  {
    if a == [] {
      assert a + b == b;
    } else {
      SuffixConcat(a[1..], b);
      assert (a + b)[0] == a[0] && (a + b)[1..] == a[1..] + b;
      assert "/" + a[0] + (Suffix(a[1..]) + Suffix(b)) == "/" + a[0] + Suffix(a[1..]) + Suffix(b);
    }
  }

  lemma {:induction false} TextPrefixIsAncestor(base: Path, target: Path)
    requires CleanSegments(base) && CleanSegments(target)
    requires Suffix(base) + "/" <= Suffix(target)
    ensures base < target
  {
    assert target != [];
    if base != [] {
      var b, t := Suffix(base[1..]) + "/", Suffix(target[1..]);
      assert base[0] + b == (Suffix(base) + "/")[1..];
      assert target[0] + t == Suffix(target)[1..];
      SuffixHead(base[0], b, target[0], t);
      TextPrefixIsAncestor(base[1..], target[1..]);
      assert base == [base[0]] + base[1..] && target == [target[0]] + target[1..];
    }
  }

  lemma AncestorIsTextPrefix(base: Path, target: Path)
    requires base < target
    ensures Suffix(base) + "/" <= Suffix(target)
  {
    var rest := target[|base|..];
    assert target == base + rest;
    SuffixConcat(base, rest);
    assert Suffix(rest)[0] == '/';
  }

  lemma {:induction false} SuffixInjective(a: Path, b: Path)
    requires CleanSegments(a) && CleanSegments(b)
    requires Suffix(a) == Suffix(b)
    ensures a == b
  {
    if a != [] && b != [] {
      var x, y := Suffix(a[1..]), Suffix(b[1..]);
      assert a[0] + x == Suffix(a)[1..] && b[0] + y == Suffix(b)[1..];
      if x == "" && y == "" {
        assert a[0] + x == a[0] && b[0] + y == b[0];
      } else if x != "" {
        SuffixHead(a[0], x, b[0], y);
      } else {
        SuffixHead(b[0], y, a[0], x);
      }
      assert a[0] == b[0] && x == y;
      SuffixInjective(a[1..], b[1..]);
      assert a == [a[0]] + a[1..] && b == [b[0]] + b[1..];
    }
  }

  lemma SuffixStart(p: Path)
    requires CleanSegments(p) && p != []
    ensures |Suffix(p)| >= 2 && Suffix(p)[0] == '/' && Suffix(p)[1] != '/'
  {
    assert p[0] in p;
    assert Suffix(p)[1] == p[0][0] && p[0][0] in p[0];
  }

  lemma RootContainsItself(target: Path)
    requires CleanSegments(target)
    ensures IsWithinText(Render([]), Render(target)) <==> target == []
  {
    hide Suffix;
    if target != [] {
      SuffixStart(target);
      assert ("/" + "/")[1] == '/';
    }
  }

  lemma RootIsInNothing(base: Path)
    requires CleanSegments(base) && base != []
    ensures !IsWithinText(Render(base), Render([]))
  {
    hide Suffix;
    SuffixStart(base);
    assert |Suffix(base) + "/"| > |"/"|;
  }

  lemma TextImpliesAncestry(base: Path, target: Path)
    requires CleanSegments(base) && CleanSegments(target) && IsWithinText(Suffix(base), Suffix(target))
    ensures base <= target
  {
    hide Suffix;
    if Suffix(base) == Suffix(target) {
      SuffixInjective(base, target);
    } else {
      TextPrefixIsAncestor(base, target);
    }
  }

  lemma AncestryImpliesText(base: Path, target: Path)
    requires base <= target
    ensures IsWithinText(Suffix(base), Suffix(target))
  {
    hide Suffix;
    if base != target {
      AncestorIsTextPrefix(base, target);
    }
  }

  /** The string test is the segment test, for every pair of clean absolute paths. */
  lemma IsWithinIsAncestry(base: Path, target: Path)
    requires CleanSegments(base) && CleanSegments(target)
    ensures IsWithinText(Render(base), Render(target)) <==> IsWithin(base, target)
  {
    hide Suffix, IsWithinText, CleanSegments;
    if base == [] {
      RootContainsItself(target);
    } else if target == [] {
      RootIsInNothing(base);
    } else {
      if IsWithinText(Suffix(base), Suffix(target)) {
        TextImpliesAncestry(base, target);
      }
      if base <= target {
        AncestryImpliesText(base, target);
      }
    }
  }

  // ----- filepath.Clean on a relative path -----

  function CleanStep(stack: seq<string>, seg: string): seq<string> {
    if seg == "" || seg == "." then stack
    else if seg == ".." then
      if stack != [] && stack[|stack| - 1] != ".." then stack[..|stack| - 1] else stack + [".."]
    else stack + [seg]
  }

  /** The segments of `filepath.Clean(rel)`; `[]` stands for ".". */
  function Clean(segs: seq<string>): seq<string> {
    if segs == [] then [] else CleanStep(Clean(segs[..|segs| - 1]), segs[|segs| - 1])
  }

  function WalkStep(at: Path, seg: string): Option<Path> {
    if seg == "" || seg == "." then Some(at)
    else if seg == ".." then (if at == [] then None else Some(Dir(at)))
    else Some(at + [seg])
  }

  /** Where a walk that starts in a directory ends up, or `None` once it has left that directory. */
  function Walk(segs: seq<string>): Option<Path> {
    if segs == [] then Some([]) else
      match Walk(segs[..|segs| - 1])
      case None => None
      case Some(at) => WalkStep(at, segs[|segs| - 1])
  }

  predicate IsName(s: string) {
    s != "" && s != "." && s != ".."
  }

  /** Inside the directory, one step of cleaning is one step of the walk. */
  lemma CleanStepInside(at: Path, seg: string)
    requires forall s | s in at :: IsName(s)
    ensures match WalkStep(at, seg)
            case None => CleanStep(at, seg) == [".."]
            case Some(next) => CleanStep(at, seg) == next && forall s | s in next :: IsName(s) && (s in at || s == seg)
  {
    assert at != [] ==> at[|at| - 1] in at;
  }

  /** Once outside, cleaning keeps the leading parent segment. */
  lemma CleanStepOutside(stack: seq<string>, seg: string)
    requires stack != [] && stack[0] == ".."
    ensures CleanStep(stack, seg) != [] && CleanStep(stack, seg)[0] == ".."
  {
    assert |stack| == 1 ==> stack[|stack| - 1] == "..";
  }

  lemma {:induction false} CleanIsWalk(segs: seq<string>)
    ensures Walk(segs).None? ==> Clean(segs) != [] && Clean(segs)[0] == ".."
    ensures Walk(segs).Some? ==> Clean(segs) == Walk(segs).value
    ensures Walk(segs).Some? ==> forall s | s in Walk(segs).value :: IsName(s) && s in segs
  {
    hide CleanStep, WalkStep, IsName;
    if segs != [] {
      var init, seg := segs[..|segs| - 1], segs[|segs| - 1];
      assert forall s | s in init || s == seg :: s in segs;
      CleanIsWalk(init);
      if Walk(init).Some? {
        CleanStepInside(Walk(init).value, seg);
      } else {
        CleanStepOutside(Clean(init), seg);
      }
    }
  }

  datatype PathError = EmptyPath | AbsolutePath | Traversal | NotResolvable

  datatype Resolved = Ok(full: Path) | Bad(error: PathError)

  /** The lexical part of `resolvedPath`. */
  function ResolveLexical(target: Path, rel: string): Resolved {
    if rel == "" then Bad(EmptyPath)
    else if rel[0] == '/' then Bad(AbsolutePath)
    else
      var cleaned := Clean(Split(rel, '/'));
      if cleaned != [] && cleaned[0] == ".." then Bad(Traversal)
      else if cleaned == [] then Bad(Traversal)
      else if !IsWithin(target, target + cleaned) then Bad(Traversal)
      else Ok(target + cleaned)
  }

  /**
   * A relative path is accepted exactly when walking it never leaves the target directory and does
   * not end on it; the accepted path is where the walk ends, so it lies strictly inside the target.
   */
  lemma ResolveLexicalExact(target: Path, rel: string)
    ensures ResolveLexical(target, rel).Ok? <==>
            && target != [] && rel != "" && rel[0] != '/'
            && Walk(Split(rel, '/')).Some? && Walk(Split(rel, '/')).value != []
    ensures ResolveLexical(target, rel).Ok? ==>
              var full := ResolveLexical(target, rel).full;
              && full == target + Walk(Split(rel, '/')).value
              && target < full
              && (CleanSegments(target) ==> CleanSegments(full))
  {
    CleanIsWalk(Split(rel, '/'));
    var w := Walk(Split(rel, '/'));
    if w.Some? && w.value != [] {
      assert w.value[0] in w.value;
      var full := target + w.value;
      assert full != target;
      forall i | |target| <= i < |full| ensures full[i] != "" && '/' !in full[i] {
        assert full[i] == w.value[i - |target|] && full[i] in w.value;
      }
    }
  }
}
