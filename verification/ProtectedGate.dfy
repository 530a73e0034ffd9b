/** The verdict of the protected-path gate as a whole (review/protectedpaths.go, CheckProtectedPaths). */
module ProtectedGate {
  import opened Text
  import opened DiffText
  import opened ProtectedPaths
  import Globs
  import Changelog
  import opened EditGates

  /** What git gives for one file: its content on both sides and its diff; `None` is a failed call. */
  datatype Versions = Versions(base: Option<string>, head: Option<string>, diff: Option<string>)

  datatype Hit = Hit(file: string, pattern: string)

  datatype Verdict = Pass | Unavailable | Fail(invalid: seq<string>, hits: seq<Hit>)

  /** The pattern protects the path. */
  ghost predicate Protects(m: Globs.Segment, pattern: string, file: string) {
    Globs.Matches(m, Split(pattern, '/'), Split(file, '/'))
  }

  ghost predicate GoModExcused(v: Versions) {
    v.base.Some? && v.head.Some? && v.diff.Some?
    && GoModAccepts(SplitLines(v.base.value), SplitLines(v.head.value), HunksIn(Split(v.diff.value, '\n')))
  }

  ghost predicate ChangelogExcused(v: Versions) {
    v.base.Some? && v.head.Some? && v.diff.Some?
    && Changelog.Accepts(SplitLines(v.base.value), SplitLines(v.head.value), HunksIn(Split(v.diff.value, '\n')))
  }

  ghost predicate Excused(file: string, changelog: Versions, goMod: Versions) {
    (file == "CHANGELOG.md" && ChangelogExcused(changelog)) || (file == "go.mod" && GoModExcused(goMod))
  }

  /** The first of the patterns that protects the file. */
  ghost function FirstMatch(m: Globs.Segment, patterns: seq<string>, file: string): Option<string> {
    if patterns == [] then None
    else if Protects(m, patterns[0], file) then Some(patterns[0])
    else FirstMatch(m, patterns[1..], file)
  }

  lemma {:induction false} FirstMatchIs(m: Globs.Segment, patterns: seq<string>, file: string)
    ensures FirstMatch(m, patterns, file).None? <==> forall p | p in patterns :: !Protects(m, p, file)
    ensures FirstMatch(m, patterns, file).Some? ==>
              FirstMatch(m, patterns, file).value in patterns && Protects(m, FirstMatch(m, patterns, file).value, file)
  {
    hide Protects;
    if patterns != [] {
      assert patterns[0] in patterns && patterns == [patterns[0]] + patterns[1..];
      FirstMatchIs(m, patterns[1..], file);
    }
  }

  /** Pattern `k` protects the file and none before it does. */
  ghost predicate FirstAt(m: Globs.Segment, patterns: seq<string>, file: string, k: nat)
    ensures FirstAt(m, patterns, file, k) ==> k < |patterns|
  {
    k < |patterns| && Protects(m, patterns[k], file) && forall j | 0 <= j < k :: !Protects(m, patterns[j], file)
  }

  lemma {:induction false} FirstMatchFirst(m: Globs.Segment, patterns: seq<string>, file: string, k: nat)
    requires FirstAt(m, patterns, file, k)
    ensures FirstMatch(m, patterns, file) == Some(patterns[k])
    decreases k
  {
    hide Protects;
    if k > 0 {
      FirstMatchFirst(m, patterns[1..], file, k - 1);
    }
  }

  ghost function HitOf(m: Globs.Segment, patterns: seq<string>, file: string, changelog: Versions, goMod: Versions): seq<Hit> {
    var first := FirstMatch(m, patterns, file);
    if first.None? || Excused(file, changelog, goMod) then [] else [Hit(file, first.value)]
  }

  /** One hit per offending file, in the order of the changed files. */
  ghost function Hits(m: Globs.Segment, patterns: seq<string>, files: seq<string>, changelog: Versions, goMod: Versions): seq<Hit> {
    if files == [] then [] else
      HitOf(m, patterns, files[0], changelog, goMod) + Hits(m, patterns, files[1..], changelog, goMod)
  }

  lemma {:induction false} HitsAre(m: Globs.Segment, patterns: seq<string>, files: seq<string>, changelog: Versions, goMod: Versions)
    ensures Hits(m, patterns, files, changelog, goMod) == [] <==>
            forall f, p | f in files && p in patterns && Protects(m, p, f) :: Excused(f, changelog, goMod)
    decreases files
  {
    hide Protects, Excused;
    if files != [] {
      assert files[0] in files && files == [files[0]] + files[1..];
      HitsAre(m, patterns, files[1..], changelog, goMod);
      FirstMatchIs(m, patterns, files[0]);
    }
  }

  /** The hits are exactly the changed files that are protected and not excused, each with the first pattern that protects it. */
  lemma {:induction false} HitsExactly(m: Globs.Segment, patterns: seq<string>, files: seq<string>, changelog: Versions, goMod: Versions, h: Hit)
    ensures h in Hits(m, patterns, files, changelog, goMod) <==>
            && h.file in files && !Excused(h.file, changelog, goMod)
            && exists k: nat :: FirstAt(m, patterns, h.file, k) && h.pattern == patterns[k]
    decreases files
  {
    hide Protects, Excused, FirstAt;
    if files != [] {
      var f := files[0];
      assert files == [f] + files[1..];
      HitsExactly(m, patterns, files[1..], changelog, goMod, h);
      HitOfExactly(m, patterns, f, changelog, goMod, h);
    }
  }

  lemma HitOfExactly(m: Globs.Segment, patterns: seq<string>, file: string, changelog: Versions, goMod: Versions, h: Hit)
    ensures h in HitOf(m, patterns, file, changelog, goMod) <==>
            && h.file == file && !Excused(file, changelog, goMod)
            && exists k: nat :: FirstAt(m, patterns, file, k) && h.pattern == patterns[k]
  {
    hide Protects, Excused, FirstAt, FirstMatch;
    if k: nat :| FirstAt(m, patterns, file, k) {
      FirstMatchFirst(m, patterns, file, k);
      forall j: nat | FirstAt(m, patterns, file, j) ensures patterns[j] == patterns[k] {
        FirstMatchFirst(m, patterns, file, j);
      }
    } else {
      FirstMatchIs(m, patterns, file);
      SomeFirst(m, patterns, file);
    }
  }

  lemma {:induction false} SomeFirst(m: Globs.Segment, patterns: seq<string>, file: string)
    ensures (exists k: nat :: FirstAt(m, patterns, file, k)) <==> exists p | p in patterns :: Protects(m, p, file)
  {
    hide Protects;
    if p :| p in patterns && Protects(m, p, file) {
      var k: nat := 0;
      while !Protects(m, patterns[k], file)
        invariant k < |patterns| && forall j | 0 <= j < k :: !Protects(m, patterns[j], file)
        decreases |patterns| - k
      {
        assert exists i | 0 <= i < |patterns| :: patterns[i] == p;
        k := k + 1;
      }
      assert FirstAt(m, patterns, file, k);
    }
  }

  method IsExcused(file: string, changelog: Versions, goMod: Versions) returns (ok: bool)
    ensures ok <==> Excused(file, changelog, goMod)
  {
    hide GoModAccepts, Changelog.Accepts, SplitLines, HunksIn, Split;
    if file == "CHANGELOG.md" {
      ok := Changelog.ChangelogEditIsWithinUnreleased(changelog.base, changelog.head, changelog.diff);
      if ok {
        return;
      }
    }
    if file == "go.mod" {
      ok := GoModEditTouchesOnlyNonRetractLines(goMod.base, goMod.head, goMod.diff);
      return;
    }
    return false;
  }

  /** The inner loop: the first matching pattern decides about the file. */
  method CheckFile(m: Globs.Segment, patterns: seq<string>, file: string, changelog: Versions, goMod: Versions)
    returns (hits: seq<Hit>)
    requires Globs.ErrorIsSyntactic(m) && forall p | p in patterns :: Globs.Compiles(m, p)
    ensures hits == HitOf(m, patterns, file, changelog, goMod)
  {
    hide Excused, Globs.Matches, Globs.Compiles, Split;
    assert patterns[0..] == patterns;
    for i := 0 to |patterns|
      invariant FirstMatch(m, patterns, file) == FirstMatch(m, patterns[i..], file)
    {
      assert patterns[i..][1..] == patterns[i + 1..];
      var matched := Globs.MatchProtectedPath(m, patterns[i], file);
      if matched != Some(true) {
        continue;
      }
      var ok := IsExcused(file, changelog, goMod);
      if ok {
        return [];
      }
      return [Hit(file, patterns[i])];
    }
    return [];
  }

  /**
   * `CheckProtectedPaths`. It passes exactly when nothing is protected, or every pattern compiles and
   * every changed file that a pattern protects is excused; a failed diff is neither a pass nor a fail; a
   * fail names every malformed pattern and one hit per offending file.
   */
  method CheckProtectedPaths(m: Globs.Segment, patterns: seq<string>, changed: Option<seq<string>>, changelog: Versions, goMod: Versions)
    returns (v: Verdict)
    requires Globs.ErrorIsSyntactic(m)
    ensures v.Unavailable? <==> patterns != [] && changed.None?
    ensures v.Pass? <==> patterns == [] || (changed.Some? && Allowed(m, patterns, changed.value, changelog, goMod))
    ensures v.Fail? ==>
              && v.invalid == Globs.Select(m, patterns, false)
              && v.hits == Hits(m, Globs.Select(m, patterns, true), changed.value, changelog, goMod)
  {
    hide Protects, Excused, Globs.Compiles, Globs.Select;
    if |patterns| == 0 {
      return Pass;
    }
    var valid, invalid := Globs.PartitionGlobs(m, patterns);
    Globs.SelectPartitions(m, patterns);
    if changed.None? {
      return Unavailable;
    }
    var files := changed.value;
    var hits: seq<Hit> := [];
    assert files[0..] == files;
    for i := 0 to |files|
      invariant Hits(m, valid, files, changelog, goMod) == hits + Hits(m, valid, files[i..], changelog, goMod)
    {
      assert files[i..][1..] == files[i + 1..];
      var hit := CheckFile(m, valid, files[i], changelog, goMod);
      hits := hits + hit;
    }
    VerdictIs(m, patterns, files, changelog, goMod);
    if invalid == [] && hits == [] {
      return Pass;
    }
    return Fail(invalid, hits);
  }

  /** Every pattern compiles, and every changed file that one of them protects is excused. */
  ghost predicate Allowed(m: Globs.Segment, patterns: seq<string>, files: seq<string>, changelog: Versions, goMod: Versions) {
    && (forall p | p in patterns :: Globs.Compiles(m, p))
    && forall f, p | f in files && p in patterns && Protects(m, p, f) :: Excused(f, changelog, goMod)
  }

  lemma VerdictIs(m: Globs.Segment, patterns: seq<string>, files: seq<string>, changelog: Versions, goMod: Versions)
    ensures Globs.Select(m, patterns, false) == [] && Hits(m, Globs.Select(m, patterns, true), files, changelog, goMod) == []
            <==> Allowed(m, patterns, files, changelog, goMod)
  {
    hide Protects, Excused, Globs.Compiles, Globs.Select, Hits;
    var valid, invalid := Globs.Select(m, patterns, true), Globs.Select(m, patterns, false);
    Globs.SelectPartitions(m, patterns);
    HitsAre(m, valid, files, changelog, goMod);
    SameMembers(patterns, valid, invalid);
    if invalid != [] {
      assert invalid[0] in invalid;
    }
  }

  lemma SameMembers(all: seq<string>, x: seq<string>, y: seq<string>)
    requires multiset(x) + multiset(y) == multiset(all)
    ensures forall p :: p in all <==> p in x || p in y
  {
    forall p ensures p in all <==> p in x || p in y {
      assert p in all <==> p in multiset(all);
      assert p in x <==> p in multiset(x);
      assert p in y <==> p in multiset(y);
    }
  }

  // ----- What a pass means for the files -----

  /** The versions are those of an edit, and the diff is the one printed for it. */
  ghost predicate Shows(v: Versions, e: Edit, style: Style) {
    && Printable(e) && WellFormed(style)
    && v.base.Some? && v.head.Some? && v.diff == Some(DiffOf(e, style))
    && SplitLines(v.base.value) == Base(e) && SplitLines(v.head.value) == Head(e)
  }

  /** go.mod's retract directives are the same on both sides. */
  ghost predicate SameRetractions(e: Edit) {
    Directives(false, Base(e)) == Directives(false, Head(e))
  }

  /** The edits that excuse a protected file. */
  ghost predicate HarmlessEdit(file: string, log: Edit, mod: Edit) {
    (file == "CHANGELOG.md" && ReleasedLinesSurvive(log)) || (file == "go.mod" && RetractLinesSurvive(mod))
  }

  /** On the text git prints for the two edits, a file is excused exactly when its edit is harmless. */
  lemma ExcusedExactly(file: string, changelog: Versions, goMod: Versions, log: Edit, mod: Edit, logStyle: Style, modStyle: Style)
    requires Shows(changelog, log, logStyle) && Shows(goMod, mod, modStyle)
    ensures Excused(file, changelog, goMod) <==> HarmlessEdit(file, log, mod)
  {
    hide SplitLines, HunksIn, Split, DiffOf, Printable, WellFormed, GoModAccepts, Changelog.Accepts, HunksOf, Base, Head;
    hide ReleasedLinesSurvive, RetractLinesSurvive;
    DiffRoundTrip(log, logStyle);
    DiffRoundTrip(mod, modStyle);
    ChangelogAcceptsExactly(log);
    GoModAcceptsExactly(mod);
  }

  /** The gate passes exactly when every pattern compiles and every protected file that changed is harmlessly edited. */
  lemma AllowedExactly(m: Globs.Segment, patterns: seq<string>, files: seq<string>, changelog: Versions, goMod: Versions,
                       log: Edit, mod: Edit, logStyle: Style, modStyle: Style)
    requires Shows(changelog, log, logStyle) && Shows(goMod, mod, modStyle)
    ensures Allowed(m, patterns, files, changelog, goMod) <==>
            && (forall p | p in patterns :: Globs.Compiles(m, p))
            && forall f, p | f in files && p in patterns && Protects(m, p, f) :: HarmlessEdit(f, log, mod)
  {
    hide Protects, Excused, HarmlessEdit, Shows, Globs.Compiles;
    forall f ensures Excused(f, changelog, goMod) <==> HarmlessEdit(f, log, mod) {
      ExcusedExactly(f, changelog, goMod, log, mod, logStyle, modStyle);
    }
  }

  /**
   * A pass means that every changed file which some pattern protects is go.mod, with its retract
   * directives unchanged if both versions close their retract blocks, or CHANGELOG.md, with every line
   * outside its unreleased section surviving.
   */
  lemma PassMeans(m: Globs.Segment, patterns: seq<string>, files: seq<string>, changelog: Versions, goMod: Versions,
                  log: Edit, mod: Edit, logStyle: Style, modStyle: Style, file: string, pattern: string)
    requires Allowed(m, patterns, files, changelog, goMod)
    requires Shows(changelog, log, logStyle) && Shows(goMod, mod, modStyle)
    requires file in files && pattern in patterns && Protects(m, pattern, file)
    ensures || (file == "CHANGELOG.md" && ReleasedLinesSurvive(log))
            || (file == "go.mod" && (!After(false, Base(mod)) && !After(false, Head(mod)) ==> SameRetractions(mod)))
  {
    hide Protects, Excused, Shows, GoModAccepts, HunksOf, Base, Head, After, Directives, ReleasedLinesSurvive, RetractLinesSurvive;
    assert Excused(file, changelog, goMod);
    ExcusedExactly(file, changelog, goMod, log, mod, logStyle, modStyle);
    if file == "go.mod" && !After(false, Base(mod)) && !After(false, Head(mod)) {
      GoModAcceptsExactly(mod);
      RetractionsKept(mod);
    }
  }
}
