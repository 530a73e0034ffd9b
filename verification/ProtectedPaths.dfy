/**
 * The two exceptions of the protected-path gate (review/protectedpaths.go): an edit of go.mod that
 * leaves every `retract` directive alone, and an edit of CHANGELOG.md that stays in the section of
 * unreleased changes.
 */
module ProtectedPaths {
  import opened Text
  import opened DiffText

  // ----- Reading the diff -----

  /** The hunk headers among the lines of a diff. */
  function HunksIn(lines: seq<string>): seq<Hunk> {
    if lines == [] then [] else
      (if HasPrefix(lines[0], "@@ ") && ParseHeader(lines[0]).Some? then [ParseHeader(lines[0]).value] else [])
      + HunksIn(lines[1..])
  }

  lemma {:induction false} HunksInConcat(x: seq<string>, y: seq<string>)
    ensures HunksIn(x + y) == HunksIn(x) + HunksIn(y)
  {
    hide ParseHeader;
    if x == [] {
      assert x + y == y;
    } else {
      assert (x + y)[1..] == x[1..] + y;
      HunksInConcat(x[1..], y);
    }
  }

  lemma {:induction false} NoHunks(lines: seq<string>)
    requires forall l | l in lines :: !HasPrefix(l, "@@ ")
    ensures HunksIn(lines) == []
  {
    if lines != [] {
      assert lines[0] in lines;
      NoHunks(lines[1..]);
    }
  }

  /** No body line passes for a header, whatever the file holds. */
  lemma BodyHasNoHeader(h: Hunk, dels: seq<string>, adds: seq<string>, style: Style)
    ensures forall l | l in Body(h, dels, adds, style) :: !HasPrefix(l, "@@ ")
  {
    forall l | l in Body(h, dels, adds, style) ensures !HasPrefix(l, "@@ ") {
      assert l[0] == '-' || l[0] == '+' || l[0] == '\\';
    }
  }

  lemma HunksInChunk(c: Chunk, a: nat, b: nat, style: Style)
    ensures HunksIn(ChunkLines(c, a, b, style)) == if c.Change? then [HunkAt(a, b, c.dels, c.adds)] else []
  {
    hide ParseHeader, RenderHeader, Body;
    if c.Change? {
      var h := HunkAt(a, b, c.dels, c.adds);
      var (header, body) := (RenderHeader(h, style.tail(h)), Body(h, c.dels, c.adds, style));
      HeaderRoundTrip(h, style.tail(h));
      BodyHasNoHeader(h, c.dels, c.adds, style);
      NoHunks(body);
      assert ([header] + body)[1..] == body;
    }
  }

  /** The headers of a printed edit are the edit's hunks. */
  lemma {:induction false} HunksInRendered(e: Edit, a: nat, b: nat, style: Style)
    ensures HunksIn(HunkLines(e, a, b, style)) == HunksOf(e, a, b)
  {
    hide HunksIn, ChunkLines, HunkAt;
    if e == [] {
      NoHunks([]);
    } else {
      var (a', b') := (a + |BasePart(e[0])|, b + |HeadPart(e[0])|);
      HunksInRendered(e[1..], a', b', style);
      HunksInChunk(e[0], a, b, style);
      HunksInConcat(ChunkLines(e[0], a, b, style), HunkLines(e[1..], a', b', style));
    }
  }

  predicate Printable(e: Edit) {
    (forall l | l in Base(e) :: SingleLine(l)) && forall l | l in Head(e) :: SingleLine(l)
  }

  /** The text of the single-file diff. */
  function DiffOf(e: Edit, style: Style): string {
    Print(style.preamble + HunkLines(e, 0, 0, style))
  }

  lemma HeaderIsOneLine(h: Hunk, tail: string)
    requires SingleLine(tail)
    ensures SingleLine(RenderHeader(h, tail))
  {
    hide Itoa;
    assert AllDigits(Itoa(h.oldStart)) && AllDigits(Itoa(h.oldCount));
    assert AllDigits(Itoa(h.newStart)) && AllDigits(Itoa(h.newCount));
  }

  lemma BodyIsLines(h: Hunk, dels: seq<string>, adds: seq<string>, style: Style)
    requires forall l | l in dels :: SingleLine(l)
    requires forall l | l in adds :: SingleLine(l)
    ensures forall l | l in Body(h, dels, adds, style) :: SingleLine(l)
  {
    forall l | l in Prefixed('-', dels) ensures SingleLine(l) {
      var i :| 0 <= i < |dels| && l == ['-'] + dels[i];
      assert dels[i] in dels;
    }
    forall l | l in Prefixed('+', adds) ensures SingleLine(l) {
      var i :| 0 <= i < |adds| && l == ['+'] + adds[i];
      assert adds[i] in adds;
    }
  }

  lemma ChunkLinesAreLines(c: Chunk, a: nat, b: nat, style: Style)
    requires WellFormed(style)
    requires forall l | l in BasePart(c) + HeadPart(c) :: SingleLine(l)
    ensures forall l | l in ChunkLines(c, a, b, style) :: SingleLine(l)
  {
    hide RenderHeader, Body, SingleLine;
    if c.Change? {
      var h := HunkAt(a, b, c.dels, c.adds);
      HeaderIsOneLine(h, style.tail(h));
      assert forall l | l in c.dels :: l in BasePart(c) + HeadPart(c);
      assert forall l | l in c.adds :: l in BasePart(c) + HeadPart(c);
      BodyIsLines(h, c.dels, c.adds, style);
    }
  }

  lemma PrintableParts(e: Edit)
    requires Printable(e) && e != []
    ensures Printable(e[1..]) && forall l | l in BasePart(e[0]) + HeadPart(e[0]) :: SingleLine(l)
  {
    hide SingleLine;
    assert Base(e) == BasePart(e[0]) + Base(e[1..]) && Head(e) == HeadPart(e[0]) + Head(e[1..]);
  }

  lemma {:induction false} HunkLinesAreLines(e: Edit, a: nat, b: nat, style: Style)
    requires Printable(e) && WellFormed(style)
    ensures forall l | l in HunkLines(e, a, b, style) :: SingleLine(l)
  {
    hide ChunkLines, WellFormed, SingleLine, Printable, BasePart, HeadPart;
    if e != [] {
      PrintableParts(e);
      HunkLinesAreLines(e[1..], a + |BasePart(e[0])|, b + |HeadPart(e[0])|, style);
      ChunkLinesAreLines(e[0], a, b, style);
    }
  }

  /** Parsing a printed diff gives back the hunks of the edit. */
  lemma DiffRoundTrip(e: Edit, style: Style)
    requires Printable(e) && WellFormed(style)
    ensures HunksIn(Split(DiffOf(e, style), '\n')) == HunksOf(e, 0, 0)
  {
    hide HunksIn, HunkLines, HunksOf, Split, Join;
    var lines := HunkLines(e, 0, 0, style);
    HunkLinesAreLines(e, 0, 0, style);
    SplitPrint(style.preamble + lines);
    HunksInConcat(style.preamble + lines, [""]);
    HunksInConcat(style.preamble, lines);
    NoHunks(style.preamble);
    NoHunks([""]);
    HunksInRendered(e, 0, 0, style);
  }

  lemma HunksInAt(lines: seq<string>, i: nat)
    requires i < |lines|
    ensures HunksIn(lines[i..]) ==
            (if HasPrefix(lines[i], "@@ ") && ParseHeader(lines[i]).Some? then [ParseHeader(lines[i]).value] else [])
            + HunksIn(lines[i + 1..])
  {
    hide ParseHeader, HasPrefix;
    assert lines[i..][1..] == lines[i + 1..];
  }

  method ParseHunks(diff: string) returns (hunks: seq<Hunk>)
    ensures hunks == HunksIn(Split(diff, '\n'))
  {
    hide ParseHeader, Split, HunksIn, HasPrefix;
    var lines := Split(diff, '\n');
    hunks := [];
    assert lines[0..] == lines;
    for i := 0 to |lines|
      invariant HunksIn(lines) == hunks + HunksIn(lines[i..])
    {
      HunksInAt(lines, i);
      if HasPrefix(lines[i], "@@ ") {
        var m := ParseHeader(lines[i]);
        if m.Some? {
          hunks := hunks + [m.value];
        }
      }
    }
    NoHunks(lines[|lines|..]);
  }

  /** A file's lines; a final newline does not start another line. */
  function SplitLines(content: string): seq<string> {
    var lines := Split(content, '\n');
    if lines[|lines| - 1] == "" then lines[..|lines| - 1] else lines
  }

  // ----- go.mod: retract directives -----

  /** What follows the keyword `retract` on a trimmed line. */
  function CutRetractKeyword(trimmed: string): Option<string> {
    if !HasPrefix(trimmed, "retract") then None else
      var rest := trimmed[7..];
      if rest != "" && rest[0] != ' ' && rest[0] != '\t' && rest[0] != '(' then None else Some(TrimSpace(rest))
  }

  predicate IsRetractBlockOpen(rest: string) {
    HasPrefix(rest, "(") && var after := TrimSpace(rest[1..]); after == "" || HasPrefix(after, "//")
  }

  predicate IsRetractBlockClose(trimmed: string) {
    HasPrefix(trimmed, ")") && var rest := TrimSpace(trimmed[1..]); rest == "" || HasPrefix(rest, "//")
  }

  predicate IsDirective(line: string) {
    CutRetractKeyword(TrimSpace(line)).Some?
  }

  predicate Opens(line: string) {
    var cut := CutRetractKeyword(TrimSpace(line));
    cut.Some? && IsRetractBlockOpen(cut.value)
  }

  predicate Closes(line: string) {
    IsRetractBlockClose(TrimSpace(line))
  }

  predicate Next(inBlock: bool, line: string) {
    if inBlock then !Closes(line) else Opens(line)
  }

  /** Whether a `retract ( ... )` block is open after `lines`. */
  predicate After(inBlock: bool, lines: seq<string>)
    decreases lines
  {
    if lines == [] then inBlock else After(Next(inBlock, lines[0]), lines[1..])
  }

  /** The lines of a file that belong to a `retract` directive, in order. */
  function Directives(inBlock: bool, lines: seq<string>): seq<string>
    decreases lines
  {
    if lines == [] then [] else
      (if inBlock || IsDirective(lines[0]) then [lines[0]] else []) + Directives(Next(inBlock, lines[0]), lines[1..])
  }

  /** Whether line `i` belongs to a directive. */
  predicate Marked(inBlock: bool, lines: seq<string>, i: nat)
    requires i < |lines|
  {
    After(inBlock, lines[..i]) || IsDirective(lines[i])
  }

  /** Line number `n` belongs to a directive that ends at or after it. */
  ghost predicate RetractLine(lines: seq<string>, n: nat) {
    && 1 <= n <= |lines|
    && Marked(false, lines, n - 1)
    && exists m :: n <= m <= |lines| && !After(false, lines[..m])
  }

  ghost predicate Covered(ranges: seq<(nat, nat)>, n: nat) {
    exists k :: 0 <= k < |ranges| && ranges[k].0 <= n <= ranges[k].1
  }

  lemma {:induction false} AfterConcat(inBlock: bool, x: seq<string>, y: seq<string>)
    ensures After(inBlock, x + y) == After(After(inBlock, x), y)
    ensures Directives(inBlock, x + y) == Directives(inBlock, x) + Directives(After(inBlock, x), y)
    decreases x
  {
    hide Next, IsDirective;
    if x == [] {
      assert x + y == y;
    } else {
      var (line, rest) := (x[0], x[1..]);
      assert (x + y)[0] == line && (x + y)[1..] == rest + y;
      var next := Next(inBlock, line);
      AfterConcat(next, rest, y);
      var own := if inBlock || IsDirective(line) then [line] else [];
      assert own + (Directives(next, rest) + Directives(After(next, rest), y))
          == own + Directives(next, rest) + Directives(After(next, rest), y);
    }
  }

  lemma AfterOne(lines: seq<string>, i: nat)
    requires i < |lines|
    ensures After(false, lines[..i + 1]) == Next(After(false, lines[..i]), lines[i])
  {
    assert lines[..i + 1] == lines[..i] + [lines[i]];
    AfterConcat(false, lines[..i], [lines[i]]);
  }

  lemma Appended(ranges: seq<(nat, nat)>, r: (nat, nat))
    ensures forall n: nat :: Covered(ranges + [r], n) <==> Covered(ranges, n) || r.0 <= n <= r.1
  {
    var all := ranges + [r];
    forall n: nat ensures Covered(all, n) <==> Covered(ranges, n) || r.0 <= n <= r.1 {
      if Covered(ranges, n) {
        var k :| 0 <= k < |ranges| && ranges[k].0 <= n <= ranges[k].1;
        assert all[k] == ranges[k];
      }
      assert all[|ranges|] == r;
    }
  }

  /** What the scanner knows after `i` lines. */
  ghost predicate Scanned(lines: seq<string>, i: nat, inBlock: bool, blockStart: nat, ranges: seq<(nat, nat)>)
    requires i <= |lines|
  {
    && inBlock == After(false, lines[..i])
    && (inBlock ==> 1 <= blockStart <= i && !After(false, lines[..blockStart - 1])
                    && forall m | blockStart <= m <= i :: After(false, lines[..m]))
    && (inBlock ==> IsDirective(lines[blockStart - 1]))
    && (forall k | 0 <= k < |ranges| :: 1 <= ranges[k].0 <= ranges[k].1 <= |lines|)
    && forall n: nat :: Covered(ranges, n) <==>
                        1 <= n <= (if inBlock then blockStart - 1 else i) && Marked(false, lines, n - 1)
  }

  lemma OpenerIsDirective(line: string)
    ensures Opens(line) ==> IsDirective(line)
  {
  }

  lemma ScanStep(lines: seq<string>, i: nat, inBlock: bool, blockStart: nat, ranges: seq<(nat, nat)>)
    requires i < |lines| && Scanned(lines, i, inBlock, blockStart, ranges)
    ensures inBlock && Closes(lines[i]) ==> Scanned(lines, i + 1, false, blockStart, ranges + [(blockStart, i + 1)])
    ensures inBlock && !Closes(lines[i]) ==> Scanned(lines, i + 1, true, blockStart, ranges)
    ensures !inBlock && !IsDirective(lines[i]) ==> Scanned(lines, i + 1, false, blockStart, ranges)
    ensures !inBlock && Opens(lines[i]) ==> Scanned(lines, i + 1, true, i + 1, ranges)
    ensures !inBlock && IsDirective(lines[i]) && !Opens(lines[i]) ==>
              Scanned(lines, i + 1, false, blockStart, ranges + [(i + 1, i + 1)])
  {
    hide After, IsDirective, Opens, Closes;
    AfterOne(lines, i);
    OpenerIsDirective(lines[i]);
    if inBlock && Closes(lines[i]) {
      Appended(ranges, (blockStart, i + 1));
      assert forall m: nat | blockStart <= m <= i :: Marked(false, lines, m);
    }
    if !inBlock && IsDirective(lines[i]) && !Opens(lines[i]) {
      Appended(ranges, (i + 1, i + 1));
      assert Marked(false, lines, i);
    }
  }

  /** The ranges cover the lines of every directive that is closed, and nothing else. */
  method RetractLineRanges(content: string) returns (ranges: seq<(nat, nat)>)
    ensures forall k | 0 <= k < |ranges| :: 1 <= ranges[k].0 <= ranges[k].1 <= |SplitLines(content)|
    ensures forall n: nat :: Covered(ranges, n) <==> RetractLine(SplitLines(content), n)
  {
    hide After, Split, CutRetractKeyword, IsRetractBlockClose, IsRetractBlockOpen, TrimSpace;
    var lines := SplitLines(content);
    ranges := [];
    var inBlock, blockStart: nat := false, 0;
    var i := 0;
    assert After(false, lines[..0]) == false by { EmptyIsClosed(lines); }
    while i < |lines|
      invariant 0 <= i <= |lines|
      invariant Scanned(lines, i, inBlock, blockStart, ranges)
    {
      ScanStep(lines, i, inBlock, blockStart, ranges);
      var trimmed := TrimSpace(lines[i]);
      if inBlock {
        if IsRetractBlockClose(trimmed) {
          ranges := ranges + [(blockStart, i + 1)];
          inBlock := false;
        }
      } else {
        var rest := CutRetractKeyword(trimmed);
        if rest.Some? {
          if IsRetractBlockOpen(rest.value) {
            inBlock := true;
            blockStart := i + 1;
          } else {
            ranges := ranges + [(i + 1, i + 1)];
          }
        }
      }
      i := i + 1;
    }
    ScannedAll(lines, inBlock, blockStart, ranges);
  }

  lemma EmptyIsClosed(lines: seq<string>)
    ensures !After(false, lines[..0])
  {
  }

  lemma ScannedAll(lines: seq<string>, inBlock: bool, blockStart: nat, ranges: seq<(nat, nat)>)
    requires Scanned(lines, |lines|, inBlock, blockStart, ranges)
    ensures forall n: nat :: Covered(ranges, n) <==> RetractLine(lines, n)
  {
    hide After, IsDirective;
    forall n: nat ensures Covered(ranges, n) <==> RetractLine(lines, n) {
      if Covered(ranges, n) {
        var m := if inBlock then blockStart - 1 else |lines|;
        assert !After(false, lines[..m]);
      }
    }
  }

  /** The span of `count` lines from `start` meets one of the ranges. */
  method RangeIntersectsAny(start: nat, count: nat, ranges: seq<(nat, nat)>) returns (hit: bool)
    requires forall k | 0 <= k < |ranges| :: ranges[k].0 <= ranges[k].1
    ensures hit <==> exists n: nat :: start <= n < start + count && Covered(ranges, n)
  {
    if count == 0 {
      return false;
    }
    var end := start + count - 1;
    for k := 0 to |ranges|
      invariant forall m | 0 <= m < k :: !(start <= ranges[m].1 && end >= ranges[m].0)
    {
      if start <= ranges[k].1 && end >= ranges[k].0 {
        ghost var n := if start <= ranges[k].0 then ranges[k].0 else start;
        assert Covered(ranges, n);
        return true;
      }
    }
    return false;
  }

  /** A span of lines that holds no line of a (closed) directive. */
  ghost predicate Avoids(lines: seq<string>, start: nat, count: nat) {
    forall n: nat | start <= n < start + count :: !RetractLine(lines, n)
  }

  ghost predicate GoModAccepts(base: seq<string>, head: seq<string>, hunks: seq<Hunk>) {
    forall h | h in hunks :: Avoids(base, h.oldStart, h.oldCount) && Avoids(head, h.newStart, h.newCount)
  }

  /** `None` is a file or diff git could not produce. */
  method GoModEditTouchesOnlyNonRetractLines(base: Option<string>, head: Option<string>, diff: Option<string>)
    returns (ok: bool)
    ensures ok <==> base.Some? && head.Some? && diff.Some?
                    && GoModAccepts(SplitLines(base.value), SplitLines(head.value), HunksIn(Split(diff.value, '\n')))
  {
    hide SplitLines, HunksIn, RetractLine, Split;
    if base.None? || head.None? || diff.None? {
      return false;
    }
    var hunks := ParseHunks(diff.value);
    for i := 0 to |hunks|
      invariant GoModAccepts(SplitLines(base.value), SplitLines(head.value), hunks[..i])
    {
      var h := hunks[i];
      var oldRanges := RetractLineRanges(base.value);
      var oldHit := RangeIntersectsAny(h.oldStart, h.oldCount, oldRanges);
      if oldHit {
        return false;
      }
      var newRanges := RetractLineRanges(head.value);
      var newHit := RangeIntersectsAny(h.newStart, h.newCount, newRanges);
      if newHit {
        return false;
      }
      assert hunks[..i + 1] == hunks[..i] + [h];
    }
    assert hunks[..|hunks|] == hunks;
    return true;
  }

  // An accepted edit keeps the retract directives.

  lemma MarkedInClosedFile(lines: seq<string>, i: nat)
    requires i < |lines| && !After(false, lines) && !RetractLine(lines, i + 1)
    ensures !Marked(false, lines, i)
  {
    hide After, IsDirective;
    assert lines[..|lines|] == lines;
  }

  /** A stretch without directive lines contributes none and leaves the block state alone. */
  lemma {:induction false} PlainStretch(inBlock: bool, lines: seq<string>)
    requires forall i | 0 <= i < |lines| :: !Marked(inBlock, lines, i)
    ensures Directives(inBlock, lines) == [] && After(inBlock, lines) == inBlock
    decreases lines
  {
    if lines != [] {
      assert lines[..0] == [] && !Marked(inBlock, lines, 0);
      OpenerIsDirective(lines[0]);
      var rest := lines[1..];
      forall i | 0 <= i < |rest| ensures !Marked(false, rest, i) {
        assert !Marked(inBlock, lines, i + 1);
        assert lines[..i + 1] == [lines[0]] + rest[..i];
        AfterConcat(inBlock, [lines[0]], rest[..i]);
      }
      PlainStretch(false, rest);
    }
  }

  lemma MarkedInPart(pre: seq<string>, part: seq<string>, post: seq<string>, i: nat)
    requires i < |part|
    requires !After(false, pre + part + post) && !RetractLine(pre + part + post, |pre| + i + 1)
    ensures !Marked(After(false, pre), part, i)
  {
    hide After, IsDirective, RetractLine;
    var lines := pre + part + post;
    MarkedInClosedFile(lines, |pre| + i);
    assert lines[..|pre| + i] == pre + part[..i];
    AfterConcat(false, pre, part[..i]);
  }

  /** The same stretch, seen inside a whole file. */
  lemma PlainPart(pre: seq<string>, part: seq<string>, post: seq<string>)
    requires !After(false, pre + part + post)
    requires Avoids(pre + part + post, |pre| + 1, |part|)
    ensures Directives(After(false, pre), part) == []
    ensures After(After(false, pre), part) == After(false, pre)
  {
    hide After, IsDirective, RetractLine, Directives, Marked;
    forall i | 0 <= i < |part| ensures !Marked(After(false, pre), part, i) {
      assert !RetractLine(pre + part + post, |pre| + i + 1);
      MarkedInPart(pre, part, post, i);
    }
    PlainStretch(After(false, pre), part);
  }

  ghost predicate InStep(e: Edit, t: nat)
    requires t <= |e|
  {
    && After(false, Base(e[..t])) == After(false, Head(e[..t]))
    && Directives(false, Base(e[..t])) == Directives(false, Head(e[..t]))
  }

  lemma InStepNext(e: Edit, t: nat)
    requires t < |e| && InStep(e, t)
    requires !After(false, Base(e)) && !After(false, Head(e))
    requires GoModAccepts(Base(e), Head(e), HunksOf(e, 0, 0))
    ensures InStep(e, t + 1)
  {
    hide After, Directives, Base, Head, HunksOf, RetractLine;
    OneMore(e, t);
    AfterConcat(false, Base(e[..t]), BasePart(e[t]));
    AfterConcat(false, Head(e[..t]), HeadPart(e[t]));
    if e[t].Change? {
      HunksComplete(e, 0, 0, t);
      var h := HunkAt(BaseAt(e, t), HeadAt(e, t), e[t].dels, e[t].adds);
      assert h in HunksOf(e, 0, 0);
      assert Avoids(Base(e), BaseAt(e, t) + 1, |e[t].dels|);
      assert Avoids(Head(e), HeadAt(e, t) + 1, |e[t].adds|);
      CutAt(e, t + 1);
      PlainPart(Base(e[..t]), e[t].dels, Base(e[t + 1..]));
      PlainPart(Head(e[..t]), e[t].adds, Head(e[t + 1..]));
    }
  }

  lemma {:induction false} InStepAll(e: Edit, t: nat)
    requires t <= |e|
    requires !After(false, Base(e)) && !After(false, Head(e))
    requires GoModAccepts(Base(e), Head(e), HunksOf(e, 0, 0))
    ensures InStep(e, t)
    decreases t
  {
    if t == 0 {
      assert e[..0] == [];
    } else {
      InStepAll(e, t - 1);
      InStepNext(e, t - 1);
    }
  }

  /** The promise: when both files close their retract blocks, an accepted edit leaves the retract
      directives exactly as they were. */
  lemma RetractionsKept(e: Edit)
    requires !After(false, Base(e)) && !After(false, Head(e))
    requires GoModAccepts(Base(e), Head(e), HunksOf(e, 0, 0))
    ensures Directives(false, Base(e)) == Directives(false, Head(e))
  {
    hide After, Directives, Base, Head, HunksOf;
    InStepAll(e, |e|);
    assert e[..|e|] == e;
    assert InStep(e, |e|);
  }

  /** The gate as it runs: on the text git prints for the edit. */
  lemma AcceptedGoModDiff(e: Edit, style: Style, base: string, head: string)
    requires Printable(e) && WellFormed(style)
    requires SplitLines(base) == Base(e) && SplitLines(head) == Head(e)
    requires GoModAccepts(SplitLines(base), SplitLines(head), HunksIn(Split(DiffOf(e, style), '\n')))
    requires !After(false, SplitLines(base)) && !After(false, SplitLines(head))
    ensures Directives(false, SplitLines(base)) == Directives(false, SplitLines(head))
  {
    hide SplitLines, Split, HunksIn, HunksOf, After, Directives, GoModAccepts, DiffOf, WellFormed;
    DiffRoundTrip(e, style);
    RetractionsKept(e);
  }

  // Both conditions are needed: the scanner reports no range for a block that never closes.

  /** Where the block that is still open at the end of the file starts. */
  lemma {:induction false} LastOpener(lines: seq<string>, n: nat) returns (s: nat)
    requires n <= |lines| && After(false, lines[..n])
    ensures s < n && !After(false, lines[..s]) && IsDirective(lines[s])
    ensures forall m | s < m <= n :: After(false, lines[..m])
    decreases n
  {
    hide IsDirective, Opens, Closes;
    assert n > 0 by { EmptyIsClosed(lines); }
    AfterOne(lines, n - 1);
    if After(false, lines[..n - 1]) {
      s := LastOpener(lines, n - 1);
    } else {
      OpenerIsDirective(lines[n - 1]);
      s := n - 1;
    }
  }

  function Keeps(lines: seq<string>): Edit {
    seq(|lines|, i requires 0 <= i < |lines| => Keep(lines[i]))
  }

  lemma {:induction false} KeepsAll(lines: seq<string>, a: nat, b: nat)
    ensures Base(Keeps(lines)) == lines && Head(Keeps(lines)) == lines
    ensures HunksOf(Keeps(lines), a, b) == []
    decreases lines
  {
    if lines != [] {
      KeepsAll(lines[1..], a + 1, b + 1);
      assert Keeps(lines)[1..] == Keeps(lines[1..]);
    }
  }

  /** An edit that only replaces the end of a file has one hunk. */
  lemma {:induction false} TailEdit(kept: seq<string>, c: Chunk)
    requires c.Change?
    ensures Base(Keeps(kept) + [c]) == kept + c.dels && Head(Keeps(kept) + [c]) == kept + c.adds
    ensures forall h | h in HunksOf(Keeps(kept) + [c], 0, 0) :: h == HunkAt(|kept|, |kept|, c.dels, c.adds)
  {
    hide HunksOf, HunkAt;
    var e := Keeps(kept) + [c];
    KeepsAll(kept, 0, 0);
    Concat(Keeps(kept), [c]);
    assert [c][1..] == [];
    assert Base([c]) == c.dels && Head([c]) == c.adds;
    forall h | h in HunksOf(e, 0, 0) ensures h == HunkAt(|kept|, |kept|, c.dels, c.adds) {
      var t := HunksSound(e, 0, 0, h);
      assert t == |kept|;
      assert e[..t] == Keeps(kept);
    }
  }

  /** A block left open in the base file can be removed unnoticed. */
  lemma OpenBlockIsLost(lines: seq<string>) returns (e: Edit)
    requires After(false, lines)
    ensures Base(e) == lines && !After(false, Head(e))
    ensures GoModAccepts(Base(e), Head(e), HunksOf(e, 0, 0))
    ensures Directives(false, Base(e)) != Directives(false, Head(e))
  {
    hide Base, Head, HunksOf, After, IsDirective;
    assert lines[..|lines|] == lines;
    var s := LastOpener(lines, |lines|);
    var c := Change(lines[s..], []);
    e := Keeps(lines[..s]) + [c];
    TailEdit(lines[..s], c);
    assert lines[..s] + lines[s..] == lines && lines[..s] + [] == lines[..s];
    AfterConcat(false, lines[..s], lines[s..]);
    assert |Directives(false, lines[s..])| >= 1;
  }

  /** And a block left open in the head file can be added unnoticed. */
  lemma OpenBlockIsGained(lines: seq<string>) returns (e: Edit)
    requires After(false, lines)
    ensures Head(e) == lines && !After(false, Base(e))
    ensures GoModAccepts(Base(e), Head(e), HunksOf(e, 0, 0))
    ensures Directives(false, Base(e)) != Directives(false, Head(e))
  {
    hide Base, Head, HunksOf, After, IsDirective;
    assert lines[..|lines|] == lines;
    var s := LastOpener(lines, |lines|);
    var c := Change([], lines[s..]);
    e := Keeps(lines[..s]) + [c];
    TailEdit(lines[..s], c);
    assert lines[..s] + lines[s..] == lines && lines[..s] + [] == lines[..s];
    AfterConcat(false, lines[..s], lines[s..]);
    assert |Directives(false, lines[s..])| >= 1;
  }

  /** Exactly which files the promise holds for, on each side. */
  lemma RetractionsKeptExactly(lines: seq<string>)
    ensures !After(false, lines) <==>
            forall e: Edit | Base(e) == lines && !After(false, Head(e)) && GoModAccepts(Base(e), Head(e), HunksOf(e, 0, 0)) ::
              Directives(false, Base(e)) == Directives(false, Head(e))
    ensures !After(false, lines) <==>
            forall e: Edit | Head(e) == lines && !After(false, Base(e)) && GoModAccepts(Base(e), Head(e), HunksOf(e, 0, 0)) ::
              Directives(false, Base(e)) == Directives(false, Head(e))
  {
    hide Base, Head, HunksOf, After, Directives, GoModAccepts;
    if After(false, lines) {
      var e := OpenBlockIsLost(lines);
      var e' := OpenBlockIsGained(lines);
    } else {
      forall e: Edit | !After(false, Base(e)) && !After(false, Head(e)) && GoModAccepts(Base(e), Head(e), HunksOf(e, 0, 0))
        ensures Directives(false, Base(e)) == Directives(false, Head(e))
      {
        RetractionsKept(e);
      }
    }
  }
}
