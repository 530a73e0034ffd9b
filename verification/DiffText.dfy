/**
 * Edits and their zero-context unified diffs (the "Diff -u or -U Output Format" section of the
 * `diff` utility in POSIX.1-2017), and the hunk-header parser of review/protectedpaths.go and
 * review/secrets.go.
 */
module DiffText {
  import opened Text

  /** One step of an edit from a base file to a head file. */
  datatype Chunk =
    | Keep(line: string)
    | Change(dels: seq<string>, adds: seq<string>)

  /** An edit, left to right. */
  type Edit = seq<Chunk>

  function BasePart(c: Chunk): seq<string> {
    match c case Keep(line) => [line] case Change(dels, _) => dels
  }

  function HeadPart(c: Chunk): seq<string> {
    match c case Keep(line) => [line] case Change(_, adds) => adds
  }

  /** The file the edit starts from. */
  function Base(e: Edit): seq<string> {
    if e == [] then [] else BasePart(e[0]) + Base(e[1..])
  }

  /** The file the edit produces. */
  function Head(e: Edit): seq<string> {
    if e == [] then [] else HeadPart(e[0]) + Head(e[1..])
  }

  /** One hunk header: 1-indexed starts; with a count of 0 the start is the line before. */
  datatype Hunk = Hunk(oldStart: nat, oldCount: nat, newStart: nat, newCount: nat)

  function HunkAt(a: nat, b: nat, dels: seq<string>, adds: seq<string>): Hunk {
    Hunk(if dels == [] then a else a + 1, |dels|, if adds == [] then b else b + 1, |adds|)
  }

  /** The hunks of an edit that starts at line offsets `a` and `b`. */
  function HunksOf(e: Edit, a: nat, b: nat): seq<Hunk> {
    if e == [] then [] else
      (if e[0].Change? then [HunkAt(a, b, e[0].dels, e[0].adds)] else [])
      + HunksOf(e[1..], a + |BasePart(e[0])|, b + |HeadPart(e[0])|)
  }

  lemma {:induction false} Concat(x: Edit, y: Edit)
    ensures Base(x + y) == Base(x) + Base(y) && Head(x + y) == Head(x) + Head(y)
  {
    if x == [] {
      assert x + y == y;
    } else {
      assert (x + y)[1..] == x[1..] + y;
      Concat(x[1..], y);
    }
  }

  /** Where step `t` of an edit starts in the base file. */
  function BaseAt(e: Edit, t: nat): nat
    requires t <= |e|
  {
    |Base(e[..t])|
  }

  /** Where step `t` of an edit starts in the head file. */
  function HeadAt(e: Edit, t: nat): nat
    requires t <= |e|
  {
    |Head(e[..t])|
  }

  /** Cutting an edit at step `t` cuts both files. */
  lemma CutAt(e: Edit, t: nat)
    requires t <= |e|
    ensures Base(e) == Base(e[..t]) + Base(e[t..]) && Head(e) == Head(e[..t]) + Head(e[t..])
    ensures Base(e)[BaseAt(e, t)..] == Base(e[t..]) && Base(e)[..BaseAt(e, t)] == Base(e[..t])
    ensures Head(e)[HeadAt(e, t)..] == Head(e[t..]) && Head(e)[..HeadAt(e, t)] == Head(e[..t])
  {
    hide Base, Head;
    assert e == e[..t] + e[t..];
    Concat(e[..t], e[t..]);
  }

  /** Step `t` alone. */
  lemma StepAt(e: Edit, t: nat)
    requires t < |e|
    ensures BaseAt(e, t + 1) == BaseAt(e, t) + |BasePart(e[t])| <= |Base(e)|
    ensures HeadAt(e, t + 1) == HeadAt(e, t) + |HeadPart(e[t])| <= |Head(e)|
    ensures Base(e)[BaseAt(e, t)..BaseAt(e, t + 1)] == BasePart(e[t])
    ensures Head(e)[HeadAt(e, t)..HeadAt(e, t + 1)] == HeadPart(e[t])
  {
    hide Base, Head;
    OneMore(e, t);
    CutAt(e, t + 1);
    var (base, head) := (Base(e), Head(e));
    assert base[..BaseAt(e, t + 1)][BaseAt(e, t)..] == BasePart(e[t]);
    assert head[..HeadAt(e, t + 1)][HeadAt(e, t)..] == HeadPart(e[t]);
  }

  lemma OneStep(c: Chunk)
    ensures Base([c]) == BasePart(c) && Head([c]) == HeadPart(c)
  {
    assert [c][1..] == [];
    assert Base([c][1..]) == [] && Head([c][1..]) == [];
  }

  lemma OneMore(e: Edit, t: nat)
    requires t < |e|
    ensures Base(e[..t + 1]) == Base(e[..t]) + BasePart(e[t])
    ensures Head(e[..t + 1]) == Head(e[..t]) + HeadPart(e[t])
  {
    assert e[..t + 1] == e[..t] + [e[t]];
    Concat(e[..t], [e[t]]);
    OneStep(e[t]);
  }

  lemma {:induction false} Monotone(e: Edit, t: nat, u: nat)
    requires t <= u <= |e|
    ensures BaseAt(e, t) <= BaseAt(e, u) <= |Base(e)| && HeadAt(e, t) <= HeadAt(e, u) <= |Head(e)|
    decreases u - t
  {
    if t < u {
      StepAt(e, u - 1);
      Monotone(e, t, u - 1);
    } else {
      CutAt(e, t);
    }
  }

  /** Every base line belongs to one step. */
  lemma {:induction false} LocateBase(e: Edit, p: nat, n: nat) returns (t: nat)
    requires n <= |e| && p < BaseAt(e, n)
    ensures t < n && BaseAt(e, t) <= p < BaseAt(e, t + 1)
    decreases n
  {
    assert e[..0] == [];
    if BaseAt(e, n - 1) <= p {
      t := n - 1;
    } else {
      t := LocateBase(e, p, n - 1);
    }
  }

  /** And every head line. */
  lemma {:induction false} LocateHead(e: Edit, p: nat, n: nat) returns (t: nat)
    requires n <= |e| && p < HeadAt(e, n)
    ensures t < n && HeadAt(e, t) <= p < HeadAt(e, t + 1)
    decreases n
  {
    assert e[..0] == [];
    if HeadAt(e, n - 1) <= p {
      t := n - 1;
    } else {
      t := LocateHead(e, p, n - 1);
    }
  }

  /** Positions seen from the second step on. */
  lemma TailAt(e: Edit, t: nat)
    requires t < |e|
    ensures BaseAt(e, t + 1) == |BasePart(e[0])| + BaseAt(e[1..], t)
    ensures HeadAt(e, t + 1) == |HeadPart(e[0])| + HeadAt(e[1..], t)
  {
    assert e[..t + 1][1..] == e[1..][..t];
  }

  /** Every change of the edit shows up as a hunk, with its position. */
  lemma {:induction false} HunksComplete(e: Edit, a: nat, b: nat, t: nat)
    requires t < |e| && e[t].Change?
    ensures HunkAt(a + BaseAt(e, t), b + HeadAt(e, t), e[t].dels, e[t].adds) in HunksOf(e, a, b)
    decreases |e|
  {
    hide BaseAt, HeadAt, BasePart, HeadPart, HunkAt;
    if t == 0 {
      AtStart(e);
    } else {
      HunksComplete(e[1..], a + |BasePart(e[0])|, b + |HeadPart(e[0])|, t - 1);
      TailAt(e, t - 1);
      assert e[1..][t - 1] == e[t];
    }
  }

  lemma AtStart(e: Edit)
    ensures BaseAt(e, 0) == 0 && HeadAt(e, 0) == 0
  {
    assert e[..0] == [];
  }

  /** And every hunk comes from a change. */
  lemma {:induction false} HunksSound(e: Edit, a: nat, b: nat, h: Hunk) returns (t: nat)
    requires h in HunksOf(e, a, b)
    ensures t < |e| && e[t].Change? && h == HunkAt(a + BaseAt(e, t), b + HeadAt(e, t), e[t].dels, e[t].adds)
    decreases |e|
  {
    hide BaseAt, HeadAt, BasePart, HeadPart, HunkAt;
    if e[0].Change? && h == HunkAt(a, b, e[0].dels, e[0].adds) {
      t := 0;
      AtStart(e);
    } else {
      var u := HunksSound(e[1..], a + |BasePart(e[0])|, b + |HeadPart(e[0])|, h);
      TailAt(e, u);
      t := u + 1;
      assert e[1..][u] == e[t];
    }
  }

  // ----- Hunk headers -----

  /** A count of one is omitted. */
  function RenderRange(start: nat, count: nat): string {
    Itoa(start) + if count == 1 then "" else "," + Itoa(count)
  }

  /** `tail` is the function context git may append. */
  function RenderHeader(h: Hunk, tail: string): string {
    "@@ -" + RenderRange(h.oldStart, h.oldCount) + " +" + RenderRange(h.newStart, h.newCount) + " @@" + tail
  }

  datatype Parsed = Parsed(start: nat, count: nat, rest: string) | NoParse

  /** `(\d+)(?:,(\d+))?`, with 1 for an omitted count. */
  function ParseRange(s: string): Parsed {
    var k := DigitRun(s);
    if k == 0 then NoParse
    else if k < |s| && s[k] == ',' && DigitRun(s[k + 1..]) > 0 then
      var m := DigitRun(s[k + 1..]);
      Parsed(Atoi(s[..k]), Atoi(s[k + 1..][..m]), s[k + 1..][m..])
    else Parsed(Atoi(s[..k]), 1, s[k..])
  }

  /** The regular expression `^@@ -(\d+)(?:,(\d+))? \+(\d+)(?:,(\d+))? @@`; it never needs to backtrack. */
  function ParseHeader(line: string): Option<Hunk> {
    if !HasPrefix(line, "@@ -") then None else
      match ParseRange(line[4..])
      case NoParse => None
      case Parsed(oldStart, oldCount, rest) =>
        if !HasPrefix(rest, " +") then None else
          match ParseRange(rest[2..])
          case NoParse => None
          case Parsed(newStart, newCount, rest') =>
            if !HasPrefix(rest', " @@") then None else Some(Hunk(oldStart, oldCount, newStart, newCount))
  }

  lemma DigitsThen(n: nat, rest: string)
    requires rest != "" && !IsDigit(rest[0])
    ensures var s := Itoa(n) + rest; var k := DigitRun(s);
            0 < k < |s| && Atoi(s[..k]) == n && s[k..] == rest && s[k] == rest[0]
  {
    hide Itoa, Atoi, DigitRun;
    var d := Itoa(n);
    DigitRunOf(d, rest);
    AtoiItoa(n);
    assert (d + rest)[..|d|] == d && (d + rest)[|d|..] == rest && (d + rest)[|d|] == rest[0];
  }

  lemma ParsesCount(start: nat, count: nat, rest: string)
    requires rest != "" && rest[0] == ' '
    ensures ParseRange(Itoa(start) + ("," + (Itoa(count) + rest))) == Parsed(start, count, rest)
  {
    hide Itoa, Atoi, DigitRun;
    var tail := "," + (Itoa(count) + rest);
    DigitsThen(start, tail);
    DigitsThen(count, rest);
    var s := Itoa(start) + tail;
    var k := DigitRun(s);
    assert s[k..] == tail && s[k + 1..] == s[k..][1..];
    assert tail[1..] == Itoa(count) + rest;
  }

  lemma ParsesNoCount(start: nat, rest: string)
    requires rest != "" && rest[0] == ' '
    ensures ParseRange(Itoa(start) + rest) == Parsed(start, 1, rest)
  {
    hide Itoa, Atoi, DigitRun;
    DigitsThen(start, rest);
  }

  lemma RangeRoundTrip(start: nat, count: nat, rest: string)
    requires rest != "" && rest[0] == ' '
    ensures ParseRange(RenderRange(start, count) + rest) == Parsed(start, count, rest)
  {
    hide Itoa, ParseRange;
    if count == 1 {
      assert RenderRange(start, count) + rest == Itoa(start) + rest;
      ParsesNoCount(start, rest);
    } else {
      assert RenderRange(start, count) + rest == Itoa(start) + ("," + (Itoa(count) + rest));
      ParsesCount(start, count, rest);
    }
  }

  /** The parser undoes the printer, whatever follows the second marker. */
  lemma HeaderRoundTrip(h: Hunk, tail: string)
    ensures ParseHeader(RenderHeader(h, tail)) == Some(h)
    ensures HasPrefix(RenderHeader(h, tail), "@@ ")
  {
    hide ParseRange, RenderRange;
    var r2 := " @@" + tail;
    var r1 := " +" + (RenderRange(h.newStart, h.newCount) + r2);
    RangeRoundTrip(h.oldStart, h.oldCount, r1);
    RangeRoundTrip(h.newStart, h.newCount, r2);
    var line := RenderHeader(h, tail);
    assert line == "@@ -" + (RenderRange(h.oldStart, h.oldCount) + r1);
    assert line[4..] == RenderRange(h.oldStart, h.oldCount) + r1;
    assert r1[2..] == RenderRange(h.newStart, h.newCount) + r2;
    assert line[..3] == "@@ ";
  }

  // ----- Diff text -----

  const NO_NEWLINE := "\\ No newline at end of file"

  /** What a diff leaves open: the lines above the hunks, each header's function context, and which
      sides end without a newline. */
  datatype Style = Style(preamble: seq<string>, tail: Hunk -> string, delMark: Hunk -> bool, addMark: Hunk -> bool)

  predicate SingleLine(s: string) {
    '\n' !in s
  }

  ghost predicate WellFormed(style: Style) {
    && (forall l | l in style.preamble :: SingleLine(l) && !HasPrefix(l, "@@ ") && !HasPrefix(l, "+++ "))
    && forall h: Hunk :: SingleLine(style.tail(h))
  }

  function Prefixed(mark: char, lines: seq<string>): (r: seq<string>)
    ensures |r| == |lines| && forall i | 0 <= i < |lines| :: r[i] == [mark] + lines[i]
  {
    seq(|lines|, i requires 0 <= i < |lines| => [mark] + lines[i])
  }

  function Mark(on: bool): seq<string> {
    if on then [NO_NEWLINE] else []
  }

  /** The body of one hunk: removed lines, then added lines, each side with its marker. */
  function Body(h: Hunk, dels: seq<string>, adds: seq<string>, style: Style): seq<string> {
    Prefixed('-', dels) + Mark(dels != [] && style.delMark(h))
    + Prefixed('+', adds) + Mark(adds != [] && style.addMark(h))
  }

  /** One step of an edit as diff text; a kept line does not show with zero context. */
  function ChunkLines(c: Chunk, a: nat, b: nat, style: Style): seq<string> {
    match c
    case Keep(_) => []
    case Change(dels, adds) =>
      var h := HunkAt(a, b, dels, adds);
      [RenderHeader(h, style.tail(h))] + Body(h, dels, adds, style)
  }

  /** The hunks of a `--unified=0` diff as text. */
  function HunkLines(e: Edit, a: nat, b: nat, style: Style): seq<string> {
    if e == [] then [] else
      ChunkLines(e[0], a, b, style) + HunkLines(e[1..], a + |BasePart(e[0])|, b + |HeadPart(e[0])|, style)
  }

  /** Lines as text, each ended by a newline. */
  function Print(lines: seq<string>): string {
    Join(lines + [""], '\n')
  }

  lemma SplitPrint(lines: seq<string>)
    requires forall l | l in lines :: SingleLine(l)
    ensures Split(Print(lines), '\n') == lines + [""]
  {
    SplitJoin(lines + [""], '\n');
  }
}
