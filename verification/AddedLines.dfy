/** The added-line scanner of the secret scan (review/secrets.go). */
module AddedLines {
  import opened Text
  import opened DiffText
  import opened ProtectedPaths

  datatype AddedLine = AddedLine(file: string, line: nat, text: string)

  predicate IsFile(file: string) {
    file != "" && file != "/dev/null"
  }

  function TrimPrefix(s: string, prefix: string): string {
    if HasPrefix(s, prefix) then s[|prefix|..] else s
  }

  function FileOf(line: string): string {
    TrimPrefix(TrimPrefix(line, "+++ "), "b/")
  }

  /** The added lines of one hunk body, numbered from `next`. */
  function HunkAdds(file: string, next: nat, body: seq<string>): seq<AddedLine>
    decreases body
  {
    if body == [] then []
    else if !HasPrefix(body[0], "+") then HunkAdds(file, next, body[1..])
    else (if IsFile(file) then [AddedLine(file, next, body[0][1..])] else []) + HunkAdds(file, next + 1, body[1..])
  }

  function Min(a: nat, b: nat): nat {
    if a < b then a else b
  }

  /** The scan: a hunk's body is consumed by the length its header declares. */
  function Scan(lines: seq<string>, file: string): seq<AddedLine>
    decreases lines
  {
    if lines == [] then []
    else if HasPrefix(lines[0], "+++ ") then Scan(lines[1..], FileOf(lines[0]))
    else if !HasPrefix(lines[0], "@@ ") || ParseHeader(lines[0]).None? then Scan(lines[1..], file)
    else
      var h := ParseHeader(lines[0]).value;
      var end := Min(1 + h.oldCount + h.newCount, |lines|);
      HunkAdds(file, h.newStart, lines[1..end]) + Scan(lines[end..], file)
  }

  method AppendHunkAdds(sofar: seq<AddedLine>, file: string, newStart: nat, body: seq<string>)
    returns (all: seq<AddedLine>)
    ensures all == sofar + HunkAdds(file, newStart, body)
  {
    all := sofar;
    var nextLine := newStart;
    for i := 0 to |body|
      invariant sofar + HunkAdds(file, newStart, body) == all + HunkAdds(file, nextLine, body[i..])
    {
      assert body[i..][1..] == body[i + 1..];
      if HasPrefix(body[i], "+") {
        if IsFile(file) {
          all := all + [AddedLine(file, nextLine, body[i][1..])];
        }
        nextLine := nextLine + 1;
      }
    }
  }

  /** One iteration of the scan at line `i`. */
  lemma ScanAt(lines: seq<string>, i: nat, file: string)
    requires i < |lines|
    ensures var rest := Scan(lines[i..], file);
            if HasPrefix(lines[i], "+++ ") then rest == Scan(lines[i + 1..], FileOf(lines[i]))
            else if !HasPrefix(lines[i], "@@ ") || ParseHeader(lines[i]).None? then rest == Scan(lines[i + 1..], file)
            else
              var h := ParseHeader(lines[i]).value;
              var end := Min(i + 1 + h.oldCount + h.newCount, |lines|);
              rest == HunkAdds(file, h.newStart, lines[i + 1..end]) + Scan(lines[end..], file)
  {
    hide ParseHeader, FileOf, HunkAdds, HasPrefix;
    var tail := lines[i..];
    assert tail[1..] == lines[i + 1..];
    if !HasPrefix(lines[i], "+++ ") && HasPrefix(lines[i], "@@ ") && ParseHeader(lines[i]).Some? {
      var h := ParseHeader(lines[i]).value;
      HunkSlice(lines, i, Min(i + 1 + h.oldCount + h.newCount, |lines|));
    }
  }

  lemma HunkSlice(lines: seq<string>, i: nat, end: nat)
    requires i < end <= |lines|
    ensures lines[i..][1..end - i] == lines[i + 1..end] && lines[i..][end - i..] == lines[end..]
  {
  }

  method CollectAddedLines(diff: string) returns (added: seq<AddedLine>)
    ensures added == Scan(Split(diff, '\n'), "")
  {
    hide ParseHeader, Split, FileOf, HunkAdds, Scan, HasPrefix;
    var lines := Split(diff, '\n');
    added := [];
    var file := "";
    var i := 0;
    assert lines[0..] == lines;
    while i < |lines|
      invariant 0 <= i <= |lines|
      invariant Scan(lines, "") == added + Scan(lines[i..], file)
    {
      ScanAt(lines, i, file);
      if HasPrefix(lines[i], "+++ ") {
        file := FileOf(lines[i]);
        i := i + 1;
      } else if HasPrefix(lines[i], "@@ ") {
        var m := ParseHeader(lines[i]);
        if m.None? {
          i := i + 1;
          continue;
        }
        var end := Min(i + 1 + m.value.oldCount + m.value.newCount, |lines|);
        added := AppendHunkAdds(added, file, m.value.newStart, lines[i + 1..end]);
        i := end;
      } else {
        i := i + 1;
      }
    }
    ScanNothing(lines[i..], file);
  }

  lemma ScanNothing(lines: seq<string>, file: string)
    requires lines == []
    ensures Scan(lines, file) == []
  {
  }

  // ----- The diffs git prints -----

  /**
   * One file of a diff; `path` is absent for a file without text hunks, `Some("/dev/null")` for a
   * deletion. `quoted` is the escaped path, where git quotes it.
   */
  datatype FileDiff = FileDiff(path: Option<string>, quoted: Option<string>, edit: Edit, style: Style)

  /** Hunks come under a header that names the file, a deletion adds nothing, and escaping never shortens. */
  ghost predicate Legal(f: FileDiff) {
    && WellFormed(f.style)
    && Printable(f.edit)
    && (f.path.None? ==> f.edit == [])
    && (f.path.Some? ==> f.path.value != "" && LegalName(f.path.value, f.quoted))
    && (f.path == Some("/dev/null") ==> f.quoted.None? && AddsNothing(f.edit))
  }

  predicate LegalName(path: string, quoted: Option<string>) {
    if quoted.Some? then SingleLine(quoted.value) && |quoted.value| >= |path| else SingleLine(path)
  }

  predicate AddsNothing(e: Edit) {
    forall c | c in e && c.Change? :: c.adds == []
  }

  /** How git names the new file: quoted if it has to be, and ended by a tab if a space is in it. */
  function Label(path: string, quoted: Option<string>): string {
    if path == "/dev/null" then path
    else
      var shown := if quoted.Some? then "\"b/" + quoted.value + "\"" else "b/" + path;
      if ' ' in shown then shown + "\t" else shown
  }

  function PathLine(path: string, quoted: Option<string>): string {
    "+++ " + Label(path, quoted)
  }

  /** The name is shown as it is. */
  predicate Verbatim(f: FileDiff) {
    f.path.Some? ==> f.quoted.None? && ' ' !in f.path.value
  }

  /** The file the scan takes the hunks for. */
  function Reported(f: FileDiff): string
    requires f.path.Some?
  {
    FileOf(PathLine(f.path.value, f.quoted))
  }

  function FileLines(f: FileDiff): seq<string> {
    f.style.preamble
    + (if f.path.Some? then [PathLine(f.path.value, f.quoted)] else [])
    + HunkLines(f.edit, 0, 0, f.style)
  }

  function DiffLines(fs: seq<FileDiff>): seq<string> {
    if fs == [] then [] else FileLines(fs[0]) + DiffLines(fs[1..])
  }

  /** Lines `adds` of the head file, the first of them at index `b`. */
  function Numbered(file: string, b: nat, adds: seq<string>): seq<AddedLine> {
    seq(|adds|, i requires 0 <= i < |adds| => AddedLine(file, b + 1 + i, adds[i]))
  }

  /** What an edit adds to a file, with the line numbers of the new file. */
  function AddsOf(file: string, e: Edit, b: nat): seq<AddedLine> {
    if e == [] then [] else
      (if e[0].Change? then Numbered(file, b, e[0].adds) else []) + AddsOf(file, e[1..], b + |HeadPart(e[0])|)
  }

  function Expected(fs: seq<FileDiff>): seq<AddedLine> {
    if fs == [] then [] else
      (if fs[0].path.Some? then AddsOf(fs[0].path.value, fs[0].edit, 0) else []) + Expected(fs[1..])
  }

  /** Every reported line is the line of the new file that carries that number. */
  ghost predicate IsHeadLine(file: string, head: seq<string>, x: AddedLine) {
    x.file == file && 1 <= x.line <= |head| && head[x.line - 1] == x.text
  }

  lemma {:induction false} AddsAreHeadLines(file: string, e: Edit, pre: seq<string>)
    ensures forall x | x in AddsOf(file, e, |pre|) :: IsHeadLine(file, pre + Head(e), x)
    decreases e
  {
    hide IsHeadLine;
    if e != [] {
      var (part, rest) := (HeadPart(e[0]), e[1..]);
      AddsAreHeadLines(file, rest, pre + part);
      assert pre + part + Head(rest) == pre + Head(e);
      assert |pre + part| == |pre| + |part|;
      if e[0].Change? {
        NumberedAreHeadLines(file, pre, part, Head(rest));
      }
    }
  }

  lemma NumberedAreHeadLines(file: string, pre: seq<string>, part: seq<string>, post: seq<string>)
    ensures forall x | x in Numbered(file, |pre|, part) :: IsHeadLine(file, pre + part + post, x)
  {
  }

  // ----- Scanning one hunk -----

  predicate Plain(line: string) {
    !HasPrefix(line, "+++ ") && !HasPrefix(line, "@@ ")
  }

  lemma {:induction false} ScanPlain(x: seq<string>, rest: seq<string>, file: string)
    requires forall l | l in x :: Plain(l)
    ensures Scan(x + rest, file) == Scan(rest, file)
    decreases x
  {
    hide ParseHeader;
    if x == [] {
      assert x + rest == rest;
    } else {
      assert x[0] in x && (x + rest)[1..] == x[1..] + rest;
      ScanPlain(x[1..], rest, file);
    }
  }

  lemma {:induction false} AddsSkip(file: string, next: nat, x: seq<string>, y: seq<string>)
    requires forall l | l in x :: !HasPrefix(l, "+")
    ensures HunkAdds(file, next, x + y) == HunkAdds(file, next, y)
    decreases x
  {
    if x == [] {
      assert x + y == y;
    } else {
      assert x[0] in x && (x + y)[1..] == x[1..] + y;
      AddsSkip(file, next, x[1..], y);
    }
  }

  lemma {:induction false} AddsPlus(file: string, b: nat, adds: seq<string>)
    ensures IsFile(file) ==> HunkAdds(file, b + 1, Prefixed('+', adds)) == Numbered(file, b, adds)
    ensures |HunkAdds(file, b + 1, Prefixed('+', adds))| <= |adds|
    decreases adds
  {
    var body := Prefixed('+', adds);
    if adds != [] {
      assert body[1..] == Prefixed('+', adds[1..]);
      assert body[0][1..] == adds[0];
      AddsPlus(file, b + 1, adds[1..]);
      assert Numbered(file, b, adds) == [AddedLine(file, b + 1, adds[0])] + Numbered(file, b + 1, adds[1..]);
    }
  }

  /** What the scan makes of a hunk whose declared length covers `taken`. */
  lemma ScanHeader(h: Hunk, tail: string, taken: seq<string>, rest: seq<string>, file: string)
    requires |taken| == h.oldCount + h.newCount
    ensures Scan([RenderHeader(h, tail)] + taken + rest, file) == HunkAdds(file, h.newStart, taken) + Scan(rest, file)
  {
    hide ParseHeader, RenderHeader, HunkAdds;
    HeaderRoundTrip(h, tail);
    var header := RenderHeader(h, tail);
    var lines := [header] + taken + rest;
    assert lines[0] == header && header[0] == "@@ "[0];
    assert "+++ "[0] != header[0] && !HasPrefix(header, "+++ ");
    assert lines[1..1 + |taken|] == taken && lines[1 + |taken|..] == rest;
  }

  lemma MarkIsPlain(on: bool)
    ensures forall l | l in Mark(on) :: Plain(l) && !HasPrefix(l, "+")
  {
    assert NO_NEWLINE[0] == '\\';
  }

  lemma DelsAreSkipped(dels: seq<string>)
    ensures forall l | l in Prefixed('-', dels) :: !HasPrefix(l, "+")
  {
    forall l | l in Prefixed('-', dels) ensures !HasPrefix(l, "+") {
      assert l[0] == '-';
    }
  }

  /** The one kind of hunk whose header does not count all its lines before the end: a replaced last
      line whose old side had no final newline. The marker takes the place of the last added line. */
  predicate Swallows(c: Chunk, a: nat, b: nat, style: Style) {
    c.Change? && c.dels != [] && c.adds != [] && style.delMark(HunkAt(a, b, c.dels, c.adds))
  }

  /** The declared part of a hunk body that holds no marker before its end. */
  lemma CountedBody(file: string, a: nat, b: nat, dels: seq<string>, adds: seq<string>)
    ensures var adds' := HunkAdds(file, HunkAt(a, b, dels, adds).newStart, Prefixed('-', dels) + Prefixed('+', adds));
            (IsFile(file) || adds == [] ==> adds' == Numbered(file, b, adds)) && |adds'| <= |adds|
  {
    hide Prefixed;
    var next := HunkAt(a, b, dels, adds).newStart;
    DelsAreSkipped(dels);
    AddsSkip(file, next, Prefixed('-', dels), Prefixed('+', adds));
    AddsPlus(file, b, adds);
    if adds == [] {
      assert Prefixed('+', adds) == [];
    }
  }

  lemma ScanChange(c: Chunk, a: nat, b: nat, style: Style, file: string, rest: seq<string>)
    requires c.Change? && !Swallows(c, a, b, style)
    ensures var found := Scan(ChunkLines(c, a, b, style) + rest, file);
            && (IsFile(file) || c.adds == [] ==> found == Numbered(file, b, c.adds) + Scan(rest, file))
            && |found| <= |c.adds| + |Scan(rest, file)|
  {
    hide Scan, HunkAdds, RenderHeader, Prefixed, Numbered, Mark;
    var h := HunkAt(a, b, c.dels, c.adds);
    var taken := Prefixed('-', c.dels) + Prefixed('+', c.adds);
    var (m1, m2) := (Mark(c.dels != [] && style.delMark(h)), Mark(c.adds != [] && style.addMark(h)));
    var left := m1 + m2;
    MarkOff();
    assert Body(h, c.dels, c.adds, style) == taken + left by {
      assert c.adds == [] ==> Prefixed('+', c.adds) == [];
    }
    assert ChunkLines(c, a, b, style) + rest == [RenderHeader(h, style.tail(h))] + taken + (left + rest);
    ScanHeader(h, style.tail(h), taken, left + rest, file);
    MarkIsPlain(c.dels != [] && style.delMark(h));
    MarkIsPlain(c.adds != [] && style.addMark(h));
    ScanPlain(left, rest, file);
    CountedBody(file, a, b, c.dels, c.adds);
  }

  lemma MarkOff()
    ensures Mark(false) == []
  {
  }

  // ----- Scanning an edit, then a whole diff -----

  predicate EditSwallows(e: Edit, a: nat, b: nat, style: Style) {
    e != [] && (Swallows(e[0], a, b, style)
                || EditSwallows(e[1..], a + |BasePart(e[0])|, b + |HeadPart(e[0])|, style))
  }

  lemma {:induction false} ScanEdit(e: Edit, a: nat, b: nat, style: Style, file: string, rest: seq<string>)
    requires !EditSwallows(e, a, b, style) && (IsFile(file) || AddsNothing(e))
    ensures Scan(HunkLines(e, a, b, style) + rest, file) == AddsOf(file, e, b) + Scan(rest, file)
    decreases e
  {
    hide Scan, ChunkLines, Numbered, Swallows;
    if e == [] {
      assert HunkLines(e, a, b, style) + rest == rest;
    } else {
      var (a', b') := (a + |BasePart(e[0])|, b + |HeadPart(e[0])|);
      var tail := HunkLines(e[1..], a', b', style);
      ScanEdit(e[1..], a', b', style, file, rest);
      assert HunkLines(e, a, b, style) + rest == ChunkLines(e[0], a, b, style) + (tail + rest);
      ScanChunk(e[0], a, b, style, file, tail + rest);
    }
  }

  lemma ScanChunk(c: Chunk, a: nat, b: nat, style: Style, file: string, rest: seq<string>)
    requires !Swallows(c, a, b, style) && (IsFile(file) || c.Keep? || c.adds == [])
    ensures Scan(ChunkLines(c, a, b, style) + rest, file)
            == (if c.Change? then Numbered(file, b, c.adds) else []) + Scan(rest, file)
  {
    hide Scan, Numbered;
    if c.Change? {
      ScanChange(c, a, b, style, file, rest);
    } else {
      assert ChunkLines(c, a, b, style) + rest == rest;
    }
  }

  /** A swallowed line is lost, and may even be read as a file header. */
  lemma ScanSwallowed(c: Chunk, a: nat, b: nat, style: Style, file: string, rest: seq<string>) returns (file': string)
    requires Swallows(c, a, b, style)
    ensures |Scan(ChunkLines(c, a, b, style) + rest, file)| < |c.adds| + |Scan(rest, file')|
  {
    hide Scan, HunkAdds, RenderHeader, Numbered, Mark;
    var h := HunkAt(a, b, c.dels, c.adds);
    var last := |c.adds| - 1;
    var (m1, m2) := (Mark(true), Mark(style.addMark(h)));
    var (front, end) := (Prefixed('+', c.adds[..last]), ['+'] + c.adds[last]);
    assert Prefixed('+', c.adds) == front + [end];
    var taken := Prefixed('-', c.dels) + m1 + front;
    MarkOn();
    assert ChunkLines(c, a, b, style) + rest == [RenderHeader(h, style.tail(h))] + taken + ([end] + (m2 + rest));
    ScanHeader(h, style.tail(h), taken, [end] + (m2 + rest), file);
    DelsAreSkipped(c.dels);
    MarkIsPlain(true);
    AddsSkip(file, h.newStart, Prefixed('-', c.dels) + m1, front);
    AddsPlus(file, b, c.adds[..last]);
    file' := ScanLeftover(end, m2 + rest, file);
    MarkIsPlain(style.addMark(h));
    ScanPlain(m2, rest, file');
  }

  lemma MarkOn()
    ensures |Mark(true)| == 1
  {
  }

  lemma ScanLeftover(line: string, rest: seq<string>, file: string) returns (file': string)
    requires line != "" && line[0] == '+'
    ensures Scan([line] + rest, file) == Scan(rest, file')
  {
    hide ParseHeader;
    assert ([line] + rest)[1..] == rest;
    file' := if HasPrefix(line, "+++ ") then FileOf(line) else file;
  }

  /** However the file names went, the scan finds at most the lines the edit adds, and fewer when it
      swallows one. */
  lemma {:induction false} ScanBound(e: Edit, a: nat, b: nat, style: Style, file: string, rest: seq<string>, name: string)
    returns (file': string)
    ensures |Scan(HunkLines(e, a, b, style) + rest, file)| <= |AddsOf(name, e, b)| + |Scan(rest, file')|
    ensures EditSwallows(e, a, b, style) ==>
              |Scan(HunkLines(e, a, b, style) + rest, file)| < |AddsOf(name, e, b)| + |Scan(rest, file')|
    decreases e
  {
    hide Scan, ChunkLines, Swallows;
    if e == [] {
      assert HunkLines(e, a, b, style) + rest == rest;
      file' := file;
    } else {
      var (a', b') := (a + |BasePart(e[0])|, b + |HeadPart(e[0])|);
      var tail := HunkLines(e[1..], a', b', style);
      assert HunkLines(e, a, b, style) + rest == ChunkLines(e[0], a, b, style) + (tail + rest);
      var mid := ChunkBound(e[0], a, b, style, file, tail + rest);
      file' := ScanBound(e[1..], a', b', style, mid, rest, name);
    }
  }

  lemma ChunkBound(c: Chunk, a: nat, b: nat, style: Style, file: string, rest: seq<string>) returns (file': string)
    ensures |Scan(ChunkLines(c, a, b, style) + rest, file)| <= (if c.Change? then |c.adds| else 0) + |Scan(rest, file')|
    ensures Swallows(c, a, b, style) ==>
              |Scan(ChunkLines(c, a, b, style) + rest, file)| < (if c.Change? then |c.adds| else 0) + |Scan(rest, file')|
  {
    hide Scan;
    if Swallows(c, a, b, style) {
      file' := ScanSwallowed(c, a, b, style, file, rest);
    } else {
      file' := file;
      if c.Change? {
        ScanChange(c, a, b, style, file, rest);
      } else {
        assert ChunkLines(c, a, b, style) + rest == rest;
      }
    }
  }

  predicate FileSwallows(f: FileDiff) {
    EditSwallows(f.edit, 0, 0, f.style)
  }

  lemma PathLineTrims(path: string, quoted: Option<string>)
    ensures HasPrefix(PathLine(path, quoted), "+++ ")
    ensures FileOf(PathLine(path, quoted)) == TrimPrefix(Label(path, quoted), "b/")
  {
    hide Label;
    assert PathLine(path, quoted)[..4] == "+++ " && PathLine(path, quoted)[4..] == Label(path, quoted);
  }

  /** The scan has the right name exactly for a name shown as it is. */
  lemma ReportedExact(f: FileDiff)
    requires Legal(f) && f.path.Some?
    ensures Reported(f) == f.path.value <==> Verbatim(f)
    ensures IsFile(Reported(f)) || f.path.value == "/dev/null"
  {
    hide WellFormed, Printable, SingleLine, AddsNothing, FileOf, PathLine;
    var path := f.path.value;
    PathLineTrims(path, f.quoted);
    if path == "/dev/null" {
      assert path[0] == '/';
    } else if f.quoted.Some? {
      var shown := Label(path, f.quoted);
      assert shown[0] == '"' && |shown| > |path|;
      assert "b/"[0] != shown[0] && "/dev/null"[0] != shown[0];
    } else if ' ' in path {
      assert ("b/" + path)[2..] == path;
      assert Label(path, f.quoted) == "b/" + (path + "\t") && ("b/" + (path + "\t"))[2..] == path + "\t";
      assert |path + "\t"| == |path| + 1;
      assert (path + "\t")[|path|] == '\t';
      assert "/dev/null"[8] == 'l' && |"/dev/null"| == 9;
    } else {
      assert ("b/" + path)[2..] == path;
    }
  }

  /** What the scan finds when it swallows nothing: the right lines, under the reported names. */
  function Found(fs: seq<FileDiff>): seq<AddedLine> {
    if fs == [] then [] else
      (if fs[0].path.Some? then AddsOf(Reported(fs[0]), fs[0].edit, 0) else []) + Found(fs[1..])
  }

  /** The lines above a file's hunks only set the file name. */
  lemma ScanFileHead(f: FileDiff, rest: seq<string>, file: string)
    requires Legal(f)
    ensures Scan(FileLines(f) + rest, file)
            == Scan(HunkLines(f.edit, 0, 0, f.style) + rest, if f.path.Some? then Reported(f) else file)
  {
    hide Scan, HunkLines, PathLine, Printable, LegalName, FileOf;
    var below := HunkLines(f.edit, 0, 0, f.style) + rest;
    if f.path.Some? {
      var line := PathLine(f.path.value, f.quoted);
      assert FileLines(f) + rest == f.style.preamble + ([line] + below);
      ScanPlain(f.style.preamble, [line] + below, file);
      PathLineTrims(f.path.value, f.quoted);
      ScanName(line, below, file);
    } else {
      assert FileLines(f) + rest == f.style.preamble + below;
      ScanPlain(f.style.preamble, below, file);
    }
  }

  lemma ScanName(line: string, rest: seq<string>, file: string)
    requires HasPrefix(line, "+++ ")
    ensures Scan([line] + rest, file) == Scan(rest, FileOf(line))
  {
    hide ParseHeader, FileOf;
    assert ([line] + rest)[1..] == rest;
  }

  lemma {:induction false} ScanFiles(fs: seq<FileDiff>, file: string)
    requires forall f | f in fs :: Legal(f)
    ensures (forall f | f in fs :: !FileSwallows(f)) ==> Scan(DiffLines(fs) + [""], file) == Found(fs)
    ensures |Scan(DiffLines(fs) + [""], file)| <= |Found(fs)|
    ensures (exists f :: f in fs && FileSwallows(f)) ==> |Scan(DiffLines(fs) + [""], file)| < |Found(fs)|
    decreases fs
  {
    hide Scan, FileLines, HunkLines, AddsOf, EditSwallows, Legal, Reported;
    if fs == [] {
      ScanEnd(file);
    } else {
      var (f, rest) := (fs[0], DiffLines(fs[1..]) + [""]);
      assert DiffLines(fs) + [""] == FileLines(f) + rest;
      assert forall g | g in fs :: g == f || g in fs[1..];
      ScanFileHead(f, rest, file);
      var name := if f.path.Some? then Reported(f) else file;
      var file' := ScanBound(f.edit, 0, 0, f.style, name, rest, name);
      ScanFiles(fs[1..], file');
      ScanFiles(fs[1..], name);
      if !FileSwallows(f) {
        ScanOneFile(f, name, rest);
      }
      NoPathNoAdds(f, name);
    }
  }

  lemma ScanEnd(file: string)
    ensures Scan(DiffLines([]) + [""], file) == []
  {
    assert DiffLines([]) + [""] == [""];
    assert [""][1..] == [];
  }

  lemma NoPathNoAdds(f: FileDiff, name: string)
    requires Legal(f)
    ensures f.path.None? ==> AddsOf(name, f.edit, 0) == []
  {
  }

  lemma ScanOneFile(f: FileDiff, name: string, rest: seq<string>)
    requires Legal(f) && !FileSwallows(f)
    requires f.path.Some? ==> name == Reported(f)
    ensures Scan(HunkLines(f.edit, 0, 0, f.style) + rest, name) == AddsOf(name, f.edit, 0) + Scan(rest, name)
  {
    hide Scan, HunkLines, AddsOf, EditSwallows, Reported, WellFormed, Printable, LegalName;
    if f.path.Some? {
      ReportedExact(f);
    }
    ScanEdit(f.edit, 0, 0, f.style, name, rest);
  }

  lemma AddsNothingCons(e: Edit)
    requires e != []
    ensures AddsNothing(e) <==> (e[0].Change? ==> e[0].adds == []) && AddsNothing(e[1..])
  {
    assert e == [e[0]] + e[1..];
  }

  /** Two names give the same added lines exactly when they are one, or nothing is added. */
  lemma {:induction false} AddsUnderNames(x: string, y: string, e: Edit, b: nat)
    ensures |AddsOf(x, e, b)| == |AddsOf(y, e, b)|
    ensures AddsOf(x, e, b) == AddsOf(y, e, b) <==> x == y || AddsNothing(e)
    decreases e
  {
    hide Numbered, HeadPart, AddsNothing;
    if e == [] {
      AddsNothingAtAll(e);
    } else {
      var c, b' := e[0], b + |HeadPart(e[0])|;
      AddsUnderNames(x, y, e[1..], b');
      AddsNothingCons(e);
      if c.Change? {
        NumberedUnderNames(x, y, b, c.adds);
        SamePieces(Numbered(x, b, c.adds), Numbered(y, b, c.adds), AddsOf(x, e[1..], b'), AddsOf(y, e[1..], b'));
      } else {
        assert AddsOf(x, e, b) == AddsOf(x, e[1..], b') && AddsOf(y, e, b) == AddsOf(y, e[1..], b');
      }
    }
  }

  lemma AddsNothingAtAll(e: Edit)
    requires e == []
    ensures AddsNothing(e)
  {
  }

  lemma NumberedUnderNames(x: string, y: string, b: nat, adds: seq<string>)
    ensures |Numbered(x, b, adds)| == |Numbered(y, b, adds)|
    ensures Numbered(x, b, adds) == Numbered(y, b, adds) <==> x == y || adds == []
  {
    if adds != [] {
      assert Numbered(x, b, adds)[0].file == x && Numbered(y, b, adds)[0].file == y;
    }
  }

  lemma SamePieces(a: seq<AddedLine>, b: seq<AddedLine>, c: seq<AddedLine>, d: seq<AddedLine>)
    requires |a| == |b|
    ensures a + c == b + d <==> a == b && c == d
  {
    if a + c == b + d {
      assert a == (a + c)[..|a|] && b == (b + d)[..|b|];
      assert c == (a + c)[|a|..] && d == (b + d)[|b|..];
    }
  }

  lemma {:induction false} FoundExact(fs: seq<FileDiff>)
    requires forall f | f in fs :: Legal(f)
    ensures |Found(fs)| == |Expected(fs)|
    ensures Found(fs) == Expected(fs) <==> forall f | f in fs :: Verbatim(f) || AddsNothing(f.edit)
    decreases fs
  {
    hide Legal, Reported, Verbatim, AddsNothing, AddsOf;
    if fs != [] {
      var f, rest := fs[0], fs[1..];
      FoundExact(rest);
      assert forall g | g in fs :: g == f || g in rest;
      if f.path.Some? {
        ReportedExact(f);
        AddsUnderNames(Reported(f), f.path.value, f.edit, 0);
        SamePieces(AddsOf(Reported(f), f.edit, 0), AddsOf(f.path.value, f.edit, 0), Found(rest), Expected(rest));
      } else {
        NoPathIsVerbatim(f);
        assert Found(fs) == Found(rest) && Expected(fs) == Expected(rest);
      }
    }
  }

  lemma NoPathIsVerbatim(f: FileDiff)
    requires f.path.None?
    ensures Verbatim(f)
  {
  }

  lemma {:induction false} DiffIsLines(fs: seq<FileDiff>)
    requires forall f | f in fs :: Legal(f)
    ensures forall l | l in DiffLines(fs) :: SingleLine(l)
  {
    hide HunkLines, SingleLine, Printable, LegalName, PathLine;
    if fs != [] {
      var f := fs[0];
      assert f in fs;
      HunkLinesAreLines(f.edit, 0, 0, f.style);
      if f.path.Some? {
        PathLineIsLine(f.path.value, f.quoted);
      }
      DiffIsLines(fs[1..]);
    }
  }

  lemma PathLineIsLine(path: string, quoted: Option<string>)
    requires LegalName(path, quoted)
    ensures SingleLine(PathLine(path, quoted))
  {
  }

  /** The hunks of the file are all counted, and its name is shown as it is or it has no added line. */
  predicate Readable(f: FileDiff) {
    !FileSwallows(f) && (Verbatim(f) || AddsNothing(f.edit))
  }

  /** The scan reports exactly the added lines of every file, with file and line number, if and only if no
      hunk replaces a last line that had no final newline and no file whose name holds a space or is
      quoted has an added line; whatever the lines themselves hold. */
  lemma ScanExact(fs: seq<FileDiff>)
    requires forall f | f in fs :: Legal(f)
    ensures Scan(Split(Print(DiffLines(fs)), '\n'), "") == Expected(fs) <==> forall f | f in fs :: Readable(f)
  {
    hide Scan, DiffLines, Expected, Found, Split, Legal, FileSwallows, Verbatim, AddsNothing;
    DiffIsLines(fs);
    SplitPrint(DiffLines(fs));
    ScanFiles(fs, "");
    FoundExact(fs);
  }

  /** The smallest case: the only line of a file without a final newline is replaced. */
  lemma LastLineIsMissed() returns (fs: seq<FileDiff>)
    ensures forall f | f in fs :: Legal(f) && Verbatim(f)
    ensures Scan(Split(Print(DiffLines(fs)), '\n'), "") != Expected(fs)
  {
    hide Scan, DiffLines, Expected, Split;
    var c := Change(["a"], ["b"]);
    var f := FileDiff(Some("f"), None, [c], Style([], _ => "", _ => true, _ => false));
    OneStep(c);
    OneSwallows(c, f.style);
    fs := [f];
    ScanExact(fs);
    assert f in fs && FileSwallows(f);
  }

  /** The smallest case for names: one line added to a new file with a space in its name. */
  lemma SpacedNameIsMisreported() returns (fs: seq<FileDiff>)
    ensures forall f | f in fs :: Legal(f) && !FileSwallows(f)
    ensures Scan(Split(Print(DiffLines(fs)), '\n'), "") != Expected(fs)
  {
    hide Scan, DiffLines, Expected, Split;
    var c := Change([], ["x"]);
    var f := FileDiff(Some("a b"), None, [c], Style([], _ => "", _ => false, _ => false));
    OneStep(c);
    OneSwallows(c, f.style);
    fs := [f];
    ScanExact(fs);
    assert "a b"[1] == ' ';
    assert c in f.edit && !AddsNothing(f.edit);
    assert f in fs && !Readable(f);
  }

  lemma OneSwallows(c: Chunk, style: Style)
    ensures EditSwallows([c], 0, 0, style) <==> Swallows(c, 0, 0, style)
  {
    assert [c][1..] == [];
  }
}
