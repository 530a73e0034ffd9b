/** Which lines of a go.mod the retract scanner recognises, character by character (review/protectedpaths.go). */
module RetractSyntax {
  import opened Text
  import opened ProtectedPaths

  // ----- Trimming -----

  lemma {:induction false} TrimBlank(s: string)
    ensures TrimSpace(s) == "" <==> AllSpace(s)
  {
    hide IsSpace;
    var front, back := TrimSpaceExact(s);
    if TrimSpace(s) != "" {
      var c := TrimSpace(s)[0];
      assert c in s && !IsSpace(c);
    }
  }

  /** Text between space that itself neither starts nor ends with space is what trimming leaves. */
  lemma {:induction false} TrimUnique(s: string, front: string, mid: string, back: string)
    requires s == front + mid + back && AllSpace(front) && AllSpace(back)
    requires mid != "" && !IsSpace(mid[0]) && !IsSpace(mid[|mid| - 1])
    ensures TrimSpace(s) == mid
    decreases |s|
  {
    hide IsSpace;
    if front != "" {
      assert s[1..] == front[1..] + mid + back && front[0] in front;
      TrimUnique(s[1..], front[1..], mid, back);
    } else if back != "" {
      var n := |back| - 1;
      assert s[..|s| - 1] == front + mid + back[..n] && back[n] in back && s[|s| - 1] == back[n];
      TrimUnique(s[..|s| - 1], front, mid, back[..n]);
    } else {
      assert s == mid;
    }
  }

  lemma TrimBack(s: string, back: string)
    requires AllSpace(back)
    ensures TrimSpace(s + back) == TrimSpace(s)
  {
    hide IsSpace, TrimSpace;
    var f, b := TrimSpaceExact(s);
    if TrimSpace(s) == "" {
      TrimBlank(s);
      TrimBlank(s + back);
    } else {
      assert s + back == f + TrimSpace(s) + (b + back);
      TrimUnique(s + back, f, TrimSpace(s), b + back);
    }
  }

  predicate Word(w: string) {
    w != "" && !IsSpace(w[0]) && !IsSpace(w[|w| - 1])
  }

  /** After `k` characters of space comes the word `w`. */
  predicate WordAt(s: string, k: nat, w: string) {
    k <= |s| && AllSpace(s[..k]) && w <= s[k..]
  }

  lemma AllSpaceAt(s: string)
    requires AllSpace(s)
    ensures forall i | 0 <= i < |s| :: IsSpace(s[i])
  {
    hide IsSpace;
    forall i | 0 <= i < |s| ensures IsSpace(s[i]) {
      assert s[i] in s;
    }
  }

  /** A line whose first word starts at `k`, trimmed: the word, and then the rest without the space at the end. */
  lemma TrimFrom(s: string, k: nat, w: string) returns (back: string)
    requires Word(w) && WordAt(s, k, w)
    ensures AllSpace(back) && w <= TrimSpace(s) && s[k..] == TrimSpace(s) + back
  {
    hide IsSpace, TrimSpace, AllSpace;
    var front;
    front, back := TrimSpaceExact(s);
    var t, e := TrimSpace(s), k + |w| - 1;
    AllSpaceAt(front);
    AllSpaceAt(back);
    AllSpaceAt(s[..k]);
    assert forall i | 0 <= i < k :: s[..k][i] == s[i];
    assert s[k] == w[0] && s[e] == w[|w| - 1];
    assert forall i | 0 <= i < |front| :: s[i] == front[i];
    assert forall i | 0 <= i < |back| :: s[|front| + |t| + i] == back[i];
    assert |front| <= k && e < |front| + |t|;
    assert t != "" ==> s[|front|] == t[0];
    assert k == |front|;
    assert s[k..] == t + back;
    assert w == s[k..][..|w|] == t[..|w|];
  }

  lemma TrimHas(s: string, w: string) returns (k: nat)
    requires Word(w) && w <= TrimSpace(s)
    ensures WordAt(s, k, w)
  {
    hide IsSpace, TrimSpace;
    var front, back := TrimSpaceExact(s);
    k := |front|;
    assert s[k..] == TrimSpace(s) + back && s[..k] == front;
  }

  /** What follows the word, trimmed, is the same whether the line was trimmed before or not. */
  lemma TrimRest(s: string, k: nat, w: string)
    requires Word(w) && WordAt(s, k, w)
    ensures w <= TrimSpace(s) && TrimSpace(TrimSpace(s)[|w|..]) == TrimSpace(s[k + |w|..])
  {
    hide IsSpace, TrimSpace;
    var back := TrimFrom(s, k, w);
    var t := TrimSpace(s);
    assert s[k + |w|..] == s[k..][|w|..] == t[|w|..] + back;
    TrimBack(t[|w|..], back);
  }

  // ----- Lines -----

  /** Nothing but space, or a line comment. */
  ghost predicate BlankOrComment(s: string) {
    AllSpace(s) || exists k: nat :: WordAt(s, k, "//")
  }

  lemma BlankOrCommentExact(s: string)
    ensures TrimSpace(s) == "" || HasPrefix(TrimSpace(s), "//") <==> BlankOrComment(s)
  {
    hide TrimSpace, AllSpace;
    TrimBlank(s);
    assert Word("//");
    if HasPrefix(TrimSpace(s), "//") {
      var k := TrimHas(s, "//");
    }
    if k: nat :| WordAt(s, k, "//") {
      var _ := TrimFrom(s, k, "//");
    }
  }

  /** A closing line: space, `)`, and nothing more than a comment. */
  ghost predicate CloseLine(line: string) {
    exists k: nat :: WordAt(line, k, ")") && BlankOrComment(line[k + 1..])
  }

  lemma ClosesExact(line: string)
    ensures Closes(line) <==> CloseLine(line)
  {
    hide TrimSpace, BlankOrComment, AllSpace;
    assert Word(")");
    var t := TrimSpace(line);
    if HasPrefix(t, ")") {
      var k := TrimHas(line, ")");
      TrimRest(line, k, ")");
      BlankOrCommentExact(line[k + 1..]);
    }
    if k: nat :| WordAt(line, k, ")") && BlankOrComment(line[k + 1..]) {
      TrimRest(line, k, ")");
      BlankOrCommentExact(line[k + 1..]);
    }
  }

  predicate MayFollow(c: char) {
    c == ' ' || c == '\t' || c == '('
  }

  /** The keyword at `k` ends there: only space follows, or a blank, a tab or a parenthesis comes next. */
  predicate KeywordAt(line: string, k: nat) {
    WordAt(line, k, "retract") && (AllSpace(line[k + 7..]) || MayFollow(line[k + 7]))
  }

  /** A directive line: space, then the keyword `retract` as a whole word. */
  ghost predicate RetractDirective(line: string) {
    exists k: nat :: KeywordAt(line, k)
  }

  lemma IsAWord()
    ensures Word("retract")
  {
  }

  lemma KeywordCut(line: string, k: nat)
    requires WordAt(line, k, "retract")
    ensures CutRetractKeyword(TrimSpace(line)) == if KeywordAt(line, k) then Some(TrimSpace(line[k + 7..])) else None
  {
    hide IsSpace, TrimSpace;
    IsAWord();
    var back := TrimFrom(line, k, "retract");
    TrimRest(line, k, "retract");
    var t, rest := TrimSpace(line), line[k + 7..];
    assert rest == line[k..][7..] == t[7..] + back;
    if t[7..] != "" {
      assert rest[0] == t[7];
      LastIsNotSpace(line);
      assert t[|t| - 1] == rest[|t| - 8];
    }
  }

  lemma LastIsNotSpace(s: string)
    ensures TrimSpace(s) != "" ==> !IsSpace(TrimSpace(s)[|TrimSpace(s)| - 1])
  {
    hide IsSpace, TrimSpace;
    var _, _ := TrimSpaceExact(s);
  }

  /** The scanner takes a line for a directive exactly when it is one. */
  lemma DirectiveExact(line: string)
    ensures IsDirective(line) <==> RetractDirective(line)
  {
    hide TrimSpace, AllSpace;
    IsAWord();
    if IsDirective(line) {
      var k := TrimHas(line, "retract");
      KeywordCut(line, k);
      assert KeywordAt(line, k);
    }
    if k: nat :| KeywordAt(line, k) {
      KeywordCut(line, k);
    }
  }

  /** After the keyword: space, `(`, and nothing more than a comment. */
  ghost predicate OpensBlock(rest: string) {
    exists m: nat :: WordAt(rest, m, "(") && BlankOrComment(rest[m + 1..])
  }

  lemma OpensBlockExact(rest: string)
    ensures IsRetractBlockOpen(TrimSpace(rest)) <==> OpensBlock(rest)
  {
    hide TrimSpace, BlankOrComment, AllSpace;
    assert Word("(");
    if HasPrefix(TrimSpace(rest), "(") {
      var m := TrimHas(rest, "(");
      TrimRest(rest, m, "(");
      BlankOrCommentExact(rest[m + 1..]);
    }
    if m: nat :| WordAt(rest, m, "(") && BlankOrComment(rest[m + 1..]) {
      TrimRest(rest, m, "(");
      BlankOrCommentExact(rest[m + 1..]);
    }
  }

  /** A line that opens a block. */
  ghost predicate OpenLine(line: string) {
    exists k: nat :: KeywordAt(line, k) && OpensBlock(line[k + 7..])
  }

  lemma OpensExact(line: string)
    ensures Opens(line) <==> OpenLine(line)
  {
    hide TrimSpace, AllSpace, OpensBlock, IsRetractBlockOpen;
    IsAWord();
    if Opens(line) {
      var k := TrimHas(line, "retract");
      KeywordCut(line, k);
      OpensBlockExact(line[k + 7..]);
      assert KeywordAt(line, k);
    }
    if k: nat :| KeywordAt(line, k) && OpensBlock(line[k + 7..]) {
      KeywordCut(line, k);
      OpensBlockExact(line[k + 7..]);
    }
  }

  // ----- Blocks -----

  /** Line `p` opens a block that no later line before `i` closes. */
  ghost predicate OpenSince(lines: seq<string>, p: nat, i: nat)
    requires i <= |lines|
  {
    p < i && !After(false, lines[..p]) && OpenLine(lines[p]) && forall q | p < q < i :: !CloseLine(lines[q])
  }

  /** A block is open after `i` lines exactly when some line opened one and no line since has closed it. */
  lemma {:induction false} BlockExact(lines: seq<string>, i: nat)
    requires i <= |lines|
    ensures After(false, lines[..i]) <==> exists p: nat :: OpenSince(lines, p, i)
  {
    hide Opens, Closes, OpenLine, CloseLine, After;
    if i == 0 {
      assert !After(false, lines[..0]) by { AfterNothing(lines[..0]); }
    } else {
      var j := i - 1;
      BlockExact(lines, j);
      AfterOne(lines, j);
      OpensExact(lines[j]);
      ClosesExact(lines[j]);
      if After(false, lines[..j]) {
        var p: nat :| OpenSince(lines, p, j);
        assert !CloseLine(lines[j]) ==> OpenSince(lines, p, i);
        forall r: nat | OpenSince(lines, r, i) ensures !CloseLine(lines[j]) {
          assert r != j;
        }
      } else {
        assert OpenLine(lines[j]) ==> OpenSince(lines, j, i);
        assert forall r: nat | OpenSince(lines, r, i) && r < j :: OpenSince(lines, r, j);
      }
    }
  }

  lemma AfterNothing(none: seq<string>)
    requires none == []
    ensures !After(false, none)
  {
  }

  // ----- Files -----

  /** A file's lines hold no newline, and joined, with or without a final one, they are the file. */
  lemma SplitLinesExact(content: string)
    ensures var lines := SplitLines(content);
            && (forall l | l in lines :: '\n' !in l)
            && content == Join(lines, '\n') + (if content != "" && content[|content| - 1] == '\n' then "\n" else "")
  {
    var parts := Split(content, '\n');
    var n := |parts| - 1;
    JoinSplit(content, '\n');
    JoinLast(parts, '\n');
    assert parts == parts[..n] + [parts[n]] && parts[n] in parts;
    if parts[n] != "" {
      assert content[|content| - 1] == parts[n][|parts[n]| - 1] && parts[n][|parts[n]| - 1] in parts[n];
    }
  }

  lemma {:induction false} JoinLast(parts: seq<string>, sep: char)
    requires |parts| >= 1
    ensures var n := |parts| - 1;
            Join(parts, sep) == if n == 0 then parts[0] else Join(parts[..n], sep) + [sep] + parts[n]
    decreases |parts|
  {
    var n := |parts| - 1;
    if n > 0 {
      JoinLast(parts[1..], sep);
      assert parts == [parts[0]] + parts[1..];
      JoinCons(parts[0], parts[1..], sep);
      if n > 1 {
        assert parts[..n] == [parts[0]] + parts[1..][..n - 1];
        JoinCons(parts[0], parts[1..][..n - 1], sep);
      }
    }
  }
}
