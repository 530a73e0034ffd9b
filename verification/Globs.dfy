/**
 * Protected-path globs (review/protectedpaths.go). `path.Match` on one segment is a parameter:
 * `None` is its bad-pattern error, which depends on the pattern alone.
 */
module Globs {
  import opened Text

  type Segment = (string, string) -> Option<bool>

  ghost predicate ErrorIsSyntactic(m: Segment) {
    forall p: string, name: string :: m(p, name).None? <==> m(p, "").None?
  }

  function Flatten(pieces: seq<seq<string>>): seq<string> {
    if pieces == [] then [] else pieces[0] + Flatten(pieces[1..])
  }

  /** A `**` takes any run of segments; anything else takes one segment that it matches. */
  predicate Takes(m: Segment, p: string, piece: seq<string>) {
    p == "**" || (|piece| == 1 && m(p, piece[0]) == Some(true))
  }

  ghost predicate IsCut(m: Segment, pattern: seq<string>, name: seq<string>, pieces: seq<seq<string>>) {
    && |pieces| == |pattern|
    && Flatten(pieces) == name
    && forall i | 0 <= i < |pattern| :: Takes(m, pattern[i], pieces[i])
  }

  /** The meaning of a pattern: the name can be cut into one piece per pattern segment. */
  ghost predicate Matches(m: Segment, pattern: seq<string>, name: seq<string>) {
    exists pieces :: IsCut(m, pattern, name, pieces)
  }

  lemma MatchesNothing(m: Segment, name: seq<string>)
    ensures Matches(m, [], name) <==> name == []
  {
    if name == [] {
      assert IsCut(m, [], name, []);
    }
  }

  lemma CutTail(m: Segment, pattern: seq<string>, name: seq<string>, pieces: seq<seq<string>>)
    requires pattern != [] && IsCut(m, pattern, name, pieces)
    ensures |pieces[0]| <= |name| && name[..|pieces[0]|] == pieces[0]
    ensures Takes(m, pattern[0], pieces[0]) && Matches(m, pattern[1..], name[|pieces[0]|..])
  {
    hide Takes;
    assert IsCut(m, pattern[1..], name[|pieces[0]|..], pieces[1..]);
  }

  lemma CutCons(m: Segment, pattern: seq<string>, name: seq<string>, i: nat)
    requires pattern != [] && i <= |name|
    requires Takes(m, pattern[0], name[..i]) && Matches(m, pattern[1..], name[i..])
    ensures Matches(m, pattern, name)
  {
    hide Takes;
    var rest :| IsCut(m, pattern[1..], name[i..], rest);
    var pieces := [name[..i]] + rest;
    assert pieces[1..] == rest && name[..i] + name[i..] == name;
    assert IsCut(m, pattern, name, pieces);
  }

  /** The first pattern segment takes `i` segments of the name and the rest of the pattern the others. */
  ghost predicate StartsWith(m: Segment, pattern: seq<string>, name: seq<string>, i: nat)
    requires pattern != [] && i <= |name|
  {
    Takes(m, pattern[0], name[..i]) && Matches(m, pattern[1..], name[i..])
  }

  lemma MatchesCons(m: Segment, pattern: seq<string>, name: seq<string>)
    requires pattern != []
    ensures Matches(m, pattern, name) <==> exists i: nat :: i <= |name| && StartsWith(m, pattern, name, i)
  {
    hide IsCut, Takes;
    if Matches(m, pattern, name) {
      var pieces :| IsCut(m, pattern, name, pieces);
      assert |pieces| == |pattern| by { CutSize(m, pattern, name, pieces); }
      CutTail(m, pattern, name, pieces);
      assert StartsWith(m, pattern, name, |pieces[0]|);
    }
    if i: nat :| i <= |name| && StartsWith(m, pattern, name, i) {
      CutCons(m, pattern, name, i);
    }
  }

  lemma CutSize(m: Segment, pattern: seq<string>, name: seq<string>, pieces: seq<seq<string>>)
    requires IsCut(m, pattern, name, pieces)
    ensures |pieces| == |pattern|
  {
  }

  /** The recursive matcher: an answer is always right, and only a malformed segment gives an error. */
  method MatchPathSegments(m: Segment, pattern: seq<string>, name: seq<string>) returns (r: Option<bool>)
    requires ErrorIsSyntactic(m)
    ensures r.Some? ==> (r.value <==> Matches(m, pattern, name))
    ensures r.None? ==> exists p :: p in pattern && p != "**" && m(p, "").None?
    decreases |pattern|
  {
    hide Matches;
    if |pattern| == 0 {
      MatchesNothing(m, name);
      assert pattern == [];
      return Some(|name| == 0);
    }
    MatchesCons(m, pattern, name);
    if pattern[0] == "**" {
      if |pattern| == 1 {
        MatchesNothing(m, name[|name|..]);
        assert pattern[1..] == [] && StartsWith(m, pattern, name, |name|);
        return Some(true);
      }
      for i := 0 to |name| + 1
        invariant forall k: nat | k < i :: !StartsWith(m, pattern, name, k)
      {
        var matched := MatchPathSegments(m, pattern[1..], name[i..]);
        if matched.None? {
          return None;
        }
        if matched.value {
          assert StartsWith(m, pattern, name, i);
          return Some(true);
        }
      }
      return Some(false);
    }
    assert forall i: nat | i <= |name| && StartsWith(m, pattern, name, i) :: i == 1;
    if |name| == 0 {
      return Some(false);
    }
    assert name[..1] == [name[0]];
    var matched := m(pattern[0], name[0]);
    if matched.None? {
      return None;
    }
    if !matched.value {
      return Some(false);
    }
    r := MatchPathSegments(m, pattern[1..], name[1..]);
    assert r == Some(true) ==> StartsWith(m, pattern, name, 1);
  }

  /** A pattern all of whose segments are well formed. */
  predicate Compiles(m: Segment, pattern: string) {
    forall p | p in Split(pattern, '/') :: p == "**" || m(p, "").Some?
  }

  function Select(m: Segment, patterns: seq<string>, good: bool): seq<string> {
    if patterns == [] then [] else
      (if Compiles(m, patterns[0]) == good then [patterns[0]] else []) + Select(m, patterns[1..], good)
  }

  method CheckSegments(m: Segment, pattern: string) returns (ok: bool)
    ensures ok == Compiles(m, pattern)
  {
    hide Split;
    var segments := Split(pattern, '/');
    for k := 0 to |segments|
      invariant forall j | 0 <= j < k :: segments[j] == "**" || m(segments[j], "").Some?
    {
      if segments[k] == "**" {
        continue;
      }
      if m(segments[k], "").None? {
        return false;
      }
    }
    return true;
  }

  /** The patterns that compile and those that do not, each in their order. */
  method PartitionGlobs(m: Segment, patterns: seq<string>) returns (valid: seq<string>, invalid: seq<string>)
    ensures valid == Select(m, patterns, true) && invalid == Select(m, patterns, false)
  {
    hide Compiles;
    valid, invalid := [], [];
    for i := 0 to |patterns|
      invariant Select(m, patterns, true) == valid + Select(m, patterns[i..], true)
      invariant Select(m, patterns, false) == invalid + Select(m, patterns[i..], false)
    {
      assert patterns[i..][1..] == patterns[i + 1..];
      var ok := CheckSegments(m, patterns[i]);
      if ok {
        valid := valid + [patterns[i]];
      } else {
        invalid := invalid + [patterns[i]];
      }
    }
  }

  lemma SelectCons(m: Segment, patterns: seq<string>, good: bool)
    requires patterns != []
    ensures var (p, rest) := (patterns[0], Select(m, patterns[1..], good));
            && multiset(Select(m, patterns, good)) == multiset(rest) + (if Compiles(m, p) == good then multiset{p} else multiset{})
            && (forall q | q in Select(m, patterns, good) :: q in rest || (q == p && Compiles(m, p) == good))
  {
    hide Compiles;
  }

  /** A partition: nothing is lost, and each side holds its own kind. */
  lemma {:induction false} SelectPartitions(m: Segment, patterns: seq<string>)
    ensures multiset(Select(m, patterns, true)) + multiset(Select(m, patterns, false)) == multiset(patterns)
    ensures forall good, p | p in Select(m, patterns, good) :: Compiles(m, p) == good
  {
    hide Compiles, Select;
    if patterns == [] {
      SelectNothing(m, patterns);
    } else {
      SelectPartitions(m, patterns[1..]);
      SelectCons(m, patterns, true);
      SelectCons(m, patterns, false);
      assert patterns == [patterns[0]] + patterns[1..];
    }
  }

  lemma SelectNothing(m: Segment, patterns: seq<string>)
    requires patterns == []
    ensures forall good :: Select(m, patterns, good) == []
  {
  }

  /** On a pattern that compiles the match never fails and is exact. */
  method MatchProtectedPath(m: Segment, pattern: string, name: string) returns (r: Option<bool>)
    requires ErrorIsSyntactic(m)
    ensures r.Some? ==> (r.value <==> Matches(m, Split(pattern, '/'), Split(name, '/')))
    ensures Compiles(m, pattern) ==> r.Some?
  {
    hide Matches, Split;
    r := MatchPathSegments(m, Split(pattern, '/'), Split(name, '/'));
  }
}
