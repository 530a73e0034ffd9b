/** The depth-first topological sort of the module manager (modulex.go, sortModules). */
module TopoSort {
  import opened Text

  /** Registered modules with the dependency names they declare, untrimmed. */
  type Graph = map<string, seq<string>>

  datatype SortError =
    | Circular(cycle: seq<string>)
    | NotFound(name: string)
    | EmptyDependency(of: string)
    | SelfDependency(of: string)

  datatype SortResult = Sorted(order: seq<string>) | Failed(error: SortError)

  /** Module `a` declares `b`, up to surrounding space. */
  predicate Edge(g: Graph, a: string, b: string) {
    a in g && exists i | 0 <= i < |g[a]| :: TrimSpace(g[a][i]) == b
  }

  ghost predicate IsPath(g: Graph, p: seq<string>) {
    |p| >= 1 && forall i | 0 <= i < |p| - 1 :: Edge(g, p[i], p[i + 1])
  }

  /** There is a dependency path from `a` to `b`, perhaps of length zero. */
  ghost predicate Reaches(g: Graph, a: string, b: string) {
    exists p :: IsPath(g, p) && p[0] == a && p[|p| - 1] == b
  }

  ghost predicate Distinct(s: seq<string>) {
    forall i, j | 0 <= i < j < |s| :: s[i] != s[j]
  }

  ghost predicate IsCycle(g: Graph, c: seq<string>) {
    |c| >= 2 && IsPath(g, c) && c[0] == c[|c| - 1]
  }

  /** What `sortModules` promises to accept. */
  ghost predicate Sortable(g: Graph) {
    && (forall a, b | Edge(g, a, b) :: b != "" && b in g && b != a)
    && (forall c :: !IsCycle(g, c))
  }

  /** Every dependency of every listed module comes earlier in the list. */
  ghost predicate Topological(g: Graph, order: seq<string>) {
    forall i, d | 0 <= i < |order| && Edge(g, order[i], d) :: d in order[..i]
  }

  /** The error names something that is really wrong; a reported cycle is a simple cycle of declared edges. */
  ghost predicate ErrorIsReal(g: Graph, e: SortError) {
    match e
    case Circular(c) => IsCycle(g, c) && |c| >= 3 && Distinct(c[..|c| - 1])
    case NotFound(n) => n !in g && exists m :: Edge(g, m, n)
    case EmptyDependency(m) => Edge(g, m, "")
    case SelfDependency(m) => Edge(g, m, m)
  }

  /**
   * Registration order breaks ties: if `b` comes before `a` although `a` was registered first, then
   * some module registered no later than `a` depends on `b`, directly or not.
   */
  ghost predicate TieBreak(g: Graph, registered: seq<string>, order: seq<string>) {
    forall pa, pb, ia, ib |
      && 0 <= pb < pa < |order| && 0 <= ia < ib < |registered|
      && order[pa] == registered[ia] && order[pb] == registered[ib] ::
      exists k | 0 <= k <= ia :: registered[k] != order[pb] && Reaches(g, registered[k], order[pb])
  }

  // ----- Paths -----

  lemma ReachesSelf(g: Graph, a: string)
    ensures Reaches(g, a, a)
  {
    assert IsPath(g, [a]) && [a][0] == a;
  }

  lemma ReachesVia(g: Graph, a: string, b: string, c: string)
    requires Edge(g, a, b) && Reaches(g, b, c)
    ensures Reaches(g, a, c)
  {
    var p :| IsPath(g, p) && p[0] == b && p[|p| - 1] == c;
    var q := [a] + p;
    assert forall i | 0 <= i < |q| - 1 :: Edge(g, q[i], q[i + 1]) by {
      forall i | 0 <= i < |q| - 1 ensures Edge(g, q[i], q[i + 1]) {
        if i > 0 {
          assert q[i] == p[i - 1] && q[i + 1] == p[i];
        }
      }
    }
    assert IsPath(g, q) && q[0] == a && q[|q| - 1] == c;
  }

  lemma PathTail(g: Graph, p: seq<string>)
    requires IsPath(g, p) && |p| >= 2
    ensures Edge(g, p[0], p[1]) && IsPath(g, p[1..]) && p[1..][|p| - 2] == p[|p| - 1]
  {
    hide Edge;
    var tail := p[1..];
    forall i | 0 <= i < |tail| - 1 ensures Edge(g, tail[i], tail[i + 1]) {
      assert tail[i] == p[i + 1] && tail[i + 1] == p[i + 2];
    }
  }

  lemma EdgeFalls(g: Graph, order: seq<string>, at: nat, d: string) returns (next: nat)
    requires Topological(g, order) && at < |order| && Edge(g, order[at], d)
    ensures next < at && order[next] == d
  {
    hide Edge;
    assert d in order[..at];
    next :| 0 <= next < at && order[next] == d;
  }

  /** Along a path, positions in a topological order fall. */
  lemma {:induction false} PathFalls(g: Graph, order: seq<string>, p: seq<string>, at: nat)
    requires Distinct(order) && Topological(g, order) && IsPath(g, p) && |p| >= 2
    requires at < |order| && order[at] == p[0]
    ensures p[|p| - 1] in order[..at]
    decreases |p|
  {
    hide Edge, Topological, Distinct, IsPath;
    PathTail(g, p);
    var next := EdgeFalls(g, order, at, p[1]);
    if |p| == 2 {
      assert order[..at][next] == p[1];
    } else {
      PathFalls(g, order, p[1..], next);
      assert order[..next] == order[..at][..next];
    }
  }

  /** A complete topological order proves the graph sortable. */
  lemma TopologicalIsSortable(g: Graph, order: seq<string>)
    requires Distinct(order) && Topological(g, order) && (forall n | n in g :: n in order) && (forall n | n in order :: n in g)
    requires forall a | a in g :: !Edge(g, a, "")
    ensures Sortable(g)
  {
    forall a, b | Edge(g, a, b) ensures b != "" && b in g && b != a {
      var i :| 0 <= i < |order| && order[i] == a;
      assert b in order[..i];
    }
    forall c ensures !IsCycle(g, c) {
      if IsCycle(g, c) {
        assert Edge(g, c[0], c[1]);
        var at :| 0 <= at < |order| && order[at] == c[0];
        PathFalls(g, order, c, at);
        assert false;
      }
    }
  }

  lemma RealErrorIsNotSortable(g: Graph, e: SortError)
    requires ErrorIsReal(g, e)
    ensures !Sortable(g)
  {
  }

  // ----- The sorter -----

  datatype VisitState = Visiting | Visited

  /** What holds between two calls of `visit`; an unvisited module has no state. */
  ghost predicate Consistent(g: Graph, state: map<string, VisitState>, order: seq<string>, path: seq<string>) {
    && Distinct(order) && Distinct(path) && Topological(g, order)
    && (forall n | n in order :: n in g && !Edge(g, n, ""))
    && (forall n | n in state :: n in g)
    && (forall n :: (n in state && state[n] == Visited) <==> n in order)
    && (forall n :: (n in state && state[n] == Visiting) <==> n in path)
    && (path != [] ==> IsPath(g, path))
  }

  lemma EnterKeeps(g: Graph, state: map<string, VisitState>, order: seq<string>, path: seq<string>, name: string)
    requires Consistent(g, state, order, path) && name in g && name !in state
    requires path != [] ==> Edge(g, path[|path| - 1], name)
    ensures Consistent(g, state[name := Visiting], order, path + [name])
  {
    hide Edge, Topological;
    var q := path + [name];
    assert name !in path && name !in order;
    forall i | 0 <= i < |q| - 1 ensures Edge(g, q[i], q[i + 1]) {
      if i < |path| - 1 {
        assert q[i] == path[i] && q[i + 1] == path[i + 1];
      }
    }
  }

  lemma TopologicalSnoc(g: Graph, order: seq<string>, name: string)
    requires Topological(g, order) && forall d | Edge(g, name, d) :: d in order
    ensures Topological(g, order + [name])
  {
    hide Edge;
    var o := order + [name];
    forall i, d | 0 <= i < |o| && Edge(g, o[i], d) ensures d in o[..i] {
      if i < |order| {
        assert o[..i] == order[..i] && o[i] == order[i];
      } else {
        assert o[..i] == order;
      }
    }
  }

  lemma PathFront(g: Graph, path: seq<string>, name: string)
    requires Distinct(path + [name]) && IsPath(g, path + [name])
    ensures Distinct(path) && name !in path && (path != [] ==> IsPath(g, path))
    ensures forall n :: n in path + [name] <==> n in path || n == name
  {
    hide Edge;
    var q := path + [name];
    assert q[|path|] == name;
    assert forall i | 0 <= i < |path| :: path[i] == q[i];
  }

  lemma LeaveKeeps(g: Graph, state: map<string, VisitState>, order: seq<string>, path: seq<string>, name: string)
    requires Consistent(g, state, order, path + [name]) && name in g
    requires forall d | Edge(g, name, d) :: d in order && d != ""
    ensures Consistent(g, state[name := Visited], order + [name], path)
  {
    hide Edge, Topological, IsPath;
    PathFront(g, path, name);
    TopologicalSnoc(g, order, name);
    assert name in path + [name] && name !in order;
    var o := order + [name];
    assert forall n :: n in o <==> n in order || n == name;
  }

  lemma StateMeaning(g: Graph, state: map<string, VisitState>, order: seq<string>, path: seq<string>, name: string)
    requires Consistent(g, state, order, path) && name in state
    ensures if state[name] == Visiting then name in path else name in order
  {
  }

  lemma DependencyIsEdge(g: Graph, name: string, i: nat)
    requires name in g && i < |g[name]|
    ensures Edge(g, name, TrimSpace(g[name][i]))
  {
    hide TrimSpace;
  }

  lemma EdgesAreIn(g: Graph, name: string, order: seq<string>)
    requires name in g
    requires forall j | 0 <= j < |g[name]| :: TrimSpace(g[name][j]) in order && TrimSpace(g[name][j]) != ""
    ensures forall d | Edge(g, name, d) :: d in order && d != ""
  {
    hide TrimSpace;
  }

  /** What a dependency can reach, its dependent can. */
  lemma ReachExtends(g: Graph, name: string, dep: string, from: nat, before: seq<string>, order: seq<string>)
    requires Edge(g, name, dep) && before <= order
    requires forall j | from <= j < |before| :: Reaches(g, name, before[j])
    requires forall j | |before| <= j < |order| :: Reaches(g, dep, order[j])
    ensures forall j | from <= j < |order| :: Reaches(g, name, order[j])
  {
    hide Edge, Reaches;
    forall j | from <= j < |order| ensures Reaches(g, name, order[j]) {
      if j >= |before| {
        ReachesVia(g, name, dep, order[j]);
      } else {
        assert order[j] == before[j];
      }
    }
  }

  class TopoSorter {
    const modules: Graph
    var state: map<string, VisitState>
    var order: seq<string>
    var path: seq<string>

    constructor (modules: Graph)
      ensures this.modules == modules && state == map[] && order == [] && path == []
    {
      this.modules := modules;
      state, order, path := map[], [], [];
    }

    ghost predicate Valid()
      reads this
    {
      Consistent(modules, state, order, path)
    }

    /** `cycleError`: the part of the path from `name` on, closed with `name`. */
    method CycleError(name: string) returns (e: SortError)
      requires Valid() && name in path && Edge(modules, path[|path| - 1], name) && path[|path| - 1] != name
      ensures ErrorIsReal(modules, e)
    {
      var start := 0;
      while path[start] != name
        invariant 0 <= start < |path| && name !in path[..start]
        decreases |path| - start
      {
        assert name in path[start + 1..] by {
          assert path == path[..start] + [path[start]] + path[start + 1..];
        }
        start := start + 1;
      }
      var c := path[start..] + [name];
      forall i | 0 <= i < |c| - 1 ensures Edge(modules, c[i], c[i + 1]) {
        if i < |c| - 2 {
          assert c[i] == path[start + i] && c[i + 1] == path[start + i + 1];
        } else {
          assert c[i] == path[|path| - 1];
        }
      }
      assert c[..|c| - 1] == path[start..];
      e := Circular(c);
    }

    /** `visit`: on success `name` and everything it needs is in `order`; the new entries are reachable from `name`. */
    method Visit(name: string) returns (err: Option<SortError>)
      requires Valid()
      requires path == [] ==> name in modules
      requires path != [] ==> Edge(modules, path[|path| - 1], name) && path[|path| - 1] != name
      modifies this`state, this`order, this`path
      ensures err.Some? ==> ErrorIsReal(modules, err.value)
      ensures path == old(path)
      ensures err.None? ==> Valid() && old(order) <= order && name in order
      ensures err.None? ==> old(state).Keys <= state.Keys
      ensures err.None? ==> forall i | |old(order)| <= i < |order| :: Reaches(modules, name, order[i])
      decreases modules.Keys - state.Keys, 0
    {
      hide Consistent, IsPath, Reaches, TrimSpace, Edge;
      if name in state {
        StateMeaning(modules, state, order, path, name);
        if state[name] == Visiting {
          var e := CycleError(name);
          return Some(e);
        }
        return None;
      }
      if name !in modules {
        assert path != [] && Edge(modules, path[|path| - 1], name);
        return Some(NotFound(name));
      }
      state := state[name := Visiting];
      path := path + [name];
      EnterKeeps(modules, old(state), old(order), old(path), name);
      ghost var path1, order1 := path, order;
      var deps := modules[name];
      for i := 0 to |deps|
        invariant Valid() && path == path1 && order1 <= order
        invariant old(state).Keys + {name} <= state.Keys
        invariant forall j | 0 <= j < i :: TrimSpace(deps[j]) in order && TrimSpace(deps[j]) != ""
        invariant forall j | |order1| <= j < |order| :: Reaches(modules, name, order[j])
      {
        ghost var before := order;
        DependencyIsEdge(modules, name, i);
        err := VisitDependency(name, TrimSpace(deps[i]));
        if err.Some? {
          path := path[..|path| - 1];
          assert path == old(path);
          state := state[name := Visited];
          return;
        }
        ReachExtends(modules, name, TrimSpace(deps[i]), |order1|, before, order);
      }
      EdgesAreIn(modules, name, order);
      LeaveKeeps(modules, state, order, old(path), name);
      order := order + [name];
      ReachesSelf(modules, name);
      path := path[..|path| - 1];
      assert path == old(path);
      state := state[name := Visited];
      err := None;
    }

    /** `visitDependency`: rejects an empty name and a self-dependency before recursing. */
    method VisitDependency(name: string, dep: string) returns (err: Option<SortError>)
      requires Valid() && path != [] && path[|path| - 1] == name && Edge(modules, name, dep)
      modifies this`state, this`order, this`path
      ensures err.Some? ==> ErrorIsReal(modules, err.value)
      ensures path == old(path)
      ensures err.None? ==> Valid() && old(order) <= order && dep in order && dep != ""
      ensures err.None? ==> old(state).Keys <= state.Keys
      ensures err.None? ==> forall i | |old(order)| <= i < |order| :: Reaches(modules, dep, order[i])
      decreases modules.Keys - state.Keys, 1
    {
      if dep == "" {
        return Some(EmptyDependency(name));
      }
      if dep == name {
        return Some(SelfDependency(name));
      }
      err := Visit(dep);
    }
  }

  /** Each entry was added while one root was being processed, and is reachable from that root. */
  ghost predicate Blocks(g: Graph, roots: seq<string>, order: seq<string>, marks: seq<nat>) {
    && |marks| == |roots| + 1 && marks[0] == 0 && marks[|roots|] == |order|
    && (forall j, k | 0 <= j <= k < |marks| :: marks[j] <= marks[k])
    && (forall k | 0 <= k < |roots| :: roots[k] in order[..marks[k + 1]])
    && (forall k, x | 0 <= k < |roots| && marks[k] <= x < marks[k + 1] :: Reaches(g, roots[k], order[x]))
  }

  lemma ExtendBlocks(g: Graph, roots: seq<string>, order: seq<string>, marks: seq<nat>, root: string, order': seq<string>)
    requires Blocks(g, roots, order, marks) && order <= order' && root in order'
    requires forall i | |order| <= i < |order'| :: Reaches(g, root, order'[i])
    ensures Blocks(g, roots + [root], order', marks + [|order'|])
  {
    hide Reaches;
    var r, m := roots + [root], marks + [|order'|];
    forall k | 0 <= k < |r| ensures r[k] in order'[..m[k + 1]] {
      if k < |roots| {
        assert order[..marks[k + 1]] == order'[..m[k + 1]];
      } else {
        assert order'[..|order'|] == order';
      }
    }
    forall k, x | 0 <= k < |r| && m[k] <= x < m[k + 1] ensures Reaches(g, r[k], order'[x]) {
      if k < |roots| {
        assert order'[x] == order[x] && marks[k + 1] <= |order|;
      }
    }
  }

  lemma {:induction false} BlockOf(g: Graph, roots: seq<string>, order: seq<string>, marks: seq<nat>, x: nat, last: nat) returns (k: nat)
    requires Blocks(g, roots, order, marks) && last < |roots| && x < marks[last + 1]
    ensures k <= last && marks[k] <= x < marks[k + 1]
    decreases last
  {
    if marks[last] <= x {
      k := last;
    } else {
      k := BlockOf(g, roots, order, marks, x, last - 1);
    }
  }

  lemma BlocksBreakTies(g: Graph, roots: seq<string>, order: seq<string>, marks: seq<nat>)
    requires Blocks(g, roots, order, marks) && Distinct(roots) && Distinct(order)
    ensures TieBreak(g, roots, order)
  {
    hide Reaches;
    forall pa, pb, ia, ib |
      && 0 <= pb < pa < |order| && 0 <= ia < ib < |roots|
      && order[pa] == roots[ia] && order[pb] == roots[ib]
      ensures exists k | 0 <= k <= ia :: roots[k] != order[pb] && Reaches(g, roots[k], order[pb])
    {
      var at :| 0 <= at < marks[ia + 1] && order[at] == roots[ia];
      assert at == pa;
      var k := BlockOf(g, roots, order, marks, pb, ia);
      assert roots[k] != order[pb] && Reaches(g, roots[k], order[pb]);
    }
  }

  lemma AtStart(g: Graph)
    ensures Consistent(g, map[], [], []) && Blocks(g, [], [], [0])
  {
  }

  lemma AtEnd(g: Graph, state: map<string, VisitState>, order: seq<string>, registered: seq<string>)
    requires Consistent(g, state, order, [])
    requires (forall n :: n in registered <==> n in g) && forall j | 0 <= j < |registered| :: registered[j] in order
    ensures Distinct(order) && Topological(g, order) && Sortable(g) && forall n :: n in order <==> n in g
  {
    hide Edge, IsPath, Sortable;
    assert forall n | n in g :: n in registered && n in order;
    TopologicalIsSortable(g, order);
  }

  /**
   * `sortModules`: it succeeds exactly on sortable graphs; the order lists every registered module
   * once, dependencies first, ties broken by registration; an error is about a real defect.
   */
  method SortModules(modules: Graph, registered: seq<string>) returns (r: SortResult)
    requires Distinct(registered) && forall n :: n in registered <==> n in modules
    ensures r.Sorted? <==> Sortable(modules)
    ensures r.Sorted? ==>
              && Distinct(r.order) && (forall n :: n in r.order <==> n in modules)
              && Topological(modules, r.order) && TieBreak(modules, registered, r.order)
    ensures r.Failed? ==> ErrorIsReal(modules, r.error)
  {
    hide Reaches, Sortable, TieBreak, Edge, IsPath, Blocks, Consistent, Topological;
    var ts := new TopoSorter(modules);
    ghost var marks: seq<nat> := [0];
    AtStart(modules);
    for i := 0 to |registered|
      invariant fresh(ts) && ts.modules == modules && ts.Valid() && ts.path == []
      invariant forall j | 0 <= j < i :: registered[j] in ts.order
      invariant Blocks(modules, registered[..i], ts.order, marks)
    {
      var name := registered[i];
      assert registered[..i + 1] == registered[..i] + [name];
      ghost var before := ts.order;
      assert name in registered;
      if name in ts.state {
        StateMeaning(modules, ts.state, ts.order, ts.path, name);
      } else {
        var err := ts.Visit(name);
        if err.Some? {
          RealErrorIsNotSortable(modules, err.value);
          return Failed(err.value);
        }
      }
      ExtendBlocks(modules, registered[..i], before, marks, name, ts.order);
      marks := marks + [|ts.order|];
    }
    assert registered[..|registered|] == registered;
    AtEnd(modules, ts.state, ts.order, registered);
    BlocksBreakTies(modules, registered, ts.order, marks);
    r := Sorted(ts.order);
  }
}
