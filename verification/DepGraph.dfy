/** Dependency graphs by name: walks, cycles and orders. */
module DependencyOrder {

  /** For each name, the names it depends on. */
  type Deps = map<string, seq<string>>

  predicate Closed(g: Deps) {
    forall n, d :: n in g && d in g[n] ==> d in g
  }

  /** There is no start-up order: a name depends on one that is not declared, or on itself through others. */
  ghost predicate Broken(g: Deps) {
    !Closed(g) || HasCycle(g)
  }

  /** Each name on p depends on the next one. */
  predicate IsWalk(g: Deps, p: seq<string>) {
    && (forall i :: 0 <= i < |p| ==> p[i] in g)
    && (forall i :: 0 <= i < |p| - 1 ==> p[i + 1] in g[p[i]])
  }

  /** Some name depends on itself, directly or through others. */
  ghost predicate HasCycle(g: Deps) {
    exists p: seq<string> :: |p| >= 2 && IsWalk(g, p) && p[0] == p[|p| - 1]
  }

  predicate NoDup(s: seq<string>) {
    forall i, j :: 0 <= i < j < |s| ==> s[i] != s[j]
  }

  /** Every name comes after everything it depends on. */
  predicate Ordered(g: Deps, r: seq<string>) {
    && NoDup(r)
    && (forall i :: 0 <= i < |r| ==> r[i] in g)
    && (forall i, d :: 0 <= i < |r| && d in g[r[i]] ==> d in r[..i])
  }

  /** The position of x, or the length of r when it is not there. */
  function Pos(r: seq<string>, x: string): (k: nat)
    ensures k <= |r|
    ensures x in r <==> k < |r|
    ensures k < |r| ==> r[k] == x
    ensures x !in r[..k]
  {
    if r == [] then 0 else if r[0] == x then 0
    else
      assert r == [r[0]] + r[1..];
      var k := 1 + Pos(r[1..], x);
      assert r[..k] == [r[0]] + r[1..][..k - 1];
      k
  }

  lemma PosOfPrefix(r: seq<string>, r': seq<string>, x: string)
    requires r <= r' && x in r
    ensures Pos(r', x) == Pos(r, x)
  {
    assert r'[Pos(r, x)] == x;
  }

  /** In an order, a dependency has a smaller position. */
  lemma OrderDescends(g: Deps, r: seq<string>, n: string, d: string)
    requires Ordered(g, r) && n in r && d in g[n]
    ensures d in r && Pos(r, d) < Pos(r, n)
  {
    var i := Pos(r, n);
    assert d in r[..i];
    var j :| 0 <= j < i && r[j] == d;
  }

  lemma {:induction false} WalkDescends(g: Deps, r: seq<string>, p: seq<string>)
    requires Ordered(g, r) && IsWalk(g, p) && p != []
    requires forall n :: n in g ==> n in r
    ensures Pos(r, p[|p| - 1]) + |p| - 1 <= Pos(r, p[0])
  {
    if |p| > 1 {
      OrderDescends(g, r, p[0], p[1]);
      WalkDescends(g, r, p[1..]);
    }
  }

  /** A graph that can be ordered completely declares everything and has no cycle. */
  lemma OrderedIsSound(g: Deps, r: seq<string>)
    requires Ordered(g, r) && forall n :: n in g ==> n in r
    ensures !Broken(g)
  {
    forall n, d | n in g && d in g[n] ensures d in g {
      OrderDescends(g, r, n, d);
      assert r[Pos(r, d)] in g;
    }
    forall p: seq<string> | |p| >= 2 && IsWalk(g, p) ensures p[0] != p[|p| - 1] {
      WalkDescends(g, r, p);
    }
  }

  /** Depending on a name of the walk one is at the end of closes a cycle. */
  lemma BackEdge(g: Deps, p: seq<string>, d: string)
    requires IsWalk(g, p) && p != [] && d in p && d in g[p[|p| - 1]]
    ensures HasCycle(g)
  {
    var k :| 0 <= k < |p| && p[k] == d;
    var q := p[k..] + [d];
    assert forall i :: 0 <= i < |q| - 1 ==> q[i] == p[k + i];
    assert IsWalk(g, q) && q[0] == q[|q| - 1];
  }

  lemma OrderedAppend(g: Deps, r: seq<string>, n: string)
    requires Ordered(g, r) && n in g && n !in r && forall d :: d in g[n] ==> d in r
    ensures Ordered(g, r + [n])
  {
    var r' := r + [n];
    forall i, d | 0 <= i < |r'| && d in g[r'[i]] ensures d in r'[..i] {
      if i < |r| {
        assert r'[..i] == r[..i] && r'[i] == r[i];
      } else {
        assert r'[..i] == r;
      }
    }
  }
}

/** The resolver (pkg/depgraph/depgraph.go): a depth-first walk over shared
    nodes that keeps two lists, re-visits what it has already resolved and may
    leave entries behind in the list of unresolved nodes. */
module DepGraph {
  import opened Sums
  import opened DependencyOrder

  class Node {
    const name: string
    var edges: seq<Node?>

    constructor (name: string)
      ensures this.name == name && edges == []
    {
      this.name := name;
      edges := [];
    }
  }

  function Names(nodes: seq<Node>): (names: seq<string>)
    ensures |names| == |nodes|
    ensures forall i :: 0 <= i < |nodes| ==> names[i] == nodes[i].name
  {
    seq(|nodes|, i requires 0 <= i < |nodes| => nodes[i].name)
  }

  function RemoveFirst(s: seq<Node>, x: Node): (r: seq<Node>)
    ensures forall y :: y in r ==> y in s
    ensures forall y :: y in s && y != x ==> y in r
  {
    if s == [] then [] else if s[0] == x then s[1..] else [s[0]] + RemoveFirst(s[1..], x)
  }

  lemma {:induction false} RemoveFirstAt(s: seq<Node>, x: Node, i: nat)
    requires i <= |s| && x !in s[..i] && (i < |s| ==> s[i] == x)
    ensures RemoveFirst(s, x) == if i < |s| then s[..i] + s[i + 1..] else s
  {
    if i > 0 {
      assert s[0] in s[..i] && s[..i][1..] == s[1..][..i - 1];
      RemoveFirstAt(s[1..], x, i - 1);
    }
  }

  class Graph {
    var nodes: seq<Node>

    constructor ()
      ensures nodes == []
    {
      nodes := [];
    }

    method Contains(target: Node) returns (found: bool)
      ensures found <==> target.name in Names(nodes)
    {
      for i := 0 to |nodes|
        invariant target.name !in Names(nodes)[..i]
      {
        if nodes[i].name == target.name {
          assert Names(nodes)[i] == target.name;
          return true;
        }
        assert Names(nodes)[..i + 1] == Names(nodes)[..i] + [nodes[i].name];
      }
      assert Names(nodes)[..|nodes|] == Names(nodes);
      return false;
    }

    method Add(target: Node)
      modifies this
      ensures nodes == old(nodes) + [target]
    {
      nodes := nodes + [target];
    }

    /** Compares nodes by identity, where Contains compares them by name. */
    method Remove(target: Node)
      modifies this
      ensures nodes == RemoveFirst(old(nodes), target)
    {
      var i := 0;
      while i < |nodes| && nodes[i] != target
        invariant 0 <= i <= |nodes| && target !in nodes[..i]
      {
        i := i + 1;
      }
      RemoveFirstAt(nodes, target, i);
      if i < |nodes| {
        nodes := nodes[..i] + nodes[i + 1..];
      }
    }
  }

  /** edge is the node called d, or null when there is none. */
  predicate IsEdge(byName: map<string, Node>, d: string, edge: Node?) {
    if d in byName then edge == byName[d] && byName[d].name == d else edge == null
  }

  /** edges are the nodes for the names ds, null for a name that is not declared. */
  predicate Edges(byName: map<string, Node>, ds: seq<string>, edges: seq<Node?>) {
    |edges| == |ds| && forall i :: 0 <= i < |ds| ==> IsEdge(byName, ds[i], edges[i])
  }

  /** What the nodes of a dependency graph hold. */
  datatype Layout = Layout(byName: map<string, Node>, edges: map<string, seq<Node?>>)

  /** The nodes still hold the edges of the layout. */
  ghost predicate Holds(l: Layout)
    reads l.byName.Values
  {
    forall n :: n in l.byName ==> n in l.edges && l.byName[n].edges == l.edges[n]
  }

  /** The layout is one of the dependency graph g. */
  predicate Represents(l: Layout, g: Deps) {
    && l.byName.Keys == g.Keys == l.edges.Keys
    && (forall n :: n in g ==> l.byName[n].name == n && Edges(l.byName, g[n], l.edges[n]))
  }

  /** The names in neither list. */
  function Unseen(g: Deps, r: seq<string>, u: seq<string>): set<string> {
    set n | n in g && n !in r && n !in u
  }

  /** Everything in r or u is in r' or u'. */
  ghost predicate Covers(r: seq<string>, u: seq<string>, r': seq<string>, u': seq<string>) {
    forall n :: n in r || n in u ==> n in r' || n in u'
  }

  /** path is the active path: the names whose resolve call has not returned.
      Everything in the unresolved list u is on it or already resolved. */
  ghost predicate Consistent(g: Deps, r: seq<string>, u: seq<string>, path: seq<string>) {
    && Ordered(g, r)
    && IsWalk(g, path)
    && (forall n :: n in path ==> n in u && n !in r)
    && (forall n :: n in u ==> n in r || n in path)
  }

  lemma UnseenShrinks(g: Deps, r: seq<string>, u: seq<string>, r': seq<string>, u': seq<string>)
    requires Covers(r, u, r', u')
    ensures |Unseen(g, r', u')| <= |Unseen(g, r, u)|
    ensures forall n :: n in g && n !in r && n !in u && (n in r' || n in u') ==>
              |Unseen(g, r', u')| < |Unseen(g, r, u)|
  {
    SubsetCard(Unseen(g, r', u'), Unseen(g, r, u));
    forall n | n in g && n !in r && n !in u && (n in r' || n in u')
      ensures Unseen(g, r', u') < Unseen(g, r, u)
    {
      assert n in Unseen(g, r, u) && n !in Unseen(g, r', u');
    }
  }

  /** Adding a name that is in neither list puts it at the end of the active path. */
  lemma Enter(g: Deps, r: seq<string>, u: seq<string>, path: seq<string>, n: string)
    requires Consistent(g, r, u, path) && n in g && n !in r && n !in u
    requires path != [] ==> n in g[path[|path| - 1]]
    ensures Consistent(g, r, u + [n], path + [n])
  {
  }

  /** Resolving the last name of the active path takes it off the path. */
  lemma Leave(g: Deps, r: seq<string>, u: seq<string>, path: seq<string>, n: string, u': seq<string>)
    requires n in g && n !in path && Consistent(g, r, u, path + [n])
    requires AllIn(g[n], r)
    requires forall m :: m in u' ==> m in u
    requires forall m :: m in u && m != n ==> m in u'
    ensures Consistent(g, r + [n], u', path)
  {
    var p := path + [n];
    assert p[|path|] == n;
    assert n in p;
    OrderedAppend(g, r, n);
    assert forall i :: 0 <= i < |path| ==> p[i] == path[i];
    assert IsWalk(g, path);
    forall m | m in path ensures m in u' && m !in r + [n] {
      assert m in p;
    }
  }

  /** Names of a list from which one node is removed by identity. */
  lemma RemovedNames(s: seq<Node>, x: Node)
    ensures forall m :: m in Names(RemoveFirst(s, x)) ==> m in Names(s)
    ensures forall m :: m in Names(s) && m != x.name ==> m in Names(RemoveFirst(s, x))
  {
    var t := RemoveFirst(s, x);
    forall m | m in Names(t) ensures m in Names(s) {
      var i :| 0 <= i < |t| && Names(t)[i] == m;
      assert t[i] in s;
      var j :| 0 <= j < |s| && s[j] == t[i];
      assert Names(s)[j] == m;
    }
    forall m | m in Names(s) && m != x.name ensures m in Names(t) {
      var i :| 0 <= i < |s| && Names(s)[i] == m;
      assert s[i] in t;
      var j :| 0 <= j < |t| && t[j] == s[i];
      assert Names(t)[j] == m;
    }
  }

  /** node is being resolved: its edges come next. If it was resolved before,
      the active path is unchanged, otherwise it ends with this node. */
  ghost predicate Visiting(g: Deps, r: seq<string>, u: seq<string>, path: seq<string>, n: string) {
    && Consistent(g, r, u, path)
    && n in g
    && (n !in r ==> path != [] && path[|path| - 1] == n)
  }

  /** The bound (m, k) leaves room for a call on any edge of n. */
  ghost predicate Bounded(g: Deps, r: seq<string>, u: seq<string>, n: string, m: nat, k: nat) {
    if n in r then |Unseen(g, r, u)| <= m && Pos(r, n) <= k else |Unseen(g, r, u)| < m
  }

  /** A resolve call may start: either n is resolved, or it is in neither list and follows the path. */
  ghost predicate MayEnter(g: Deps, r: seq<string>, u: seq<string>, path: seq<string>, n: string)
    requires IsWalk(g, path)
  {
    n in r || (n !in u && (path != [] ==> n in g[path[|path| - 1]]))
  }

  lemma Entering(g: Deps, r: seq<string>, u: seq<string>, path: seq<string>, n: string)
    requires Consistent(g, r, u, path) && n in g && MayEnter(g, r, u, path, n)
    ensures var p := if n in r then path else path + [n];
            Visiting(g, r, u + [n], p, n) && Bounded(g, r, u + [n], n, |Unseen(g, r, u)|, Pos(r, n))
  {
    if n !in r {
      Enter(g, r, u, path, n);
    }
    UnseenShrinks(g, r, u, r, u + [n]);
  }

  lemma StillBounded(g: Deps, r: seq<string>, u: seq<string>, r': seq<string>, u': seq<string>, n: string, m: nat, k: nat)
    requires Bounded(g, r, u, n, m, k) && r <= r' && Covers(r, u, r', u')
    requires n in r' ==> n in r
    ensures Bounded(g, r', u', n, m, k)
  {
    UnseenShrinks(g, r, u, r', u');
    if n in r {
      PosOfPrefix(r, r', n);
    }
  }

  predicate AllIn(ds: seq<string>, r: seq<string>) {
    forall d :: d in ds ==> d in r
  }

  /** From the lists r0, u0 to r, u, with the names ds resolved. */
  ghost predicate Progress(r0: seq<string>, u0: seq<string>, r: seq<string>, u: seq<string>, ds: seq<string>) {
    r0 <= r && Covers(r0, u0, r, u) && AllIn(ds, r)
  }

  lemma MoreProgress(r0: seq<string>, u0: seq<string>, r: seq<string>, u: seq<string>, ds: seq<string>, i: nat,
                     r': seq<string>, u': seq<string>)
    requires i < |ds| && Progress(r0, u0, r, u, ds[..i])
    requires r <= r' && Covers(r, u, r', u') && ds[i] in r'
    ensures Progress(r0, u0, r', u', ds[..i + 1])
  {
    forall d | d in ds[..i + 1] ensures d in r' {
      if d in ds[..i] {
        var j :| 0 <= j < |r| && r[j] == d;
        assert r'[j] == d;
      } else {
        assert ds[..i + 1] == ds[..i] + [ds[i]];
      }
    }
  }

  /** The two lists of the running resolution, by name. */
  predicate Lists(resolved: Graph, unresolved: Graph, r: seq<string>, u: seq<string>)
    reads resolved, unresolved
  {
    resolved != unresolved && Names(resolved.nodes) == r && Names(unresolved.nodes) == u
  }

  /** The cycle test and the recursive call for edge i of the node called n. The
      lists were r0 and u0 before its first edge. The test dereferences the edge:
      the active node itself is in the unresolved list, so a null edge panics. */
  method ResolveEdge(edge: Node?, resolved: Graph, unresolved: Graph,
                     ghost g: Deps, ghost l: Layout, ghost path: seq<string>,
                     ghost n: string, ghost i: nat, ghost r0: seq<string>, ghost u0: seq<string>,
                     ghost r: seq<string>, ghost u: seq<string>, ghost m: nat, ghost k: nat)
    returns (ok: bool, ghost r': seq<string>, ghost u': seq<string>)
    requires Represents(l, g) && Holds(l) && Lists(resolved, unresolved, r, u)
    requires n in g && i < |g[n]| && IsEdge(l.byName, g[n][i], edge)
    requires Visiting(g, r, u, path, n) && Bounded(g, r, u, n, m, k) && Progress(r0, u0, r, u, g[n][..i])
    modifies resolved, unresolved
    ensures ok ==> Lists(resolved, unresolved, r', u')
    ensures ok ==> Visiting(g, r', u', path, n) && Bounded(g, r', u', n, m, k)
    ensures ok ==> Progress(r0, u0, r', u', g[n][..i + 1])
    ensures !ok ==> Broken(g)
    decreases m, k, 0
  {
    r', u' := r, u;
    if edge == null {
      assert g[n][i] in g[n] && g[n][i] !in g;
      ok := false;
      return;
    }
    if n in r {
      OrderDescends(g, r, n, edge.name);
    }
    var isResolved := resolved.Contains(edge);
    var isUnresolved := unresolved.Contains(edge);
    if !isResolved && isUnresolved {
      BackEdge(g, path, edge.name);
      ok := false;
      return;
    }
    ok, r', u' := Resolve1(edge, resolved, unresolved, g, l, path, r, u);
    if ok {
      assert n !in r ==> n in path;
      StillBounded(g, r, u, r', u', n, m, k);
      MoreProgress(r0, u0, r, u, g[n], i, r', u');
    }
  }

  /** The loop over the edges of the node called n. */
  method ResolveEdges(edges: seq<Node?>, resolved: Graph, unresolved: Graph,
                      ghost g: Deps, ghost l: Layout, ghost path: seq<string>, ghost n: string,
                      ghost r: seq<string>, ghost u: seq<string>, ghost m: nat, ghost k: nat)
    returns (ok: bool, ghost r': seq<string>, ghost u': seq<string>)
    requires Represents(l, g) && Holds(l) && Lists(resolved, unresolved, r, u)
    requires n in g && Edges(l.byName, g[n], edges)
    requires Visiting(g, r, u, path, n) && Bounded(g, r, u, n, m, k)
    modifies resolved, unresolved
    ensures ok ==> Lists(resolved, unresolved, r', u')
    ensures ok ==> Visiting(g, r', u', path, n) && Progress(r, u, r', u', g[n])
    ensures !ok ==> Broken(g)
    decreases m, k, 1
  {
    r', u' := r, u;
    for i := 0 to |edges|
      invariant Holds(l) && Lists(resolved, unresolved, r', u')
      invariant Visiting(g, r', u', path, n) && Bounded(g, r', u', n, m, k)
      invariant Progress(r, u, r', u', g[n][..i])
    {
      ok, r', u' := ResolveEdge(edges[i], resolved, unresolved, g, l, path, n, i, r, u, r', u', m, k);
      if !ok {
        return;
      }
    }
    assert g[n][..|edges|] == g[n];
    ok := true;
  }

  /** A node whose edges are all resolved is resolved too, unless it already was. */
  method Settle(node: Node, resolved: Graph, unresolved: Graph,
                ghost g: Deps, ghost path: seq<string>, ghost r: seq<string>, ghost u: seq<string>)
    returns (ghost r': seq<string>, ghost u': seq<string>)
    requires Lists(resolved, unresolved, r, u)
    requires node.name in g && node.name !in path && AllIn(g[node.name], r)
    requires Consistent(g, r, u, if node.name in r then path else path + [node.name])
    modifies resolved, unresolved
    ensures Lists(resolved, unresolved, r', u')
    ensures Consistent(g, r', u', path) && Progress(r, u, r', u', [node.name])
  {
    r', u' := r, u;
    var isResolved := resolved.Contains(node);
    if isResolved {
      return;
    }
    RemovedNames(unresolved.nodes, node);
    resolved.Add(node);
    unresolved.Remove(node);
    r', u' := Names(resolved.nodes), Names(unresolved.nodes);
    assert r' == r + [node.name];
    Leave(g, r, u, path, node.name, u');
  }

  /** The recursive resolve; returns false where the source panics. */
  method Resolve1(node: Node, resolved: Graph, unresolved: Graph,
                  ghost g: Deps, ghost l: Layout, ghost path: seq<string>,
                  ghost r: seq<string>, ghost u: seq<string>)
    returns (ok: bool, ghost r': seq<string>, ghost u': seq<string>)
    requires Represents(l, g) && Holds(l) && Lists(resolved, unresolved, r, u)
    requires node.name in g && l.byName[node.name] == node
    requires Consistent(g, r, u, path) && MayEnter(g, r, u, path, node.name)
    modifies resolved, unresolved
    ensures ok ==> Lists(resolved, unresolved, r', u')
    ensures ok ==> Consistent(g, r', u', path) && Progress(r, u, r', u', [node.name])
    ensures !ok ==> Broken(g)
    decreases |Unseen(g, r, u)|, Pos(r, node.name), 2
  {
    ghost var n := node.name;
    ghost var p := if n in r then path else path + [n];
    unresolved.Add(node);
    r', u' := r, u + [n];
    Entering(g, r, u, path, n);
    ok, r', u' := ResolveEdges(node.edges, resolved, unresolved, g, l, p, n, r', u', |Unseen(g, r, u)|, Pos(r, n));
    if ok {
      ghost var r1, u1 := r', u';
      assert n !in r ==> n in p;
      assert n in r ==> n in r';
      r', u' := Settle(node, resolved, unresolved, g, path, r', u');
      Compose(r, u, n, r1, u1, r', u');
    }
  }

  lemma Compose(r: seq<string>, u: seq<string>, n: string, r1: seq<string>, u1: seq<string>,
                r2: seq<string>, u2: seq<string>)
    requires Covers(r, u + [n], r1, u1) && r <= r1 && Progress(r1, u1, r2, u2, [n])
    ensures Progress(r, u, r2, u2, [n])
  {
  }

  /** The nodes ns are nodes of the layout. */
  predicate Known(ns: seq<Node>, l: Layout, g: Deps)
    requires Represents(l, g)
  {
    forall i :: 0 <= i < |ns| ==> ns[i].name in g && l.byName[ns[i].name] == ns[i]
  }

  method ResolveNodes(ns: seq<Node>, resolved: Graph, unresolved: Graph, ghost g: Deps, ghost l: Layout)
    returns (ok: bool, ghost r: seq<string>)
    requires Represents(l, g) && Holds(l) && Known(ns, l, g) && Lists(resolved, unresolved, [], [])
    modifies resolved, unresolved
    ensures ok ==> Names(resolved.nodes) == r && Ordered(g, r) && AllIn(Names(ns), r)
    ensures !ok ==> Broken(g)
  {
    ghost var u: seq<string>;
    r, u := [], [];
    for i := 0 to |ns|
      invariant Holds(l) && Lists(resolved, unresolved, r, u)
      invariant Consistent(g, r, u, []) && Progress([], [], r, u, Names(ns)[..i])
    {
      ghost var r0, u0 := r, u;
      ok, r, u := Resolve1(ns[i], resolved, unresolved, g, l, [], r, u);
      if !ok {
        return;
      }
      MoreProgress([], [], r0, u0, Names(ns), i, r, u);
    }
    assert Names(ns)[..|ns|] == Names(ns);
    ok := true;
  }

  /** Resolve: succeeds exactly when every dependency is declared and there is no
      cycle, and then lists every name once, each after everything it depends on. */
  method Resolve(graph: Graph, ghost g: Deps, ghost l: Layout) returns (ok: bool, order: seq<string>)
    requires Represents(l, g) && Holds(l) && Known(graph.nodes, l, g)
    requires forall n :: n in g ==> n in Names(graph.nodes)
    ensures ok <==> !Broken(g)
    ensures ok ==> Ordered(g, order) && forall n :: n in g ==> n in order
  {
    var resolved := new Graph();
    var unresolved := new Graph();
    ghost var r;
    ok, r := ResolveNodes(graph.nodes, resolved, unresolved, g, l);
    order := [];
    if ok {
      for i := 0 to |resolved.nodes|
        invariant order == r[..i]
      {
        order := order + [resolved.nodes[i].name];
      }
      assert order == r;
      OrderedIsSound(g, order);
    }
  }
}
