/** The start-up order of the core services (pkg/deployment_order.go). */
module Deployment {
  import opened DependencyOrder
  import opened DepGraph

  datatype Service = Service(name: string, dependsOn: seq<string>)

  function ServiceNames(svcs: seq<Service>): (names: seq<string>)
    ensures |names| == |svcs| && forall i :: 0 <= i < |svcs| ==> names[i] == svcs[i].name
  {
    seq(|svcs|, i requires 0 <= i < |svcs| => svcs[i].name)
  }

  /** The services have distinct names: they are the keys of a table in the compose file. */
  predicate Distinct(svcs: seq<Service>) {
    NoDup(ServiceNames(svcs))
  }

  function DepsOf(svcs: seq<Service>): Deps {
    if svcs == [] then map[]
    else DepsOf(svcs[..|svcs| - 1])[svcs[|svcs| - 1].name := svcs[|svcs| - 1].dependsOn]
  }

  lemma {:induction false} DepsOfMeaning(svcs: seq<Service>)
    requires NoDup(ServiceNames(svcs))
    ensures forall n :: n in DepsOf(svcs) <==> n in ServiceNames(svcs)
    ensures forall i :: 0 <= i < |svcs| ==> DepsOf(svcs)[svcs[i].name] == svcs[i].dependsOn
  {
    if svcs != [] {
      var init := svcs[..|svcs| - 1];
      assert ServiceNames(svcs) == ServiceNames(init) + [svcs[|svcs| - 1].name];
      assert forall i :: 0 <= i < |init| ==> ServiceNames(init)[i] == ServiceNames(svcs)[i];
      DepsOfMeaning(init);
    }
  }

  /** First loop: one node per service, without edges. */
  method CreateNodes(svcs: seq<Service>, graph: Graph) returns (nodeMap: map<string, Node>)
    requires graph.nodes == [] && NoDup(ServiceNames(svcs))
    modifies graph
    ensures Names(graph.nodes) == ServiceNames(svcs)
    ensures forall n :: n in nodeMap <==> n in ServiceNames(svcs)
    ensures forall n :: n in nodeMap ==> nodeMap[n].name == n && nodeMap[n].edges == [] && fresh(nodeMap[n])
    ensures forall i :: 0 <= i < |graph.nodes| ==>
              graph.nodes[i].name in nodeMap && nodeMap[graph.nodes[i].name] == graph.nodes[i]
  {
    nodeMap := map[];
    for i := 0 to |svcs|
      invariant Names(graph.nodes) == ServiceNames(svcs)[..i]
      invariant forall n :: n in nodeMap <==> n in ServiceNames(svcs)[..i]
      invariant forall n :: n in nodeMap ==> nodeMap[n].name == n && nodeMap[n].edges == [] && fresh(nodeMap[n])
      invariant |graph.nodes| == i
      invariant forall k :: 0 <= k < i ==>
                  graph.nodes[k].name in nodeMap && nodeMap[graph.nodes[k].name] == graph.nodes[k]
    {
      var n := new Node(svcs[i].name);
      assert ServiceNames(svcs)[..i + 1] == ServiceNames(svcs)[..i] + [svcs[i].name];
      nodeMap := nodeMap[svcs[i].name := n];
      ghost var before := graph.nodes;
      assert forall k :: 0 <= k < i ==> before[k].name == Names(before)[k] == ServiceNames(svcs)[k];
      graph.Add(n);
    }
    assert ServiceNames(svcs)[..|svcs|] == ServiceNames(svcs);
  }

  /** Inner loop: the edges of one service. */
  method AddEdges(nodeMap: map<string, Node>, node: Node, dependsOn: seq<string>)
    requires node.edges == []
    requires forall n :: n in nodeMap ==> nodeMap[n].name == n
    modifies node
    ensures Edges(nodeMap, dependsOn, node.edges)
  {
    for i := 0 to |dependsOn|
      invariant Edges(nodeMap, dependsOn[..i], node.edges)
    {
      var d := dependsOn[i];
      node.edges := node.edges + [if d in nodeMap then nodeMap[d] else null];
    }
    assert dependsOn[..|dependsOn|] == dependsOn;
  }

  /** The edges recorded for service s are the nodes it depends on. */
  predicate Connected(nodeMap: map<string, Node>, edges: map<string, seq<Node?>>, s: Service) {
    s.name in edges && Edges(nodeMap, s.dependsOn, edges[s.name])
  }

  /** The first i services are connected, the others have no edges yet. */
  predicate ConnectedUpTo(svcs: seq<Service>, nodeMap: map<string, Node>, edges: map<string, seq<Node?>>, i: nat) {
    && (forall k :: 0 <= k < |svcs| && k < i ==> Connected(nodeMap, edges, svcs[k]))
    && (forall k :: i <= k < |svcs| ==> svcs[k].name in edges && edges[svcs[k].name] == [])
  }

  lemma ConnectedMore(svcs: seq<Service>, nodeMap: map<string, Node>, edges: map<string, seq<Node?>>, i: nat,
                      es: seq<Node?>)
    requires Distinct(svcs) && i < |svcs| && Edges(nodeMap, svcs[i].dependsOn, es)
    requires ConnectedUpTo(svcs, nodeMap, edges, i)
    ensures ConnectedUpTo(svcs, nodeMap, edges[svcs[i].name := es], i + 1)
  {
    var names := ServiceNames(svcs);
    assert forall k :: 0 <= k < |svcs| && k != i ==> names[k] == svcs[k].name && names[k] != names[i];
  }

  lemma NothingConnected(svcs: seq<Service>, nodeMap: map<string, Node>, edges: map<string, seq<Node?>>)
    requires edges == map n | n in nodeMap :: []
    requires forall n :: n in nodeMap <==> n in ServiceNames(svcs)
    ensures ConnectedUpTo(svcs, nodeMap, edges, 0)
  {
    forall k | 0 <= k < |svcs| ensures svcs[k].name in edges {
      assert ServiceNames(svcs)[k] in ServiceNames(svcs);
    }
  }

  /** Second loop: the edges of all services. */
  method ConnectNodes(svcs: seq<Service>, nodeMap: map<string, Node>) returns (ghost edges: map<string, seq<Node?>>)
    requires Distinct(svcs) && forall n :: n in nodeMap <==> n in ServiceNames(svcs)
    requires forall n :: n in nodeMap ==> nodeMap[n].name == n && nodeMap[n].edges == []
    modifies nodeMap.Values
    ensures Holds(Layout(nodeMap, edges)) && edges.Keys == nodeMap.Keys
    ensures forall i :: 0 <= i < |svcs| ==> Connected(nodeMap, edges, svcs[i])
  {
    edges := map n | n in nodeMap :: [];
    NothingConnected(svcs, nodeMap, edges);
    for i := 0 to |svcs|
      invariant Holds(Layout(nodeMap, edges)) && edges.Keys == nodeMap.Keys
      invariant ConnectedUpTo(svcs, nodeMap, edges, i)
    {
      var s := svcs[i];
      assert s.name in edges.Keys;
      AddEdges(nodeMap, nodeMap[s.name], s.dependsOn);
      ConnectedMore(svcs, nodeMap, edges, i, nodeMap[s.name].edges);
      edges := edges[s.name := nodeMap[s.name].edges];
    }
  }

  method BuildServiceGraph(svcs: seq<Service>) returns (graph: Graph, ghost l: Layout)
    requires Distinct(svcs)
    ensures fresh(graph) && Represents(l, DepsOf(svcs)) && Holds(l)
    ensures Names(graph.nodes) == ServiceNames(svcs) && Known(graph.nodes, l, DepsOf(svcs))
  {
    graph := new Graph();
    var nodeMap := CreateNodes(svcs, graph);
    ghost var edges := ConnectNodes(svcs, nodeMap);
    l := Layout(nodeMap, edges);
    DepsOfMeaning(svcs);
    forall n | n in DepsOf(svcs) ensures Edges(nodeMap, DepsOf(svcs)[n], edges[n]) {
      var i :| 0 <= i < |svcs| && ServiceNames(svcs)[i] == n;
      assert Connected(nodeMap, edges, svcs[i]);
    }
  }

  lemma NoDupMultiset(a: seq<string>, b: seq<string>)
    requires NoDup(a) && NoDup(b) && forall x :: x in a <==> x in b
    ensures multiset(a) == multiset(b)
  {
    forall x ensures multiset(a)[x] == multiset(b)[x] {
      NoDupOnce(a, x);
      NoDupOnce(b, x);
    }
  }

  lemma {:induction false} NoDupOnce(a: seq<string>, x: string)
    requires NoDup(a)
    ensures multiset(a)[x] == if x in a then 1 else 0
  {
    if a != [] {
      var init := a[..|a| - 1];
      assert a == init + [a[|a| - 1]];
      NoDupOnce(init, x);
    }
  }

  /** Each service comes strictly after everything it depends on. */
  predicate DependenciesFirst(svcs: seq<Service>, order: seq<string>) {
    forall i, k, d :: 0 <= i < |svcs| && 0 <= k < |order| && order[k] == svcs[i].name && d in svcs[i].dependsOn ==>
      d in order[..k]
  }

  /** The start-up order exists exactly when every dependency is a service and no
      service depends on itself through others; it is a permutation of the services, and each comes
      strictly after everything it depends on. */
  method BuildDeploymentOrder(svcs: seq<Service>) returns (ok: bool, order: seq<string>)
    requires Distinct(svcs)
    ensures ok <==> !Broken(DepsOf(svcs))
    ensures ok ==> multiset(order) == multiset(ServiceNames(svcs))
    ensures ok ==> DependenciesFirst(svcs, order)
  {
    var graph, l := BuildServiceGraph(svcs);
    DepsOfMeaning(svcs);
    ok, order := Resolve(graph, DepsOf(svcs), l);
    if ok {
      NoDupMultiset(order, ServiceNames(svcs));
    }
  }
}
