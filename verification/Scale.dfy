/** Scaling a function over the cluster (pkg/provider/handlers/scale.go). */
module Scale {
  import opened Sums
  import opened CatalogModel
  import opened CatalogStore
  import opened DependencyOrder
  import opened Ranking

  const MAX_REPLICAS: nat := 10

  // -------------------------------------------------------------------- the request

  datatype Decision = Refuse | Stay | Up(desired: nat) | Down(desired: nat)

  /** What a scale request for a catalogued function leads to. */
  function Decide(requested: nat, current: nat, offloaded: bool): (d: Decision)
    ensures d.Refuse? <==> requested == 0
    ensures d.Up? ==> current < d.desired && !offloaded
    ensures d.Down? ==> 0 < d.desired < current && !offloaded
    ensures d.Up? || d.Down? ==> d.desired <= requested && d.desired <= 10 && (d.desired == requested || d.desired == 10)
    ensures d.Stay? ==> offloaded || current == requested || current == 10 < requested
  {
    var replicas := if requested > MAX_REPLICAS then MAX_REPLICAS else requested;
    if requested == 0 then Refuse
    else if current == replicas then Stay
    else if offloaded then Stay
    else if current < replicas then Up(replicas)
    else Down(replicas)
  }

  // --------------------------------------------------------------------- deployment

  datatype Deploy = Deployed | Failed

  /** deployFunctionByP2PID: on this node a missing secret is reported, but a
      failed deployment is not. */
  function DeployOn(target: string, secretsFound: bool, deploys: bool): (d: Deploy)
    ensures target == SELF ==> (d.Failed? <==> !secretsFound)
    ensures target != SELF ==> (d.Failed? <==> !deploys)
  {
    if target == SELF then if secretsFound then Deployed else Failed
    else if deploys then Deployed else Failed
  }

  // ---------------------------------------------------------------------- scaling up

  /** A node that can take a first replica. */
  predicate Free(nodes: map<string, NodeInfo>, f: string, id: string) {
    id in nodes && !nodes[id].overload && Count(nodes[id], f) == 0
  }

  /** The records as they are when each ranked node is visited; reports that
      come in during the loop change them. */
  type Views = seq<map<string, NodeInfo>>

  /** The nodes that are free when they are visited, in order of distance. */
  function FreeNodes(views: Views, f: string, ids: seq<string>): seq<string>
    requires |views| >= |ids|
  {
    if ids == [] then []
    else
      var n := |ids| - 1;
      var before := FreeNodes(views, f, ids[..n]);
      if Free(views[n], f, ids[n]) then before + [ids[n]] else before
  }

  /** How the attempts at each ranked node turn out: the secrets, the
      deployment, and the remote request to scale further. */
  datatype Attempt = Attempt(secretsFound: bool, deploys: bool, scaled: bool)

  predicate Succeeds(ids: seq<string>, attempts: seq<Attempt>, i: nat)
    requires i < |ids| == |attempts|
  {
    DeployOn(ids[i], attempts[i].secretsFound, attempts[i].deploys) == Deployed
  }

  /** Node id is deployed to without an error. */
  predicate DeployedTo(ids: seq<string>, attempts: seq<Attempt>, id: string)
    requires |ids| == |attempts|
  {
    exists i :: 0 <= i < |ids| && ids[i] == id && Succeeds(ids, attempts, i)
  }

  /** The node at position i, a peer that is not overloaded, agrees to scale further by itself. */
  predicate TakesOver(views: Views, ids: seq<string>, attempts: seq<Attempt>, i: nat)
    requires i < |ids| == |attempts| == |views|
  {
    ids[i] in views[i] && !views[i][ids[i]].overload && ids[i] != SELF && attempts[i].scaled
  }

  /** At the first n positions there was still something missing, and no peer took over before the last of them. */
  predicate Visits(views: Views, f: string, ids: seq<string>, attempts: seq<Attempt>, missing: nat, n: nat)
    requires n <= |ids| == |attempts| == |views|
  {
    && (forall i :: 0 <= i < n ==> |FreeNodes(views, f, ids[..i])| < missing)
    && (forall i :: 0 <= i < n - 1 ==> !TakesOver(views, ids, attempts, i))
  }

  /** Exactly the first n positions are visited: to the end, or up to where
      nothing is missing any more or a peer takes over. */
  predicate EndsAt(views: Views, f: string, ids: seq<string>, attempts: seq<Attempt>, missing: nat, n: nat)
    requires n <= |ids| == |attempts| == |views|
  {
    && Visits(views, f, ids, attempts, missing, n)
    && (n == |ids| || |FreeNodes(views, f, ids[..n])| == missing || (n > 0 && TakesOver(views, ids, attempts, n - 1)))
  }

  /** The position can take a replica when it is visited: its node is not overloaded and has none. */
  predicate TakesReplica(views: Views, f: string, ids: seq<string>, i: nat)
    requires i < |ids| <= |views|
  {
    && ids[i] in views[i] && !views[i][ids[i]].overload
    && (f in views[i][ids[i]].replicas ==> views[i][ids[i]].replicas[f] == 0)
  }

  /** The free nodes are those of all positions that can take a replica, in the order of the ranking. */
  lemma {:induction false} FreePositions(views: Views, f: string, ids: seq<string>) returns (at: seq<nat>)
    requires |ids| <= |views|
    ensures var free := FreeNodes(views, f, ids);
            && |at| == |free|
            && (forall k :: 0 <= k < |at| ==> at[k] < |ids| && free[k] == ids[at[k]] && TakesReplica(views, f, ids, at[k]))
            && (forall k, l :: 0 <= k < l < |at| ==> at[k] < at[l])
            && (forall i :: 0 <= i < |ids| && TakesReplica(views, f, ids, i) ==> i in at)
  {
    at := [];
    if ids != [] {
      var n := |ids| - 1;
      var init := ids[..n];
      at := FreePositions(views, f, init);
      assert forall i :: 0 <= i < n ==> (TakesReplica(views, f, init, i) <==> TakesReplica(views, f, ids, i));
      if Free(views[n], f, ids[n]) {
        at := at + [n];
      }
    }
  }

  /** Whoever is visited before the last position and agrees to scale further is this node or overloaded. */
  lemma NoneTookOver(views: Views, f: string, ids: seq<string>, attempts: seq<Attempt>, missing: nat, n: nat)
    requires n <= |ids| == |attempts| == |views| && Visits(views, f, ids, attempts, missing, n)
    requires forall i :: 0 <= i < |ids| ==> ids[i] in views[i]
    ensures forall i :: 0 <= i < n - 1 && attempts[i].scaled ==> ids[i] == SELF || views[i][ids[i]].overload
  {
    forall i | 0 <= i < n - 1 && attempts[i].scaled ensures ids[i] == SELF || views[i][ids[i]].overload {
      assert !TakesOver(views, ids, attempts, i);
    }
  }

  /** The visit of one position adds its node exactly if it takes a replica. */
  lemma VisitOne(views: Views, f: string, ids: seq<string>, attempts: seq<Attempt>, missing: nat, i: nat)
    requires i < |ids| == |attempts| == |views| && Visits(views, f, ids, attempts, missing, i)
    requires |FreeNodes(views, f, ids[..i])| < missing && (i > 0 ==> !TakesOver(views, ids, attempts, i - 1))
    ensures Visits(views, f, ids, attempts, missing, i + 1)
    ensures FreeNodes(views, f, ids[..i + 1]) ==
            FreeNodes(views, f, ids[..i]) + (if Free(views[i], f, ids[i]) then [ids[i]] else [])
  {
    FreeNext(views, f, ids, i);
  }

  /** What the end of the loop means for the number of deployments. */
  lemma EndCounts(views: Views, f: string, ids: seq<string>, attempts: seq<Attempt>, missing: nat, n: nat)
    requires n <= |ids| == |attempts| == |views| && EndsAt(views, f, ids, attempts, missing, n)
    requires |FreeNodes(views, f, ids[..n])| <= missing
    ensures var deployed, free := FreeNodes(views, f, ids[..n]), FreeNodes(views, f, ids);
            && deployed <= free
            && ((forall i :: 0 <= i < |ids| ==> !TakesOver(views, ids, attempts, i)) ==>
                  |deployed| == if |free| < missing then |free| else missing)
  {
    FreePrefix(views, f, ids, n);
    assert ids[..|ids|] == ids;
  }

  /** Deploys nearest first. The nodes deployed to are those free when visited,
      at most as many as were missing, each without an error. Without a failure
      the loop ends where nothing is missing, where a peer takes over, or with
      the ranking; with one, the next free node is the one that fails. */
  method ScaleUp(store: Store, f: string, desired: nat, views: Views, attempts: seq<Attempt>)
    returns (ok: bool, deployed: seq<string>, visited: nat)
    requires f in store.functionCatalog && store.functionCatalog[f].replicas < desired
    requires |attempts| == |store.sortedP2PID| == |views|
    requires forall i :: 0 <= i < |views| ==> store.sortedP2PID[i] in views[i]
    ensures visited <= |views| && deployed == FreeNodes(views, f, store.sortedP2PID[..visited])
    ensures var ids, missing := store.sortedP2PID, desired - store.functionCatalog[f].replicas;
            var free := FreeNodes(views, f, ids);
            && deployed <= free && |deployed| <= missing
            && (!ok ==> && visited < |ids| && |deployed| < missing && TakesReplica(views, f, ids, visited)
                        && !Succeeds(ids, attempts, visited) && Visits(views, f, ids, attempts, missing, visited))
            && (ok ==> EndsAt(views, f, ids, attempts, missing, visited))
            && (ok && (forall i :: 0 <= i < |ids| ==> !TakesOver(views, ids, attempts, i)) ==>
                  |deployed| == if |free| < missing then |free| else missing)
    ensures forall id :: id in deployed ==> DeployedTo(store.sortedP2PID, attempts, id)
  {
    var ids := store.sortedP2PID;
    var count: nat := desired - store.functionCatalog[f].replicas;
    ghost var missing := count;
    deployed, visited := [], 0;
    while visited < |ids| && count > 0
      invariant visited <= |ids| && deployed == FreeNodes(views, f, ids[..visited]) && |deployed| <= missing
      invariant Visits(views, f, ids, attempts, missing, visited)
      invariant count > 0 ==> count == missing - |deployed|
      invariant visited > 0 && count > 0 ==> !TakesOver(views, ids, attempts, visited - 1)
      invariant count == 0 ==> |deployed| == missing || (visited > 0 && TakesOver(views, ids, attempts, visited - 1))
      invariant forall id :: id in deployed ==> DeployedTo(ids, attempts, id)
    {
      var i := visited;
      var id, node := ids[i], views[i][ids[i]];
      if !node.overload {
        var replicas := if f in node.replicas then node.replicas[f] else 0;
        if replicas == 0 {
          if DeployOn(id, attempts[i].secretsFound, attempts[i].deploys) == Failed {
            FreePrefix(views, f, ids, i);
            ok := false;
            return;
          }
          assert Succeeds(ids, attempts, i);
          deployed := deployed + [id];
          count := count - 1;
        }
        if count > 0 && id != SELF && attempts[i].scaled {
          count := 0;
        }
      }
      VisitOne(views, f, ids, attempts, missing, i);
      visited := i + 1;
    }
    EndCounts(views, f, ids, attempts, missing, visited);
    ok := true;
  }

  lemma FreeNext(views: Views, f: string, ids: seq<string>, i: nat)
    requires i < |ids| <= |views|
    ensures FreeNodes(views, f, ids[..i + 1]) ==
            FreeNodes(views, f, ids[..i]) + (if Free(views[i], f, ids[i]) then [ids[i]] else [])
  {
    assert ids[..i + 1][..i] == ids[..i];
  }

  lemma {:induction false} FreePrefix(views: Views, f: string, ids: seq<string>, i: nat)
    requires i <= |ids| <= |views|
    ensures FreeNodes(views, f, ids[..i]) <= FreeNodes(views, f, ids)
  {
    if i < |ids| {
      var init := ids[..|ids| - 1];
      assert ids[..i] == init[..i];
      FreePrefix(views, f, init, i);
    } else {
      assert ids[..i] == ids;
    }
  }

  /** A ranked node without a replica when it is visited had none in c either. */
  predicate OnlyGrows(c: Catalog, views: Views, ids: seq<string>, f: string)
    requires |ids| <= |views|
  {
    forall i :: 0 <= i < |ids| && ids[i] in views[i] && Count(views[i][ids[i]], f) == 0 ==>
      ids[i] in c.nodes && Count(c.nodes[ids[i]], f) == 0
  }

  lemma {:induction false} FreeNodesAre(c: Catalog, views: Views, f: string, ids: seq<string>)
    requires |ids| <= |views| && OnlyGrows(c, views, ids, f)
    ensures forall id :: id in FreeNodes(views, f, ids) ==> id in c.nodes && Count(c.nodes[id], f) == 0
  {
    if ids != [] {
      FreeNodesAre(c, views, f, ids[..|ids| - 1]);
    }
  }

  // ------------------------------------------------ what the reports of a scale-up add

  /** How node id reports its one new replica of f: this node by an add, a peer by a message. */
  predicate Reports(op: Op, id: string, f: string) {
    if id == SELF then op.Add? && op.fs.name == f && op.fs.availableReplicas == 1
    else op.Receive? && op.from == id && f in MsgCounts(op.msg.functions) && MsgCounts(op.msg.functions)[f] == 1
  }

  /** From c to c' node id gained the one replica of f that was added anywhere. */
  ghost predicate Gains(c: Catalog, c': Catalog, id: string, f: string) {
    && Inv(c') && c'.nodes.Keys == c.nodes.Keys
    && f in c.functions && f in c'.functions && c'.functions[f].replicas == c.functions[f].replicas + 1
    && (forall k :: k in c.nodes && k != id ==> c'.nodes[k] == c.nodes[k])
  }

  lemma OneMoreCounted(c: Catalog, c': Catalog, id: string, f: string)
    requires AggregateIsSum(c) && AggregateIsSum(c') && id in c.nodes && id in c'.nodes
    requires f in c.functions && f in c'.functions && c'.nodes == c.nodes[id := c'.nodes[id]]
    requires Count(c.nodes[id], f) == 0 && Count(c'.nodes[id], f) == 1
    ensures c'.functions[f].replicas == c.functions[f].replicas + 1
    ensures c'.nodes.Keys == c.nodes.Keys && forall k :: k in c.nodes && k != id ==> c'.nodes[k] == c.nodes[k]
  {
    TotalUpdate(c.nodes, id, c'.nodes[id], f);
  }

  lemma OneMore(c: Catalog, c': Catalog, id: string, f: string)
    requires Inv(c) && Inv(c') && id in c.nodes && id in c'.nodes && f in c.functions && f in c'.functions
    requires c'.nodes == c.nodes[id := c'.nodes[id]]
    requires Count(c.nodes[id], f) == 0 && Count(c'.nodes[id], f) == 1
    ensures Gains(c, c', id, f)
  {
    OneMoreCounted(c, c', id, f);
  }

  lemma SelfReportAdds(c: Catalog, fs: FunctionStatus)
    requires Inv(c) && Count(c.nodes[SELF], fs.name) == 0 && fs.availableReplicas == 1 && fs.name in c.functions
    ensures Gains(c, AddFunction(c, fs), SELF, fs.name)
  {
    AddKeepsInv(c, fs);
    OneMore(c, AddFunction(c, fs), SELF, fs.name);
  }

  lemma PeerReportAdds(c: Catalog, id: string, msg: NodeInfoMsg, f: string)
    requires Inv(c) && id in c.nodes && id != SELF && Count(c.nodes[id], f) == 0 && f in c.functions
    requires f in MsgCounts(msg.functions) && MsgCounts(msg.functions)[f] == 1
    ensures Gains(c, Unpack(c, id, msg), id, f)
  {
    UnpackKeepsInv(c, id, msg);
    UnpackKeepsNames(c, id, msg);
    assert f in Unpack(c, id, msg).functions.Keys;
    OneMore(c, Unpack(c, id, msg), id, f);
  }

  lemma ReportAdds(c: Catalog, op: Op, id: string, f: string)
    requires Inv(c) && id in c.nodes && Count(c.nodes[id], f) == 0 && f in c.functions && Reports(op, id, f)
    ensures Legal(c, op) && Gains(c, Apply(c, op), id, f)
  {
    if id == SELF {
      SelfReportAdds(c, op.fs);
    } else {
      PeerReportAdds(c, id, op.msg, f);
    }
  }

  /** These distinct nodes hold no replica of f, and ops are their reports of one each. */
  predicate Waiting(c: Catalog, ops: seq<Op>, ids: seq<string>, f: string) {
    && |ops| == |ids| && NoDup(ids)
    && forall k :: 0 <= k < |ids| ==>
         ids[k] in c.nodes && Count(c.nodes[ids[k]], f) == 0 && Reports(ops[k], ids[k], f)
  }

  lemma StillWaiting(c: Catalog, c1: Catalog, ops: seq<Op>, ids: seq<string>, f: string)
    requires Waiting(c, ops, ids, f) && ids != [] && Gains(c, c1, ids[0], f)
    ensures Waiting(c1, ops[1..], ids[1..], f)
  {
    forall k | 0 <= k < |ids[1..]| ensures ids[1..][k] in c1.nodes && Count(c1.nodes[ids[1..][k]], f) == 0 {
      assert ids[1..][k] == ids[k + 1] != ids[0];
    }
  }

  /** The reports of the nodes deployed to raise the aggregate by exactly their number. */
  lemma {:induction false} ReportsAdd(c: Catalog, ops: seq<Op>, ids: seq<string>, f: string, c': Catalog)
    requires Inv(c) && f in c.functions && Waiting(c, ops, ids, f) && Leads(c, ops, c')
    ensures Inv(c') && f in c'.functions
    ensures c'.functions[f].replicas == c.functions[f].replicas + |ids|
    decreases |ids|
  {
    if ids != [] {
      ReportAdds(c, ops[0], ids[0], f);
      var c1 := Apply(c, ops[0]);
      StillWaiting(c, c1, ops, ids, f);
      ReportsAdd(c1, ops[1..], ids[1..], f, c');
    }
  }

  /** ops are the reports of some of the nodes deployed to, once each and in any order. */
  predicate ReportsOf(ops: seq<Op>, reporting: seq<string>, deployed: seq<string>, f: string) {
    && |ops| == |reporting| && NoDup(reporting)
    && forall k :: 0 <= k < |reporting| ==> reporting[k] in deployed && Reports(ops[k], reporting[k], f)
  }

  lemma DeployedWait(c: Catalog, views: Views, ids: seq<string>, f: string, deployed: seq<string>, ops: seq<Op>,
                     reporting: seq<string>)
    requires |ids| <= |views| && OnlyGrows(c, views, ids, f)
    requires deployed <= FreeNodes(views, f, ids) && ReportsOf(ops, reporting, deployed, f)
    ensures Waiting(c, ops, reporting, f)
  {
    FreeNodesAre(c, views, f, ids);
    var free := FreeNodes(views, f, ids);
    forall k | 0 <= k < |reporting| ensures reporting[k] in c.nodes && Count(c.nodes[reporting[k]], f) == 0 {
      var j :| 0 <= j < |deployed| && deployed[j] == reporting[k];
      assert free[j] == reporting[k] && free[j] in free;
    }
  }

  lemma FewerReports(reporting: seq<string>, deployed: seq<string>)
    requires NoDup(reporting) && forall k :: 0 <= k < |reporting| ==> reporting[k] in deployed
    ensures |reporting| <= |deployed|
  {
    var seen := set k | 0 <= k < |reporting| :: reporting[k];
    var all := set k | 0 <= k < |deployed| :: deployed[k];
    DistinctCard(reporting, seen);
    SubsetCard(seen, all);
    ElementsCard(deployed, all);
  }

  lemma {:induction false} ElementsCard(s: seq<string>, all: set<string>)
    requires all == set k | 0 <= k < |s| :: s[k]
    ensures |all| <= |s|
  {
    if s != [] {
      var init, last := s[..|s| - 1], s[|s| - 1];
      var rest := set k | 0 <= k < |init| :: init[k];
      ElementsCard(init, rest);
      forall x | x in all ensures x in rest + {last} {
        var k :| 0 <= k < |s| && s[k] == x;
        if k < |init| { assert init[k] == x; }
      }
      SubsetCard(all, rest + {last});
    }
  }

  /** Whatever the ranking, ties included, whatever reports come in during the
      loop, and whichever of the nodes deployed to report their replica, in any
      order: the aggregate has grown by the number of reports and is at most the
      request and at most ten. */
  lemma ScaleUpBounded(c: Catalog, views: Views, ids: seq<string>, f: string, requested: nat, deployed: seq<string>,
                       ops: seq<Op>, reporting: seq<string>, c': Catalog)
    requires Inv(c) && f in c.functions && |ids| <= |views| && OnlyGrows(c, views, ids, f)
    requires var d := Decide(requested, c.functions[f].replicas, false);
             d.Up? && deployed <= FreeNodes(views, f, ids) && |deployed| <= d.desired - c.functions[f].replicas
    requires ReportsOf(ops, reporting, deployed, f) && Leads(c, ops, c')
    ensures Inv(c') && f in c'.functions
    ensures c'.functions[f].replicas == c.functions[f].replicas + |reporting|
    ensures c'.functions[f].replicas <= requested && c'.functions[f].replicas <= 10
  {
    DeployedWait(c, views, ids, f, deployed, ops, reporting);
    FewerReports(reporting, deployed);
    ReportsAdd(c, ops, reporting, f, c');
  }

  // -------------------------------------------------------------------- scaling down

  /** What is asked of a peer, if the nearest node is not this one. */
  datatype Remote = NoRemote | ScaleTo(id: string, replicas: nat) | DeleteOn(id: string)

  /** The status that reports no replica on this node. */
  function Emptied(fs: FunctionStatus): FunctionStatus { fs.(availableReplicas := 0, replicas := 0) }

  /** Only the nearest node is looked at. If it is this one and it holds a
      replica, its count is set to zero, however few replicas were to go. */
  method ScaleDown(store: Store, f: string, desired: nat) returns (remote: Remote)
    requires store.Valid() && f in store.functionCatalog && desired < store.functionCatalog[f].replicas
    requires |store.sortedP2PID| > 0 && store.sortedP2PID[0] in store.nodeCatalog
    modifies store`nodeCatalog, store`functionCatalog, store`pending
    ensures var id, c := store.sortedP2PID[0], old(store.View());
            var held, surplus := Count(c.nodes[id], f), c.functions[f].replicas - desired;
            && (store.View() == if id == SELF && held > 0 then UpdateFunction(c, Emptied(c.functions[f])) else c)
            && (remote == if id == SELF || held == 0 then NoRemote
                          else if held > surplus then ScaleTo(id, held - surplus) else DeleteOn(id))
  {
    var count: nat := store.functionCatalog[f].replicas - desired;
    remote := NoRemote;
    var numNode := 1;
    var i := 0;
    while i < numNode && count > 0
      invariant 0 <= i <= 1
      invariant i == 0 ==> store.View() == old(store.View()) && remote == NoRemote
                           && count == old(store.functionCatalog[f].replicas) - desired
      invariant i == 1 ==>
                  var id, c := store.sortedP2PID[0], old(store.View());
                  var held, surplus := Count(c.nodes[id], f), c.functions[f].replicas - desired;
                  && (store.View() == if id == SELF && held > 0 then UpdateFunction(c, Emptied(c.functions[f])) else c)
                  && (remote == if id == SELF || held == 0 then NoRemote
                                else if held > surplus then ScaleTo(id, held - surplus) else DeleteOn(id))
    {
      var id := store.sortedP2PID[i];
      var held := if f in store.nodeCatalog[id].replicas then store.nodeCatalog[id].replicas[f] else 0;
      if held > 0 {
        if held > count {
          if id == SELF {
            var ok := store.UpdateAvailableFunctions(Emptied(store.functionCatalog[f]));
          } else {
            remote := ScaleTo(id, held - count);
          }
          count := 0;
        } else {
          if id == SELF {
            var ok := store.UpdateAvailableFunctions(Emptied(store.functionCatalog[f]));
          } else {
            remote := DeleteOn(id);
          }
          count := count - held;
        }
      }
      i := i + 1;
    }
  }

  /** With this node nearest, scaling down touches no peer record, leaves no
      replica here, lowers the aggregate by exactly what this node held, and
      keeps the function catalogued. */
  lemma ScaleDownEffect(c: Catalog, f: string)
    requires Inv(c) && f in c.functions
    ensures var c' := UpdateFunction(c, Emptied(c.functions[f]));
            && Inv(c')
            && c'.nodes - {SELF} == c.nodes - {SELF}
            && Count(c'.nodes[SELF], f) == 0
            && f in c'.functions
            && c'.functions[f].replicas == c.functions[f].replicas - Count(c.nodes[SELF], f)
  {
    var fs := Emptied(c.functions[f]);
    SafeUpdateKeepsInv(c, fs);
    var c' := UpdateFunction(c, fs);
    TotalUpdate(c.nodes, SELF, c'.nodes[SELF], f);
  }
}
