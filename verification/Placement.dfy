/** Where a request goes (pkg/provider/handlers/trigger.go): the scheduler with
    its fallback, the nearest node for a first deployment, and the node to try next. */
module Placement {
  import opened Sums
  import opened CatalogModel
  import opened CatalogEffects
  import opened Strings
  import opened CatalogStore
  import opened Scheduler
  import opened Powers

  /** The weights offered to the weighted-random library. */
  ghost function Offered(nodes: map<string, NodeInfo>, f: string, min: int, nan: nat): map<string, nat>
    requires Timed(nodes) && IsMin(Eligible(nodes, f), min)
  {
    if min <= 0 then EqualWeights(Eligible(nodes, f), nan)
    else
      SlownessAtLeastOne(nodes, Eligible(nodes, f), min);
      Weights(SlownessTable(nodes, Eligible(nodes, f), min))
  }

  /** The library refuses weights whose sum is zero, or the largest int or more. */
  predicate Refused(total: nat) {
    total < 1 || total >= MAX_INT
  }

  /** No holder is fresh and the library refuses the weights. */
  ghost predicate Refuses(nodes: map<string, NodeInfo>, f: string, nan: nat)
    requires Timed(nodes)
  {
    && (forall id :: id in nodes ==> !IsFresh(nodes, f, id))
    && exists min :: IsMin(Eligible(nodes, f), min) && Refused(Sum(Offered(nodes, f, min, nan)))
  }

  method Offer(nodes: map<string, NodeInfo>, raw: map<string, int>, min: int, f: string, nan: nat)
    returns (weights: map<string, nat>, total: nat)
    requires Timed(nodes) && raw == Eligible(nodes, f) && IsMin(raw, min) && min >= 0
    ensures weights == Offered(nodes, f, min, nan) && total == Sum(weights)
  {
    if min == 0 {
      weights, total := ComputeEqualWeights(raw, nan);
    } else {
      var slow, prod := ComputeSlowness(nodes, raw, min);
      SlownessAtLeastOne(nodes, raw, min);
      weights, total := ComputeWeights(slow, prod);
    }
  }

  /** The library: any item of positive weight, or a refusal. */
  method Pick(weights: map<string, nat>, total: nat) returns (r: Option<string>)
    requires total == Sum(weights)
    ensures r.None? <==> Refused(total)
    ensures r.Some? ==> r.value in weights && weights[r.value] > 0
  {
    if total >= MAX_INT || total < 1 {
      return None;
    }
    SumZero(weights);
    var id :| id in weights && weights[id] > 0;
    return Some(id);
  }

  lemma OfferedToHolders(nodes: map<string, NodeInfo>, f: string, min: int, nan: nat)
    requires Timed(nodes) && IsMin(Eligible(nodes, f), min)
    ensures Offered(nodes, f, min, nan).Keys == Eligible(nodes, f).Keys
  {
  }

  /** Weighted choice over the holders, with the library's own failure. */
  method Choose(nodes: map<string, NodeInfo>, raw: map<string, int>, min: int, f: string, nan: nat)
    returns (r: Option<string>)
    requires Timed(nodes) && raw == Eligible(nodes, f) && IsMin(raw, min) && min >= 0
    ensures r.None? <==> Refused(Sum(Offered(nodes, f, min, nan)))
    ensures r.Some? ==> r.value in raw
  {
    var weights, total := Offer(nodes, raw, min, f, nan);
    OfferedToHolders(nodes, f, min, nan);
    r := Pick(weights, total);
    assert r.Some? ==> r.value in weights.Keys;
  }

  /** The decision on the nodes as they are: None when no node holds a replica,
      a fresh holder before all others whatever the order, else some holder
      unless the library refuses the weights. */
  method Decide(nodes: map<string, NodeInfo>, f: string, nan: nat) returns (r: Option<string>, refused: bool)
    requires Timed(nodes)
    ensures refused <==> Refuses(nodes, f, nan)
    ensures !refused ==> (r.None? <==> Eligible(nodes, f) == map[])
    ensures !refused && r.Some? ==> r.value in Eligible(nodes, f)
    ensures (exists id :: IsFresh(nodes, f, id)) ==> !refused && r.Some? && IsFresh(nodes, f, r.value)
  {
    var found, raw, min := CollectTimes(nodes, f);
    if found.Some? {
      return found, false;
    }
    if raw == map[] {
      NoneIsNotRefused(nodes, f, nan);
      return None, false;
    }
    assert min >= 0 by {
      var id :| id in raw && raw[id] == min;
      assert HasTimes(nodes[id]);
    }
    r := Choose(nodes, raw, min, f, nan);
    RefusesIff(nodes, f, min, nan);
    refused := r.None?;
  }

  method Reset(nodes: map<string, NodeInfo>, f: string) returns (nodes': map<string, NodeInfo>)
    ensures nodes' == ResetTimes(nodes, f) && HoldersReset(nodes, f, nodes')
  {
    nodes' := nodes;
    var todo := nodes.Keys;
    while todo != {}
      invariant todo <= nodes.Keys == nodes'.Keys
      invariant forall id :: id in todo ==> nodes'[id] == nodes[id]
      invariant forall id :: id in nodes && id !in todo ==> nodes'[id] == ResetTimes(nodes, f)[id]
    {
      var id :| id in todo;
      if f in nodes'[id].replicas && nodes'[id].replicas[f] > 0 {
        nodes' := nodes'[id := nodes'[id].(execTime := nodes'[id].execTime[f := 1])];
      }
      todo := todo - {id};
    }
    ResetEffect(nodes, f);
  }

  /** The scheduler fails exactly when no node holds a replica; when the weights
      are refused this node is returned and all recorded times are reset. The node
      returned holds a replica exactly when they are not, or this node has one. */
  method WeightExecTimeScheduler(store: Store, f: string, nan: nat) returns (r: Option<string>)
    requires Timed(store.nodeCatalog)
    modifies store`nodeCatalog
    ensures r.None? <==> old(Eligible(store.nodeCatalog, f)) == map[]
    ensures if old(Refuses(store.nodeCatalog, f, nan))
            then r == Some(SELF) && store.nodeCatalog == ResetTimes(old(store.nodeCatalog), f)
            else store.nodeCatalog == old(store.nodeCatalog)
    ensures old(Refuses(store.nodeCatalog, f, nan)) ==>
              && HoldersReset(old(store.nodeCatalog), f, store.nodeCatalog) && Timed(store.nodeCatalog)
              && (forall id :: id in old(Eligible(store.nodeCatalog, f)) ==> IsFresh(store.nodeCatalog, f, id))
              && !Refuses(store.nodeCatalog, f, nan)
    ensures r.Some? ==> (r.value in old(Eligible(store.nodeCatalog, f)) <==>
                           !old(Refuses(store.nodeCatalog, f, nan)) || SELF in old(Eligible(store.nodeCatalog, f)))
    ensures (exists id :: old(IsFresh(store.nodeCatalog, f, id))) ==>
              r.Some? && old(IsFresh(store.nodeCatalog, f, r.value))
  {
    var refused;
    r, refused := Decide(store.nodeCatalog, f, nan);
    if refused {
      assert Eligible(store.nodeCatalog, f) != map[];
      store.nodeCatalog := Reset(store.nodeCatalog, f);
      ResetEffect(old(store.nodeCatalog), f);
      AfterReset(old(store.nodeCatalog), store.nodeCatalog, f, nan);
      return Some(SELF);
    }
  }

  lemma ResetStaysTimed(nodes: map<string, NodeInfo>, nodes': map<string, NodeInfo>, f: string)
    requires Timed(nodes) && HoldersReset(nodes, f, nodes')
    ensures Timed(nodes')
  {
    forall id | id in nodes' ensures HasTimes(nodes'[id]) {
      assert id in nodes.Keys;
      StillTimed(nodes[id], nodes'[id], f);
    }
  }

  lemma ResetHoldersFresh(nodes: map<string, NodeInfo>, nodes': map<string, NodeInfo>, f: string, id: string)
    requires Timed(nodes) && HoldersReset(nodes, f, nodes') && Timed(nodes')
    ensures id in Eligible(nodes', f) <==> id in Eligible(nodes, f)
    ensures id in Eligible(nodes, f) ==> IsFresh(nodes', f, id)
  {
    assert id in nodes' <==> id in nodes by { assert id in nodes'.Keys <==> id in nodes.Keys; }
  }

  /** With the holders' times at 1 every holder is fresh, and the weights are not refused again. */
  lemma AfterReset(nodes: map<string, NodeInfo>, nodes': map<string, NodeInfo>, f: string, nan: nat)
    requires Timed(nodes) && HoldersReset(nodes, f, nodes')
    ensures Timed(nodes')
    ensures forall id :: id in Eligible(nodes', f) <==> id in Eligible(nodes, f)
    ensures forall id :: id in Eligible(nodes, f) ==> IsFresh(nodes', f, id)
    ensures Eligible(nodes, f) != map[] ==> !Refuses(nodes', f, nan)
  {
    ResetStaysTimed(nodes, nodes', f);
    forall id {
      ResetHoldersFresh(nodes, nodes', f, id);
    }
    if Eligible(nodes, f) != map[] {
      var k :| k in Eligible(nodes, f);
      FreshNotRefused(nodes', f, k, nan);
    }
  }

  lemma FreshNotRefused(nodes: map<string, NodeInfo>, f: string, id: string, nan: nat)
    requires Timed(nodes) && IsFresh(nodes, f, id)
    ensures !Refuses(nodes, f, nan)
  {
  }

  lemma StillTimed(n: NodeInfo, n': NodeInfo, f: string)
    requires HasTimes(n) && n'.replicas == n.replicas && EntriesKept(n.execTime, n'.execTime, f)
    requires n'.execTime == n.execTime || (f in n'.execTime && n'.execTime[f] == 1)
    ensures HasTimes(n')
  {
  }

  lemma MinUnique(times: map<string, int>, a: int, b: int)
    requires IsMin(times, a) && IsMin(times, b)
    ensures a == b
  {
  }

  lemma RefusesIff(nodes: map<string, NodeInfo>, f: string, min: int, nan: nat)
    requires Timed(nodes) && IsMin(Eligible(nodes, f), min)
    requires forall id :: id in nodes ==> !IsFresh(nodes, f, id)
    ensures Refuses(nodes, f, nan) <==> Refused(Sum(Offered(nodes, f, min, nan)))
  {
    if Refuses(nodes, f, nan) {
      var m :| IsMin(Eligible(nodes, f), m) && Refused(Sum(Offered(nodes, f, m, nan)));
      MinUnique(Eligible(nodes, f), m, min);
    }
  }

  /** A peer's message that reports more replicas of f than are on record makes
      that peer fresh, so that the scheduler must send the next request to a
      node not yet timed. */
  lemma RisenIsFresh(sender: Catalog, msg: NodeInfoMsg, receiver: Catalog, id: string, f: string, nan: nat)
    requires Inv(receiver) && id in receiver.nodes && id != SELF && IsPack(sender, msg)
    requires Count(sender.nodes[SELF], f) > Count(receiver.nodes[id], f)
    ensures var nodes := Unpack(receiver, id, msg).nodes;
            Timed(nodes) && IsFresh(nodes, f, id) && !Refuses(nodes, f, nan)
  {
    UnpackKeepsInv(receiver, id, msg);
    PackThenUnpack(sender, msg, receiver, id);
    var after := Unpack(receiver, id, msg).nodes[id];
    assert after.replicas == sender.nodes[SELF].replicas;
    assert Count(after, f) > Count(receiver.nodes[id], f);
  }

  /** A function added here with a replica makes this node fresh. */
  lemma AddedIsFresh(c: Catalog, fs: FunctionStatus, nan: nat)
    requires Inv(c) && fs.availableReplicas > 0
    ensures var nodes := AddFunction(c, fs).nodes;
            Timed(nodes) && IsFresh(nodes, fs.name, SELF) && !Refuses(nodes, fs.name, nan)
  {
    AddKeepsInv(c, fs);
    AddEffect(c, fs);
  }

  /** The request after a refusal is placed on a holder that is fresh. */
  lemma NextAfterRefusal(nodes: map<string, NodeInfo>, nodes': map<string, NodeInfo>, ids: seq<string>, f: string,
                         nan: nat, nan': nat, id: string)
    requires Timed(nodes) && Refuses(nodes, f, nan) && HoldersReset(nodes, f, nodes') && Timed(nodes')
    requires (forall i :: 0 <= i < |ids| ==> ids[i] in nodes') && Places(nodes', ids, f, nan', id)
    ensures id in Eligible(nodes, f) && IsFresh(nodes', f, id)
  {
    AfterReset(nodes, nodes', f, nan');
    var min :| IsMin(Eligible(nodes, f), min);
    var k :| k in Eligible(nodes, f);
    assert k in Eligible(nodes', f) && IsFresh(nodes', f, k);
  }

  // ------------------------------------------------------- the node for a request

  predicate Ranked(store: Store)
    reads store
  {
    forall i :: 0 <= i < |store.sortedP2PID| ==> store.sortedP2PID[i] in store.nodeCatalog
  }

  /** k is the first position of ids whose node is not overloaded. */
  predicate FirstFree(ids: seq<string>, nodes: map<string, NodeInfo>, k: nat)
    requires forall i :: 0 <= i < |ids| ==> ids[i] in nodes
  {
    k < |ids| && !nodes[ids[k]].overload && forall i :: 0 <= i < k ==> nodes[ids[i]].overload
  }

  predicate AllOverloaded(ids: seq<string>, nodes: map<string, NodeInfo>)
    requires forall i :: 0 <= i < |ids| ==> ids[i] in nodes
  {
    forall i :: 0 <= i < |ids| ==> nodes[ids[i]].overload
  }

  /** No node holds a replica, and some ranked node is not overloaded. */
  predicate MustDeploy(nodes: map<string, NodeInfo>, ids: seq<string>, f: string)
    requires Timed(nodes) && forall i :: 0 <= i < |ids| ==> ids[i] in nodes
  {
    Eligible(nodes, f) == map[] && !AllOverloaded(ids, nodes)
  }

  /** The nodes a request for f can be placed on. With a replica anywhere it is
      a holder, a fresh one if there is any, or this node when the library
      refuses the weights. Without one
      it is the nearest node that is not overloaded; when there is none either,
      it is the empty name. */
  ghost predicate Places(nodes: map<string, NodeInfo>, ids: seq<string>, f: string, nan: nat, id: string)
    requires Timed(nodes) && forall i :: 0 <= i < |ids| ==> ids[i] in nodes
  {
    if Eligible(nodes, f) != map[] then
      if Refuses(nodes, f, nan) then id == SELF
      else id in Eligible(nodes, f) && ((exists k :: IsFresh(nodes, f, k)) ==> IsFresh(nodes, f, id))
    else if AllOverloaded(ids, nodes) then id == ""
    else exists k: nat :: FirstFree(ids, nodes, k) && id == ids[k]
  }

  /** Returns the node and whether the function must be deployed there first
      (the non-nil error). The empty name comes back as if it were a node that
      needs nothing. */
  method FindSuitableNode(store: Store, f: string, nan: nat) returns (id: string, mustDeploy: bool)
    requires Timed(store.nodeCatalog) && Ranked(store)
    modifies store`nodeCatalog
    ensures Places(old(store.nodeCatalog), store.sortedP2PID, f, nan, id)
    ensures mustDeploy <==> MustDeploy(old(store.nodeCatalog), store.sortedP2PID, f)
    ensures store.nodeCatalog == if old(Refuses(store.nodeCatalog, f, nan))
                                 then ResetTimes(old(store.nodeCatalog), f) else old(store.nodeCatalog)
  {
    var r := WeightExecTimeScheduler(store, f, nan);
    if r.Some? {
      return r.value, false;
    }
    NoneIsNotRefused(old(store.nodeCatalog), f, nan);
    for i := 0 to |store.sortedP2PID|
      invariant forall k :: 0 <= k < i ==> store.nodeCatalog[store.sortedP2PID[k]].overload
    {
      if !store.nodeCatalog[store.sortedP2PID[i]].overload {
        assert FirstFree(store.sortedP2PID, store.nodeCatalog, i);
        return store.sortedP2PID[i], true;
      }
    }
    return "", false;
  }

  lemma NoneIsNotRefused(nodes: map<string, NodeInfo>, f: string, nan: nat)
    requires Timed(nodes) && Eligible(nodes, f) == map[]
    ensures !Refuses(nodes, f, nan)
  {
  }

  // -------------------------------------------------------------- the node to try next

  /** A node without a replica whose recorded time beats the current one. */
  predicate Faster(n: NodeInfo, f: string, time: int) {
    Count(n, f) == 0 && f in n.execTime && n.execTime[f] < time
  }

  /** A node that never held a replica. */
  predicate Untried(n: NodeInfo, f: string) {
    Count(n, f) == 0 && f !in n.execTime
  }

  predicate FirstFaster(ids: seq<string>, nodes: map<string, NodeInfo>, f: string, time: int, k: nat)
    requires forall i :: 0 <= i < |ids| ==> ids[i] in nodes
  {
    k < |ids| && Faster(nodes[ids[k]], f, time) && forall i :: 0 <= i < k ==> !Faster(nodes[ids[i]], f, time)
  }

  predicate FirstUntried(ids: seq<string>, nodes: map<string, NodeInfo>, f: string, k: nat)
    requires forall i :: 0 <= i < |ids| ==> ids[i] in nodes
  {
    k < |ids| && Untried(nodes[ids[k]], f) && forall i :: 0 <= i < k ==> !Untried(nodes[ids[i]], f)
  }

  datatype Exploration = Missing | Nothing | Try(id: string)

  /** The nearest faster node without a replica, else the nearest untried one, else nothing. */
  ghost predicate Explores(ids: seq<string>, nodes: map<string, NodeInfo>, f: string, time: int, r: Exploration)
    requires forall i :: 0 <= i < |ids| ==> ids[i] in nodes
  {
    if exists k: nat :: FirstFaster(ids, nodes, f, time, k)
    then r.Try? && exists k: nat :: FirstFaster(ids, nodes, f, time, k) && r.id == ids[k]
    else if exists k: nat :: FirstUntried(ids, nodes, f, k)
    then r.Try? && exists k: nat :: FirstUntried(ids, nodes, f, k) && r.id == ids[k]
    else r.Nothing?
  }

  /** Exploring never suggests a node with a replica: the one suggested is faster
      than the target by record, or is untried while no empty ranked node is
      faster; with no suggestion every empty ranked node is on record as no faster.
      Of the faster nodes, and of the untried ones, it is the nearest. */
  lemma ExploreIsWorthwhile(ids: seq<string>, nodes: map<string, NodeInfo>, f: string, time: int, r: Exploration)
    requires (forall i :: 0 <= i < |ids| ==> ids[i] in nodes) && Explores(ids, nodes, f, time, r)
    ensures r.Try? ==>
              && r.id in ids && r.id in nodes && (f in nodes[r.id].replicas ==> nodes[r.id].replicas[f] == 0)
              && (f in nodes[r.id].execTime ==> nodes[r.id].execTime[f] < time)
    ensures r.Nothing? || (r.Try? && f !in nodes[r.id].execTime) ==>
              forall i :: 0 <= i < |ids| ==>
                (f in nodes[ids[i]].replicas ==> nodes[ids[i]].replicas[f] == 0) && f in nodes[ids[i]].execTime ==>
                  nodes[ids[i]].execTime[f] >= time
    ensures r.Nothing? ==>
              forall i :: 0 <= i < |ids| && (f in nodes[ids[i]].replicas ==> nodes[ids[i]].replicas[f] == 0) ==>
                f in nodes[ids[i]].execTime
    ensures r.Try? && f in nodes[r.id].execTime ==>
              exists k :: 0 <= k < |ids| && ids[k] == r.id
                && forall i :: 0 <= i < k ==>
                     (f in nodes[ids[i]].replicas ==> nodes[ids[i]].replicas[f] == 0) && f in nodes[ids[i]].execTime ==>
                       nodes[ids[i]].execTime[f] >= time
    ensures r.Try? && f !in nodes[r.id].execTime ==>
              exists k :: 0 <= k < |ids| && ids[k] == r.id
                && forall i :: 0 <= i < k ==>
                     (f in nodes[ids[i]].replicas ==> nodes[ids[i]].replicas[f] == 0) ==> f in nodes[ids[i]].execTime
  {
    if !(exists k: nat :: FirstFaster(ids, nodes, f, time, k)) {
      NoneFaster(ids, nodes, f, time, |ids|);
      if !(exists k: nat :: FirstUntried(ids, nodes, f, k)) {
        NoneUntried(ids, nodes, f, |ids|);
      }
    }
  }

  lemma {:induction false} NoneFaster(ids: seq<string>, nodes: map<string, NodeInfo>, f: string, time: int, n: nat)
    requires n <= |ids| && forall i :: 0 <= i < |ids| ==> ids[i] in nodes
    requires !(exists k: nat :: FirstFaster(ids, nodes, f, time, k))
    ensures forall i :: 0 <= i < n ==> !Faster(nodes[ids[i]], f, time)
  {
    if n > 0 {
      NoneFaster(ids, nodes, f, time, n - 1);
      assert !FirstFaster(ids, nodes, f, time, n - 1);
    }
  }

  lemma {:induction false} NoneUntried(ids: seq<string>, nodes: map<string, NodeInfo>, f: string, n: nat)
    requires n <= |ids| && forall i :: 0 <= i < |ids| ==> ids[i] in nodes
    requires !(exists k: nat :: FirstUntried(ids, nodes, f, k))
    ensures forall i :: 0 <= i < n ==> !Untried(nodes[ids[i]], f)
  {
    if n > 0 {
      NoneUntried(ids, nodes, f, n - 1);
      assert !FirstUntried(ids, nodes, f, n - 1);
    }
  }

  /** Missing is the dereference of an absent execution time, which happens
      exactly when the target has none for f. */
  method ExplorePotentialNode(store: Store, target: string, f: string) returns (r: Exploration)
    requires target in store.nodeCatalog && Ranked(store) && "" !in store.sortedP2PID
    ensures r.Missing? <==> f !in store.nodeCatalog[target].execTime
    ensures f in store.nodeCatalog[target].execTime ==>
              Explores(store.sortedP2PID, store.nodeCatalog, f, store.nodeCatalog[target].execTime[f], r)
  {
    var ids, nodes := store.sortedP2PID, store.nodeCatalog;
    if f !in nodes[target].execTime {
      return Missing;
    }
    var time := nodes[target].execTime[f];
    var potential := "";
    ghost var at: nat := 0;
    for i := 0 to |ids|
      invariant forall k :: 0 <= k < i ==> !Faster(nodes[ids[k]], f, time)
      invariant potential == "" ==> forall k :: 0 <= k < i ==> !Untried(nodes[ids[k]], f)
      invariant potential != "" ==> FirstUntried(ids, nodes, f, at) && potential == ids[at]
    {
      var node := nodes[ids[i]];
      if f !in node.replicas || node.replicas[f] == 0 {
        if f in node.execTime {
          if node.execTime[f] < time {
            assert FirstFaster(ids, nodes, f, time, i);
            return Try(ids[i]);
          }
        } else if potential == "" {
          potential, at := ids[i], i;
        }
      }
    }
    if potential == "" {
      return Nothing;
    }
    return Try(potential);
  }

  // ------------------------------------------------- the fallback can miss: one example

  const SLOW_AND_FAST := map[SELF := NO_INFO,
                             "A" := NodeInfo(map["f" := 2], map["f" := 1], false),
                             "B" := NodeInfo(map["f" := 200000], map["f" := 1], false)]

  lemma BigPower()
    ensures Power(100000.0, 4) == 100000000000000000000.0 && Power(1.0, 4) == 1.0
  {
    assert Power(100000.0, 1) == 100000.0 && Power(100000.0, 2) == 10000000000.0;
    assert Power(100000.0, 3) == 1000000000000000.0;
    assert Power(1.0, 1) == 1.0 && Power(1.0, 2) == 1.0 && Power(1.0, 3) == 1.0;
  }

  lemma TwoWeights(slow: map<string, real>)
    requires slow == map["A" := 1.0, "B" := 100000000000000000000.0]
    ensures Sum(Weights(slow)) >= MAX_INT
  {
    ProductRemove(slow, "B");
    ProductRemove(slow - {"B"}, "A");
    assert slow - {"B"} == map["A" := 1.0] && map["A" := 1.0] - {"A"} == map[];
    assert Product(slow) == 100000000000000000000.0;
    assert Weight(slow, "A") == 1000000000000000000000;
    SumBounds(Weights(slow), "A");
  }

  lemma WhenHeavy(nodes: map<string, NodeInfo>, f: string, times: map<string, int>, min: int, slow: map<string, real>, nan: nat)
    requires Timed(nodes) && times == Eligible(nodes, f) && IsMin(times, min) && min > 1
    requires slow == SlownessTable(nodes, times, min) && (forall id :: id in slow ==> slow[id] >= 1.0)
    requires Sum(Weights(slow)) >= MAX_INT
    ensures Refuses(nodes, f, nan)
  {
    RefusesIff(nodes, f, min, nan);
  }

  lemma ExampleTimes() returns (times: map<string, int>)
    ensures times == map["A" := 2, "B" := 200000] && IsMin(times, 2)
    ensures Timed(SLOW_AND_FAST) && times == Eligible(SLOW_AND_FAST, "f")
  {
    times := map["A" := 2, "B" := 200000];
    assert "A" in times && times["A"] == 2;
    forall id | id in SLOW_AND_FAST ensures HasTimes(SLOW_AND_FAST[id]) {
      assert id == SELF || id == "A" || id == "B";
    }
  }

  lemma ExampleSlowness(times: map<string, int>) returns (slow: map<string, real>)
    requires times == map["A" := 2, "B" := 200000]
    ensures times.Keys <= SLOW_AND_FAST.Keys && slow == SlownessTable(SLOW_AND_FAST, times, 2)
    ensures (forall id :: id in slow ==> slow[id] >= 1.0) && Sum(Weights(slow)) >= MAX_INT
  {
    BigPower();
    assert Slowness(2, 2, false) == 1.0 && Slowness(200000, 2, false) == 100000000000000000000.0;
    slow := map["A" := 1.0, "B" := 100000000000000000000.0];
    assert slow == SlownessTable(SLOW_AND_FAST, times, 2);
    TwoWeights(slow);
  }

  /** One holder a hundred thousand times slower than the other: the weights
      overflow, and the node returned holds no replica. */
  lemma FallbackWithoutReplica(nan: nat)
    ensures Timed(SLOW_AND_FAST) && Refuses(SLOW_AND_FAST, "f", nan)
    ensures SELF in SLOW_AND_FAST && Count(SLOW_AND_FAST[SELF], "f") == 0
  {
    var times := ExampleTimes();
    var slow := ExampleSlowness(times);
    WhenHeavy(SLOW_AND_FAST, "f", times, 2, slow, nan);
  }

  // --------------------------------------------------------- when the library refuses

  /** The largest int of a 64-bit platform. */
  lemma MaxIntIs()
    ensures MAX_INT == TwoToThe(63) - 1
  {
    SmallPowers();
    TwoToSum(15, 15);
    TwoToSum(30, 30);
    TwoToSum(60, 3);
  }

  lemma SmallPowers()
    ensures TwoToThe(3) == 8 && TwoToThe(15) == 32768
  {
    assert TwoToThe(1) == 2 && TwoToThe(2) == 4 && TwoToThe(4) == 16 && TwoToThe(5) == 32;
    TwoToSum(5, 5);
    TwoToSum(5, 10);
  }

  lemma DoubleProduct(a: nat, b: nat)
    ensures 2 * (a * b) == (2 * a) * b
  {
  }

  lemma {:induction false} TwoToSum(m: nat, n: nat)
    ensures TwoToThe(m + n) == TwoToThe(m) * TwoToThe(n)
  {
    if m > 0 {
      TwoToSum(m - 1, n);
      DoubleProduct(TwoToThe(m - 1), TwoToThe(n));
    }
  }

  /** With a positive fastest time the weights are refused only for being too
      large: every holder has weight at least ten. */
  lemma RefusedIsTooLarge(nodes: map<string, NodeInfo>, f: string, min: int, nan: nat)
    requires Timed(nodes) && IsMin(Eligible(nodes, f), min) && min > 0
    ensures Refused(Sum(Offered(nodes, f, min, nan))) <==> Sum(Offered(nodes, f, min, nan)) >= TwoToThe(63) - 1
  {
    MaxIntIs();
    var slow := SlownessTable(nodes, Eligible(nodes, f), min);
    SlownessAtLeastOne(nodes, Eligible(nodes, f), min);
    var k :| k in slow;
    WeightAtLeastTen(slow, k);
    SumBounds(Weights(slow), k);
  }

  /** A holder recorded at 0 makes the library refuse, unless not-a-number
      converts to a positive integer small enough for all holders together. */
  lemma ZeroTimeRefused(nodes: map<string, NodeInfo>, f: string, nan: nat)
    requires Timed(nodes) && IsMin(Eligible(nodes, f), 0)
    ensures Refused(Sum(Offered(nodes, f, 0, nan))) <==> nan == 0 || |Eligible(nodes, f)| * nan >= TwoToThe(63) - 1
  {
    MaxIntIs();
    EqualSum(Eligible(nodes, f), nan);
    ProductIsZero(|Eligible(nodes, f)|, nan);
  }

  lemma ProductIsZero(n: nat, x: nat)
    requires n > 0
    ensures n * x < 1 <==> x == 0
  {
  }

  lemma OneMoreTimes(n: nat, x: nat)
    ensures (n + 1) * x == x + n * x
  {
  }

  lemma {:induction false} EqualSum(raw: map<string, int>, nan: nat)
    ensures Sum(EqualWeights(raw, nan)) == |raw| * nan
    decreases |raw|
  {
    if raw == map[] {
      assert EqualWeights(raw, nan) == map[];
    } else {
      var k :| k in raw;
      RemoveShrinks(raw, k);
      EqualSum(raw - {k}, nan);
      EqualSumStep(raw, nan, k);
      OneMoreTimes(|raw - {k}|, nan);
    }
  }

  lemma EqualSumStep(raw: map<string, int>, nan: nat, k: string)
    requires k in raw
    ensures Sum(EqualWeights(raw, nan)) == nan + Sum(EqualWeights(raw - {k}, nan))
  {
    var w := EqualWeights(raw, nan);
    SumRemove(w, k);
    assert w - {k} == EqualWeights(raw - {k}, nan);
  }
}
