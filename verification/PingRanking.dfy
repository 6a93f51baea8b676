/** What the ranking says about the pings: nearest node first, this node at distance 0. */
module PingRanking {
  import opened Ranking

  /** Every peer has been pinged. */
  predicate Pinged(nodes: set<string>, me: string, ping: map<string, int>) {
    forall id :: id in nodes && id != me ==> id in ping
  }

  /** Node a may stand before node b: peers by ping, this node before peers at a
      positive ping and after those at a negative one. */
  predicate Before(me: string, ping: map<string, int>, a: string, b: string) {
    if a == me then b == me || (b in ping && ping[b] > 0)
    else if b == me then a in ping && ping[a] < 0
    else a in ping && b in ping && ping[a] <= ping[b]
  }

  /** Nodes a and b are equally far: at the same ping, this node at 0. */
  predicate Ties(me: string, ping: map<string, int>, a: string, b: string) {
    if a == me then b == me || (b in ping && ping[b] == 0)
    else if b == me then a in ping && ping[a] == 0
    else a in ping && b in ping && ping[a] == ping[b]
  }

  /** Node id, or one that it ties with, is listed. */
  predicate Represented(me: string, ping: map<string, int>, ids: seq<string>, id: string) {
    exists i :: 0 <= i < |ids| && Ties(me, ping, id, ids[i])
  }

  /** ids lists as many nodes as there are, in order; every node is there or one that it ties with. */
  predicate InOrderOfPing(nodes: set<string>, me: string, ping: map<string, int>, ids: seq<string>) {
    && |ids| == |nodes| && (forall i :: 0 <= i < |ids| ==> ids[i] in nodes)
    && (forall i, j :: 0 <= i < j < |ids| ==> Before(me, ping, ids[i], ids[j]))
    && (forall id :: id in nodes ==> Represented(me, ping, ids, id))
  }

  /** With all pings positive this node is ranked first. */
  predicate SelfFirst(nodes: set<string>, me: string, ping: map<string, int>, ids: seq<string>) {
    me in nodes && (forall id :: id in nodes && id != me ==> id in ping && ping[id] > 0) ==> |ids| > 0 && ids[0] == me
  }

  /** With pings that are distinct and not 0 every node is ranked exactly once. */
  predicate EachOnce(nodes: set<string>, me: string, ping: map<string, int>, ids: seq<string>) {
    (forall a, b :: a in nodes && b in nodes && Ties(me, ping, a, b) ==> a == b) ==>
      && (forall i, j :: 0 <= i < j < |ids| ==> ids[i] != ids[j])
      && (forall id :: id in nodes ==> id in ids)
  }

  /** The distances the pings give. */
  function Distances(nodes: set<string>, me: string, ping: map<string, int>): map<string, int>
    requires Pinged(nodes, me, ping)
  {
    map id | id in nodes :: if id == me then 0 else ping[id]
  }

  /** ids is a ranking of the nodes by ping. */
  ghost predicate RankedByPing(nodes: set<string>, me: string, ping: map<string, int>, ids: seq<string>) {
    && Pinged(nodes, me, ping) && IsRanking(Distances(nodes, me, ping), ids)
    && InOrderOfPing(nodes, me, ping, ids) && SelfFirst(nodes, me, ping, ids) && EachOnce(nodes, me, ping, ids)
  }

  // ---------------------------------------------------------------------- the proof

  /** No node is farther than one after it, or as far without being the same one. */
  predicate PairsInOrder(rtt: map<string, int>, ids: seq<string>) {
    && (forall i :: 0 <= i < |ids| ==> ids[i] in rtt)
    && forall i, j :: 0 <= i < j < |ids| ==>
         rtt[ids[i]] <= rtt[ids[j]] && (rtt[ids[i]] == rtt[ids[j]] ==> ids[i] == ids[j])
  }

  lemma RankingPairs(rtt: map<string, int>, ids: seq<string>)
    requires IsRanking(rtt, ids)
    ensures PairsInOrder(rtt, ids) && |ids| == |rtt|
  {
    forall i, j | 0 <= i < j < |ids|
      ensures rtt[ids[i]] <= rtt[ids[j]] && (rtt[ids[i]] == rtt[ids[j]] ==> ids[i] == ids[j])
    {
      RankPair(rtt, ids, i, j);
    }
  }

  lemma RankPair(rtt: map<string, int>, ids: seq<string>, i: nat, j: nat)
    requires IsRanking(rtt, ids) && i < j < |ids|
    ensures rtt[ids[i]] <= rtt[ids[j]] && (rtt[ids[i]] == rtt[ids[j]] ==> ids[i] == ids[j])
  {
    assert Times(ids, rtt)[i] <= Times(ids, rtt)[j];
  }

  /** The distance of every node is the distance of a ranked one. */
  lemma RankedDistance(rtt: map<string, int>, ids: seq<string>, id: string) returns (i: nat)
    requires IsRanking(rtt, ids) && id in rtt
    ensures i < |ids| && rtt[ids[i]] == rtt[id]
  {
    var v := rtt[id];
    assert id in At(rtt, v);
    assert v in multiset(Times(ids, rtt));
    i :| 0 <= i < |ids| && Times(ids, rtt)[i] == v;
  }

  lemma PairsByPing(nodes: set<string>, me: string, ping: map<string, int>, ids: seq<string>)
    requires Pinged(nodes, me, ping) && PairsInOrder(Distances(nodes, me, ping), ids)
    ensures forall i :: 0 <= i < |ids| ==> ids[i] in nodes
    ensures forall i, j :: 0 <= i < j < |ids| ==> Before(me, ping, ids[i], ids[j])
  {
  }

  lemma TieByPing(nodes: set<string>, me: string, ping: map<string, int>, a: string, b: string)
    requires Pinged(nodes, me, ping) && a in nodes && b in nodes
    ensures Ties(me, ping, a, b) <==> Distances(nodes, me, ping)[a] == Distances(nodes, me, ping)[b]
  {
  }

  lemma DistancesKeys(nodes: set<string>, me: string, ping: map<string, int>)
    requires Pinged(nodes, me, ping)
    ensures Distances(nodes, me, ping).Keys == nodes && |Distances(nodes, me, ping)| == |nodes|
  {
    var rtt := Distances(nodes, me, ping);
    assert rtt.Keys == nodes && |rtt| == |rtt.Keys|;
  }

  lemma EveryoneRepresented(nodes: set<string>, me: string, ping: map<string, int>, rtt: map<string, int>,
                            ids: seq<string>, id: string)
    requires Pinged(nodes, me, ping) && rtt == Distances(nodes, me, ping) && IsRanking(rtt, ids) && id in nodes
    ensures Represented(me, ping, ids, id)
  {
    var i := RankedDistance(rtt, ids, id);
    TieByPing(nodes, me, ping, id, ids[i]);
  }

  lemma RankingInOrder(nodes: set<string>, me: string, ping: map<string, int>, rtt: map<string, int>, ids: seq<string>)
    requires Pinged(nodes, me, ping) && rtt == Distances(nodes, me, ping) && IsRanking(rtt, ids)
    ensures InOrderOfPing(nodes, me, ping, ids)
  {
    DistancesKeys(nodes, me, ping);
    RankingPairs(rtt, ids);
    PairsByPing(nodes, me, ping, ids);
    forall id | id in nodes ensures Represented(me, ping, ids, id) {
      EveryoneRepresented(nodes, me, ping, rtt, ids, id);
    }
  }

  lemma RankingSelfFirst(nodes: set<string>, me: string, ping: map<string, int>, rtt: map<string, int>, ids: seq<string>)
    requires Pinged(nodes, me, ping) && rtt == Distances(nodes, me, ping) && IsRanking(rtt, ids)
    ensures SelfFirst(nodes, me, ping, ids)
  {
    if me in nodes && forall id :: id in nodes && id != me ==> id in ping && ping[id] > 0 {
      NearestFirst(rtt, ids, me);
    }
  }

  lemma RankingEachOnce(nodes: set<string>, me: string, ping: map<string, int>, rtt: map<string, int>, ids: seq<string>)
    requires Pinged(nodes, me, ping) && rtt == Distances(nodes, me, ping) && IsRanking(rtt, ids)
    ensures EachOnce(nodes, me, ping, ids)
  {
    if forall a, b :: a in nodes && b in nodes && Ties(me, ping, a, b) ==> a == b {
      forall a, b | a in rtt && b in rtt && rtt[a] == rtt[b] ensures a == b {
        TieByPing(nodes, me, ping, a, b);
      }
      RankingIsPermutationIff(rtt, ids);
    }
  }

  /** A ranking of the distances ranks the nodes by ping. */
  lemma RankingByPing(nodes: set<string>, me: string, ping: map<string, int>, ids: seq<string>)
    requires Pinged(nodes, me, ping) && IsRanking(Distances(nodes, me, ping), ids)
    ensures RankedByPing(nodes, me, ping, ids)
  {
    var rtt := Distances(nodes, me, ping);
    RankingInOrder(nodes, me, ping, rtt, ids);
    RankingSelfFirst(nodes, me, ping, rtt, ids);
    RankingEachOnce(nodes, me, ping, rtt, ids);
  }
}
