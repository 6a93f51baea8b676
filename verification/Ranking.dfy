/** Ranking the nodes by round-trip time through an inverse table from time to
    node (pkg/provider/catalog/faas_client.go). */
module Ranking {
  import opened Sums

  /** The nodes at distance v. */
  function At(rtt: map<string, int>, v: int): set<string> {
    set id | id in rtt && rtt[id] == v
  }

  lemma AtRemove(rtt: map<string, int>, k: string, v: int)
    requires k in rtt
    ensures |At(rtt, v)| == |At(rtt - {k}, v)| + (if rtt[k] == v then 1 else 0)
  {
    if rtt[k] == v {
      assert At(rtt, v) == At(rtt - {k}, v) + {k};
    } else {
      assert At(rtt, v) == At(rtt - {k}, v);
    }
  }

  predicate Injective(rtt: map<string, int>) {
    forall a, b :: a in rtt && b in rtt && rtt[a] == rtt[b] ==> a == b
  }

  lemma InjectiveAt(rtt: map<string, int>, id: string)
    requires Injective(rtt) && id in rtt
    ensures |At(rtt, rtt[id])| == 1
  {
    assert At(rtt, rtt[id]) == {id};
  }

  function Times(ids: seq<string>, rtt: map<string, int>): seq<int>
    requires forall i :: 0 <= i < |ids| ==> ids[i] in rtt
  {
    seq(|ids|, i requires 0 <= i < |ids| => rtt[ids[i]])
  }

  predicate Sorted(s: seq<int>) {
    forall i, j :: 0 <= i < j < |s| ==> s[i] <= s[j]
  }

  /** ids is a ranking: its times are all the round-trip times in order, and
      nodes that tie all give way to the same one of them. */
  ghost predicate IsRanking(rtt: map<string, int>, ids: seq<string>) {
    && |ids| == |rtt|
    && (forall i :: 0 <= i < |ids| ==> ids[i] in rtt)
    && Sorted(Times(ids, rtt))
    && (forall v :: multiset(Times(ids, rtt))[v] == |At(rtt, v)|)
    && (forall i, j :: 0 <= i < j < |ids| && rtt[ids[i]] == rtt[ids[j]] ==> ids[i] == ids[j])
  }

  method Insert(s: seq<int>, x: int) returns (r: seq<int>)
    requires Sorted(s)
    ensures Sorted(r) && multiset(r) == multiset(s) + multiset{x}
  {
    var p := 0;
    while p < |s| && s[p] <= x
      invariant 0 <= p <= |s|
      invariant forall k :: 0 <= k < p ==> s[k] <= x
    {
      p := p + 1;
    }
    assert s == s[..p] + s[p..];
    r := s[..p] + [x] + s[p..];
  }

  /** slices.Sort, by insertion. */
  method Sort(s: seq<int>) returns (r: seq<int>)
    ensures Sorted(r) && multiset(r) == multiset(s)
  {
    r := [];
    for n := 0 to |s|
      invariant Sorted(r) && multiset(r) == multiset(s[..n])
    {
      assert s[..n + 1] == s[..n] + [s[n]];
      r := Insert(r, s[n]);
    }
    assert s[..|s|] == s;
  }

  /** The loop over the node catalog: collect the times, remember for each time the last node seen with it. */
  method Collect(rtt: map<string, int>) returns (times: seq<int>, byTime: map<int, string>)
    ensures |times| == |rtt| && forall v :: multiset(times)[v] == |At(rtt, v)|
    ensures forall t :: t in times <==> t in byTime
    ensures forall t :: t in byTime ==> byTime[t] in rtt && rtt[byTime[t]] == t
  {
    times, byTime := [], map[];
    var todo := rtt;
    while todo != map[]
      invariant todo.Keys <= rtt.Keys && forall k :: k in todo ==> todo[k] == rtt[k]
      invariant |times| + |todo| == |rtt|
      invariant forall v :: multiset(times)[v] + |At(todo, v)| == |At(rtt, v)|
      invariant forall t :: t in times <==> t in byTime
      invariant forall t :: t in byTime ==> byTime[t] in rtt && rtt[byTime[t]] == t
      decreases |todo|
    {
      var id :| id in todo;
      forall v { AtRemove(todo, id, v); }
      RemoveShrinks(todo, id);
      byTime := byTime[rtt[id] := id];
      times := times + [rtt[id]];
      todo := todo - {id};
    }
  }

  method Rank(rtt: map<string, int>) returns (ids: seq<string>)
    ensures IsRanking(rtt, ids)
  {
    var times, byTime := Collect(rtt);
    var sorted := Sort(times);
    assert |sorted| == |multiset(sorted)| == |multiset(times)| == |rtt|;
    ids := [];
    for i := 0 to |sorted|
      invariant |ids| == i
      invariant forall k :: 0 <= k < i ==> sorted[k] in byTime && ids[k] == byTime[sorted[k]]
    {
      assert sorted[i] in multiset(sorted);
      assert sorted[i] in multiset(times);
      ids := ids + [byTime[sorted[i]]];
    }
    assert Times(ids, rtt) == sorted;
  }

  // ------------------------------------------------------------------ what it gives

  lemma NoDupCover(ids: seq<string>, keys: set<string>)
    requires |ids| == |keys| && forall i :: 0 <= i < |ids| ==> ids[i] in keys
    requires forall i, j :: 0 <= i < j < |ids| ==> ids[i] != ids[j]
    ensures forall k :: k in keys ==> k in ids
  {
    var seen := set i | 0 <= i < |ids| :: ids[i];
    DistinctCard(ids, seen);
    assert seen <= keys;
    if k :| k in keys && k !in ids {
      assert k !in seen;
      SubsetCard(seen, keys - {k});
    }
  }

  lemma {:induction false} DistinctCard(ids: seq<string>, seen: set<string>)
    requires forall i, j :: 0 <= i < j < |ids| ==> ids[i] != ids[j]
    requires seen == set i | 0 <= i < |ids| :: ids[i]
    ensures |seen| == |ids|
  {
    if ids != [] {
      var init := ids[..|ids| - 1];
      var last := ids[|ids| - 1];
      var rest := set i | 0 <= i < |init| :: init[i];
      DistinctCard(init, rest);
      assert seen == rest + {last} by {
        forall x | x in seen ensures x in rest + {last} {
          var i :| 0 <= i < |ids| && ids[i] == x;
          if i < |init| { assert init[i] == x; }
        }
        forall x | x in rest ensures x in seen {
          var i :| 0 <= i < |init| && init[i] == x;
          assert ids[i] == x;
        }
      }
    }
  }

  /** A ranking lists every node exactly once precisely when no two nodes tie. */
  lemma RankingIsPermutationIff(rtt: map<string, int>, ids: seq<string>)
    requires IsRanking(rtt, ids)
    ensures Injective(rtt) <==>
            && (forall i, j :: 0 <= i < j < |ids| ==> ids[i] != ids[j])
            && (forall id :: id in rtt ==> id in ids)
  {
    if Injective(rtt) {
      forall i, j | 0 <= i < j < |ids| ensures ids[i] != ids[j] {
        InjectiveAt(rtt, ids[j]);
        TwiceInBag(Times(ids, rtt), i, j);
      }
      assert |rtt.Keys| == |rtt|;
      NoDupCover(ids, rtt.Keys);
    } else {
      var a, b :| a in rtt && b in rtt && rtt[a] == rtt[b] && a != b;
      assert a !in ids || b !in ids;
    }
  }

  lemma TwiceInBag(s: seq<int>, i: nat, j: nat)
    requires i < j < |s|
    ensures s[i] == s[j] ==> multiset(s)[s[j]] >= 2
  {
    assert s == s[..j] + [s[j]] + s[j + 1..];
    assert s[i] in s[..j];
  }

  /** With every peer at a positive distance, this node comes first. */
  lemma NearestFirst(rtt: map<string, int>, ids: seq<string>, me: string)
    requires IsRanking(rtt, ids) && me in rtt && rtt[me] == 0
    requires forall id :: id in rtt && id != me ==> rtt[id] > 0
    ensures ids != [] && ids[0] == me
  {
    assert me in At(rtt, 0);
    assert 0 in multiset(Times(ids, rtt));
    var k :| 0 <= k < |ids| && Times(ids, rtt)[k] == 0;
    assert Times(ids, rtt)[0] <= 0;
    assert rtt[ids[0]] <= 0;
  }

  /** Two peers at the same distance: whatever the order of the loop, one of them is left out. */
  lemma TieLosesANode(ids: seq<string>)
    requires IsRanking(map["0" := 0, "A" := 5, "B" := 5], ids)
    ensures "A" !in ids || "B" !in ids
  {
    var rtt := map["0" := 0, "A" := 5, "B" := 5];
    assert rtt["A"] == rtt["B"];
  }
}
