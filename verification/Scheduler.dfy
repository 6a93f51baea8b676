/** Choosing the node that serves a request, weighted by execution time
    (weightExecTimeScheduler in pkg/provider/handlers/trigger.go), over exact reals. */
module Scheduler {
  import opened Sums
  import opened CatalogModel
  import opened Strings

  const WEIGHT_FACTOR: nat := 4
  const OVERLOAD_PENALTY: nat := 4
  /** The largest int of the weighted-random library, which refuses a larger sum of weights. */
  const MAX_INT: nat := 0x7fff_ffff_ffff_ffff

  // ------------------------------------------------------------ powers and products

  function Power(x: real, n: nat): real {
    if n == 0 then 1.0 else x * Power(x, n - 1)
  }

  lemma {:induction false} PowerAtLeastOne(x: real, n: nat)
    requires x >= 1.0
    ensures Power(x, n) >= 1.0
  {
    if n > 0 {
      PowerAtLeastOne(x, n - 1);
      MulMono(1.0, x, 1.0, Power(x, n - 1));
    }
  }

  lemma MulMono(a: real, b: real, c: real, d: real)
    requires 0.0 <= a <= b && 0.0 <= c <= d
    ensures a * c <= b * d
  {
    assert a * c <= a * d;
    assert a * d <= b * d;
  }

  lemma {:induction false} PowerGrows(x: real, n: nat, y: real, m: nat)
    requires 1.0 <= x <= y && n <= m
    ensures Power(x, n) <= Power(y, m)
    decreases m
  {
    if n == 0 {
      PowerAtLeastOne(y, m);
    } else {
      PowerGrows(x, n - 1, y, m - 1);
      PowerAtLeastOne(x, n - 1);
      MulMono(x, y, Power(x, n - 1), Power(y, m - 1));
    }
  }

  ghost function Fold(m: map<string, real>, op: (real, real) -> real): real
    decreases |m|
  {
    if m == map[] then 1.0
    else
      var k :| k in m;
      assert |m - {k}| < |m| by { RemoveShrinks(m, k); }
      op(m[k], Fold(m - {k}, op))
  }

  predicate CommutesAt(op: (real, real) -> real, a: real, b: real, c: real) {
    op(a, op(b, c)) == op(b, op(a, c))
  }

  ghost predicate LeftCommutes(op: (real, real) -> real) {
    forall a, b, c :: CommutesAt(op, a, b, c)
  }

  /** Any entry can be folded in last, so the result does not depend on the order. */
  lemma {:induction false} FoldRemove(m: map<string, real>, op: (real, real) -> real, k: string)
    requires k in m && LeftCommutes(op)
    ensures Fold(m, op) == op(m[k], Fold(m - {k}, op))
    decreases |m|
  {
    var c :| c in m && Fold(m, op) == op(m[c], Fold(m - {c}, op));
    RemoveShrinks(m, c);
    if c != k {
      FoldRemove(m - {c}, op, k);
      RemoveShrinks(m, k);
      FoldRemove(m - {k}, op, c);
      assert (m - {c}) - {k} == (m - {k}) - {c};
      var r := Fold((m - {c}) - {k}, op);
      assert Fold(m - {c}, op) == op(m[k], r) && Fold(m - {k}, op) == op(m[c], r);
      assert CommutesAt(op, m[c], m[k], r);
    }
  }

  function Mul(a: real, b: real): real { a * b }

  lemma MulCommutes()
    ensures LeftCommutes(Mul)
  {
    forall a, b, c ensures CommutesAt(Mul, a, b, c) {
      assert a * (b * c) == b * (a * c);
    }
  }

  ghost function Product(m: map<string, real>): real { Fold(m, Mul) }

  lemma ProductRemove(m: map<string, real>, k: string)
    requires k in m
    ensures Product(m) == m[k] * Product(m - {k})
  {
    assert Fold(m, Mul) == Mul(m[k], Fold(m - {k}, Mul)) by {
      MulCommutes();
      FoldRemove(m, Mul, k);
    }
  }

  lemma ProductInsert(m: map<string, real>, k: string, x: real)
    requires k !in m
    ensures Product(m[k := x]) == Product(m) * x
  {
    ProductRemove(m[k := x], k);
    assert m[k := x] - {k} == m;
  }

  lemma {:induction false} ProductAtLeastOne(m: map<string, real>)
    requires forall k :: k in m ==> m[k] >= 1.0
    ensures Product(m) >= 1.0
    decreases |m|
  {
    if m != map[] {
      var k :| k in m;
      ProductRemove(m, k);
      RemoveShrinks(m, k);
      ProductAtLeastOne(m - {k});
      MulMono(1.0, m[k], 1.0, Product(m - {k}));
    }
  }

  // -------------------------------------------------------------------- the weights

  /** The execution times of the nodes that hold a replica of f. */
  function Eligible(nodes: map<string, NodeInfo>, f: string): map<string, int>
    requires forall id :: id in nodes ==> HasTimes(nodes[id])
  {
    map id | id in nodes && Count(nodes[id], f) > 0 :: assert HasTimes(nodes[id]); nodes[id].execTime[f]
  }

  predicate IsMin(times: map<string, int>, min: int) {
    (exists id :: id in times && times[id] == min) && forall id :: id in times ==> min <= times[id]
  }

  function Exponent(overload: bool): nat {
    if overload then WEIGHT_FACTOR + OVERLOAD_PENALTY else WEIGHT_FACTOR
  }

  /** How slow a node counts: its time relative to the fastest, to the fourth
      power, or to the eighth when it is overloaded. */
  function Slowness(time: int, min: int, overload: bool): real
    requires min > 0
  {
    Power(time as real / min as real, Exponent(overload))
  }

  lemma {:induction false} PowerSum(x: real, m: nat, n: nat)
    ensures Power(x, m + n) == Power(x, m) * Power(x, n)
  {
    if m > 0 {
      PowerSum(x, m - 1, n);
      MulAssoc(x, Power(x, m - 1), Power(x, n));
    }
  }

  lemma MulAssoc(a: real, b: real, c: real)
    ensures a * (b * c) == (a * b) * c
  {
  }

  lemma FourthPower(x: real)
    ensures Power(x, 4) == x * (x * (x * x))
  {
    assert Power(x, 1) == x && Power(x, 2) == x * x && Power(x, 3) == x * (x * x);
  }

  /** A node that is not overloaded counts as slow as the fourth power of its
      relative time; an overloaded one as slow as the square of that. */
  lemma OverloadSquares(time: int, min: int)
    requires min > 0
    ensures var x := time as real / min as real; Slowness(time, min, false) == x * (x * (x * x))
    ensures Slowness(time, min, true) == Slowness(time, min, false) * Slowness(time, min, false)
  {
    var x := time as real / min as real;
    FourthPower(x);
    PowerSum(x, 4, 4);
  }

  function SlownessTable(nodes: map<string, NodeInfo>, times: map<string, int>, min: int): map<string, real>
    requires times.Keys <= nodes.Keys && min > 0
  {
    map id | id in times :: Slowness(times[id], min, nodes[id].overload)
  }

  /** The weight of a node: ten times the product of all over its own slowness, rounded down. */
  ghost function Weight(slow: map<string, real>, id: string): int
    requires id in slow && slow[id] >= 1.0
  {
    (Product(slow) / slow[id] * 10.0).Floor
  }

  ghost function Weights(slow: map<string, real>): map<string, nat>
    requires forall id :: id in slow ==> slow[id] >= 1.0
  {
    map id | id in slow :: WeightNat(slow, id)
  }

  ghost function WeightNat(slow: map<string, real>, id: string): nat
    requires id in slow && forall id :: id in slow ==> slow[id] >= 1.0
  {
    WeightAtLeastTen(slow, id);
    Weight(slow, id)
  }

  lemma DivMul(a: real, p: real, q: real)
    requires a >= 1.0 && p == a * q
    ensures p / a == q
  {
    assert (a * q) / a == q;
  }

  /** Every node gets weight at least ten. */
  lemma WeightAtLeastTen(slow: map<string, real>, id: string)
    requires id in slow && forall id :: id in slow ==> slow[id] >= 1.0
    ensures Weight(slow, id) >= 10
  {
    ProductRemove(slow, id);
    var rest := Product(slow - {id});
    ProductAtLeastOne(slow - {id});
    DivMul(slow[id], Product(slow), rest);
  }

  lemma DivAnti(p: real, a: real, b: real)
    requires p >= 0.0 && 1.0 <= a <= b
    ensures p / b <= p / a
  {
    var x, y := p / a, p / b;
    assert x * a == p && y * b == p;
    assert x >= 0.0 && x * b >= x * a;
  }

  /** The less slow of two nodes never gets the smaller weight. */
  lemma WeightMonotone(slow: map<string, real>, a: string, b: string)
    requires a in slow && b in slow && forall id :: id in slow ==> slow[id] >= 1.0
    requires slow[a] <= slow[b]
    ensures Weight(slow, a) >= Weight(slow, b)
  {
    ProductAtLeastOne(slow);
    DivAnti(Product(slow), slow[a], slow[b]);
  }

  lemma RatioAtLeastOne(time: int, min: int)
    requires 0 < min <= time
    ensures time as real / min as real >= 1.0
  {
    var x := time as real / min as real;
    assert x * (min as real) == time as real;
    if x < 1.0 {
      assert x * (min as real) < 1.0 * (min as real);
    }
  }

  lemma RatioMono(s: int, t: int, min: int)
    requires 0 < min && s <= t
    ensures s as real / min as real <= t as real / min as real
  {
  }

  lemma SlownessAtLeastOne(nodes: map<string, NodeInfo>, times: map<string, int>, min: int)
    requires times.Keys <= nodes.Keys && min > 0 && forall id :: id in times ==> min <= times[id]
    ensures forall id :: id in times ==> SlownessTable(nodes, times, min)[id] >= 1.0
  {
    forall id | id in times ensures Slowness(times[id], min, nodes[id].overload) >= 1.0 {
      RatioAtLeastOne(times[id], min);
      PowerAtLeastOne(times[id] as real / min as real, Exponent(nodes[id].overload));
    }
  }

  /** A node that is no slower, and not overloaded unless the other is, never
      gets a smaller weight. */
  lemma FasterWeighsMore(nodes: map<string, NodeInfo>, times: map<string, int>, min: int, a: string, b: string)
    requires times.Keys <= nodes.Keys && IsMin(times, min) && min > 0
    requires a in times && b in times && times[a] <= times[b] && (nodes[a].overload ==> nodes[b].overload)
    ensures var slow := SlownessTable(nodes, times, min);
            slow[a] >= 1.0 && slow[b] >= 1.0 && Weight(slow, a) >= Weight(slow, b)
  {
    SlownessAtLeastOne(nodes, times, min);
    RatioMono(times[a], times[b], min);
    RatioAtLeastOne(times[a], min);
    PowerGrows(times[a] as real / min as real, Exponent(nodes[a].overload),
               times[b] as real / min as real, Exponent(nodes[b].overload));
    WeightMonotone(SlownessTable(nodes, times, min), a, b);
  }

  // ------------------------------------------------------------------ the scheduler

  predicate Timed(nodes: map<string, NodeInfo>) {
    forall id :: id in nodes ==> HasTimes(nodes[id])
  }

  /** A node with a replica that has not been timed since it got it. */
  predicate IsFresh(nodes: map<string, NodeInfo>, f: string, id: string)
    requires Timed(nodes)
  {
    id in Eligible(nodes, f) && Eligible(nodes, f)[id] == 1
  }

  /** First loop, over the nodes in any order: stops at a fresh node, else
      collects the times of the replica holders and their minimum. */
  method CollectTimes(nodes: map<string, NodeInfo>, f: string)
    returns (freshNode: Option<string>, raw: map<string, int>, min: int)
    requires Timed(nodes)
    ensures freshNode.Some? ==> IsFresh(nodes, f, freshNode.value)
    ensures freshNode.None? ==> raw == Eligible(nodes, f) && forall id :: id in nodes ==> !IsFresh(nodes, f, id)
    ensures freshNode.None? && raw != map[] ==> IsMin(raw, min)
  {
    freshNode, raw, min := None, map[], 0;
    var todo := nodes.Keys;
    ghost var all := Eligible(nodes, f);
    while todo != {}
      invariant todo <= nodes.Keys
      invariant raw.Keys == all.Keys - todo && forall id :: id in raw ==> raw[id] == all[id]
      invariant forall id :: id in nodes && id !in todo ==> !IsFresh(nodes, f, id)
      invariant raw != map[] ==> IsMin(raw, min)
    {
      var id :| id in todo;
      if f in nodes[id].replicas && nodes[id].replicas[f] > 0 {
        assert HasTimes(nodes[id]);
        var time := nodes[id].execTime[f];
        if time == 1 {
          freshNode := Some(id);
          return;
        }
        if raw == map[] || time < min {
          min := time;
        }
        MinMore(raw, id, time, min);
        raw := raw[id := time];
      }
      todo := todo - {id};
    }
    assert raw == all;
  }

  lemma MinMore(raw: map<string, int>, id: string, time: int, min: int)
    requires id !in raw
    requires if raw == map[] then min == time
             else exists m :: IsMin(raw, m) && min == if time < m then time else m
    ensures IsMin(raw[id := time], min)
  {
    if raw == map[] || min == time {
      assert raw[id := time][id] == min;
    } else {
      var k :| k in raw && raw[k] == min;
      assert raw[id := time][k] == min;
    }
  }

  /** Second loop: the slowness of each holder and the product of all. */
  method ComputeSlowness(nodes: map<string, NodeInfo>, raw: map<string, int>, min: int)
    returns (slow: map<string, real>, prod: real)
    requires raw.Keys <= nodes.Keys && min > 0
    ensures slow == SlownessTable(nodes, raw, min) && prod == Product(slow)
  {
    slow, prod := map[], 1.0;
    var todo := raw.Keys;
    ghost var all := SlownessTable(nodes, raw, min);
    while todo != {}
      invariant todo <= raw.Keys
      invariant slow.Keys == raw.Keys - todo && forall id :: id in slow ==> slow[id] == all[id]
      invariant prod == Product(slow)
    {
      var id :| id in todo;
      var execTime := raw[id] as real / min as real;
      var factor := WEIGHT_FACTOR;
      if nodes[id].overload {
        factor := factor + OVERLOAD_PENALTY;
      }
      var weighted := RaiseTo(execTime, factor);
      ProductInsert(slow, id, weighted);
      prod := prod * weighted;
      slow := slow[id := weighted];
      todo := todo - {id};
    }
    assert slow == all;
  }

  method RaiseTo(x: real, factor: nat) returns (r: real)
    requires factor > 0
    ensures r == Power(x, factor)
  {
    r := x;
    for i := 1 to factor
      invariant r == Power(x, i)
    {
      r := r * x;
    }
  }

  /** Third loop: the choices offered to the weighted-random library, and their total. */
  method ComputeWeights(slow: map<string, real>, prod: real) returns (weights: map<string, nat>, total: nat)
    requires (forall id :: id in slow ==> slow[id] >= 1.0) && prod == Product(slow)
    ensures weights == Weights(slow) && total == Sum(weights)
  {
    weights, total := map[], 0;
    var todo := slow.Keys;
    ghost var all := Weights(slow);
    while todo != {}
      invariant todo <= slow.Keys
      invariant weights.Keys == slow.Keys - todo && forall id :: id in weights ==> weights[id] == all[id]
      invariant total == Sum(weights)
    {
      var id :| id in todo;
      WeightAtLeastTen(slow, id);
      var probability := (prod / slow[id] * 10.0).Floor;
      SumUpdate(weights, id, probability);
      total := total + probability;
      weights := weights[id := probability];
      todo := todo - {id};
    }
    assert weights == all;
  }

  /** The same loops when the fastest time is 0: its ratio to itself is not a
      number, hence neither is the product nor any weight, and every choice gets
      the integer nan that the platform converts not-a-number to. */
  method ComputeEqualWeights(raw: map<string, int>, nan: nat) returns (weights: map<string, nat>, total: nat)
    ensures weights == EqualWeights(raw, nan) && total == Sum(weights)
  {
    weights, total := map[], 0;
    var todo := raw.Keys;
    while todo != {}
      invariant todo <= raw.Keys
      invariant weights.Keys == raw.Keys - todo && forall id :: id in weights ==> weights[id] == nan
      invariant total == Sum(weights)
    {
      var id :| id in todo;
      SumUpdate(weights, id, nan);
      total := total + nan;
      weights := weights[id := nan];
      todo := todo - {id};
    }
    assert weights == EqualWeights(raw, nan);
  }

  function EqualWeights(raw: map<string, int>, nan: nat): map<string, nat> {
    map id | id in raw :: nan
  }
}
