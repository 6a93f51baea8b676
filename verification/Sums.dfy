/** Sums of finite tables of counts. A Go loop over a map visits the entries in
    no fixed order, so the sum is defined by an arbitrary choice and the lemmas
    below show that the choice does not matter. */
module Sums {

  ghost function Sum(m: map<string, nat>): nat
    decreases |m|
  {
    if m == map[] then 0
    else
      var k :| k in m;
      assert |m - {k}| < |m| by { RemoveShrinks(m, k); }
      m[k] + Sum(m - {k})
  }

  lemma RemoveShrinks<T>(m: map<string, T>, k: string)
    requires k in m
    ensures |m - {k}| == |m| - 1
  {
    assert (m - {k}).Keys == m.Keys - {k};
    assert |(m - {k}).Keys| == |m - {k}| && |m.Keys| == |m|;
  }

  /** Any entry can be taken out first. */
  lemma {:induction false} SumRemove(m: map<string, nat>, k: string)
    requires k in m
    ensures Sum(m) == m[k] + Sum(m - {k})
    decreases |m|
  {
    var c :| c in m && Sum(m) == m[c] + Sum(m - {c});
    RemoveShrinks(m, c);
    if c != k {
      SumRemove(m - {c}, k);
      RemoveShrinks(m, k);
      SumRemove(m - {k}, c);
      assert (m - {c}) - {k} == (m - {k}) - {c};
    }
  }

  lemma SumUpdate(m: map<string, nat>, k: string, v: nat)
    ensures Sum(m[k := v]) + (if k in m then m[k] else 0) == Sum(m) + v
  {
    SumRemove(m[k := v], k);
    if k in m {
      SumRemove(m, k);
      assert m[k := v] - {k} == m - {k};
    } else {
      assert m[k := v] - {k} == m;
    }
  }

  lemma SumBounds(m: map<string, nat>, k: string)
    requires k in m
    ensures m[k] <= Sum(m)
  {
    SumRemove(m, k);
  }

  lemma {:induction false} SumZero(m: map<string, nat>)
    ensures Sum(m) == 0 <==> forall k :: k in m ==> m[k] == 0
    decreases |m|
  {
    if m != map[] {
      var c :| c in m;
      SumRemove(m, c);
      RemoveShrinks(m, c);
      SumZero(m - {c});
      assert forall k :: k in m ==> k == c || k in m - {c};
    }
  }

  /** Renaming one key does not change the sum. */
  lemma SumRename(m: map<string, nat>, m': map<string, nat>, k: string, k': string)
    requires k in m && k' in m' && m[k] == m'[k']
    requires m - {k} == m' - {k'}
    ensures Sum(m) == Sum(m')
  {
    SumRemove(m, k);
    SumRemove(m', k');
  }

  /** A subset has no more elements, a proper one has fewer. */
  lemma {:induction false} SubsetCard<T>(a: set<T>, b: set<T>)
    requires a <= b
    ensures |a| <= |b|
    ensures a < b ==> |a| < |b|
  {
    if a != {} {
      var x :| x in a;
      SubsetCard(a - {x}, b - {x});
    } else if b != {} {
      var x :| x in b;
      assert |b| == |b - {x}| + 1;
    }
  }
}

module Powers {

  function TwoToThe(n: nat): nat { if n == 0 then 1 else 2 * TwoToThe(n - 1) }
}
