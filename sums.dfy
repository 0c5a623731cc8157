/**
  Sums and arithmetic means of the values of a finite map.

  A Python dictionary's `values()` is summed by `sum` and counted by `len`;
  the order in which `sum` visits the entries does not change an exact sum,
  so the model sums the map as an unordered collection and proves that any
  entry may be taken out first.
 */
module Sums {

  /** The outcome of an averaging query: the source's "N/A" string, or a mean. */
  datatype Average = NotApplicable | Mean(value: real)

  /** The sum of all values of `m`, each entry counted once. */
  ghost function SumValues<K>(m: map<K, real>): real
    decreases |m|
  {
    if m == map[] then 0.0
    else
      var k :| k in m;
      assert |m - {k}| == |m| - 1 by {
        assert (m - {k}).Keys == m.Keys - {k};
      }
      m[k] + SumValues(m - {k})
  }

  /** Whichever entry is taken out first, the sum is the same. */
  lemma {:induction false} SumValuesRemove<K>(m: map<K, real>, k: K)
    requires k in m
    ensures SumValues(m) == m[k] + SumValues(m - {k})
    decreases |m|
  {
    var j :| j in m && SumValues(m) == m[j] + SumValues(m - {j});
    if j != k {
      assert (m - {j}).Keys == m.Keys - {j};
      assert (m - {k}).Keys == m.Keys - {k};
      SumValuesRemove(m - {j}, k);
      SumValuesRemove(m - {k}, j);
      assert (m - {j}) - {k} == (m - {k}) - {j};
    }
  }

  /** Adding an entry under a fresh key adds its value to the sum. */
  lemma SumValuesInsert<K>(m: map<K, real>, k: K, v: real)
    requires k !in m
    ensures SumValues(m[k := v]) == SumValues(m) + v
  {
    SumValuesRemove(m[k := v], k);
    assert m[k := v] - {k} == m;
  }

  /** Overwriting the value under a key replaces its share of the sum. */
  lemma SumValuesUpdate<K>(m: map<K, real>, k: K, v: real)
    requires k in m
    ensures SumValues(m[k := v]) == SumValues(m) - m[k] + v
  {
    SumValuesRemove(m, k);
    SumValuesRemove(m[k := v], k);
    assert m[k := v] - {k} == m - {k};
  }

  /** When every value is at least `lo`, the sum is at least |m| * lo. */
  lemma {:induction false} SumValuesLowerBound<K>(m: map<K, real>, lo: real)
    requires forall k :: k in m ==> lo <= m[k]
    ensures (|m| as real) * lo <= SumValues(m)
    decreases |m|
  {
    if m == map[] {
      assert SumValues(m) == 0.0 && |m| == 0;
    } else {
      var k :| k in m;
      var rest := m - {k};
      assert rest.Keys == m.Keys - {k};
      assert |m| == |rest| + 1;
      SumValuesRemove(m, k);
      SumValuesLowerBound(rest, lo);
      LowerStep(|rest| as real, |m| as real, lo, m[k], SumValues(rest), SumValues(m));
    }
  }

  /** When every value is at most `hi`, the sum is at most |m| * hi. */
  lemma {:induction false} SumValuesUpperBound<K>(m: map<K, real>, hi: real)
    requires forall k :: k in m ==> m[k] <= hi
    ensures SumValues(m) <= (|m| as real) * hi
    decreases |m|
  {
    if m == map[] {
      assert SumValues(m) == 0.0 && |m| == 0;
    } else {
      var k :| k in m;
      var rest := m - {k};
      assert rest.Keys == m.Keys - {k};
      assert |m| == |rest| + 1;
      SumValuesRemove(m, k);
      SumValuesUpperBound(rest, hi);
      UpperStep(|rest| as real, |m| as real, hi, m[k], SumValues(rest), SumValues(m));
    }
  }

  /** One more value of at least `lo` keeps a sum of n such values at least (n + 1) * lo. */
  lemma LowerStep(n: real, n': real, lo: real, x: real, s: real, t: real)
    requires n' == n + 1.0 && t == x + s
    requires n * lo <= s && lo <= x
    ensures n' * lo <= t
  {
  }

  /** One more value of at most `hi` keeps a sum of n such values at most (n + 1) * hi. */
  lemma UpperStep(n: real, n': real, hi: real, x: real, s: real, t: real)
    requires n' == n + 1.0 && t == x + s
    requires s <= n * hi && x <= hi
    ensures t <= n' * hi
  {
  }

  /**
    The mean of the values of `m`: not applicable for an empty map, and
    otherwise the value that, multiplied by the number of entries, gives
    their sum.
   */
  ghost function MeanOf<K>(m: map<K, real>): (r: Average)
    ensures r.NotApplicable? <==> m == map[]
    ensures r.Mean? ==> r.value * (|m| as real) == SumValues(m)
  {
    if m == map[] then NotApplicable
    else Mean(SumValues(m) / (|m| as real))
  }

  /** A mean lies between any common lower and upper bound of the values. */
  lemma MeanWithin<K>(m: map<K, real>, lo: real, hi: real)
    requires forall k :: k in m ==> lo <= m[k] <= hi
    ensures MeanOf(m).Mean? ==> lo <= MeanOf(m).value <= hi
  {
    if m != map[] {
      SumValuesLowerBound(m, lo);
      SumValuesUpperBound(m, hi);
      var n := |m| as real;
      var a := MeanOf(m).value;
      assert a == SumValues(m) / n;
    }
  }
}
