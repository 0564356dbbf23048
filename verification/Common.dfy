/** Small vocabulary shared by every module of the model. */
module Options {
  datatype Option<+T> = None | Some(value: T)

  /** A value from an operation that answers or raises. */
  datatype Result<+T, +E> = Ok(value: T) | Err(error: E)

  /** A JavaScript number as an argument check sees it: whole, or anything else (a fraction, NaN, an infinity). */
  datatype Number = Whole(n: int) | NotWhole
}

/** Adding up a table: the sum of a weight over the rows of a finite map. */
module Sums {

  ghost function Pick<K, V>(m: map<K, V>): (k: K)
    requires m != map[]
    ensures k in m
  {
    var k :| k in m;
    k
  }

  ghost function Sum<K, V>(m: map<K, V>, weight: (K, V) -> int): int
    decreases |m|
  {
    if m == map[] then 0
    else
      var k := Pick(m);
      assert m.Keys - {k} == (m - {k}).Keys;
      weight(k, m[k]) + Sum(m - {k}, weight)
  }

  /** Any row can be taken out first. */
  lemma {:induction false} SumSplit<K, V>(m: map<K, V>, weight: (K, V) -> int, k: K)
    requires k in m
    ensures Sum(m, weight) == weight(k, m[k]) + Sum(m - {k}, weight)
    decreases |m|
  {
    var p := Pick(m);
    if p != k {
      assert (m - {p}).Keys == m.Keys - {p};
      SumSplit(m - {p}, weight, k);
      assert (m - {k}).Keys == m.Keys - {k};
      SumSplit(m - {k}, weight, p);
      assert m - {p} - {k} == m - {k} - {p};
    }
  }

  /** Writing a row adds its weight, and takes away the weight of the row it replaced. */
  lemma SumWrite<K, V>(m: map<K, V>, weight: (K, V) -> int, k: K, v: V)
    ensures Sum(m[k := v], weight) == Sum(m, weight) + weight(k, v) - (if k in m then weight(k, m[k]) else 0)
  {
    SumSplit(m[k := v], weight, k);
    assert m[k := v] - {k} == m - {k};
    if k in m {
      SumSplit(m, weight, k);
    } else {
      assert m - {k} == m;
    }
  }

  lemma {:induction false} SumZero<K, V>(m: map<K, V>, weight: (K, V) -> int)
    requires forall k :: k in m ==> weight(k, m[k]) == 0
    ensures Sum(m, weight) == 0
    decreases |m|
  {
    if m != map[] {
      var p := Pick(m);
      assert (m - {p}).Keys == m.Keys - {p};
      SumZero(m - {p}, weight);
    }
  }

  /** No row weighs less than nothing, so no row weighs more than the whole. */
  lemma {:induction false} SumBound<K, V>(m: map<K, V>, weight: (K, V) -> int, k: K)
    requires forall j :: j in m ==> 0 <= weight(j, m[j])
    requires k in m
    ensures 0 <= weight(k, m[k]) <= Sum(m, weight)
  {
    SumSplit(m, weight, k);
    SumNonNegative(m - {k}, weight);
  }

  lemma {:induction false} SumNonNegative<K, V>(m: map<K, V>, weight: (K, V) -> int)
    requires forall j :: j in m ==> 0 <= weight(j, m[j])
    ensures 0 <= Sum(m, weight)
    decreases |m|
  {
    if m != map[] {
      var p := Pick(m);
      assert (m - {p}).Keys == m.Keys - {p};
      SumNonNegative(m - {p}, weight);
    }
  }
}
