/** `Array.prototype.sort` with a comparator: the stable ordering of a sequence. */
module Sorting {

  /** `before` orders: no two elements precede each other, and not-preceding is transitive. */
  ghost predicate Orders<T(!new)>(before: (T, T) -> bool) {
    && (forall x, y :: !(before(x, y) && before(y, x)))
    && (forall x, y, z :: !before(y, x) && !before(z, y) ==> !before(z, x))
  }

  ghost predicate Ordered<T>(xs: seq<T>, before: (T, T) -> bool) {
    forall i, j | 0 <= i < j < |xs| :: !before(xs[j], xs[i])
  }

  /** Behind everything it does not precede. */
  function Insert<T>(xs: seq<T>, x: T, before: (T, T) -> bool): seq<T> {
    if xs == [] || !before(x, xs[|xs|-1]) then xs + [x]
    else Insert(xs[..|xs|-1], x, before) + [xs[|xs|-1]]
  }

  function Sort<T>(xs: seq<T>, before: (T, T) -> bool): seq<T> {
    if xs == [] then [] else Insert(Sort(xs[..|xs|-1], before), xs[|xs|-1], before)
  }

  lemma {:induction false} InsertKeeps<T>(xs: seq<T>, x: T, before: (T, T) -> bool)
    ensures multiset(Insert(xs, x, before)) == multiset(xs) + multiset{x}
  {
    if xs != [] && before(x, xs[|xs|-1]) {
      InsertKeeps(xs[..|xs|-1], x, before);
      assert xs == xs[..|xs|-1] + [xs[|xs|-1]];
    }
  }

  lemma {:induction false} InsertOrders<T(!new)>(xs: seq<T>, x: T, before: (T, T) -> bool)
    requires Orders(before) && Ordered(xs, before)
    ensures Ordered(Insert(xs, x, before), before)
  {
    if xs != [] && before(x, xs[|xs|-1]) {
      var init, last := xs[..|xs|-1], xs[|xs|-1];
      InsertOrders(init, x, before);
      InsertKeeps(init, x, before);
      var out := Insert(init, x, before);
      forall i | 0 <= i < |out| ensures !before(last, out[i]) {
        assert out[i] in multiset(out);
        if out[i] != x { assert out[i] in init; }
      }
    } else if xs != [] {
      var last := xs[|xs|-1];
      forall i | 0 <= i < |xs| ensures !before(x, xs[i]) {
        if i < |xs| - 1 { assert !before(last, xs[i]); }
      }
    }
  }

  lemma LastOff<T>(xs: seq<T>)
    requires xs != []
    ensures multiset(xs) == multiset(xs[..|xs|-1]) + multiset{xs[|xs|-1]}
  {
    assert xs == xs[..|xs|-1] + [xs[|xs|-1]];
  }

  lemma {:induction false} SortKeeps<T>(xs: seq<T>, before: (T, T) -> bool)
    ensures multiset(Sort(xs, before)) == multiset(xs)
  {
    if xs != [] {
      var init, last := xs[..|xs|-1], xs[|xs|-1];
      SortKeeps(init, before);
      InsertKeeps(Sort(init, before), last, before);
      LastOff(xs);
    }
  }

  /** The sorted sequence is ordered, and holds exactly what was given. */
  lemma {:induction false} SortSorts<T(!new)>(xs: seq<T>, before: (T, T) -> bool)
    requires Orders(before)
    ensures Ordered(Sort(xs, before), before)
    ensures multiset(Sort(xs, before)) == multiset(xs)
  {
    SortKeeps(xs, before);
    if xs != [] {
      SortSorts(xs[..|xs|-1], before);
      InsertOrders(Sort(xs[..|xs|-1], before), xs[|xs|-1], before);
    }
  }

  /** Elements neither of which precedes the other stand in the order `position` says. */
  ghost predicate Stable<T>(xs: seq<T>, before: (T, T) -> bool, position: T -> int) {
    forall i, j | 0 <= i < j < |xs| && !before(xs[i], xs[j]) && !before(xs[j], xs[i]) :: position(xs[i]) < position(xs[j])
  }

  lemma {:induction false} InsertStable<T(!new)>(xs: seq<T>, x: T, before: (T, T) -> bool, position: T -> int)
    requires Orders(before) && Ordered(xs, before) && Stable(xs, before, position)
    requires forall i | 0 <= i < |xs| :: position(xs[i]) < position(x)
    ensures Stable(Insert(xs, x, before), before, position)
  {
    if xs != [] && before(x, xs[|xs|-1]) {
      var init, last := xs[..|xs|-1], xs[|xs|-1];
      InsertStable(init, x, before, position);
      var out := Insert(init, x, before);
      InsertKeeps(init, x, before);
      forall i | 0 <= i < |out| && !before(out[i], last) && !before(last, out[i]) ensures position(out[i]) < position(last) {
        assert out[i] in multiset(out);
        assert out[i] != x;
        assert out[i] in init;
      }
    }
  }

  /** The sort is stable: whatever position grows along what was given, it still orders what the comparator leaves tied. */
  lemma {:induction false} SortStable<T(!new)>(xs: seq<T>, before: (T, T) -> bool, position: T -> int)
    requires Orders(before)
    requires forall i, j | 0 <= i < j < |xs| :: position(xs[i]) < position(xs[j])
    ensures Stable(Sort(xs, before), before, position)
  {
    if xs != [] {
      var init, x := xs[..|xs|-1], xs[|xs|-1];
      var out := Sort(init, before);
      SortStable(init, before, position);
      SortSorts(init, before);
      forall i | 0 <= i < |out| ensures position(out[i]) < position(x) {
        assert out[i] in multiset(out);
        assert out[i] in init;
      }
      InsertStable(out, x, before, position);
    }
  }

  ghost predicate Distinct<T>(xs: seq<T>) {
    forall i, j | 0 <= i < j < |xs| :: xs[i] != xs[j]
  }

  lemma {:induction false} DistinctOnce<T>(xs: seq<T>, x: T)
    requires Distinct(xs)
    ensures multiset(xs)[x] <= 1
  {
    if xs != [] {
      var init := xs[..|xs|-1];
      assert xs == init + [xs[|xs|-1]];
      DistinctOnce(init, x);
      if x == xs[|xs|-1] { assert x !in init; }
    }
  }

  lemma TwiceCounts<T>(xs: seq<T>, i: nat, j: nat)
    requires i < j < |xs| && xs[i] == xs[j]
    ensures multiset(xs)[xs[i]] >= 2
  {
    assert xs == xs[..j] + [xs[j]] + xs[j+1..];
    assert xs[..j][i] == xs[i];
  }

  /** Reordering makes no element occur twice. */
  lemma DistinctStays<T>(xs: seq<T>, ys: seq<T>)
    requires Distinct(xs) && multiset(xs) == multiset(ys)
    ensures Distinct(ys)
  {
    forall i, j | 0 <= i < j < |ys| ensures ys[i] != ys[j] {
      DistinctOnce(xs, ys[i]);
      if ys[i] == ys[j] { TwiceCounts(ys, i, j); }
    }
  }
}
