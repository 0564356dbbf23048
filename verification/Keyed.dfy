/** A JavaScript `Map` from strings, as its keys were first set: each key once, in that order, with its latest value. */
module Keyed {
  import opened Sorting

  ghost predicate IsFirst<T>(xs: seq<T>, key: T -> string, k: string, at: nat) {
    at <= |xs| && (at < |xs| ==> key(xs[at]) == k) && forall i | 0 <= i < at :: key(xs[i]) != k
  }

  lemma {:induction false} HasFirst<T>(xs: seq<T>, key: T -> string, k: string)
    ensures exists at: nat :: IsFirst(xs, key, k, at)
  {
    if xs == [] {
      assert IsFirst(xs, key, k, 0);
    } else {
      HasFirst(xs[..|xs|-1], key, k);
      var at: nat :| IsFirst(xs[..|xs|-1], key, k, at);
      assert IsFirst(xs, key, k, if at < |xs| - 1 || key(xs[|xs|-1]) == k then at else |xs|);
    }
  }

  /** Where a key first occurs, or the length. */
  ghost function FirstAt<T>(xs: seq<T>, key: T -> string, k: string): (at: nat)
    ensures IsFirst(xs, key, k, at)
  {
    HasFirst(xs, key, k);
    var at: nat :| IsFirst(xs, key, k, at);
    at
  }

  lemma FirstOnly<T>(xs: seq<T>, key: T -> string, k: string, at: nat)
    requires IsFirst(xs, key, k, at)
    ensures FirstAt(xs, key, k) == at
  {
  }

  lemma FirstAtMore<T>(xs: seq<T>, x: T, key: T -> string, k: string)
    ensures FirstAt(xs + [x], key, k) ==
            if FirstAt(xs, key, k) < |xs| then FirstAt(xs, key, k) else if key(x) == k then |xs| else |xs| + 1
  {
    var at := FirstAt(xs, key, k);
    FirstOnly(xs + [x], key, k, if at < |xs| || key(x) == k then at else |xs| + 1);
  }

  lemma FirstAtIn<T>(xs: seq<T>, i: nat, key: T -> string, k: string)
    requires i < |xs| && key(xs[i]) == k
    ensures FirstAt(xs, key, k) <= i
  {
  }

  /** `map.set(key(x), x)`, over the map's values. */
  ghost function Set<T>(values: seq<T>, x: T, key: T -> string): seq<T> {
    var at := FirstAt(values, key, key(x));
    if at < |values| then values[at := x] else values + [x]
  }

  /** The values once every element is set under its key. */
  ghost function Unique<T>(xs: seq<T>, key: T -> string): seq<T> {
    if xs == [] then [] else Set(Unique(xs[..|xs|-1], key), xs[|xs|-1], key)
  }

  /** The values are of the elements, in the order their keys first occur, and no key is missing. */
  ghost predicate Firsts<T>(values: seq<T>, xs: seq<T>, key: T -> string) {
    && (forall i, j | 0 <= i < j < |values| :: FirstAt(xs, key, key(values[i])) < FirstAt(xs, key, key(values[j])))
    && (forall i | 0 <= i < |values| :: values[i] in xs && FirstAt(xs, key, key(values[i])) < |xs|)
    && Covers(values, xs, key)
  }

  ghost predicate Covers<T>(values: seq<T>, xs: seq<T>, key: T -> string) {
    forall n | 0 <= n < |xs| :: FirstAt(values, key, key(xs[n])) < |values|
  }

  /** Every key of the elements and of one more is among the values it is set in. */
  lemma SetCovers<T>(values: seq<T>, xs: seq<T>, x: T, key: T -> string)
    requires Covers(values, xs, key)
    ensures Covers(Set(values, x, key), xs + [x], key)
  {
    var more, all := Set(values, x, key), xs + [x];
    forall n | 0 <= n < |all| ensures FirstAt(more, key, key(all[n])) < |more| {
      var k := if n < |xs| then FirstAt(values, key, key(xs[n])) else FirstAt(values, key, key(x));
      assert k < |more| && key(more[k]) == key(all[n]);
      FirstAtIn(more, k, key, key(all[n]));
    }
  }

  lemma FirstAtStays<T>(xs: seq<T>, x: T, key: T -> string, k: string)
    requires FirstAt(xs, key, k) < |xs|
    ensures FirstAt(xs + [x], key, k) == FirstAt(xs, key, k)
  {
    FirstAtMore(xs, x, key, k);
  }

  /** One element more moves no key that occurred before. */
  lemma FirstsMore<T>(values: seq<T>, xs: seq<T>, x: T, key: T -> string)
    requires Firsts(values, xs, key)
    ensures forall i | 0 <= i < |values| :: FirstAt(xs + [x], key, key(values[i])) == FirstAt(xs, key, key(values[i]))
  {
    forall i | 0 <= i < |values| ensures FirstAt(xs + [x], key, key(values[i])) == FirstAt(xs, key, key(values[i])) {
      FirstAtStays(xs, x, key, key(values[i]));
    }
  }

  lemma StandsStill<T>(values: seq<T>, xs: seq<T>, x: T, key: T -> string, i: nat)
    requires Firsts(values, xs, key) && FirstAt(values, key, key(x)) < |values| && i < |values|
    ensures FirstAt(xs + [x], key, key(Set(values, x, key)[i])) == FirstAt(xs, key, key(values[i]))
    ensures Set(values, x, key)[i] in xs + [x]
  {
    assert key(Set(values, x, key)[i]) == key(values[i]);
    FirstAtStays(xs, x, key, key(values[i]));
    assert (xs + [x])[|xs|] == x && values[i] in xs;
  }

  /** A key set before: its value is replaced where it stands. */
  lemma SetAgain<T>(values: seq<T>, xs: seq<T>, x: T, key: T -> string)
    requires Firsts(values, xs, key) && FirstAt(values, key, key(x)) < |values|
    ensures Firsts(Set(values, x, key), xs + [x], key)
  {
    var more, all := Set(values, x, key), xs + [x];
    forall i | 0 <= i < |more|
      ensures FirstAt(all, key, key(more[i])) == FirstAt(xs, key, key(values[i])) && more[i] in all
    {
      StandsStill(values, xs, x, key, i);
    }
    SetCovers(values, xs, x, key);
  }

  /** A key not set before: none of the elements had it. */
  lemma SetNew<T>(values: seq<T>, xs: seq<T>, x: T, key: T -> string)
    requires Firsts(values, xs, key) && FirstAt(values, key, key(x)) == |values|
    ensures Firsts(Set(values, x, key), xs + [x], key)
  {
    var more, all := values + [x], xs + [x];
    FirstsMore(values, xs, x, key);
    NeverSet(values, xs, x, key);
    forall i | 0 <= i < |more| ensures more[i] in all {
      if i < |values| { assert values[i] in xs; } else { assert all[|xs|] == x; }
    }
    SetCovers(values, xs, x, key);
  }

  lemma NeverSet<T>(values: seq<T>, xs: seq<T>, x: T, key: T -> string)
    requires Firsts(values, xs, key) && FirstAt(values, key, key(x)) == |values|
    ensures FirstAt(xs + [x], key, key(x)) == |xs|
  {
    assert forall n | 0 <= n < |xs| :: key(xs[n]) != key(x);
    FirstOnly(xs + [x], key, key(x), |xs|);
  }

  lemma {:induction false} UniqueExact<T>(xs: seq<T>, key: T -> string)
    ensures Firsts(Unique(xs, key), xs, key)
  {
    if xs != [] {
      var init, last := xs[..|xs|-1], xs[|xs|-1];
      assert xs == init + [last];
      UniqueExact(init, key);
      if FirstAt(Unique(init, key), key, key(last)) < |Unique(init, key)| {
        SetAgain(Unique(init, key), init, last, key);
      } else {
        SetNew(Unique(init, key), init, last, key);
      }
    }
  }

  /** A map, beside its keys in the order they were first set. */
  ghost predicate Keeps<T>(keys: seq<string>, entries: map<string, T>, key: T -> string) {
    && (forall i, j | 0 <= i < j < |keys| :: keys[i] != keys[j])
    && (forall i | 0 <= i < |keys| :: keys[i] in entries && key(entries[keys[i]]) == keys[i])
    && (forall k | k in entries :: k in keys)
  }

  /** `[...map.values()]`. */
  function Values<T>(keys: seq<string>, entries: map<string, T>): seq<T>
    requires forall i | 0 <= i < |keys| :: keys[i] in entries
  {
    seq(|keys|, i requires 0 <= i < |keys| => entries[keys[i]])
  }

  lemma KeepsAgain<T>(keys: seq<string>, entries: map<string, T>, x: T, key: T -> string)
    requires Keeps(keys, entries, key) && key(x) in entries
    ensures Keeps(keys, entries[key(x) := x], key)
    ensures Values(keys, entries[key(x) := x]) == Set(Values(keys, entries), x, key)
  {
    var values, at := Values(keys, entries), FirstAt(Values(keys, entries), key, key(x));
    var i :| 0 <= i < |keys| && keys[i] == key(x);
    FirstAtIn(values, i, key, key(x));
    assert key(values[at]) == keys[at];
    assert at == i;
  }

  lemma KeepsNew<T>(keys: seq<string>, entries: map<string, T>, x: T, key: T -> string)
    requires Keeps(keys, entries, key) && key(x) !in entries
    ensures Keeps(keys + [key(x)], entries[key(x) := x], key)
    ensures Values(keys + [key(x)], entries[key(x) := x]) == Set(Values(keys, entries), x, key)
  {
    var values := Values(keys, entries);
    forall i | 0 <= i < |keys| ensures key(values[i]) != key(x) { assert keys[i] in entries; }
  }

  /** Elements with different keys keep them different in any order, and none is lost. */
  lemma {:induction false} ReorderedKeys<T(!new)>(values: seq<T>, ordered: seq<T>, key: T -> string)
    requires forall i, j | 0 <= i < j < |values| :: key(values[i]) != key(values[j])
    requires multiset(ordered) == multiset(values)
    ensures forall i, j | 0 <= i < j < |ordered| :: key(ordered[i]) != key(ordered[j])
    ensures forall i | 0 <= i < |values| :: FirstAt(ordered, key, key(values[i])) < |ordered|
  {
    DistinctStays(values, ordered);
    forall i, j | 0 <= i < j < |ordered| ensures key(ordered[i]) != key(ordered[j]) {
      assert ordered[i] in multiset(ordered) && ordered[j] in multiset(ordered);
      assert ordered[i] in values && ordered[j] in values && ordered[i] != ordered[j];
    }
    forall i | 0 <= i < |values| ensures FirstAt(ordered, key, key(values[i])) < |ordered| {
      assert values[i] in multiset(values);
      assert values[i] in ordered;
      var k :| 0 <= k < |ordered| && ordered[k] == values[i];
      FirstAtIn(ordered, k, key, key(values[i]));
    }
  }
}
