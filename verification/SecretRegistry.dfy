/** Merging every capability's slice into the combined registry, and refusing names a Worker could not bind. */
module SecretRegistry {
  import opened Options
  import opened Strings

  datatype Entry = Entry(backend: string, scope: string, valueType: string, rotatable: bool, keyed: Option<bool>)

  /** A capability may declare no slice; a slice lists its names once each. */
  datatype Capability = Capability(name: string, slice: Option<seq<(string, Entry)>>)

  /** One declaration, and the capability it is from. */
  datatype Declaration = Declaration(name: string, entry: Entry, owner: string)

  datatype Refusal =
    | Conflict(name: string, first: string, second: string)
    | Unbindable(name: string, binding: string)
    | SameBinding(one: string, other: string, binding: string)

  /** `Boolean(keyed)`: an absent flag is false. */
  predicate Keyed(entry: Entry) {
    entry.keyed == Some(true)
  }

  /** On every axis. */
  predicate Agree(a: Entry, b: Entry) {
    a.backend == b.backend && a.scope == b.scope && a.valueType == b.valueType && a.rotatable == b.rotatable && Keyed(a) == Keyed(b)
  }

  /** Every declaration, in the order the capabilities are composed. */
  function Declared(caps: seq<Capability>): seq<Declaration> {
    if caps == [] then [] else Declared(caps[..|caps|-1]) + SliceOf(caps[|caps|-1])
  }

  function SliceOf(cap: Capability): seq<Declaration> {
    if cap.slice.None? then []
    else
      var slice := cap.slice.value;
      seq(|slice|, i requires 0 <= i < |slice| => Declaration(slice[i].0, slice[i].1, cap.name))
  }

  predicate Consistent(decls: seq<Declaration>) {
    forall i, j | 0 <= i < j < |decls| && decls[i].name == decls[j].name :: Agree(decls[i].entry, decls[j].entry)
  }

  /** Declarations are consistent exactly when any two of one name have one backend, scope, type and rotation, and are keyed or not alike. */
  lemma {:induction false} ConsistentExact(decls: seq<Declaration>)
    ensures Consistent(decls) <==>
            forall i, j | 0 <= i < |decls| && 0 <= j < |decls| && decls[i].name == decls[j].name ::
              var a, b := decls[i].entry, decls[j].entry;
              && a.backend == b.backend && a.scope == b.scope && a.valueType == b.valueType && a.rotatable == b.rotatable
              && (a.keyed == Some(true) <==> b.keyed == Some(true))
  {
    forall i, j | 0 <= i < j < |decls| && decls[i].name == decls[j].name && Agree(decls[i].entry, decls[j].entry)
      ensures Agree(decls[j].entry, decls[i].entry)
    {
    }
  }

  /** The first declaration of a name. */
  function First(decls: seq<Declaration>, name: string): (d: Option<Declaration>)
    ensures d.Some? ==> d.value in decls && d.value.name == name
    ensures d.None? ==> forall i | 0 <= i < |decls| :: decls[i].name != name
  {
    if decls == [] then None
    else
      var d := First(decls[..|decls|-1], name);
      if d.Some? then d else if decls[|decls|-1].name == name then Some(decls[|decls|-1]) else None
  }

  /** Each name's first declaration, in the order the names first come. */
  function Firsts(decls: seq<Declaration>): seq<Declaration> {
    if decls == [] then []
    else
      var before, d := Firsts(decls[..|decls|-1]), decls[|decls|-1];
      if First(before, d.name).None? then before + [d] else before
  }

  lemma {:induction false} FirstOfFirsts(decls: seq<Declaration>, name: string)
    ensures First(Firsts(decls), name) == First(decls, name)
  {
    if decls != [] {
      var init, d := decls[..|decls|-1], decls[|decls|-1];
      FirstOfFirsts(init, name);
      FirstOfFirsts(init, d.name);
      if First(Firsts(init), d.name).None? {
        assert (Firsts(init) + [d])[..|Firsts(init)|] == Firsts(init);
      }
    }
  }

  // -------------------- the merge --------------------

  /** One declaration into the merge. */
  function Joined(merged: seq<Declaration>, d: Declaration): Result<seq<Declaration>, Refusal> {
    var first := First(merged, d.name);
    if first.None? then Ok(merged + [d])
    else if Agree(first.value.entry, d.entry) then Ok(merged)
    else Err(Conflict(d.name, first.value.owner, d.owner))
  }

  /** Some declarations into a merge, up to the first that clashes. */
  function MergeInto(merged: seq<Declaration>, decls: seq<Declaration>): Result<seq<Declaration>, Refusal> {
    if decls == [] then Ok(merged)
    else
      var before := MergeInto(merged, decls[..|decls|-1]);
      if before.Err? then before else Joined(before.value, decls[|decls|-1])
  }

  function MergeOf(decls: seq<Declaration>): Result<seq<Declaration>, Refusal> {
    MergeInto([], decls)
  }

  lemma MergeStep(merged: seq<Declaration>, decls: seq<Declaration>, n: nat)
    requires n < |decls|
    ensures MergeInto(merged, decls[..n + 1]) ==
            var before := MergeInto(merged, decls[..n]); if before.Err? then before else Joined(before.value, decls[n])
  {
    assert decls[..n + 1][..n] == decls[..n];
  }

  lemma {:induction false} MergeBoth(merged: seq<Declaration>, decls: seq<Declaration>, more: seq<Declaration>)
    ensures MergeInto(merged, decls + more) ==
            var before := MergeInto(merged, decls); if before.Err? then before else MergeInto(before.value, more)
  {
    if more == [] {
      assert decls + more == decls;
    } else {
      MergeBoth(merged, decls, more[..|more|-1]);
      assert (decls + more)[..|decls + more|-1] == decls + more[..|more|-1];
    }
  }

  lemma {:induction false} MergeStops(merged: seq<Declaration>, decls: seq<Declaration>, n: nat)
    requires n <= |decls| && MergeInto(merged, decls[..n]).Err?
    ensures MergeInto(merged, decls) == MergeInto(merged, decls[..n])
  {
    assert decls == decls[..n] + decls[n..];
    MergeBoth(merged, decls[..n], decls[n..]);
  }

  /** `d` re-declares a name, and disagrees with the first to declare it, who comes before. */
  ghost predicate Clashes(decls: seq<Declaration>, d: Declaration, refusal: Refusal) {
    var first := First(decls, d.name);
    && Consistent(decls)
    && first.Some? && !Agree(first.value.entry, d.entry)
    && refusal == Conflict(d.name, first.value.owner, d.owner)
  }

  /** Where the merge of consistent declarations stops, the whole is not consistent. */
  lemma ClashIsInconsistent(decls: seq<Declaration>, n: nat, refusal: Refusal)
    requires n < |decls| && Clashes(decls[..n], decls[n], refusal)
    ensures !Consistent(decls)
  {
    var first := First(decls[..n], decls[n].name).value;
    var i :| 0 <= i < n && decls[i] == first;
    assert decls[i].name == decls[n].name;
  }

  lemma PairAgrees(decls: seq<Declaration>, a: Declaration, b: Declaration)
    requires Consistent(decls) && a in decls && b in decls && a.name == b.name
    ensures Agree(a.entry, b.entry)
  {
    var i :| 0 <= i < |decls| && decls[i] == a;
    var j :| 0 <= j < |decls| && decls[j] == b;
  }

  /** A declaration that agrees with the first of its name agrees with all of that name. */
  lemma ConsistentMore(decls: seq<Declaration>, d: Declaration)
    requires Consistent(decls)
    requires First(decls, d.name).Some? ==> Agree(First(decls, d.name).value.entry, d.entry)
    ensures Consistent(decls + [d])
  {
    forall i | 0 <= i < |decls| && decls[i].name == d.name ensures Agree(decls[i].entry, d.entry) {
      assert decls[i] in decls;
      PairAgrees(decls, decls[i], First(decls, d.name).value);
    }
  }

  /** The merge succeeds exactly when all declarations of every name agree, and otherwise stops at the first clash. */
  lemma {:induction false} MergeExact(decls: seq<Declaration>)
    ensures MergeOf(decls).Ok? <==> Consistent(decls)
    ensures MergeOf(decls).Ok? ==> MergeOf(decls).value == Firsts(decls)
    ensures MergeOf(decls).Err? ==> exists n :: 0 <= n < |decls| && Clashes(decls[..n], decls[n], MergeOf(decls).error)
  {
    if decls != [] {
      var init, d := decls[..|decls|-1], decls[|decls|-1];
      assert decls == init + [d];
      MergeExact(init);
      if MergeOf(init).Ok? {
        FirstOfFirsts(init, d.name);
        if MergeOf(decls).Ok? {
          ConsistentMore(init, d);
        } else {
          assert Clashes(decls[..|init|], decls[|init|], MergeOf(decls).error);
          ClashIsInconsistent(decls, |init|, MergeOf(decls).error);
        }
      } else {
        var n := ClashOf(init, decls);
        ClashIsInconsistent(decls, n, MergeOf(decls).error);
      }
    }
  }

  lemma ClashOf(init: seq<Declaration>, decls: seq<Declaration>) returns (n: nat)
    requires MergeOf(init).Err? && init <= decls
    requires exists n :: 0 <= n < |init| && Clashes(init[..n], init[n], MergeOf(init).error)
    ensures n < |init| && Clashes(decls[..n], decls[n], MergeOf(init).error)
  {
    n :| 0 <= n < |init| && Clashes(init[..n], init[n], MergeOf(init).error);
    assert decls[..n] == init[..n] && decls[n] == init[n];
  }

  // -------------------- bindings --------------------

  function Upper(c: char): char {
    if 'a' <= c <= 'z' then (c as int - 32) as char else if Letter(c) || Digit(c) then c else '_'
  }

  /** `secretBindingName`: every character that is no ASCII letter or digit an underscore, and the rest in capitals. */
  function BindingName(key: string): (binding: string)
    ensures |binding| == |key|
  {
    seq(|key|, i requires 0 <= i < |key| => Upper(key[i]))
  }

  predicate InBinding(c: char) {
    'A' <= c <= 'Z' || Digit(c) || c == '_'
  }

  /** Something a Worker can bind: capitals, digits and underscores, not starting with a digit. */
  predicate IsBindingName(name: string) {
    name != "" && !Digit(name[0]) && forall i | 0 <= i < |name| :: InBinding(name[i])
  }

  /** A derived binding can be bound exactly when its key does not start with a digit, and deriving it again changes nothing. */
  lemma BindingExact(key: string)
    ensures IsBindingName(BindingName(key)) <==> key != "" && !Digit(key[0])
    ensures BindingName(BindingName(key)) == BindingName(key)
  {
    forall i | 0 <= i < |key| ensures InBinding(BindingName(key)[i]) && BindingName(BindingName(key))[i] == BindingName(key)[i] {
      assert InBinding(Upper(key[i])) && Upper(Upper(key[i])) == Upper(key[i]);
    }
    if key != "" { assert BindingName(key)[0] == Upper(key[0]); }
  }

  /** Read through a binding of its own: a named entry of the Secrets Store. */
  predicate StoreBound(d: Declaration) {
    d.entry.backend == "cf-secrets-store" && !Keyed(d.entry)
  }

  predicate Bindable(d: Declaration) {
    StoreBound(d) ==> IsBindingName(BindingName(d.name))
  }

  predicate Collide(a: Declaration, b: Declaration) {
    StoreBound(a) && StoreBound(b) && a.name != b.name && BindingName(a.name) == BindingName(b.name)
  }

  /** Only a name of the Secrets Store with no keyspace is bound, and it can be exactly when it starts with something that is no digit. */
  lemma BindableExact(d: Declaration)
    ensures Bindable(d) <==>
            (d.entry.backend == "cf-secrets-store" && d.entry.keyed != Some(true) ==> d.name != "" && !('0' <= d.name[0] <= '9'))
  {
    BindingExact(d.name);
  }

  /** Two such names collide exactly when they differ in nothing but the case of letters and which other marks they have. */
  lemma CollideExact(a: Declaration, b: Declaration)
    ensures Collide(a, b) <==>
            && a.entry.backend == b.entry.backend == "cf-secrets-store" && a.entry.keyed != Some(true) && b.entry.keyed != Some(true)
            && a.name != b.name && |a.name| == |b.name|
            && forall i | 0 <= i < |a.name| :: SameInBinding(a.name[i], b.name[i])
  {
    var x, y := BindingName(a.name), BindingName(b.name);
    forall i | 0 <= i < |a.name| && i < |b.name| ensures x[i] == y[i] <==> SameInBinding(a.name[i], b.name[i]) {
      assert x[i] == Upper(a.name[i]) && y[i] == Upper(b.name[i]);
    }
  }

  /** One character, one letter in two cases, or two characters that are neither letter nor digit. An underscore is one of those. */
  predicate SameInBinding(c: char, d: char) {
    c == d
    || (Letter(c) && Letter(d) && (c as int - d as int == 32 || d as int - c as int == 32))
    || (!Letter(c) && !Digit(c) && !Letter(d) && !Digit(d))
  }

  predicate AllBindable(decls: seq<Declaration>) {
    forall i | 0 <= i < |decls| :: Bindable(decls[i])
  }

  predicate NoneCollide(decls: seq<Declaration>) {
    forall i, j | 0 <= i < j < |decls| :: !Collide(decls[i], decls[j])
  }

  /** What the refusal says of the declarations: the first that cannot be bound; else the first to collide with an earlier one. */
  predicate Refuses(decls: seq<Declaration>, refusal: Refusal) {
    match refusal
    case Conflict(_, _, _) => false
    case Unbindable(name, binding) =>
      exists n :: 0 <= n < |decls| && AllBindable(decls[..n]) && !Bindable(decls[n]) && name == decls[n].name && binding == BindingName(name)
    case SameBinding(one, other, binding) =>
      && AllBindable(decls)
      && exists m, n :: 0 <= m < n < |decls| && NoneCollide(decls[..n]) && Collide(decls[m], decls[n])
                        && one == decls[m].name && other == decls[n].name && binding == BindingName(other)
  }

  /** The first store secret that derives an earlier one's binding, under another name. */
  method FirstCollision(decls: seq<Declaration>) returns (collision: Option<Refusal>)
    requires AllBindable(decls)
    ensures collision.None? <==> NoneCollide(decls)
    ensures collision.Some? ==> Refuses(decls, collision.value)
  {
    var seen: map<string, Declaration> := map[];
    for n := 0 to |decls|
      invariant NoneCollide(decls[..n]) && Seen(decls[..n], seen)
    {
      var d, binding := decls[n], BindingName(decls[n].name);
      assert decls[..n + 1] == decls[..n] + [d];
      if !StoreBound(d) {
        NotBound(decls[..n], seen, d);
      } else if binding !in seen {
        SeenNew(decls[..n], seen, d);
        seen := seen[binding := d];
      } else if seen[binding].name == d.name {
        SeenAgain(decls[..n], seen, d);
      } else {
        collision := Some(SameBinding(seen[binding].name, d.name, binding));
        CollisionFound(decls, n, seen[binding]);
        return;
      }
    }
    assert decls[..|decls|] == decls;
    collision := None;
  }

  lemma CollisionFound(decls: seq<Declaration>, n: nat, first: Declaration)
    requires AllBindable(decls) && n < |decls| && NoneCollide(decls[..n]) && first in decls[..n] && Collide(first, decls[n])
    ensures !NoneCollide(decls)
    ensures Refuses(decls, SameBinding(first.name, decls[n].name, BindingName(decls[n].name)))
  {
    var m :| 0 <= m < n && decls[..n][m] == first;
    assert decls[m] == first;
  }

  /** Refuse store secrets that could not be bound, or told apart: nothing is refused exactly when every one can be both. */
  method RefuseUnbindableStoreSecrets(decls: seq<Declaration>) returns (refusal: Option<Refusal>)
    ensures refusal.None? <==> AllBindable(decls) && NoneCollide(decls)
    ensures refusal.Some? ==> Refuses(decls, refusal.value)
  {
    for n := 0 to |decls|
      invariant AllBindable(decls[..n])
    {
      if !Bindable(decls[n]) { return Some(Unbindable(decls[n].name, BindingName(decls[n].name))); }
      assert decls[..n + 1] == decls[..n] + [decls[n]];
    }
    assert decls[..|decls|] == decls;
    refusal := FirstCollision(decls);
  }

  /** The bindings seen, each with the declaration it was first seen on. */
  ghost predicate Seen(decls: seq<Declaration>, seen: map<string, Declaration>) {
    && (forall b | b in seen :: seen[b] in decls && StoreBound(seen[b]) && BindingName(seen[b].name) == b)
    && (forall i | 0 <= i < |decls| && StoreBound(decls[i]) :: BindingName(decls[i].name) in seen)
    && (forall i | 0 <= i < |decls| && StoreBound(decls[i]) :: seen[BindingName(decls[i].name)].name == decls[i].name)
  }

  lemma SeenAgain(decls: seq<Declaration>, seen: map<string, Declaration>, d: Declaration)
    requires NoneCollide(decls) && Seen(decls, seen) && StoreBound(d)
    requires BindingName(d.name) in seen && seen[BindingName(d.name)].name == d.name
    ensures NoneCollide(decls + [d]) && Seen(decls + [d], seen)
  {
  }

  lemma SeenNew(decls: seq<Declaration>, seen: map<string, Declaration>, d: Declaration)
    requires NoneCollide(decls) && Seen(decls, seen) && StoreBound(d) && BindingName(d.name) !in seen
    ensures NoneCollide(decls + [d]) && Seen(decls + [d], seen[BindingName(d.name) := d])
  {
    assert (decls + [d])[|decls|] == d;
  }

  lemma NotBound(decls: seq<Declaration>, seen: map<string, Declaration>, d: Declaration)
    requires NoneCollide(decls) && Seen(decls, seen) && !StoreBound(d)
    ensures NoneCollide(decls + [d]) && Seen(decls + [d], seen)
  {
  }

  // -------------------- the combined registry --------------------

  /** One slice into the merge. */
  method MergeSlice(soFar: seq<Declaration>, cap: Capability) returns (r: Result<seq<Declaration>, Refusal>)
    ensures r == MergeInto(soFar, SliceOf(cap))
  {
    var merged, slice := soFar, SliceOf(cap);
    for n := 0 to |slice|
      invariant MergeInto(soFar, slice[..n]) == Ok(merged)
    {
      MergeStep(soFar, slice, n);
      var joined := Joined(merged, slice[n]);
      if joined.Err? {
        MergeStops(soFar, slice, n + 1);
        return joined;
      }
      merged := joined.value;
    }
    assert slice[..|slice|] == slice;
    r := Ok(merged);
  }

  lemma {:induction false} DeclaredStops(caps: seq<Capability>, c: nat)
    requires c <= |caps| && MergeOf(Declared(caps[..c])).Err?
    ensures MergeOf(Declared(caps)) == MergeOf(Declared(caps[..c]))
  {
    if c == |caps| {
      assert caps[..c] == caps;
    } else {
      var init := caps[..|caps|-1];
      assert init[..c] == caps[..c];
      DeclaredStops(init, c);
      MergeBoth([], Declared(init), SliceOf(caps[|caps|-1]));
    }
  }

  lemma DeclaredMore(caps: seq<Capability>, c: nat)
    requires c < |caps|
    ensures MergeOf(Declared(caps[..c + 1])) ==
            var before := MergeOf(Declared(caps[..c])); if before.Err? then before else MergeInto(before.value, SliceOf(caps[c]))
  {
    assert caps[..c + 1][..c] == caps[..c];
    MergeBoth([], Declared(caps[..c]), SliceOf(caps[c]));
  }

  method MergeSlices(caps: seq<Capability>) returns (r: Result<seq<Declaration>, Refusal>)
    ensures r == MergeOf(Declared(caps))
  {
    var merged: seq<Declaration> := [];
    for c := 0 to |caps|
      invariant MergeOf(Declared(caps[..c])) == Ok(merged)
    {
      DeclaredMore(caps, c);
      r := MergeSlice(merged, caps[c]);
      if r.Err? {
        DeclaredStops(caps, c + 1);
        return;
      }
      merged := r.value;
    }
    assert caps[..|caps|] == caps;
    r := Ok(merged);
  }

  /**
   The combined registry, each name with its first declaration: built exactly when all declarations of every name agree,
   and every store secret among them can be bound and told apart; otherwise refused for the first thing wrong.
   */
  method AggregateSecretRegistries(caps: seq<Capability>) returns (r: Result<seq<Declaration>, Refusal>)
    ensures var decls := Declared(caps);
            && (r.Ok? <==> Consistent(decls) && AllBindable(Firsts(decls)) && NoneCollide(Firsts(decls)))
            && (r.Ok? ==> r.value == Firsts(decls))
            && (r.Err? ==> if Consistent(decls) then Refuses(Firsts(decls), r.error)
                           else exists n :: 0 <= n < |decls| && Clashes(decls[..n], decls[n], r.error))
  {
    MergeExact(Declared(caps));
    r := MergeSlices(caps);
    if r.Ok? {
      var refusal := RefuseUnbindableStoreSecrets(r.value);
      if refusal.Some? { r := Err(refusal.value); }
    }
  }

  // -------------------- order --------------------

  /** Two orders of the same declarations. */
  predicate SameDeclared(xs: seq<Declaration>, ys: seq<Declaration>) {
    (forall i | 0 <= i < |xs| :: xs[i] in ys) && (forall i | 0 <= i < |ys| :: ys[i] in xs)
  }

  lemma FirstsAgree(xs: seq<Declaration>, ys: seq<Declaration>, name: string)
    requires Consistent(xs) && SameDeclared(xs, ys)
    ensures First(xs, name).Some? <==> First(ys, name).Some?
    ensures First(xs, name).Some? ==> Agree(First(xs, name).value.entry, First(ys, name).value.entry)
  {
    var a, b := First(xs, name), First(ys, name);
    if a.Some? {
      var i :| 0 <= i < |xs| && xs[i] == a.value;
      assert a.value in ys;
    }
    if b.Some? {
      var j :| 0 <= j < |ys| && ys[j] == b.value;
      assert b.value in xs;
    }
    if a.Some? && b.Some? { PairAgrees(xs, a.value, b.value); }
  }

  lemma ConsistentAnyOrder(xs: seq<Declaration>, ys: seq<Declaration>)
    requires Consistent(xs) && SameDeclared(xs, ys)
    ensures Consistent(ys)
  {
    forall i, j | 0 <= i < j < |ys| && ys[i].name == ys[j].name ensures Agree(ys[i].entry, ys[j].entry) {
      PairAgrees(xs, ys[i], ys[j]);
    }
  }

  lemma {:induction false} FirstsAreFirst(decls: seq<Declaration>, i: nat)
    requires i < |Firsts(decls)|
    ensures First(decls, Firsts(decls)[i].name) == Some(Firsts(decls)[i])
  {
    var init, d := decls[..|decls|-1], decls[|decls|-1];
    if i < |Firsts(init)| { FirstsAreFirst(init, i); } else { FirstOfFirsts(init, d.name); }
  }

  /** What stands for a name in one order agrees with what stands for it in another. */
  lemma Counterpart(xs: seq<Declaration>, ys: seq<Declaration>, i: nat) returns (j: nat)
    requires Consistent(xs) && SameDeclared(xs, ys) && i < |Firsts(ys)|
    ensures j < |Firsts(xs)| && Firsts(xs)[j].name == Firsts(ys)[i].name && Agree(Firsts(xs)[j].entry, Firsts(ys)[i].entry)
  {
    var name := Firsts(ys)[i].name;
    FirstsAreFirst(ys, i);
    FirstsAgree(xs, ys, name);
    FirstOfFirsts(xs, name);
    j :| 0 <= j < |Firsts(xs)| && Firsts(xs)[j] == First(xs, name).value;
  }

  /** The order capabilities are composed in decides neither whether the registry is built nor what any name resolves as. */
  lemma OrderIrrelevant(xs: seq<Declaration>, ys: seq<Declaration>, name: string)
    requires Consistent(xs) && AllBindable(Firsts(xs)) && NoneCollide(Firsts(xs)) && SameDeclared(xs, ys)
    ensures Consistent(ys) && AllBindable(Firsts(ys)) && NoneCollide(Firsts(ys))
    ensures First(Firsts(xs), name).Some? <==> First(Firsts(ys), name).Some?
    ensures First(Firsts(xs), name).Some? ==> Agree(First(Firsts(xs), name).value.entry, First(Firsts(ys), name).value.entry)
  {
    ConsistentAnyOrder(xs, ys);
    BindsAnyOrder(xs, ys);
    FirstsAgree(xs, ys, name);
    FirstOfFirsts(xs, name);
    FirstOfFirsts(ys, name);
  }

  lemma BindsAnyOrder(xs: seq<Declaration>, ys: seq<Declaration>)
    requires Consistent(xs) && AllBindable(Firsts(xs)) && NoneCollide(Firsts(xs)) && SameDeclared(xs, ys)
    ensures AllBindable(Firsts(ys)) && NoneCollide(Firsts(ys))
  {
    var us, vs := Firsts(xs), Firsts(ys);
    forall i | 0 <= i < |vs| ensures Bindable(vs[i]) {
      var j := Counterpart(xs, ys, i);
      AgreeBinds(us[j], vs[i]);
    }
    forall i, k | 0 <= i < k < |vs| ensures !Collide(vs[i], vs[k]) {
      var j := Counterpart(xs, ys, i);
      var l := Counterpart(xs, ys, k);
      assert !Collide(us[j], us[l]) by { NeverCollide(us, j, l); }
      AgreeCollides(us[j], vs[i], us[l], vs[k]);
    }
  }

  lemma NeverCollide(decls: seq<Declaration>, i: nat, j: nat)
    requires NoneCollide(decls) && i < |decls| && j < |decls|
    ensures !Collide(decls[i], decls[j])
  {
    if j < i { assert !Collide(decls[j], decls[i]); }
  }

  lemma AgreeBinds(a: Declaration, b: Declaration)
    requires a.name == b.name && Agree(a.entry, b.entry)
    ensures Bindable(a) <==> Bindable(b)
  {
  }

  lemma AgreeCollides(a: Declaration, b: Declaration, c: Declaration, d: Declaration)
    requires a.name == b.name && Agree(a.entry, b.entry) && c.name == d.name && Agree(c.entry, d.entry)
    ensures Collide(a, c) <==> Collide(b, d)
  {
  }
}
