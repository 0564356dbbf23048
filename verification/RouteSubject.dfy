/** The parameters a called path gives a route, and the subject they name. */
module RouteSubject {
  import opened Options
  import opened Strings
  import opened RoutePattern

  /** A JavaScript record with string keys: its properties in the order they were first set. */
  datatype Property = Property(name: string, value: string)

  function Names(record: seq<Property>): (names: seq<string>)
    ensures |names| == |record|
  {
    if record == [] then [] else [record[0].name] + Names(record[1..])
  }

  /** `record[name] = value`. */
  function Assign(record: seq<Property>, name: string, value: string): seq<Property> {
    if record == [] then [Property(name, value)]
    else if record[0].name == name then [Property(name, value)] + record[1..]
    else [record[0]] + Assign(record[1..], name, value)
  }

  /** `record[name]`, or the empty string where it is not set. */
  function Lookup(record: seq<Property>, name: string): string {
    if record == [] then "" else if record[0].name == name then record[0].value else Lookup(record[1..], name)
  }

  /** The record once the first `n` segments are read. */
  function ParamsOf(declared: seq<string>, called: seq<string>, decode: string -> string, n: nat): seq<Property>
    requires n <= |declared| == |called|
  {
    if n == 0 then []
    else
      var before := ParamsOf(declared, called, decode, n - 1);
      var name := ParamName(declared[n-1]);
      if name.Some? then Assign(before, name.value, decode(called[n-1])) else before
  }

  /** `routeParams`: the value each parameter took, or nothing when the path has another number of segments. */
  method RouteParams(pattern: string, path: string, decode: string -> string) returns (params: seq<Property>)
    ensures params == ParamsAt(pattern, path, decode)
  {
    var declared, called := Split(pattern), Split(path);
    params := [];
    if |declared| != |called| { return; }
    for i := 0 to |declared|
      invariant params == ParamsOf(declared, called, decode, i)
    {
      var name := ParamName(declared[i]);
      if name.Some? { params := Assign(params, name.value, decode(called[i])); }
    }
  }

  function ParamsAt(pattern: string, path: string, decode: string -> string): seq<Property> {
    var declared, called := Split(pattern), Split(path);
    if |declared| != |called| then [] else ParamsOf(declared, called, decode, |declared|)
  }

  /** `id`, or a name ending in `Id`. */
  predicate NamesId(name: string) {
    name == "id" || (|name| >= 2 && name[|name|-2..] == "Id")
  }

  lemma {:induction false} NamesIdExact(name: string)
    ensures NamesId(name) <==> name == "id" || exists head {:trigger head + "Id"} :: name == head + "Id"
  {
    if |name| >= 2 && name[|name|-2..] == "Id" { assert name == name[..|name|-2] + "Id"; }
  }

  /** Where the subject stands among the names: the last that names an id, or the last. */
  function SubjectAt(names: seq<string>): (at: nat)
    requires names != []
    ensures at < |names|
    ensures forall i | at < i < |names| :: !NamesId(names[i])
    ensures NamesId(names[at]) || (at == |names| - 1 && forall i | 0 <= i < |names| :: !NamesId(names[i]))
  {
    if LastId(names) >= 0 then LastId(names) else |names| - 1
  }

  /** The last name that names an id, or -1. */
  function LastId(names: seq<string>): (at: int)
    ensures -1 <= at < |names|
    ensures at >= 0 ==> NamesId(names[at])
    ensures forall i | at < i < |names| :: !NamesId(names[i])
  {
    if names == [] then -1
    else if NamesId(names[|names|-1]) then |names| - 1
    else LastId(names[..|names|-1])
  }

  /** The subject's id, and the values that tell it apart: its own parameter's, and every one before it. */
  datatype Subject = Subject(id: Option<string>, key: Option<seq<string>>)

  /** `routeSubject`. */
  function SubjectOf(pattern: string, path: string, decode: string -> string): Subject {
    var params := ParamsAt(pattern, path, decode);
    if params == [] then Subject(None, None)
    else
      var at := SubjectAt(Names(params));
      Subject(Some(params[at].value), Some(seq(at + 1, i requires 0 <= i <= at => params[i].value)))
  }

  // -------------------- what the key is worth --------------------

  /** The names a pattern declares, each where it is first declared. */
  function Declared(declared: seq<string>, n: nat): seq<string>
    requires n <= |declared|
  {
    if n == 0 then []
    else
      var before, name := Declared(declared, n - 1), ParamName(declared[n-1]);
      if name.Some? && name.value !in before then before + [name.value] else before
  }

  lemma {:induction false} AssignNames(record: seq<Property>, name: string, value: string)
    ensures Names(Assign(record, name, value)) == if name in Names(record) then Names(record) else Names(record) + [name]
  {
    if record != [] {
      var after := Assign(record, name, value);
      if record[0].name == name {
        assert after[1..] == record[1..];
      } else {
        AssignNames(record[1..], name, value);
        assert after[1..] == Assign(record[1..], name, value);
      }
    }
  }

  lemma {:induction false} AssignLookup(record: seq<Property>, name: string, value: string, other: string)
    ensures Lookup(Assign(record, name, value), other) == if other == name then value else Lookup(record, other)
  {
    if record != [] && record[0].name != name {
      AssignLookup(record[1..], name, value, other);
    }
  }

  /** A fitting path sets exactly the declared names, whatever it is. */
  lemma {:induction false} ParamsNames(declared: seq<string>, called: seq<string>, decode: string -> string, n: nat)
    requires n <= |declared| == |called|
    ensures Names(ParamsOf(declared, called, decode, n)) == Declared(declared, n)
  {
    if n > 0 {
      ParamsNames(declared, called, decode, n - 1);
      var name := ParamName(declared[n-1]);
      if name.Some? {
        AssignNames(ParamsOf(declared, called, decode, n - 1), name.value, decode(called[n-1]));
      }
    }
  }

  /** The last of the first `n` segments that declares a name. */
  function LastDeclaring(declared: seq<string>, name: string, n: nat): (at: nat)
    requires n <= |declared| && name in Declared(declared, n)
    ensures at < n && ParamName(declared[at]) == Some(name)
  {
    if ParamName(declared[n-1]) == Some(name) then n - 1 else LastDeclaring(declared, name, n - 1)
  }

  /** A parameter's value is its segment of the called path, decoded. */
  lemma {:induction false} ParamsValue(declared: seq<string>, called: seq<string>, decode: string -> string, n: nat, name: string)
    requires n <= |declared| == |called| && name in Declared(declared, n)
    ensures Lookup(ParamsOf(declared, called, decode, n), name) == decode(called[LastDeclaring(declared, name, n)])
  {
    var last := ParamName(declared[n-1]);
    if last.Some? {
      AssignLookup(ParamsOf(declared, called, decode, n - 1), last.value, decode(called[n-1]), name);
    }
    if last != Some(name) {
      ParamsValue(declared, called, decode, n - 1, name);
    }
  }

  lemma {:induction false} DeclaredDistinct(declared: seq<string>, n: nat)
    requires n <= |declared|
    ensures forall i, j | 0 <= i < j < |Declared(declared, n)| :: Declared(declared, n)[i] != Declared(declared, n)[j]
  {
    if n > 0 { DeclaredDistinct(declared, n - 1); }
  }

  lemma {:induction false} LookupAt(record: seq<Property>, i: nat)
    requires i < |record|
    requires forall j, k | 0 <= j < k < |record| :: record[j].name != record[k].name
    ensures Lookup(record, record[i].name) == record[i].value
  {
    if i > 0 { LookupAt(record[1..], i - 1); }
  }

  /** The parameters that make up a route's key: every declared name up to its subject. */
  function Qualifiers(pattern: string): seq<string> {
    var names := Declared(Split(pattern), |Split(pattern)|);
    if names == [] then [] else names[..SubjectAt(names) + 1]
  }

  /** What a route's parameter is on a path of it: its last segment of that name, decoded. */
  function ValueIn(pattern: string, path: string, decode: string -> string, name: string): string
    requires |Split(path)| == |Split(pattern)| && name in Declared(Split(pattern), |Split(pattern)|)
  {
    decode(Split(path)[LastDeclaring(Split(pattern), name, |Split(pattern)|)])
  }

  lemma {:induction false} NamesAt(record: seq<Property>)
    ensures forall i | 0 <= i < |record| :: Names(record)[i] == record[i].name
  {
    if record != [] { NamesAt(record[1..]); }
  }

  /** A fitting path sets the declared names in order, each to its value. */
  lemma ParamAt(declared: seq<string>, called: seq<string>, decode: string -> string, n: nat, i: nat)
    requires n <= |declared| == |called| && i < |ParamsOf(declared, called, decode, n)|
    ensures |Declared(declared, n)| == |ParamsOf(declared, called, decode, n)|
    ensures ParamsOf(declared, called, decode, n)[i].name == Declared(declared, n)[i]
    ensures ParamsOf(declared, called, decode, n)[i].value == decode(called[LastDeclaring(declared, Declared(declared, n)[i], n)])
  {
    var params, names := ParamsOf(declared, called, decode, n), Declared(declared, n);
    ParamsNames(declared, called, decode, n);
    DeclaredDistinct(declared, n);
    NamesAt(params);
    forall j, k | 0 <= j < k < |params| ensures params[j].name != params[k].name {
      assert names[j] != names[k];
    }
    LookupAt(params, i);
    ParamsValue(declared, called, decode, n, names[i]);
  }

  /** The key is the qualifying parameters' values, in order. */
  lemma {:induction false} KeyValues(pattern: string, path: string, decode: string -> string)
    requires |Split(path)| == |Split(pattern)|
    ensures var declared, q, key := Split(pattern), Qualifiers(pattern), SubjectOf(pattern, path, decode).key;
            && (key.None? <==> Declared(declared, |declared|) == [])
            && (key.Some? ==>
                && |key.value| == |q|
                && forall i | 0 <= i < |q| ::
                     q[i] in Declared(declared, |declared|) && key.value[i] == ValueIn(pattern, path, decode, q[i]))
  {
    var declared, called, n := Split(pattern), Split(path), |Split(pattern)|;
    var params := ParamsAt(pattern, path, decode);
    ParamsNames(declared, called, decode, n);
    if params != [] {
      var q := Qualifiers(pattern);
      forall i | 0 <= i < |q|
        ensures q[i] in Declared(declared, n) && params[i].value == ValueIn(pattern, path, decode, q[i])
      {
        ParamAt(declared, called, decode, n, i);
        assert q[i] == Declared(declared, n)[i];
      }
    }
  }

  /** The subject's id is what its own parameter, the last of the qualifying ones, is on the path; a route that declares none has no subject. */
  lemma {:induction false} SubjectIdExact(pattern: string, path: string, decode: string -> string)
    requires |Split(path)| == |Split(pattern)|
    ensures var q, id := Qualifiers(pattern), SubjectOf(pattern, path, decode).id;
            && (id.None? <==> q == [])
            && (id.Some? ==>
                  && q[|q|-1] in Declared(Split(pattern), |Split(pattern)|)
                  && id.value == ValueIn(pattern, path, decode, q[|q|-1]))
  {
    KeyValues(pattern, path, decode);
    ParamsNames(Split(pattern), Split(path), decode, |Split(pattern)|);
  }

  /**
   Two paths of one route name the same subject exactly when they agree on every parameter up to the subject, as
   decoded from the called path; the parameters after it do not tell them apart.
   */
  lemma {:induction false} SubjectKeysAgree(pattern: string, one: string, other: string, decode: string -> string)
    requires |Split(one)| == |Split(other)| == |Split(pattern)|
    ensures var q := Qualifiers(pattern);
            && (forall name | name in q :: name in Declared(Split(pattern), |Split(pattern)|))
            && (SubjectOf(pattern, one, decode).key == SubjectOf(pattern, other, decode).key <==>
                forall name | name in q :: ValueIn(pattern, one, decode, name) == ValueIn(pattern, other, decode, name))
  {
    var q, a, b := Qualifiers(pattern), SubjectOf(pattern, one, decode).key, SubjectOf(pattern, other, decode).key;
    KeyValues(pattern, one, decode);
    KeyValues(pattern, other, decode);
    forall name | name in q ensures name in Declared(Split(pattern), |Split(pattern)|) {
      var i :| 0 <= i < |q| && q[i] == name;
    }
    if a.Some? {
      ByName(q, a.value, b.value, map name | name in q :: ValueIn(pattern, one, decode, name), map name | name in q :: ValueIn(pattern, other, decode, name));
    }
  }

  /** Two sequences of values by name are equal exactly when every name has one value. */
  lemma ByName(names: seq<string>, a: seq<string>, b: seq<string>, f: map<string, string>, g: map<string, string>)
    requires |names| == |a| == |b| && forall name | name in names :: name in f && name in g
    requires forall i | 0 <= i < |names| :: a[i] == f[names[i]] && b[i] == g[names[i]]
    ensures a == b <==> forall name | name in names :: f[name] == g[name]
  {
    if a == b {
      forall name | name in names ensures f[name] == g[name] {
        var i :| 0 <= i < |names| && names[i] == name;
        assert a[i] == b[i];
      }
    }
  }
}
