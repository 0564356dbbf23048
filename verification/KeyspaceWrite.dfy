/** Writing, rotating and removing keyspace members, on the request path. */
module KeyspaceWrite {
  import opened Options
  import opened Keyspace

  /** Every still-valid version, and which of them is current. */
  datatype VersionedValue = VersionedValue(current: nat, versions: map<nat, string>)

  datatype Mode = Create | Replace | Rotate

  /** A value comes as it serializes, or as nothing where it fails its keyspace's type or schema. */
  datatype Operation =
    | Put(keyspace: string, key: string, mode: Mode, value: Option<string>)
    | Delete(keyspace: string, key: string)

  datatype SecretsError = NotAKeyspace | NotRotatable | BadKey | InvalidValue | AlreadyExists | NotFound | NoVersions | UniqueName

  datatype Answer = Version(n: nat) | Done | Refused(error: SecretsError)

  /** The stored rows by name, and how many rotation rows each name has. */
  datatype Db = Db(rows: map<string, VersionedValue>, history: map<string, nat>)

  function Initial(value: string): VersionedValue {
    VersionedValue(1, map[1 := value])
  }

  /** The highest version there is. */
  function Highest(versions: set<nat>): (n: nat)
    requires versions != {}
    ensures n in versions && forall v | v in versions :: v <= n
  {
    HasHighest(versions);
    var n :| n in versions && forall v | v in versions :: v <= n;
    n
  }

  lemma HasHighest(versions: set<nat>)
    requires versions != {}
    ensures exists n :: n in versions && forall v | v in versions :: v <= n
  {
    var n := Top(versions);
  }

  lemma {:induction false} Top(versions: set<nat>) returns (n: nat)
    requires versions != {}
    ensures n in versions && forall v | v in versions :: v <= n
    decreases |versions|
  {
    n :| n in versions;
    var rest := versions - {n};
    if rest != {} {
      var m := Top(rest);
      assert forall v | v in versions :: v == n || v in rest;
      if n < m { n := m; }
    } else {
      assert forall v | v in versions :: v == n || v in rest;
    }
  }

  /** The next version, made current, and every earlier one kept. */
  function Append(was: VersionedValue, value: string): VersionedValue
    requires was.versions != map[]
  {
    var n := Highest(was.versions.Keys) + 1;
    VersionedValue(n, was.versions[n := value])
  }

  function Baselined(history: map<string, nat>, name: string): map<string, nat> {
    history[name := (if name in history then history[name] else 0) + 1]
  }

  // -------------------- what one completed operation does --------------------

  /** A `create` or `replace` whose check has answered. */
  function Written(db: Db, name: string, value: string, rotatable: bool, existed: bool): Db {
    var rows := db.rows[name := Initial(value)];
    Db(rows, if rotatable && !existed then Baselined(db.history, name) else db.history)
  }

  /** `runKeyedWrite`. */
  function WriteMember(db: Db, name: string, mode: Mode, value: string, rotatable: bool): (Db, Answer) {
    if mode == Rotate then
      if name !in db.rows then (db, Refused(NotFound))
      else if db.rows[name].versions == map[] then (db, Refused(NoVersions))
      else
        var next := Append(db.rows[name], value);
        (db.(rows := db.rows[name := next]), Version(next.current))
    else if mode == Create && name in db.rows then (db, Refused(AlreadyExists))
    else (Written(db, name, value, rotatable, name in db.rows), Version(1))
  }

  function Complete(keyspaces: map<string, bool>, db: Db, op: Operation): (Db, Answer) {
    if op.keyspace !in keyspaces then (db, Refused(NotAKeyspace))
    else if op.Put? && op.mode == Rotate && !keyspaces[op.keyspace] then (db, Refused(NotRotatable))
    else
      var composed := KeyedSecretName(op.keyspace, op.key);
      if composed.Err? then (db, Refused(BadKey))
      else
        var name := composed.value;
        match op
        case Delete(_, _) => (Db(db.rows - {name}, db.history - {name}), Done)
        case Put(_, _, mode, value) =>
          if value.None? then (db, Refused(InvalidValue)) else WriteMember(db, name, mode, value.value, keyspaces[op.keyspace])
  }

  /** The encrypted store and the rotation tracker, over one database. */
  class Store {
    const keyspaces: map<string, bool>
    var rows: map<string, VersionedValue>
    var history: map<string, nat>
    ghost var ops: seq<Operation>

    function Now(): Db
      reads this
    {
      Db(rows, history)
    }

    /** The database is where the completed operations have brought it, so whatever holds of every run holds here. */
    ghost predicate Valid()
      reads this
    {
      Now() == Run(keyspaces, Db(map[], map[]), ops)
    }

    constructor (declared: map<string, bool>)
      ensures Valid() && keyspaces == declared && ops == []
    {
      keyspaces, rows, history, ops := declared, map[], map[], [];
    }

    function Has(name: string): (found: bool)
      reads this
    {
      name in rows
    }

    /** An update in place, or an insert. */
    method PutRow(name: string, value: VersionedValue)
      modifies `rows
      ensures rows == old(rows)[name := value]
    {
      rows := rows[name := value];
    }

    method RecordBaseline(name: string)
      modifies `history
      ensures history == Baselined(old(history), name)
    {
      history := history[name := (if name in history then history[name] else 0) + 1];
    }

    method RunKeyedWrite(name: string, mode: Mode, value: string, rotatable: bool) returns (r: Result<nat, SecretsError>)
      modifies `rows, `history
      ensures mode != Rotate ==>
                if mode == Create && name in old(rows) then r == Err(AlreadyExists) && Now() == old(Now())
                else r == Ok(1) && Now() == Written(old(Now()), name, value, rotatable, name in old(rows))
      ensures mode == Rotate ==>
                if name !in old(rows) then r == Err(NotFound) && Now() == old(Now())
                else if old(rows)[name].versions == map[] then r == Err(NoVersions) && Now() == old(Now())
                else
                  var next := Append(old(rows)[name], value);
                  r == Ok(next.current) && rows == old(rows)[name := next] && history == old(history)
    {
      if mode == Rotate {
        if name !in rows { return Err(NotFound); }
        if rows[name].versions == map[] { return Err(NoVersions); }
        var next := Append(rows[name], value);
        PutRow(name, next);
        return Ok(next.current);
      }
      var stored := Has(name);
      if mode == Create && stored { return Err(AlreadyExists); }
      PutRow(name, Initial(value));
      if rotatable && !stored { RecordBaseline(name); }
      r := Ok(1);
    }

    method RunKeyedRemove(name: string)
      modifies `rows, `history
      ensures Now() == Db(old(rows) - {name}, old(history) - {name})
    {
      rows := rows - {name};
      history := history - {name};
    }

    /** `putKeyed`, `rotateKeyed` and `deleteKeyed`: prove the keyspace, the key and the value, then touch the store. */
    method Keyed(op: Operation) returns (answer: Answer)
      requires Valid()
      modifies this
      ensures Valid() && ops == old(ops) + [op]
      ensures (Now(), answer) == Complete(keyspaces, old(Now()), op)
    {
      assert (ops + [op])[..|ops|] == ops;
      ops := ops + [op];
      if op.keyspace !in keyspaces { return Refused(NotAKeyspace); }
      if op.Put? && op.mode == Rotate && !keyspaces[op.keyspace] { return Refused(NotRotatable); }
      var composed := KeyedSecretName(op.keyspace, op.key);
      if composed.Err? { return Refused(BadKey); }
      if op.Delete? {
        RunKeyedRemove(composed.value);
        return Done;
      }
      if op.value.None? { return Refused(InvalidValue); }
      var r := RunKeyedWrite(composed.value, op.mode, op.value.value, keyspaces[op.keyspace]);
      answer := if r.Ok? then Version(r.value) else Refused(r.error);
    }
  }

  // -------------------- what a run of them leaves --------------------

  function Run(keyspaces: map<string, bool>, db: Db, ops: seq<Operation>): Db {
    if ops == [] then db else Complete(keyspaces, Run(keyspaces, db, ops[..|ops|-1]), ops[|ops|-1]).0
  }

  /** One member's values, oldest first, told from the operations on that member alone; none while it is not stored. */
  function Values(ops: seq<Operation>, member: Member, rotatable: bool): (values: Option<seq<string>>)
    ensures values.Some? ==> values.value != []
  {
    if ops == [] then None
    else
      var before, op := Values(ops[..|ops|-1], member, rotatable), ops[|ops|-1];
      if Member(op.keyspace, op.key) != member then before
      else
        match op
        case Delete(_, _) => None
        case Put(_, _, _, None) => before
        case Put(_, _, Create, Some(value)) => if before.None? then Some([value]) else before
        case Put(_, _, Replace, Some(value)) => Some([value])
        case Put(_, _, Rotate, Some(value)) => if rotatable && before.Some? then Some(before.value + [value]) else before
  }

  /** Versions 1 to n, the last of them current. */
  function Numbered(values: seq<string>): VersionedValue {
    VersionedValue(|values|, map n: nat | 1 <= n <= |values| :: Nth(values, n))
  }

  function Nth(values: seq<string>, n: nat): string
    requires 1 <= n <= |values|
  {
    values[n-1]
  }

  /** The database holds the member's values, under its name, and one rotation row if its keyspace rotates. */
  predicate Holds(db: Db, name: string, values: Option<seq<string>>, rotatable: bool) {
    match values
    case None => name !in db.rows && name !in db.history
    case Some(vs) =>
      && name in db.rows && db.rows[name] == Numbered(vs)
      && (if rotatable then name in db.history && db.history[name] == 1 else name !in db.history)
  }

  lemma AppendNumbered(values: seq<string>, value: string)
    requires values != []
    ensures Numbered(values).versions != map[]
    ensures Append(Numbered(values), value) == Numbered(values + [value])
  {
    var was := Numbered(values).versions;
    assert |values| in was.Keys;
    assert Highest(was.Keys) == |values|;
    assert was[|values| + 1 := value] == Numbered(values + [value]).versions;
  }

  lemma NumberedOne(value: string)
    ensures Numbered([value]) == Initial(value)
  {
    assert Numbered([value]).versions == map[1 := value];
  }

  /** An operation of another member leaves this one as it was. */
  lemma Isolated(keyspaces: map<string, bool>, db: Db, op: Operation, member: Member)
    requires ValidKey(member.key) && Member(op.keyspace, op.key) != member
    ensures var name := KeyedSecretName(member.name, member.key).value;
            var after := Complete(keyspaces, db, op).0;
            && (name in after.rows <==> name in db.rows) && (name in db.rows ==> after.rows[name] == db.rows[name])
            && (name in after.history <==> name in db.history) && (name in db.history ==> after.history[name] == db.history[name])
  {
    var composed := KeyedSecretName(op.keyspace, op.key);
    if composed == KeyedSecretName(member.name, member.key) { ComposeInjective(op.keyspace, op.key, member.name, member.key); }
  }

  lemma {:induction false} OwnOperation(keyspaces: map<string, bool>, db: Db, ops: seq<Operation>, op: Operation)
    requires op.keyspace in keyspaces && ValidKey(op.key)
    requires Holds(db, KeyedSecretName(op.keyspace, op.key).value, Values(ops, Member(op.keyspace, op.key), keyspaces[op.keyspace]), keyspaces[op.keyspace])
    ensures Holds(Complete(keyspaces, db, op).0, KeyedSecretName(op.keyspace, op.key).value,
                  Values(ops + [op], Member(op.keyspace, op.key), keyspaces[op.keyspace]), keyspaces[op.keyspace])
  {
    assert (ops + [op])[..|ops|] == ops;
    var before := Values(ops, Member(op.keyspace, op.key), keyspaces[op.keyspace]);
    if op.Put? && op.value.Some? {
      NumberedOne(op.value.value);
      if before.Some? { AppendNumbered(before.value, op.value.value); }
    }
  }

  /**
   After any run of completed operations, every member of every declared keyspace holds exactly what its own operations say:
   a create never overwrote, a replace left one version, a rotate kept every earlier one, a remove left nothing; it has one
   rotation row while it is stored, if its keyspace rotates, and none otherwise; and no operation on another member,
   whatever its keyspace and key, had any part in it.
   */
  lemma {:induction false} MembersHoldTheirOwn(keyspaces: map<string, bool>, ops: seq<Operation>, member: Member)
    requires member.name in keyspaces && ValidKey(member.key)
    ensures Holds(Run(keyspaces, Db(map[], map[]), ops), KeyedSecretName(member.name, member.key).value,
                  Values(ops, member, keyspaces[member.name]), keyspaces[member.name])
  {
    if ops != [] {
      var init, op := ops[..|ops|-1], ops[|ops|-1];
      MembersHoldTheirOwn(keyspaces, init, member);
      var db := Run(keyspaces, Db(map[], map[]), init);
      if Member(op.keyspace, op.key) == member {
        assert ops == init + [op];
        OwnOperation(keyspaces, db, init, op);
      } else {
        Isolated(keyspaces, db, op, member);
      }
    }
  }

  /** Nothing else is ever in the database: every row and every rotation row is a declared keyspace's member's. */
  lemma {:induction false} OnlyMembersStored(keyspaces: map<string, bool>, ops: seq<Operation>, name: string)
    requires forall k | k in keyspaces :: EntryName(k)
    requires var db := Run(keyspaces, Db(map[], map[]), ops); name in db.rows || name in db.history
    ensures var member := ParseKeyedSecretName(name); member.Some? && member.value.name in keyspaces
    ensures name in Run(keyspaces, Db(map[], map[]), ops).rows
  {
    var init, op := ops[..|ops|-1], ops[|ops|-1];
    var db := Run(keyspaces, Db(map[], map[]), init);
    if name in db.rows || name in db.history {
      OnlyMembersStored(keyspaces, init, name);
    } else {
      ParseExact(name, op.keyspace, op.key);
    }
    var member := ParseKeyedSecretName(name).value;
    ParseExact(name, member.name, member.key);
    MembersHoldTheirOwn(keyspaces, ops, member);
  }

  // -------------------- a create raced by other operations --------------------

  /**
   A `create` whose check found nothing, and whose `put` then checks again and writes: `early` completes between the two
   checks, `late` between the second check and the write. An update of a row that is gone writes nothing, and an
   insert of a name that is stored fails.
   */
  function RacedCreate(keyspaces: map<string, bool>, db: Db, member: Member, value: string, early: seq<Operation>, late: seq<Operation>): (Db, Answer)
    requires member.name in keyspaces && ValidKey(member.key)
  {
    var name, rotatable := KeyedSecretName(member.name, member.key).value, keyspaces[member.name];
    var checked := Run(keyspaces, db, early);
    var written := Run(keyspaces, checked, late);
    if name !in checked.rows && name in written.rows then (written, Refused(UniqueName))
    else
      var rows := if name in checked.rows && name !in written.rows then written.rows else written.rows[name := Initial(value)];
      (Db(rows, if rotatable then Baselined(written.history, name) else written.history), Version(1))
  }

  lemma {:induction false} RunMore(keyspaces: map<string, bool>, db: Db, ops: seq<Operation>, more: seq<Operation>)
    ensures Run(keyspaces, db, ops + more) == Run(keyspaces, Run(keyspaces, db, ops), more)
  {
    if more == [] {
      assert ops + more == ops;
    } else {
      assert (ops + more)[..|ops + more|-1] == ops + more[..|more|-1];
      RunMore(keyspaces, db, ops, more[..|more|-1]);
    }
  }

  /** Once a member is not stored, only what comes after tells its values. */
  lemma {:induction false} ValuesFromNone(ops: seq<Operation>, more: seq<Operation>, member: Member, rotatable: bool)
    requires Values(ops, member, rotatable).None?
    ensures Values(ops + more, member, rotatable) == Values(more, member, rotatable)
  {
    if more == [] {
      assert ops + more == ops;
    } else {
      assert (ops + more)[..|ops + more|-1] == ops + more[..|more|-1];
      ValuesFromNone(ops, more[..|more|-1], member, rotatable);
    }
  }

  /**
   The raced create leaves what a create completed in one step after the others would leave exactly when none of them had
   stored the member by the time `put` checked again (or had stored the very same value, unversioned): it stores its
   value, or is refused with nothing changed. Had one, the create answers as if it had stored a new member, and either
   silently replaces the other's, with a second baseline, or, that having been removed since, stores nothing and leaves
   a baseline for a member that is not there.
   */
  lemma {:induction false} CreateRaceExact(keyspaces: map<string, bool>, ops: seq<Operation>, member: Member, value: string,
                                           early: seq<Operation>, late: seq<Operation>)
    requires member.name in keyspaces && ValidKey(member.key)
    requires Values(ops, member, keyspaces[member.name]).None?
    ensures var name, rotatable := KeyedSecretName(member.name, member.key).value, keyspaces[member.name];
            var start := Run(keyspaces, Db(map[], map[]), ops);
            var (after, answer) := RacedCreate(keyspaces, start, member, value, early, late);
            var others := Run(keyspaces, start, early + late);
            var atOnce := Complete(keyspaces, others, Put(member.name, member.key, Create, Some(value))).0;
            var found, kept := Values(early, member, rotatable).Some?, Values(early + late, member, rotatable).Some?;
            && (answer.Refused? <==> !found && kept)
            && (after == atOnce <==> !found || (kept && name in others.rows && others.rows[name] == Initial(value) && !rotatable))
            && (found && kept ==>
                  && name in others.rows && name in after.rows && after.rows[name] == Initial(value)
                  && (rotatable ==> name in after.history && after.history[name] == 2))
            && (found && !kept ==> name !in after.rows && (rotatable ==> name in after.history && after.history[name] == 1))
  {
    var rotatable := keyspaces[member.name];
    var start := Run(keyspaces, Db(map[], map[]), ops);
    RunMore(keyspaces, start, early, late);
    RunMore(keyspaces, Db(map[], map[]), ops, early);
    RunMore(keyspaces, Db(map[], map[]), ops, early + late);
    ValuesFromNone(ops, early, member, rotatable);
    ValuesFromNone(ops, early + late, member, rotatable);
    MembersHoldTheirOwn(keyspaces, ops + early, member);
    MembersHoldTheirOwn(keyspaces, ops + (early + late), member);
  }

  /**
   And so two creates of one member can both answer as if each had stored it first: the second completes between the
   first's two checks, and the first then replaces what it stored.
   */
  lemma TwoCreatesBothAnswer(keyspaces: map<string, bool>, ops: seq<Operation>, member: Member, value: string, other: string)
    requires member.name in keyspaces && ValidKey(member.key)
    requires Values(ops, member, keyspaces[member.name]).None?
    ensures var name, rotatable := KeyedSecretName(member.name, member.key).value, keyspaces[member.name];
            var start := Run(keyspaces, Db(map[], map[]), ops);
            var second := Put(member.name, member.key, Create, Some(other));
            var (stored, answer) := Complete(keyspaces, start, second);
            var (after, raced) := RacedCreate(keyspaces, start, member, value, [second], []);
            && answer == Version(1) && name in stored.rows && stored.rows[name] == Initial(other)
            && raced == Version(1) && name in after.rows && after.rows[name] == Initial(value)
            && (rotatable ==> name in after.history && after.history[name] == 2)
  {
    var second := Put(member.name, member.key, Create, Some(other));
    MembersHoldTheirOwn(keyspaces, ops, member);
    CreateRaceExact(keyspaces, ops, member, value, [second], []);
    assert [second][..0] == [] && [second] + [] == [second];
    assert Values([second], member, keyspaces[member.name]) == Some([other]);
  }
}
