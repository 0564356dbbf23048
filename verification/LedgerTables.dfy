/**
 The three ledger tables and the statements a batch is made of.

 `Exec` is one SQL statement under the tables' constraints: the entry log and the holds have a unique `ref`,
 and an account row may never leave `0 <= held <= balance`. `Batch` is `DB.batch`: every statement in order,
 or none of them. `Database` runs the same statements against rows it updates in place.
 */
module LedgerTables {
  import opened Options

  /** The key of the accounts table: one account per player per currency. */
  datatype Key = Key(user: string, currency: string)

  /** A row of the accounts table. */
  datatype Account = Account(key: Key, balance: int, held: int) {
    function Available(): int { balance - held }

    /** The CHECK constraint on the accounts table. */
    predicate Solvent() { 0 <= balance && 0 <= held <= balance }
  }

  datatype Kind = Credit | Debit | Hold | Release | Capture | TransferIn | TransferOut

  /** One row of the append-only log; its `ref` is the key it is stored under. */
  datatype Entry = Entry(key: Key, kind: Kind, amount: int, related: Option<string>)

  datatype Status = Open | Released | Captured

  datatype HoldRow = HoldRow(key: Key, amount: int, status: Status)

  datatype Tables = Tables(accounts: map<Key, Account>, log: map<string, Entry>, holds: map<string, HoldRow>)

  const EMPTY_TABLES := Tables(map[], map[], map[])

  /** What a read of one account answers: zero across the board when it has no row. */
  function ReadBalance(t: Tables, key: Key): Account {
    if key in t.accounts then t.accounts[key] else Account(key, 0, 0)
  }

  datatype Statement =
    | EnsureAccount(key: Key)
    | InsertEntry(ref: string, entry: Entry)
    | InsertHold(ref: string, key: Key, amount: int)
    | ResolveHold(ref: string, status: Status)
    | Adjust(key: Key, balance: int, held: int)

  datatype Violation = Unique | Check

  function Exec(t: Tables, s: Statement): Result<Tables, Violation> {
    match s
    case EnsureAccount(key) =>
      Ok(if key in t.accounts then t else t.(accounts := t.accounts[key := Account(key, 0, 0)]))
    case InsertEntry(ref, entry) =>
      if ref in t.log then Err(Unique) else Ok(t.(log := t.log[ref := entry]))
    case InsertHold(ref, key, amount) =>
      if ref in t.holds then Err(Unique)
      else Ok(t.(holds := t.holds[ref := HoldRow(key, amount, Open)]))
    case ResolveHold(ref, status) =>
      if ref in t.holds && t.holds[ref].status.Open?
      then Ok(t.(holds := t.holds[ref := t.holds[ref].(status := status)]))
      else Ok(t)
    case Adjust(key, balance, held) =>
      if key !in t.accounts then Ok(t)
      else
        var was := t.accounts[key];
        var row := was.(balance := was.balance + balance, held := was.held + held);
        if row.Solvent() then Ok(t.(accounts := t.accounts[key := row])) else Err(Check)
  }

  function ExecAll(t: Tables, statements: seq<Statement>): Result<Tables, Violation>
    decreases |statements|
  {
    if statements == [] then Ok(t)
    else
      match Exec(t, statements[0])
      case Ok(next) => ExecAll(next, statements[1..])
      case Err(violation) => Err(violation)
  }

  datatype Outcome = Committed | Aborted(violation: Violation)

  /** The tables after a batch: all of it, or the tables as they were. */
  function Batch(t: Tables, statements: seq<Statement>): (Tables, Outcome) {
    match ExecAll(t, statements)
    case Ok(next) => (next, Committed)
    case Err(violation) => (t, Aborted(violation))
  }

  /** Running a prefix first, and the rest from where it ended, is running the whole batch. */
  lemma {:induction false} ExecAllSplit(t: Tables, statements: seq<Statement>, n: nat)
    requires n <= |statements|
    ensures ExecAll(t, statements) ==
            match ExecAll(t, statements[..n])
            case Ok(mid) => ExecAll(mid, statements[n..])
            case Err(violation) => Err(violation)
    decreases n
  {
    if n == 0 {
      assert statements[0..] == statements;
    } else {
      assert statements[..n][0] == statements[0];
      assert statements[..n][1..] == statements[1..][..n-1];
      match Exec(t, statements[0])
      case Ok(next) =>
        ExecAllSplit(next, statements[1..], n - 1);
        assert statements[1..][n-1..] == statements[n..];
      case Err(_) =>
    }
  }

  /** The tables as a database holds them: rows changed in place, statement by statement. */
  class Database {
    var accounts: map<Key, Account>
    var log: map<string, Entry>
    var holds: map<string, HoldRow>

    ghost function State(): Tables
      reads this
    {
      Tables(accounts, log, holds)
    }

    constructor ()
      ensures State() == EMPTY_TABLES
    {
      accounts, log, holds := map[], map[], map[];
    }

    /** One statement, or the constraint it broke. A statement that breaks one changes nothing. */
    method Run(s: Statement) returns (broke: Option<Violation>)
      modifies this
      ensures match Exec(old(State()), s)
              case Ok(next) => broke == None && State() == next
              case Err(violation) => broke == Some(violation) && State() == old(State())
    {
      broke := None;
      match s {
        case EnsureAccount(key) =>
          if key !in accounts {
            accounts := accounts[key := Account(key, 0, 0)];
          }
        case InsertEntry(ref, entry) =>
          if ref in log { return Some(Unique); }
          log := log[ref := entry];
        case InsertHold(ref, key, amount) =>
          if ref in holds { return Some(Unique); }
          holds := holds[ref := HoldRow(key, amount, Open)];
        case ResolveHold(ref, status) =>
          if ref in holds && holds[ref].status.Open? {
            holds := holds[ref := holds[ref].(status := status)];
          }
        case Adjust(key, balance, held) =>
          if key in accounts {
            var was := accounts[key];
            var row := was.(balance := was.balance + balance, held := was.held + held);
            if !row.Solvent() { return Some(Check); }
            accounts := accounts[key := row];
          }
      }
    }

    /** `DB.batch`: one transaction. The first broken constraint puts back every row written before it. */
    method RunBatch(statements: seq<Statement>) returns (outcome: Outcome)
      modifies this
      ensures (State(), outcome) == Batch(old(State()), statements)
    {
      var accountsBefore, logBefore, holdsBefore := accounts, log, holds;
      var i := 0;
      while i < |statements|
        invariant 0 <= i <= |statements|
        invariant ExecAll(old(State()), statements) == ExecAll(State(), statements[i..])
      {
        var broke := Run(statements[i]);
        if broke.Some? {
          accounts, log, holds := accountsBefore, logBefore, holdsBefore;
          return Aborted(broke.value);
        }
        assert statements[i..][1..] == statements[i+1..];
        i := i + 1;
      }
      return Committed;
    }
  }
}
