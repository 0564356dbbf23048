/**
 What each ledger operation writes: the statements of its batch, and, stated without them, the effect that
 batch is meant to have.
 */
module LedgerWrites {
  import opened Options
  import opened LedgerTables
  import opened Sums

  // -------------------- refs the ledger derives --------------------

  datatype Suffix = Reverse | Resolve | Out | In

  function SuffixText(s: Suffix): string {
    match s
    case Reverse => ":reverse"
    case Resolve => ":resolve"
    case Out => ":out"
    case In => ":in"
  }

  /** `${ref}:reverse`, `${ref}:resolve`, `${ref}:out` and `${ref}:in`. */
  function Derived(ref: string, s: Suffix): string {
    ref + SuffixText(s)
  }

  /** No two refs derive the same ref, whichever suffixes they take: refs never nest their way into one another. */
  lemma DerivedInjective(a: string, s: Suffix, b: string, u: Suffix)
    requires Derived(a, s) == Derived(b, u)
    ensures a == b && s == u
  {
    var d := Derived(a, s);
    var x, y := SuffixText(s), SuffixText(u);
    assert d[|d|-1] == x[|x|-1] == y[|y|-1];
    assert d[|d|-2] == x[|x|-2] == y[|y|-2];
    assert s == u;
    assert a == d[..|d|-|x|] && b == d[..|d|-|y|];
  }

  /** The same, for every pair of refs at once. */
  lemma DerivedRefsDisjoint()
    ensures forall a, s, b, u {:trigger Derived(a, s), Derived(b, u)} :: Derived(a, s) == Derived(b, u) ==> a == b && s == u
  {
    forall a, s, b, u | Derived(a, s) == Derived(b, u)
      ensures a == b && s == u
    {
      DerivedInjective(a, s, b, u);
    }
  }

  // -------------------- writes --------------------

  /** One batch some operation is ready to run, with what its earlier reads told it. */
  datatype Write =
    | CreditOf(key: Key, amount: int, ref: string)
    | DebitOf(key: Key, amount: int, ref: string)
    | ReversalOf(ref: string, key: Key, amount: int, opposite: Kind)
    | TransferOf(from: string, to: string, currency: string, amount: int, ref: string)
    | HoldOf(key: Key, amount: int, ref: string)
    | ReleaseOf(ref: string, key: Key, amount: int)
    | CaptureOf(ref: string, key: Key, amount: int, captured: int)

  /** The statements, in the order the batch holds them. */
  function Statements(w: Write): seq<Statement> {
    match w
    case CreditOf(key, amount, ref) =>
      [EnsureAccount(key), InsertEntry(ref, Entry(key, Credit, amount, None)), Adjust(key, amount, 0)]
    case DebitOf(key, amount, ref) =>
      [EnsureAccount(key), InsertEntry(ref, Entry(key, Debit, amount, None)), Adjust(key, -amount, 0)]
    case ReversalOf(ref, key, amount, opposite) =>
      [InsertEntry(Derived(ref, Reverse), Entry(key, opposite, amount, Some(ref))),
       Adjust(key, if opposite == Credit then amount else -amount, 0)]
    case TransferOf(from, to, currency, amount, ref) =>
      [EnsureAccount(Key(from, currency)),
       EnsureAccount(Key(to, currency)),
       InsertEntry(Derived(ref, Out), Entry(Key(from, currency), TransferOut, amount, Some(Derived(ref, In)))),
       InsertEntry(Derived(ref, In), Entry(Key(to, currency), TransferIn, amount, Some(Derived(ref, Out)))),
       Adjust(Key(from, currency), -amount, 0),
       Adjust(Key(to, currency), amount, 0)]
    case HoldOf(key, amount, ref) =>
      [EnsureAccount(key),
       InsertEntry(ref, Entry(key, Hold, amount, None)),
       InsertHold(ref, key, amount),
       Adjust(key, 0, amount)]
    case ReleaseOf(ref, key, amount) =>
      [InsertEntry(Derived(ref, Resolve), Entry(key, Release, amount, Some(ref))),
       ResolveHold(ref, Released),
       Adjust(key, 0, -amount)]
    case CaptureOf(ref, key, amount, captured) =>
      [InsertEntry(Derived(ref, Resolve), Entry(key, Capture, captured, Some(ref))),
       ResolveHold(ref, Captured),
       Adjust(key, -captured, -amount)]
  }

  /** The account `run` reads inside the batch. A transfer reads none; its payer stands in. */
  function AccountOf(w: Write): Key {
    if w.TransferOf? then Key(w.from, w.currency) else w.key
  }

  /** The movement `run` subtracts from the account it read to say what was there before: of the balance, */
  function BalanceMove(w: Write): int {
    match w
    case CreditOf(_, amount, _) => amount
    case DebitOf(_, amount, _) => -amount
    case ReversalOf(_, _, amount, opposite) => if opposite == Credit then amount else -amount
    case TransferOf(_, _, _, amount, _) => -amount
    case CaptureOf(_, _, _, captured) => -captured
    case HoldOf(_, _, _) => 0
    case ReleaseOf(_, _, _) => 0
  }

  /** and of what is held. */
  function HeldMove(w: Write): int {
    match w
    case HoldOf(_, amount, _) => amount
    case ReleaseOf(_, _, amount) => -amount
    case CaptureOf(_, _, amount, _) => -amount
    case _ => 0
  }

  // -------------------- the effect a write is meant to have --------------------

  /** Every entry the write adds to the log. */
  function Entries(w: Write): map<string, Entry> {
    match w
    case CreditOf(key, amount, ref) => map[ref := Entry(key, Credit, amount, None)]
    case DebitOf(key, amount, ref) => map[ref := Entry(key, Debit, amount, None)]
    case ReversalOf(ref, key, amount, opposite) => map[Derived(ref, Reverse) := Entry(key, opposite, amount, Some(ref))]
    case TransferOf(from, to, currency, amount, ref) =>
      map[Derived(ref, Out) := Entry(Key(from, currency), TransferOut, amount, Some(Derived(ref, In))),
          Derived(ref, In) := Entry(Key(to, currency), TransferIn, amount, Some(Derived(ref, Out)))]
    case HoldOf(key, amount, ref) => map[ref := Entry(key, Hold, amount, None)]
    case ReleaseOf(ref, key, amount) => map[Derived(ref, Resolve) := Entry(key, Release, amount, Some(ref))]
    case CaptureOf(ref, key, _, captured) => map[Derived(ref, Resolve) := Entry(key, Capture, captured, Some(ref))]
  }

  /** One of the refs the write would take is already in the log. */
  ghost predicate Replays(t: Tables, w: Write) {
    exists ref :: ref in Entries(w) && ref in t.log
  }

  /** What the write needs available on the account it takes from; zero when it takes nothing free. */
  function Needs(w: Write): int {
    match w
    case DebitOf(_, amount, _) => amount
    case ReversalOf(_, _, amount, opposite) => if opposite == Debit then amount else 0
    case TransferOf(_, _, _, amount, _) => amount
    case HoldOf(_, amount, _) => amount
    case _ => 0
  }

  predicate Covers(t: Tables, w: Write) {
    Needs(w) <= ReadBalance(t, AccountOf(w)).Available()
  }

  /** The account after a movement on it, opened at zero if it had no row. */
  function Moved(accounts: map<Key, Account>, key: Key, balance: int, held: int): map<Key, Account> {
    var was := if key in accounts then accounts[key] else Account(key, 0, 0);
    accounts[key := was.(balance := was.balance + balance, held := was.held + held)]
  }

  function HoldsAfter(holds: map<string, HoldRow>, w: Write): map<string, HoldRow> {
    match w
    case HoldOf(key, amount, ref) => holds[ref := HoldRow(key, amount, Open)]
    case ReleaseOf(ref, key, amount) => holds[ref := HoldRow(key, amount, Released)]
    case CaptureOf(ref, key, amount, _) => holds[ref := HoldRow(key, amount, Captured)]
    case _ => holds
  }

  /** The tables once the write is in: its entries logged, its movement made, its hold placed or resolved. */
  function Commit(t: Tables, w: Write): Tables {
    var paid := Moved(t.accounts, AccountOf(w), BalanceMove(w), HeldMove(w));
    Tables(
      if w.TransferOf? then Moved(paid, Key(w.to, w.currency), w.amount, 0) else paid,
      t.log + Entries(w),
      HoldsAfter(t.holds, w))
  }

  /** A replay first, whatever the balance; then solvency; then the whole movement. */
  ghost function Effect(t: Tables, w: Write): (Tables, Outcome) {
    if Replays(t, w) then (t, Aborted(Unique))
    else if !Covers(t, w) then (t, Aborted(Check))
    else (Commit(t, w), Committed)
  }

  // -------------------- the books --------------------

  function Opposite(kind: Kind): Kind {
    if kind == Credit then Debit else Credit
  }

  /** What an entry does to its account's balance. */
  function Signed(e: Entry): int {
    match e.kind
    case Credit | TransferIn => e.amount
    case Debit | TransferOut | Capture => -e.amount
    case Hold | Release => 0
  }

  function Moves(key: Key): (string, Entry) -> int {
    (ref: string, e: Entry) => if e.key == key then Signed(e) else 0
  }

  function Reserves(key: Key): (string, HoldRow) -> int {
    (ref: string, h: HoldRow) => if h.key == key && h.status.Open? then h.amount else 0
  }

  /** An account's row is what the log and the open holds add up to, and is solvent. */
  ghost predicate Balanced(t: Tables, key: Key) {
    && ReadBalance(t, key).balance == Sum(t.log, Moves(key))
    && ReadBalance(t, key).held == Sum(t.holds, Reserves(key))
    && ReadBalance(t, key).Solvent()
  }

  /** The hold's resolution is in the log: `<ref>:resolve`, related to the hold. */
  predicate Resolved(t: Tables, ref: string) {
    Derived(ref, Resolve) in t.log && t.log[Derived(ref, Resolve)].related == Some(ref)
  }

  /** The shape of one log entry. */
  predicate EntryShape(t: Tables, ref: string)
    requires ref in t.log
  {
    var e := t.log[ref];
    && e.key in t.accounts
    && match e.kind
       case Credit | Debit =>
         && 0 < e.amount
         && (e.related.Some? ==>
               var original := e.related.value;
               ref == Derived(original, Reverse) && original in t.log
               && t.log[original] == Entry(e.key, Opposite(e.kind), e.amount, None))
       case Hold => 0 < e.amount && e.related == None && ref in t.holds
       case Release | Capture => e.related.Some? && ref == Derived(e.related.value, Resolve) && e.related.value in t.holds
       case TransferOut =>
         && 0 < e.amount && e.related.Some? && e.related.value in t.log
         && var other := t.log[e.related.value];
            other.kind == TransferIn && other.amount == e.amount && other.key.currency == e.key.currency && other.related == Some(ref)
       case TransferIn =>
         && 0 < e.amount && e.related.Some? && e.related.value in t.log
         && var other := t.log[e.related.value];
            other.kind == TransferOut && other.amount == e.amount && other.key.currency == e.key.currency && other.related == Some(ref)
  }

  /** The shape of one hold: logged as placed, and resolved in the log exactly when its status says so. */
  predicate HoldShape(t: Tables, ref: string)
    requires ref in t.holds
  {
    var h := t.holds[ref];
    && 0 < h.amount
    && ref in t.log && t.log[ref] == Entry(h.key, Hold, h.amount, None)
    && (h.status.Open? <==> !Resolved(t, ref))
    && (h.status.Released? ==> t.log[Derived(ref, Resolve)] == Entry(h.key, Release, h.amount, Some(ref)))
    && (h.status.Captured? ==>
          var e := t.log[Derived(ref, Resolve)];
          e == Entry(h.key, Capture, e.amount, Some(ref)) && 0 <= e.amount <= h.amount)
  }

  ghost predicate Books(t: Tables) {
    && (forall key {:trigger Balanced(t, key)} :: Balanced(t, key))
    && (forall ref {:trigger EntryShape(t, ref)} | ref in t.log :: EntryShape(t, ref))
    && (forall ref {:trigger HoldShape(t, ref)} | ref in t.holds :: HoldShape(t, ref))
  }

  /** What a write may rest on: a positive amount, and for a derived write the row its caller read. */
  predicate Lawful(t: Tables, w: Write) {
    match w
    case CreditOf(_, amount, _) => 0 < amount
    case DebitOf(_, amount, _) => 0 < amount
    case TransferOf(_, _, _, amount, _) => 0 < amount
    case HoldOf(_, amount, _) => 0 < amount
    case ReversalOf(ref, key, amount, opposite) =>
      (opposite == Credit || opposite == Debit) && ref in t.log && t.log[ref] == Entry(key, Opposite(opposite), amount, None)
    case ReleaseOf(ref, key, amount) =>
      ref in t.holds && t.holds[ref].key == key && t.holds[ref].amount == amount
    case CaptureOf(ref, key, amount, captured) =>
      ref in t.holds && t.holds[ref].key == key && t.holds[ref].amount == amount && 0 <= captured <= amount
  }
}
