/**
 One batch at a time: its statements have exactly their write's effect, abort for exactly the right reason, and
 keep the books.
 */
module LedgerBooks {
  import opened Options
  import opened LedgerTables
  import opened LedgerWrites
  import opened Sums

  // -------------------- a batch has its write's effect --------------------

  lemma {:induction false} Exec2(t: Tables, a: Statement, b: Statement)
    ensures ExecAll(t, [a, b]) == match Exec(t, a) case Err(v) => Err(v) case Ok(u) => Exec(u, b)
  {
    assert [a, b][1..] == [b] && [b][1..] == [];
    match Exec(t, a)
    case Err(_) =>
    case Ok(u) =>
      assert ExecAll(u, [b]) == Exec(u, b) by {
        match Exec(u, b) case Err(_) => case Ok(x) => assert ExecAll(x, []) == Ok(x);
      }
  }

  lemma {:induction false} Exec3(t: Tables, a: Statement, b: Statement, c: Statement)
    ensures ExecAll(t, [a, b, c]) == match Exec(t, a) case Err(v) => Err(v) case Ok(u) => ExecAll(u, [b, c])
  {
    assert [a, b, c][1..] == [b, c];
  }

  lemma {:induction false} Exec4(t: Tables, a: Statement, b: Statement, c: Statement, d: Statement)
    ensures ExecAll(t, [a, b, c, d]) == match Exec(t, a) case Err(v) => Err(v) case Ok(u) => ExecAll(u, [b, c, d])
  {
    assert [a, b, c, d][1..] == [b, c, d];
  }

  /** An open hold is inside its account's `held`, so resolving it can never break solvency. */
  lemma OpenHoldIsReserved(t: Tables, ref: string)
    requires Books(t) && ref in t.holds && t.holds[ref].status.Open?
    ensures t.holds[ref].key in t.accounts
    ensures t.holds[ref].amount <= t.accounts[t.holds[ref].key].held
  {
    var h := t.holds[ref];
    assert HoldShape(t, ref) && EntryShape(t, ref) && Balanced(t, h.key);
    forall r | r in t.holds ensures 0 <= Reserves(h.key)(r, t.holds[r]) {
      assert HoldShape(t, r);
    }
    SumBound(t.holds, Reserves(h.key), ref);
  }

  /** The account row a write finds after opening it: as it read before, and never missing. */
  lemma Opening(t: Tables, key: Key, row: Account)
    ensures var u := Exec(t, EnsureAccount(key)).value;
            && key in u.accounts && u.accounts[key] == ReadBalance(t, key)
            && u.log == t.log && u.holds == t.holds
            && u.accounts[key := row] == t.accounts[key := row]
  {
  }

  /** Open the account, log one entry, move the balance: the batch of a credit and of a debit. */
  lemma OpenLogMove(t: Tables, key: Key, ref: string, entry: Entry, move: int)
    requires ReadBalance(t, key).Solvent()
    ensures var was := ReadBalance(t, key);
            Batch(t, [EnsureAccount(key), InsertEntry(ref, entry), Adjust(key, move, 0)]) ==
            if ref in t.log then (t, Aborted(Unique))
            else if was.balance + move < was.held then (t, Aborted(Check))
            else (Tables(t.accounts[key := was.(balance := was.balance + move)], t.log[ref := entry], t.holds), Committed)
  {
    var was := ReadBalance(t, key);
    Exec3(t, EnsureAccount(key), InsertEntry(ref, entry), Adjust(key, move, 0));
    Opening(t, key, was.(balance := was.balance + move));
    Exec2(Exec(t, EnsureAccount(key)).value, InsertEntry(ref, entry), Adjust(key, move, 0));
  }

  /** The tables with one entry more and one account moved, as `OpenLogMove` leaves them. */
  lemma OneEntryCommit(t: Tables, w: Write, key: Key, ref: string, entry: Entry, move: int)
    requires AccountOf(w) == key && !w.TransferOf? && HoldsAfter(t.holds, w) == t.holds
    requires Entries(w) == map[ref := entry] && BalanceMove(w) == move && HeldMove(w) == 0
    ensures Replays(t, w) <==> ref in t.log
    ensures var was := ReadBalance(t, key);
            Commit(t, w) == Tables(t.accounts[key := was.(balance := was.balance + move)], t.log[ref := entry], t.holds)
  {
    assert ref in Entries(w);
    assert t.log[ref := entry] == t.log + map[ref := entry];
  }

  lemma CreditEffect(t: Tables, key: Key, amount: int, ref: string)
    requires 0 < amount && ReadBalance(t, key).Solvent()
    ensures Batch(t, Statements(CreditOf(key, amount, ref))) == Effect(t, CreditOf(key, amount, ref))
  {
    OneEntryCommit(t, CreditOf(key, amount, ref), key, ref, Entry(key, Credit, amount, None), amount);
    OpenLogMove(t, key, ref, Entry(key, Credit, amount, None), amount);
  }

  lemma DebitEffect(t: Tables, key: Key, amount: int, ref: string)
    requires 0 < amount && ReadBalance(t, key).Solvent()
    ensures Batch(t, Statements(DebitOf(key, amount, ref))) == Effect(t, DebitOf(key, amount, ref))
  {
    OneEntryCommit(t, DebitOf(key, amount, ref), key, ref, Entry(key, Debit, amount, None), -amount);
    OpenLogMove(t, key, ref, Entry(key, Debit, amount, None), -amount);
  }

  lemma HoldEffect(t: Tables, w: Write)
    requires w.HoldOf? && 0 < w.amount && ReadBalance(t, w.key).Solvent()
    requires w.ref in t.holds ==> w.ref in t.log
    ensures Batch(t, Statements(w)) == Effect(t, w)
  {
    var s := Statements(w);
    Exec4(t, s[0], s[1], s[2], s[3]);
    var was := ReadBalance(t, w.key);
    Opening(t, w.key, was.(held := was.held + w.amount));
    var u := Exec(t, s[0]).value;
    Exec3(u, s[1], s[2], s[3]);
    assert w.ref in Entries(w);
    if w.ref !in t.log {
      Exec2(Exec(u, s[1]).value, s[2], s[3]);
      assert t.log[w.ref := Entries(w)[w.ref]] == t.log + Entries(w);
    }
  }

  lemma ReversalEffect(t: Tables, w: Write)
    requires w.ReversalOf? && 0 < w.amount && w.key in t.accounts && t.accounts[w.key].Solvent()
    requires w.opposite == Credit || w.opposite == Debit
    ensures Batch(t, Statements(w)) == Effect(t, w)
  {
    var s := Statements(w);
    Exec2(t, s[0], s[1]);
    var ref := Derived(w.ref, Reverse);
    assert ref in Entries(w);
    assert t.log[ref := Entries(w)[ref]] == t.log + Entries(w);
  }

  /** A resolution whose ref is free finds its hold open, and then nothing can stop it. */
  lemma ResolutionEffect(t: Tables, w: Write)
    requires (w.ReleaseOf? || w.CaptureOf?) && Lawful(t, w) && 0 < w.amount
    requires w.key in t.accounts && t.accounts[w.key].Solvent()
    requires Derived(w.ref, Resolve) !in t.log ==> t.holds[w.ref].status.Open? && w.amount <= t.accounts[w.key].held
    ensures Batch(t, Statements(w)) == Effect(t, w)
    ensures Covers(t, w)
  {
    var s := Statements(w);
    Exec3(t, s[0], s[1], s[2]);
    var ref := Derived(w.ref, Resolve);
    assert ref in Entries(w);
    if ref !in t.log {
      var logged := t.(log := t.log + Entries(w));
      assert t.log[ref := Entries(w)[ref]] == t.log + Entries(w);
      assert Exec(t, s[0]) == Ok(logged);
      Exec2(logged, s[1], s[2]);
      var resolved := Exec(logged, s[1]).value;
      assert resolved == logged.(holds := HoldsAfter(t.holds, w));
      assert Exec(resolved, s[2]) == Ok(Commit(t, w));
    }
  }

  /** The two accounts of a transfer once both are open, and what each was before. */
  lemma Openings(t: Tables, from: Key, to: Key)
    ensures var u := Exec(t, EnsureAccount(from)).value;
            var v := Exec(u, EnsureAccount(to)).value;
            && Exec(t, EnsureAccount(from)) == Ok(u) && Exec(u, EnsureAccount(to)) == Ok(v)
            && from in v.accounts && v.accounts[from] == ReadBalance(t, from)
            && to in v.accounts && v.accounts[to] == ReadBalance(t, to)
            && v.log == t.log && v.holds == t.holds
  {
  }

  /** The two movements of a transfer, once both its entries are in. */
  lemma TransferPayment(t: Tables, logged: Tables, from: Key, to: Key, amount: int)
    requires 0 < amount && ReadBalance(t, from).Solvent() && ReadBalance(t, to).Solvent()
    requires logged.accounts == Exec(Exec(t, EnsureAccount(from)).value, EnsureAccount(to)).value.accounts
    ensures var first := Exec(logged, Adjust(from, -amount, 0));
            if amount <= ReadBalance(t, from).Available() then
              first.Ok? && Exec(first.value, Adjust(to, amount, 0)) ==
                           Ok(logged.(accounts := Moved(Moved(t.accounts, from, -amount, 0), to, amount, 0)))
            else
              first == Err(Check)
  {
    Openings(t, from, to);
    if amount <= ReadBalance(t, from).Available() {
      var paid := Exec(logged, Adjust(from, -amount, 0)).value;
      assert Exec(paid, Adjust(to, amount, 0)).value.accounts == Moved(Moved(t.accounts, from, -amount, 0), to, amount, 0);
    }
  }

  lemma TwoEntries(t: Tables, out: string, paid: Entry, into: string, received: Entry)
    requires out != into
    ensures ExecAll(t, [InsertEntry(out, paid), InsertEntry(into, received)]) ==
            if out in t.log || into in t.log then Err(Unique) else Ok(t.(log := t.log + map[out := paid, into := received]))
  {
    Exec2(t, InsertEntry(out, paid), InsertEntry(into, received));
    assert t.log[out := paid][into := received] == t.log + map[out := paid, into := received];
  }

  /** The six statements, two at a time. */
  lemma Exec222(t: Tables, s: seq<Statement>)
    requires |s| == 6
    ensures ExecAll(t, s) ==
            match ExecAll(t, [s[0], s[1]])
            case Err(a) => Err(a)
            case Ok(u) =>
              match ExecAll(u, [s[2], s[3]])
              case Err(b) => Err(b)
              case Ok(v) => ExecAll(v, [s[4], s[5]])
  {
    assert s[..2] == [s[0], s[1]] && s[2..][..2] == [s[2], s[3]] && s[2..][2..] == [s[4], s[5]];
    ExecAllSplit(t, s, 2);
    if ExecAll(t, [s[0], s[1]]).Ok? { ExecAllSplit(ExecAll(t, [s[0], s[1]]).value, s[2..], 2); }
  }

  /** Open both accounts, log both entries, move the amount across: the batch of a transfer. */
  lemma OpenLogPay(t: Tables, from: Key, to: Key, out: string, paid: Entry, into: string, received: Entry, amount: int)
    requires out != into && 0 < amount && ReadBalance(t, from).Solvent() && ReadBalance(t, to).Solvent()
    ensures Batch(t, [EnsureAccount(from), EnsureAccount(to), InsertEntry(out, paid), InsertEntry(into, received),
                      Adjust(from, -amount, 0), Adjust(to, amount, 0)]) ==
            if out in t.log || into in t.log then (t, Aborted(Unique))
            else if ReadBalance(t, from).Available() < amount then (t, Aborted(Check))
            else (Tables(Moved(Moved(t.accounts, from, -amount, 0), to, amount, 0),
                         t.log + map[out := paid, into := received], t.holds), Committed)
  {
    var s := [EnsureAccount(from), EnsureAccount(to), InsertEntry(out, paid), InsertEntry(into, received),
              Adjust(from, -amount, 0), Adjust(to, amount, 0)];
    Exec222(t, s);
    Openings(t, from, to);
    Exec2(t, s[0], s[1]);
    var v := Exec(Exec(t, s[0]).value, s[1]).value;
    TwoEntries(v, out, paid, into, received);
    if out !in t.log && into !in t.log {
      var logged := v.(log := t.log + map[out := paid, into := received]);
      Exec2(logged, s[4], s[5]);
      TransferPayment(t, logged, from, to, amount);
    }
  }

  lemma TwoEntryReplay(t: Tables, w: Write, out: string, paid: Entry, into: string, received: Entry)
    requires Entries(w) == map[out := paid, into := received]
    ensures Replays(t, w) <==> out in t.log || into in t.log
  {
    assert out in Entries(w) && into in Entries(w);
  }

  lemma OutIsNotIn(ref: string)
    ensures Derived(ref, Out) != Derived(ref, In)
  {
    DerivedRefsDisjoint();
  }

  lemma TransferEffect(t: Tables, from: string, to: string, currency: string, amount: int, ref: string)
    requires 0 < amount && ReadBalance(t, Key(from, currency)).Solvent() && ReadBalance(t, Key(to, currency)).Solvent()
    ensures var w := TransferOf(from, to, currency, amount, ref); Batch(t, Statements(w)) == Effect(t, w)
  {
    var w, out, into := TransferOf(from, to, currency, amount, ref), Derived(ref, Out), Derived(ref, In);
    var paid := Entry(Key(from, currency), TransferOut, amount, Some(into));
    var received := Entry(Key(to, currency), TransferIn, amount, Some(out));
    OutIsNotIn(ref);
    TwoEntryReplay(t, w, out, paid, into, received);
    OpenLogPay(t, Key(from, currency), Key(to, currency), out, paid, into, received, amount);
  }

  /**
   A batch does what its write is meant to do, from whatever tables it finds.

   It aborts on UNIQUE exactly when a ref it would take is already logged, even where the balance no longer
   covers it, and on CHECK exactly when no ref is taken and the account cannot cover what it needs.
   */
  lemma BatchHasEffect(t: Tables, w: Write)
    requires Books(t) && Lawful(t, w)
    ensures Batch(t, Statements(w)) == Effect(t, w)
  {
    assert Balanced(t, AccountOf(w));
    match w
    case CreditOf(key, amount, ref) => CreditEffect(t, key, amount, ref);
    case DebitOf(key, amount, ref) => DebitEffect(t, key, amount, ref);
    case ReversalOf(ref, _, _, _) =>
      assert EntryShape(t, ref);
      ReversalEffect(t, w);
    case TransferOf(from, to, currency, amount, ref) =>
      assert Balanced(t, Key(to, currency));
      TransferEffect(t, from, to, currency, amount, ref);
    case HoldOf(_, _, ref) =>
      assert ref in t.holds ==> HoldShape(t, ref);
      HoldEffect(t, w);
    case ReleaseOf(_, _, _) =>
      ResolutionIsPossible(t, w);
      ResolutionEffect(t, w);
    case CaptureOf(_, _, _, _) =>
      ResolutionIsPossible(t, w);
      ResolutionEffect(t, w);
  }

  lemma ResolutionIsPossible(t: Tables, w: Write)
    requires Books(t) && (w.ReleaseOf? || w.CaptureOf?) && Lawful(t, w)
    ensures w.key in t.accounts && 0 < w.amount
    ensures Derived(w.ref, Resolve) !in t.log ==> t.holds[w.ref].status.Open? && w.amount <= t.accounts[w.key].held
  {
    assert HoldShape(t, w.ref) && EntryShape(t, w.ref);
    if Derived(w.ref, Resolve) !in t.log {
      OpenHoldIsReserved(t, w.ref);
    }
  }
}
