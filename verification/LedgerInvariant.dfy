/**
 Every write keeps the books: balances stay what the log adds up to, holds stay resolved at most once, and every
 correction stays paired with the entry it corrects.
 */
module LedgerInvariant {
  import opened Options
  import opened LedgerTables
  import opened LedgerWrites
  import opened LedgerBooks
  import opened Sums

  /** Nothing is ever taken back: entries and accounts stay, and a hold keeps its terms and its resolution. */
  ghost predicate Extends(t: Tables, u: Tables) {
    && t.accounts.Keys <= u.accounts.Keys
    && (forall ref | ref in t.log :: ref in u.log && u.log[ref] == t.log[ref])
    && (forall ref | ref in t.holds ::
          && ref in u.holds && u.holds[ref].key == t.holds[ref].key && u.holds[ref].amount == t.holds[ref].amount
          && (!t.holds[ref].status.Open? ==> u.holds[ref] == t.holds[ref]))
  }

  lemma ExtendsTransitive(t: Tables, u: Tables, v: Tables)
    requires Extends(t, u) && Extends(u, v)
    ensures Extends(t, v)
  {
  }

  /** What the write does to one account's balance. */
  function Flow(w: Write, key: Key): int {
    (if key == AccountOf(w) then BalanceMove(w) else 0)
    + (if w.TransferOf? && key == Key(w.to, w.currency) then w.amount else 0)
  }

  lemma LogOne(log: map<string, Entry>, ref: string, entry: Entry, key: Key)
    requires ref !in log
    ensures Sum(log + map[ref := entry], Moves(key)) == Sum(log, Moves(key)) + if entry.key == key then Signed(entry) else 0
  {
    SumWrite(log, Moves(key), ref, entry);
    assert log[ref := entry] == log + map[ref := entry];
  }

  lemma LogFlow(t: Tables, w: Write, key: Key)
    requires !Replays(t, w) && Lawful(t, w)
    ensures Sum(t.log + Entries(w), Moves(key)) == Sum(t.log, Moves(key)) + Flow(w, key)
  {
    if w.TransferOf? {
      TransferLogFlow(t, w, key);
    } else {
      var ref, entry := SingleEntry(w);
      assert ref in Entries(w);
      LogOne(t.log, ref, entry, key);
    }
  }

  /** Every write but a transfer logs one entry, and that entry is the whole of its movement. */
  lemma SingleEntry(w: Write) returns (ref: string, entry: Entry)
    requires !w.TransferOf? && (w.ReversalOf? ==> w.opposite == Credit || w.opposite == Debit)
    ensures Entries(w) == map[ref := entry]
    ensures entry.key == w.key && Signed(entry) == BalanceMove(w)
  {
    ref := match w
      case CreditOf(_, _, r) => r
      case DebitOf(_, _, r) => r
      case HoldOf(_, _, r) => r
      case ReversalOf(r, _, _, _) => Derived(r, Reverse)
      case ReleaseOf(r, _, _) => Derived(r, Resolve)
      case CaptureOf(r, _, _, _) => Derived(r, Resolve);
    entry := Entries(w)[ref];
  }

  lemma LogTwo(log: map<string, Entry>, out: string, paid: Entry, into: string, received: Entry, key: Key)
    requires out != into && out !in log && into !in log
    ensures Sum(log + map[out := paid, into := received], Moves(key)) ==
            Sum(log, Moves(key)) + (if paid.key == key then Signed(paid) else 0) + (if received.key == key then Signed(received) else 0)
  {
    LogOne(log, out, paid, key);
    LogOne(log + map[out := paid], into, received, key);
    assert log + map[out := paid] + map[into := received] == log + map[out := paid, into := received];
  }

  lemma TransferLogFlow(t: Tables, w: Write, key: Key)
    requires w.TransferOf? && !Replays(t, w)
    ensures Sum(t.log + Entries(w), Moves(key)) == Sum(t.log, Moves(key)) + Flow(w, key)
  {
    var out, into := Derived(w.ref, Out), Derived(w.ref, In);
    var paid := Entry(Key(w.from, w.currency), TransferOut, w.amount, Some(into));
    var received := Entry(Key(w.to, w.currency), TransferIn, w.amount, Some(out));
    OutIsNotIn(w.ref);
    TwoEntryReplay(t, w, out, paid, into, received);
    LogTwo(t.log, out, paid, into, received, key);
  }

  lemma AccountFlow(t: Tables, w: Write, key: Key)
    ensures ReadBalance(Commit(t, w), key).balance == ReadBalance(t, key).balance + Flow(w, key)
    ensures ReadBalance(Commit(t, w), key).held ==
            ReadBalance(t, key).held + if key == AccountOf(w) then HeldMove(w) else 0
  {
  }

  lemma HoldFlow(t: Tables, w: Write, key: Key)
    requires Books(t) && Lawful(t, w) && !Replays(t, w)
    ensures Sum(HoldsAfter(t.holds, w), Reserves(key)) ==
            Sum(t.holds, Reserves(key)) + if key == AccountOf(w) then HeldMove(w) else 0
  {
    if w.HoldOf? {
      assert w.ref in Entries(w);
      assert w.ref in t.holds ==> HoldShape(t, w.ref);
      SumWrite(t.holds, Reserves(key), w.ref, HoldRow(w.key, w.amount, Open));
    } else if w.ReleaseOf? || w.CaptureOf? {
      assert Derived(w.ref, Resolve) in Entries(w);
      ResolutionIsPossible(t, w);
      SumWrite(t.holds, Reserves(key), w.ref, HoldsAfter(t.holds, w)[w.ref]);
    }
  }

  /** A movement its account covers leaves every account solvent. */
  lemma FlowSolvent(w: Write, key: Key, own: Account, before: Account, after: Account)
    requires 0 < w.amount && (w.CaptureOf? ==> 0 <= w.captured <= w.amount)
    requires w.ReversalOf? ==> w.opposite == Credit || w.opposite == Debit
    requires own.Solvent() && before.Solvent() && (key == AccountOf(w) ==> before == own)
    requires Needs(w) <= own.Available() && (w.ReleaseOf? || w.CaptureOf? ==> w.amount <= own.held)
    requires after.balance == before.balance + Flow(w, key)
    requires after.held == before.held + if key == AccountOf(w) then HeldMove(w) else 0
    ensures after.Solvent()
  {
  }

  lemma CommitSolvent(t: Tables, w: Write, key: Key)
    requires Lawful(t, w) && 0 < w.amount && Covers(t, w)
    requires ReadBalance(t, key).Solvent() && ReadBalance(t, AccountOf(w)).Solvent()
    requires w.ReleaseOf? || w.CaptureOf? ==> w.amount <= ReadBalance(t, w.key).held
    ensures ReadBalance(Commit(t, w), key).Solvent()
  {
    AccountFlow(t, w, key);
    FlowSolvent(w, key, ReadBalance(t, AccountOf(w)), ReadBalance(t, key), ReadBalance(Commit(t, w), key));
  }

  /** What solvency after the write rests on. */
  lemma WriteIsCovered(t: Tables, w: Write)
    requires Books(t) && Lawful(t, w) && !Replays(t, w)
    ensures 0 < w.amount && ReadBalance(t, AccountOf(w)).Solvent()
    ensures w.ReleaseOf? || w.CaptureOf? ==> w.amount <= ReadBalance(t, w.key).held
  {
    assert Balanced(t, AccountOf(w));
    if w.ReleaseOf? || w.CaptureOf? {
      assert Derived(w.ref, Resolve) in Entries(w);
      ResolutionIsPossible(t, w);
    } else if w.ReversalOf? {
      assert EntryShape(t, w.ref);
    }
  }

  lemma CommitBalances(t: Tables, w: Write, key: Key)
    requires Books(t) && Lawful(t, w) && !Replays(t, w) && Covers(t, w)
    ensures Balanced(Commit(t, w), key)
  {
    assert Balanced(t, key);
    WriteIsCovered(t, w);
    CommitSolvent(t, w, key);
    LogFlow(t, w, key);
    AccountFlow(t, w, key);
    HoldFlow(t, w, key);
  }

  lemma CommitExtends(t: Tables, w: Write)
    requires Books(t) && Lawful(t, w) && !Replays(t, w)
    ensures Extends(t, Commit(t, w))
  {
    if w.HoldOf? {
      assert w.ref in Entries(w);
      assert w.ref in t.holds ==> HoldShape(t, w.ref);
    } else if w.ReleaseOf? || w.CaptureOf? {
      assert Derived(w.ref, Resolve) in Entries(w);
      ResolutionIsPossible(t, w);
    }
  }

  /** An entry already logged keeps its shape as the tables grow. */
  lemma ShapeStays(t: Tables, u: Tables, ref: string)
    requires Extends(t, u) && ref in t.log && EntryShape(t, ref)
    ensures ref in u.log && EntryShape(u, ref)
  {
  }

  lemma NewEntryShape(t: Tables, w: Write, ref: string)
    requires Books(t) && Lawful(t, w) && !Replays(t, w)
    requires ref in Entries(w)
    ensures EntryShape(Commit(t, w), ref)
  {
    var u := Commit(t, w);
    CommitExtends(t, w);
    assert u.log[ref] == Entries(w)[ref];
    match w
    case ReversalOf(original, _, _, _) =>
      assert EntryShape(t, original);
      assert u.log[original] == t.log[original];
    case TransferOf(_, _, _, _, r) =>
      assert Derived(r, Out) in Entries(w) && Derived(r, In) in Entries(w);
      DerivedRefsDisjoint();
      assert u.log[Derived(r, Out)] == Entries(w)[Derived(r, Out)];
      assert u.log[Derived(r, In)] == Entries(w)[Derived(r, In)];
    case _ =>
  }

  /** Only a resolution of the hold can put a related entry under the hold's `:resolve`. */
  lemma ResolvesOnly(w: Write, hold: string)
    requires Derived(hold, Resolve) in Entries(w) && Entries(w)[Derived(hold, Resolve)].related == Some(hold)
    ensures (w.ReleaseOf? || w.CaptureOf?) && w.ref == hold
  {
    DerivedRefsDisjoint();
  }

  lemma CommitHoldShape(t: Tables, w: Write, ref: string)
    requires Books(t) && Lawful(t, w) && !Replays(t, w)
    requires ref in HoldsAfter(t.holds, w)
    ensures HoldShape(Commit(t, w), ref)
  {
    var u := Commit(t, w);
    var resolution := Derived(ref, Resolve);
    CommitExtends(t, w);
    if (w.ReleaseOf? || w.CaptureOf?) && ref == w.ref {
      assert resolution in Entries(w);
      assert HoldShape(t, ref);
      assert u.log[ref] == t.log[ref];
      assert u.log[resolution] == Entries(w)[resolution];
    } else {
      if Resolved(u, ref) && resolution in Entries(w) {
        assert u.log[resolution] == Entries(w)[resolution];
        ResolvesOnly(w, ref);
        assert false;
      }
      if ref in t.holds {
        assert HoldShape(t, ref);
        assert u.log[ref] == t.log[ref];
        if resolution in t.log { assert u.log[resolution] == t.log[resolution]; }
      } else {
        // Just placed, so nothing logged before can already be related to it.
        assert ref in Entries(w) && ref !in t.log;
        assert u.log[ref] == Entries(w)[ref];
        if resolution in t.log {
          assert EntryShape(t, resolution);
          DerivedRefsDisjoint();
          assert u.log[resolution] == t.log[resolution];
        }
      }
    }
  }

  /** A committed write keeps the books. */
  lemma CommitKeepsBooks(t: Tables, w: Write)
    requires Books(t) && Lawful(t, w) && !Replays(t, w) && Covers(t, w)
    ensures Books(Commit(t, w))
    ensures Extends(t, Commit(t, w))
  {
    var u := Commit(t, w);
    CommitExtends(t, w);
    forall key ensures Balanced(u, key) {
      CommitBalances(t, w, key);
    }
    forall ref | ref in u.log ensures EntryShape(u, ref) {
      if ref in Entries(w) {
        NewEntryShape(t, w, ref);
      } else {
        assert EntryShape(t, ref);
        ShapeStays(t, u, ref);
      }
    }
    forall ref | ref in u.holds ensures HoldShape(u, ref) {
      CommitHoldShape(t, w, ref);
    }
  }

  /** Whatever comes of it, a lawful write keeps the books and takes nothing back. */
  lemma EffectKeepsBooks(t: Tables, w: Write)
    requires Books(t) && Lawful(t, w)
    ensures Books(Effect(t, w).0)
    ensures Extends(t, Effect(t, w).0)
  {
    if !Replays(t, w) && Covers(t, w) {
      CommitKeepsBooks(t, w);
    }
  }

  /** Before anything is written, the books hold. */
  lemma EmptyBooks()
    ensures Books(EMPTY_TABLES)
  {
    forall key ensures Balanced(EMPTY_TABLES, key) {
      SumZero(EMPTY_TABLES.log, Moves(key));
      SumZero(EMPTY_TABLES.holds, Reserves(key));
    }
  }
}
