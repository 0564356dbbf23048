/**
 Each operation spelled out over the tables, whatever run it is part of: what it makes of its arguments when it arrives,
 what it makes of the row it reads first, what its batch leaves, and what its answer says of the account.
 */
module LedgerOperations {
  import opened Options
  import opened LedgerTables
  import opened LedgerWrites
  import opened LedgerBooks
  import opened LedgerInvariant
  import opened LedgerCalls
  import opened LedgerRuns
  import opened LedgerTheorems
  import opened LedgerAnswers

  /** The system once one call has made its next access. */
  ghost function After(events: seq<Event>, id: nat): System {
    Run(events + [Advance(id)])
  }

  /** Nothing is written. */
  predicate Unmoved(s: System, s': System) {
    s'.tables == s.tables && s'.committed == s.committed
  }

  /** One access, from the sound state every run is in. */
  lemma Accessed(events: seq<Event>, id: nat)
    ensures Sound(Run(events)) && After(events, id) == Step(Run(events), Advance(id))
  {
    EveryRunIsSound(events);
    RunMore(events, Advance(id));
  }

  // -------------------- arrival --------------------

  /** An operation that names an amount takes it only whole and above zero, and goes straight to its batch; the others read first. */
  lemma {:induction false} Arrives(events: seq<Event>, id: nat, request: Request)
    requires id !in Run(events).calls
    ensures var s' := Run(events + [Begin(id, request)]);
            && Unmoved(Run(events), s') && id in s'.calls
            && s'.calls[id] ==
               match request
               case CreditRequest(key, amount, ref, _) =>
                 if amount.Whole? && 0 < amount.n then Writing(request, CreditOf(key, amount.n, ref)) else Raised(request, InvalidAmount)
               case DebitRequest(key, amount, ref, _) =>
                 if amount.Whole? && 0 < amount.n then Writing(request, DebitOf(key, amount.n, ref)) else Raised(request, InvalidAmount)
               case TransferRequest(from, to, currency, amount, ref) =>
                 if amount.Whole? && 0 < amount.n then Writing(request, TransferOf(from, to, currency, amount.n, ref))
                 else Raised(request, InvalidAmount)
               case HoldRequest(key, amount, ref) =>
                 if amount.Whole? && 0 < amount.n then Writing(request, HoldOf(key, amount.n, ref)) else Raised(request, InvalidAmount)
               case _ => Reading(request)
  {
    RunMore(events, Begin(id, request));
  }

  // -------------------- the first read --------------------

  /** A reversal reads the entry it is to reverse: not there, or on another account; of another kind; itself a reversal; or reversible. */
  lemma {:induction false} ReversalReads(events: seq<Event>, id: nat, ref: string, scope: Option<Key>)
    requires id in Run(events).calls && Run(events).calls[id] == Reading(ReverseRequest(ref, scope))
    ensures var s, s' := Run(events), After(events, id);
            var log, request := s.tables.log, ReverseRequest(ref, scope);
            && Unmoved(s, s') && id in s'.calls
            && s'.calls[id] ==
               if ref !in log || (scope.Some? && log[ref].key != scope.value) then Raised(request, EntryNotFound)
               else if log[ref].kind == Credit && log[ref].related == None then
                 Writing(request, ReversalOf(ref, log[ref].key, log[ref].amount, Debit))
               else if log[ref].kind == Debit && log[ref].related == None then
                 Writing(request, ReversalOf(ref, log[ref].key, log[ref].amount, Credit))
               else
                 var moved := log[ref].kind == Credit || log[ref].kind == Debit;
                 Raised(request, EntryNotReversible(log[ref].kind, if moved then log[ref].related else None))
  {
    RunMore(events, Advance(id));
  }

  /** An in-process release reads its hold: not there, no longer open, or open. */
  lemma {:induction false} ReleaseReads(events: seq<Event>, id: nat, ref: string)
    requires id in Run(events).calls && Run(events).calls[id] == Reading(ReleaseRequest(ref))
    ensures var s, s' := Run(events), After(events, id);
            var holds, request := s.tables.holds, ReleaseRequest(ref);
            && Unmoved(s, s') && id in s'.calls
            && s'.calls[id] ==
               if ref !in holds then Raised(request, HoldNotFound)
               else if holds[ref].status == Open then Writing(request, ReleaseOf(ref, holds[ref].key, holds[ref].amount))
               else Raised(request, HoldNotOpen)
  {
    RunMore(events, Advance(id));
  }

  /** A management release also looks at the account it is confined to, and has nothing left to do where the hold is released. */
  lemma {:induction false} ManagedReleaseReads(events: seq<Event>, id: nat, ref: string, scope: Option<Key>)
    requires id in Run(events).calls && Run(events).calls[id] == Reading(ManagedReleaseRequest(ref, scope))
    ensures var s, s' := Run(events), After(events, id);
            var holds, request := s.tables.holds, ManagedReleaseRequest(ref, scope);
            && Unmoved(s, s') && id in s'.calls
            && s'.calls[id] ==
               if ref !in holds || (scope.Some? && holds[ref].key != scope.value) then Raised(request, HoldNotFound)
               else if holds[ref].status == Captured then Raised(request, HoldNotOpen)
               else if holds[ref].status == Released then AlreadyReleased(request, ReleaseOf(ref, holds[ref].key, holds[ref].amount))
               else Writing(request, ReleaseOf(ref, holds[ref].key, holds[ref].amount))
  {
    RunMore(events, Advance(id));
  }

  lemma HeldIsPositive(events: seq<Event>, ref: string)
    requires ref in Run(events).tables.holds
    ensures 0 < Run(events).tables.holds[ref].amount
  {
    EveryRunIsSound(events);
    assert HoldShape(Run(events).tables, ref);
  }

  /** A capture takes all that is held, or an amount it names, which is whole and from nothing to all of it. */
  lemma {:induction false} CaptureReads(events: seq<Event>, id: nat, ref: string, captured: Option<Number>)
    requires id in Run(events).calls && Run(events).calls[id] == Reading(CaptureRequest(ref, captured))
    ensures var s, s' := Run(events), After(events, id);
            var holds, request := s.tables.holds, CaptureRequest(ref, captured);
            && Unmoved(s, s') && id in s'.calls
            && s'.calls[id] ==
               if ref !in holds then Raised(request, HoldNotFound)
               else if holds[ref].status != Open then Raised(request, HoldNotOpen)
               else if captured == None then
                 Writing(request, CaptureOf(ref, holds[ref].key, holds[ref].amount, holds[ref].amount))
               else if captured.value.Whole? && 0 <= captured.value.n <= holds[ref].amount then
                 Writing(request, CaptureOf(ref, holds[ref].key, holds[ref].amount, captured.value.n))
               else Raised(request, InvalidAmount)
  {
    RunMore(events, Advance(id));
    if ref in Run(events).tables.holds { HeldIsPositive(events, ref); }
  }

  // -------------------- what the first read comes to, by what has committed --------------------

  /** A credit or a debit of this ref, on this account if one is named, has committed. */
  ghost predicate Correctable(committed: seq<Posted>, ref: string, scope: Option<Key>) {
    exists j :: 0 <= j < |committed| && Corrects(committed[j].w, ref, scope)
  }

  predicate Corrects(w: Write, ref: string, scope: Option<Key>) {
    (w.CreditOf? || w.DebitOf?) && w.ref == ref && (scope.Some? ==> w.key == scope.value)
  }

  /** A reversal goes on to write exactly when a credit or a debit of its ref committed, on the account it is confined to. */
  lemma {:induction false} ReversalProceedsExact(events: seq<Event>, id: nat, ref: string, scope: Option<Key>)
    requires id in Run(events).calls && Run(events).calls[id] == Reading(ReverseRequest(ref, scope))
    ensures id in After(events, id).calls
    ensures After(events, id).calls[id].Writing? <==> Correctable(Run(events).committed, ref, scope)
  {
    EveryRunIsSound(events);
    ReversalReads(events, id, ref, scope);
    CorrectableEntry(Run(events).tables.log, Run(events).committed, ref, scope);
  }

  lemma {:induction false} CorrectableEntry(log: map<string, Entry>, committed: seq<Posted>, ref: string, scope: Option<Key>)
    requires Logged(log, Written(committed))
    ensures Correctable(committed, ref, scope) <==>
            && ref in log && (log[ref].kind == Credit || log[ref].kind == Debit) && log[ref].related == None
            && (scope.Some? ==> log[ref].key == scope.value)
  {
    if Correctable(committed, ref, scope) {
      var j: nat :| j < |committed| && Corrects(committed[j].w, ref, scope);
      LoggedBy(log, committed, j, ref);
    }
    if ref in log && (log[ref].kind == Credit || log[ref].kind == Debit) && log[ref].related == None
       && (scope.Some? ==> log[ref].key == scope.value) {
      var j := Writer(log, committed, ref);
      EntryCorrects(committed[j].w, ref, scope);
    }
  }

  /** A credit or a debit with no related entry is written by nothing else. */
  lemma EntryCorrects(w: Write, ref: string, scope: Option<Key>)
    requires ref in Entries(w) && (Entries(w)[ref].kind == Credit || Entries(w)[ref].kind == Debit) && Entries(w)[ref].related == None
    requires scope.Some? ==> Entries(w)[ref].key == scope.value
    ensures Corrects(w, ref, scope)
  {
  }

  /** A hold of this ref has committed, on this account if one is named, and no release or capture of it has. */
  ghost predicate Resolvable(committed: seq<Posted>, ref: string, scope: Option<Key>) {
    Placed(committed, ref, scope) && !ResolutionPosted(committed, ref)
  }

  ghost predicate Placed(committed: seq<Posted>, ref: string, scope: Option<Key>) {
    exists j :: 0 <= j < |committed| && Places(committed[j].w, ref, scope)
  }

  predicate Places(w: Write, ref: string, scope: Option<Key>) {
    w.HoldOf? && w.ref == ref && (scope.Some? ==> w.key == scope.value)
  }

  predicate IsHold(e: Entry, scope: Option<Key>) {
    e.kind == Hold && e.related == None && (scope.Some? ==> e.key == scope.value)
  }

  /** Only a hold writes an entry of its kind that is related to no other. */
  lemma {:induction false} HoldEntry(w: Write, ref: string, scope: Option<Key>)
    ensures Places(w, ref, scope) <==> ref in Entries(w) && IsHold(Entries(w)[ref], scope)
  {
  }

  lemma {:induction false} PlacedEntry(log: map<string, Entry>, committed: seq<Posted>, ref: string, scope: Option<Key>)
    requires Logged(log, Written(committed))
    ensures Placed(committed, ref, scope) <==> ref in log && IsHold(log[ref], scope)
  {
    if Placed(committed, ref, scope) {
      var j: nat :| j < |committed| && Places(committed[j].w, ref, scope);
      HoldEntry(committed[j].w, ref, scope);
      LoggedBy(log, committed, j, ref);
    }
    if ref in log && IsHold(log[ref], scope) {
      var j := Writer(log, committed, ref);
      HoldEntry(committed[j].w, ref, scope);
    }
  }

  /** A hold is in the tables, on an account, exactly when one of its ref was placed there; it is open until it is resolved. */
  lemma {:induction false} PlacedExact(t: Tables, committed: seq<Posted>, ref: string, scope: Option<Key>)
    requires Books(t) && Logged(t.log, Written(committed))
    ensures Placed(committed, ref, scope) <==> ref in t.holds && (scope.Some? ==> t.holds[ref].key == scope.value)
    ensures ref in t.holds ==> (t.holds[ref].status.Open? <==> !ResolutionPosted(committed, ref))
  {
    PlacedEntry(t.log, committed, ref, scope);
    ResolvedExact(t, committed, ref);
    if ref in t.log { assert EntryShape(t, ref); }
    if ref in t.holds { assert HoldShape(t, ref); }
  }

  /** What the named amount of a capture may be. */
  predicate Takes(captured: Option<Number>, held: int) {
    captured == None || (captured.value.Whole? && 0 <= captured.value.n <= held)
  }

  /** A release or a capture goes on to write exactly when its hold was placed, on the account it is confined to, and not resolved. */
  lemma {:induction false} ResolutionProceedsExact(events: seq<Event>, id: nat, ref: string)
    requires id in Run(events).calls && Run(events).calls[id].Reading?
    ensures var s, c, c' := Run(events), Run(events).calls[id], After(events, id).calls;
            && id in c'
            && (c.request == ReleaseRequest(ref) ==> (c'[id].Writing? <==> Resolvable(s.committed, ref, None)))
            && (c.request.ManagedReleaseRequest? && c.request.ref == ref ==>
                  (c'[id].Writing? <==> Resolvable(s.committed, ref, c.request.scope)))
            && (c.request.CaptureRequest? && c.request.ref == ref ==>
                  (c'[id].Writing? <==>
                     Resolvable(s.committed, ref, None) && ref in s.tables.holds && Takes(c.request.captured, s.tables.holds[ref].amount)))
  {
    EveryRunIsSound(events);
    var s := Run(events);
    PlacedExact(s.tables, s.committed, ref, None);
    match s.calls[id].request
    case ReleaseRequest(r) => ReleaseReads(events, id, r);
    case ManagedReleaseRequest(r, scope) =>
      ManagedReleaseReads(events, id, r, scope);
      PlacedExact(s.tables, s.committed, ref, scope);
    case CaptureRequest(r, captured) => CaptureReads(events, id, r, captured);
    case _ => RunMore(events, Advance(id));
  }

  // -------------------- the batch --------------------

  /** An account moved from what it was. */
  function Shifted(before: Account, balance: int, held: int): Account {
    before.(balance := before.balance + balance, held := before.held + held)
  }

  /** One entry is logged, one account moved, and the call answers that account before and after. */
  predicate Posts(s: System, s': System, id: nat, ref: string, entry: Entry, balance: int, held: int)
    requires id in s.calls && s.calls[id].Writing?
  {
    var before := ReadBalance(s.tables, entry.key);
    var after := Shifted(before, balance, held);
    && s'.tables.log == s.tables.log[ref := entry]
    && s'.tables.accounts == s.tables.accounts[entry.key := after]
    && s'.committed == s.committed + [Posted(id, s.calls[id].w)]
    && id in s'.calls && s'.calls[id] == Returned(s.calls[id].request, s.calls[id].w, LedgerCalls.Moved(true, before, after))
  }

  /** A write of one entry on one account, and nothing else but its hold. */
  predicate WritesOne(w: Write, ref: string, entry: Entry, balance: int, held: int) {
    && !w.TransferOf? && Entries(w) == map[ref := entry]
    && AccountOf(w) == entry.key && BalanceMove(w) == balance && HeldMove(w) == held
  }

  lemma OneCommit(t: Tables, w: Write, ref: string, entry: Entry, balance: int, held: int)
    requires WritesOne(w, ref, entry, balance, held)
    ensures Replays(t, w) <==> ref in t.log
    ensures Commit(t, w).log == t.log[ref := entry] && Commit(t, w).holds == HoldsAfter(t.holds, w)
    ensures Commit(t, w).accounts == t.accounts[entry.key := Shifted(ReadBalance(t, entry.key), balance, held)]
  {
    assert ref in Entries(w);
    assert t.log[ref := entry] == t.log + map[ref := entry];
  }

  lemma OneAnswer(t: Tables, request: Request, w: Write, ref: string, entry: Entry, balance: int, held: int)
    requires WritesOne(w, ref, entry, balance, held)
    ensures var before := ReadBalance(t, entry.key);
            Wrote(Commit(t, w), Committed, request, w) ==
            Returned(request, w, LedgerCalls.Moved(true, before, Shifted(before, balance, held)))
  {
    OneCommit(t, w, ref, entry, balance, held);
    CommittedAnswer(t, request, w);
  }

  /** A batch of one entry: its ref is taken and nothing moves, or its account cannot cover it and nothing moves, or all of it posts. */
  lemma {:induction false} OnePosts(s: System, id: nat, ref: string, entry: Entry, balance: int, held: int)
    requires Sound(s) && id in s.calls && s.calls[id].Writing? && WritesOne(s.calls[id].w, ref, entry, balance, held)
    ensures var s', w := Step(s, Advance(id)), s.calls[id].w;
            if ref in s.tables.log then Unmoved(s, s') && s'.calls[id] == Replayed(s.calls[id].request, w)
            else if Covers(s.tables, w) then Posts(s, s', id, ref, entry, balance, held) && s'.tables.holds == HoldsAfter(s.tables.holds, w)
            else Unmoved(s, s') && s'.calls[id] == Wrote(s.tables, Aborted(Check), s.calls[id].request, w)
  {
    var w := s.calls[id].w;
    WritingStep(s, id);
    OneCommit(s.tables, w, ref, entry, balance, held);
    OneAnswer(s.tables, s.calls[id].request, w, ref, entry, balance, held);
  }

  /** The same after any run, where the account is always solvent and what the call read still stands. */
  lemma {:induction false} OneLands(events: seq<Event>, id: nat, ref: string, entry: Entry, balance: int, held: int)
    requires id in Run(events).calls && Run(events).calls[id].Writing?
    requires WritesOne(Run(events).calls[id].w, ref, entry, balance, held)
    ensures var s, s', w := Run(events), After(events, id), Run(events).calls[id].w;
            && Lawful(s.tables, w) && ReadBalance(s.tables, entry.key).Solvent()
            && id in s'.calls
            && if ref in s.tables.log then Unmoved(s, s') && s'.calls[id] == Replayed(s.calls[id].request, w)
               else if Covers(s.tables, w) then Posts(s, s', id, ref, entry, balance, held) && s'.tables.holds == HoldsAfter(s.tables.holds, w)
               else Unmoved(s, s') && s'.calls[id] == Wrote(s.tables, Aborted(Check), s.calls[id].request, w)
  {
    EveryRunIsSound(events);
    RunMore(events, Advance(id));
    var s := Run(events);
    assert CallSound(s.tables, s.committed, id, s.calls[id]);
    assert Balanced(s.tables, entry.key);
    OnePosts(s, id, ref, entry, balance, held);
  }

  /** A credit's batch adds the amount to the balance, opening the account if need be; a ref already taken moves nothing. */
  lemma {:induction false} CreditLands(events: seq<Event>, id: nat, key: Key, amount: int, ref: string)
    requires id in Run(events).calls && Run(events).calls[id].Writing? && Run(events).calls[id].w == CreditOf(key, amount, ref)
    ensures var s, s' := Run(events), After(events, id);
            && id in s'.calls && s'.tables.holds == s.tables.holds
            && if ref in s.tables.log then Unmoved(s, s') && s'.calls[id] == Replayed(s.calls[id].request, s.calls[id].w)
               else Posts(s, s', id, ref, Entry(key, Credit, amount, None), amount, 0)
  {
    OneLands(events, id, ref, Entry(key, Credit, amount, None), amount, 0);
  }

  /** A debit's batch takes the amount from the balance, where that much is not held. */
  lemma {:induction false} DebitLands(events: seq<Event>, id: nat, key: Key, amount: int, ref: string)
    requires id in Run(events).calls && Run(events).calls[id].Writing? && Run(events).calls[id].w == DebitOf(key, amount, ref)
    ensures var s, s' := Run(events), After(events, id);
            && id in s'.calls && s'.tables.holds == s.tables.holds
            && if ref in s.tables.log then Unmoved(s, s') && s'.calls[id] == Replayed(s.calls[id].request, s.calls[id].w)
               else if ReadBalance(s.tables, key).balance - ReadBalance(s.tables, key).held < amount then
                 Unmoved(s, s') && s'.calls[id] == Short(s.calls[id].request, s.calls[id].w)
               else Posts(s, s', id, ref, Entry(key, Debit, amount, None), -amount, 0)
  {
    OneLands(events, id, ref, Entry(key, Debit, amount, None), -amount, 0);
  }

  /** A hold's batch reserves the amount and leaves the balance, where that much is not held already. */
  lemma {:induction false} HoldLands(events: seq<Event>, id: nat, key: Key, amount: int, ref: string)
    requires id in Run(events).calls && Run(events).calls[id].Writing? && Run(events).calls[id].w == HoldOf(key, amount, ref)
    ensures var s, s' := Run(events), After(events, id);
            && id in s'.calls
            && if ref in s.tables.log then Unmoved(s, s') && s'.calls[id] == Replayed(s.calls[id].request, s.calls[id].w)
               else if ReadBalance(s.tables, key).balance - ReadBalance(s.tables, key).held < amount then
                 Unmoved(s, s') && s'.calls[id] == Short(s.calls[id].request, s.calls[id].w)
               else
                 && Posts(s, s', id, ref, Entry(key, Hold, amount, None), 0, amount)
                 && s'.tables.holds == s.tables.holds[ref := HoldRow(key, amount, Open)]
  {
    OneLands(events, id, ref, Entry(key, Hold, amount, None), 0, amount);
  }

  /** A reversal's batch posts the opposite of its entry: of a debit always, of a credit where the amount is not held or spent. */
  lemma {:induction false} ReversalLands(events: seq<Event>, id: nat, ref: string)
    requires id in Run(events).calls && Run(events).calls[id].Writing? && Run(events).calls[id].w.ReversalOf? && Run(events).calls[id].w.ref == ref
    ensures var s, s' := Run(events), After(events, id);
            var log, reversal := s.tables.log, ref + ":reverse";
            && id in s'.calls && s'.tables.holds == s.tables.holds && ref in log
            && if reversal in log then Unmoved(s, s') && s'.calls[id] == Replayed(s.calls[id].request, s.calls[id].w)
               else if log[ref].kind == Debit then
                 Posts(s, s', id, reversal, Entry(log[ref].key, Credit, log[ref].amount, Some(ref)), log[ref].amount, 0)
               else if ReadBalance(s.tables, log[ref].key).balance - ReadBalance(s.tables, log[ref].key).held < log[ref].amount then
                 Unmoved(s, s') && s'.calls[id] == Short(s.calls[id].request, s.calls[id].w)
               else Posts(s, s', id, reversal, Entry(log[ref].key, Debit, log[ref].amount, Some(ref)), -log[ref].amount, 0)
  {
    var w := Run(events).calls[id].w;
    var balance := if w.opposite == Credit then w.amount else -w.amount;
    OneLands(events, id, Derived(ref, Reverse), Entry(w.key, w.opposite, w.amount, Some(ref)), balance, 0);
  }

  /** An unreversed entry's reversal, read and written with nothing between: of a debit it always posts, of a credit if it is still covered. */
  lemma {:induction false} UnreversedReverses(events: seq<Event>, id: nat, ref: string, scope: Option<Key>)
    requires id in Run(events).calls && Run(events).calls[id] == Reading(ReverseRequest(ref, scope))
    requires ref in Run(events).tables.log && ref + ":reverse" !in Run(events).tables.log
    requires var e := Run(events).tables.log[ref];
             (e.kind == Credit || e.kind == Debit) && e.related == None && (scope.Some? ==> e.key == scope.value)
    ensures var read := events + [Advance(id)];
            var s, s', e := Run(read), After(read, id), Run(events).tables.log[ref];
            var row := ReadBalance(Run(events).tables, e.key);
            && Unmoved(Run(events), s) && id in s.calls && s.calls[id].Writing? && id in s'.calls
            && if e.kind == Debit then Posts(s, s', id, ref + ":reverse", Entry(e.key, Credit, e.amount, Some(ref)), e.amount, 0)
               else if e.amount <= row.balance - row.held then
                 Posts(s, s', id, ref + ":reverse", Entry(e.key, Debit, e.amount, Some(ref)), -e.amount, 0)
               else Unmoved(s, s') && s'.calls[id].Short?
  {
    ReversalReads(events, id, ref, scope);
    ReversalLands(events + [Advance(id)], id, ref);
  }

  /** A release's batch gives the whole hold back and spends nothing of it. */
  lemma {:induction false} ReleaseLands(events: seq<Event>, id: nat, ref: string)
    requires id in Run(events).calls && Run(events).calls[id].Writing? && Run(events).calls[id].w.ReleaseOf? && Run(events).calls[id].w.ref == ref
    ensures var s, s' := Run(events), After(events, id);
            var resolution := ref + ":resolve";
            && id in s'.calls && ref in s.tables.holds
            && if resolution in s.tables.log then Unmoved(s, s') && s'.calls[id] == Replayed(s.calls[id].request, s.calls[id].w)
               else
                 var hold := s.tables.holds[ref];
                 && hold.status.Open?
                 && Posts(s, s', id, resolution, Entry(hold.key, Release, hold.amount, Some(ref)), 0, -hold.amount)
                 && s'.tables.holds == s.tables.holds[ref := hold.(status := Released)]
  {
    var w := Run(events).calls[id].w;
    OneLands(events, id, Derived(ref, Resolve), Entry(w.key, Release, w.amount, Some(ref)), 0, -w.amount);
    if Derived(ref, Resolve) !in Run(events).tables.log { FreeIsOpen(events, ref); }
  }

  /** A capture's batch gives the whole hold back and spends what it captures. */
  lemma {:induction false} CaptureLands(events: seq<Event>, id: nat, ref: string)
    requires id in Run(events).calls && Run(events).calls[id].Writing? && Run(events).calls[id].w.CaptureOf? && Run(events).calls[id].w.ref == ref
    ensures var s, s' := Run(events), After(events, id);
            var resolution := ref + ":resolve";
            && id in s'.calls && ref in s.tables.holds
            && if resolution in s.tables.log then Unmoved(s, s') && s'.calls[id] == Replayed(s.calls[id].request, s.calls[id].w)
               else
                 var hold, captured := s.tables.holds[ref], s.calls[id].w.captured;
                 && hold.status.Open? && 0 <= captured <= hold.amount
                 && Posts(s, s', id, resolution, Entry(hold.key, Capture, captured, Some(ref)), -captured, -hold.amount)
                 && s'.tables.holds == s.tables.holds[ref := hold.(status := Captured)]
  {
    var w := Run(events).calls[id].w;
    OneLands(events, id, Derived(ref, Resolve), Entry(w.key, Capture, w.captured, Some(ref)), -w.captured, -w.amount);
    if Derived(ref, Resolve) !in Run(events).tables.log { FreeIsOpen(events, ref); }
  }

  /** A hold whose `:resolve` is free is open. */
  lemma FreeIsOpen(events: seq<Event>, ref: string)
    requires ref in Run(events).tables.holds && Derived(ref, Resolve) !in Run(events).tables.log
    ensures Run(events).tables.holds[ref].status.Open?
  {
    EveryRunIsSound(events);
    assert HoldShape(Run(events).tables, ref);
  }

  /** The accounts once one has paid another, or itself. */
  function Paid(t: Tables, payer: Key, payee: Key, amount: int): map<Key, Account> {
    if payer == payee then t.accounts[payer := ReadBalance(t, payer)]
    else t.accounts[payer := Shifted(ReadBalance(t, payer), -amount, 0)][payee := Shifted(ReadBalance(t, payee), amount, 0)]
  }

  lemma {:induction false} TransferCommit(t: Tables, from: string, to: string, currency: string, amount: int, ref: string)
    ensures var w := TransferOf(from, to, currency, amount, ref);
            var payer, payee, out, into := Key(from, currency), Key(to, currency), ref + ":out", ref + ":in";
            && (Replays(t, w) <==> out in t.log || into in t.log)
            && Commit(t, w).accounts == Paid(t, payer, payee, amount) && Commit(t, w).holds == t.holds
            && Commit(t, w).log == t.log[out := Entry(payer, TransferOut, amount, Some(into))][into := Entry(payee, TransferIn, amount, Some(out))]
  {
    var w := TransferOf(from, to, currency, amount, ref);
    var payer, payee, out, into := Key(from, currency), Key(to, currency), Derived(ref, Out), Derived(ref, In);
    var paid, received := Entry(payer, TransferOut, amount, Some(into)), Entry(payee, TransferIn, amount, Some(out));
    OutIsNotIn(ref);
    assert out in Entries(w) && into in Entries(w);
    assert t.log + map[out := paid, into := received] == t.log[out := paid][into := received];
  }

  /** A transfer's batch moves the amount from one account to another, which may be the same, and answers nothing. */
  lemma {:induction false} TransferLands(events: seq<Event>, id: nat, from: string, to: string, currency: string, amount: int, ref: string)
    requires id in Run(events).calls && Run(events).calls[id].Writing?
    requires Run(events).calls[id].w == TransferOf(from, to, currency, amount, ref)
    ensures var s, s', c := Run(events), After(events, id), Run(events).calls[id];
            var payer, payee, out, into := Key(from, currency), Key(to, currency), ref + ":out", ref + ":in";
            && id in s'.calls && s'.tables.holds == s.tables.holds
            && if out in s.tables.log || into in s.tables.log then
                 Unmoved(s, s') && s'.calls[id] == Returned(c.request, c.w, Nothing)
               else if ReadBalance(s.tables, payer).balance - ReadBalance(s.tables, payer).held < amount then
                 Unmoved(s, s') && s'.calls[id] == Raised(c.request, InsufficientFunds(None))
               else
                 && s'.tables.accounts == Paid(s.tables, payer, payee, amount)
                 && s'.tables.log == s.tables.log[out := Entry(payer, TransferOut, amount, Some(into))]
                                                 [into := Entry(payee, TransferIn, amount, Some(out))]
                 && s'.committed == s.committed + [Posted(id, c.w)]
                 && s'.calls[id] == Returned(c.request, c.w, Nothing)
  {
    EveryRunIsSound(events);
    RunMore(events, Advance(id));
    WritingStep(Run(events), id);
    TransferCommit(Run(events).tables, from, to, currency, amount, ref);
  }

  // -------------------- what an answer says when nothing was applied --------------------

  /** A call past its batch reads, and writes nothing. */
  lemma {:induction false} Looked(events: seq<Event>, id: nat)
    requires id in Run(events).calls && !Finished(Run(events).calls[id]) && !Run(events).calls[id].Writing?
    ensures var s, s', c := Run(events), After(events, id), Run(events).calls[id];
            && Unmoved(s, s') && id in s'.calls && s'.calls[id] == Answered(s.tables, c)
            && (c.Replayed? || c.AlreadyReleased? || c.Proving? ==> !c.w.TransferOf? && !c.request.TransferRequest?)
            && (c.Proving? ==> MustProve(c.request) && !c.w.HoldOf?)
            && (c.Short? ==> c.w.DebitOf? || c.w.HoldOf? || c.w.ReversalOf?)
  {
    Accessed(events, id);
    SoundCall(Run(events), id);
  }

  lemma SoundCall(s: System, id: nat)
    requires Sound(s) && id in s.calls
    ensures var c := s.calls[id];
            && (c.Replayed? || c.AlreadyReleased? || c.Proving? ==> !c.w.TransferOf? && !c.request.TransferRequest?)
            && (c.Proving? ==> MustProve(c.request) && !c.w.HoldOf?)
            && (c.Short? ==> c.w.DebitOf? || c.w.HoldOf? || c.w.ReversalOf?)
  {
    assert CallSound(s.tables, s.committed, id, s.calls[id]);
  }

  lemma ReplayAnswer(t: Tables, c: Call)
    requires c.Replayed? && !c.w.TransferOf? && !c.request.TransferRequest?
    ensures var row := ReadBalance(t, c.w.key);
            var silent := c.request.HoldRequest? || ((c.request.CreditRequest? || c.request.DebitRequest?) && !c.request.managed);
            Answered(t, c) == if silent then Returned(c.request, c.w, LedgerCalls.Moved(false, row, row)) else Proving(c.request, c.w, row)
  {
  }

  lemma ProofAnswer(t: Tables, c: Call)
    requires c.Proving? && !c.w.TransferOf? && !c.w.HoldOf?
    ensures var ref := UnderRef(c.w);
            Answered(t, c) == if ref !in t.log || !Own(c.w, t.log[ref]) then Raised(c.request, RefConflict(ref))
                              else if c.request.ManagedReleaseRequest? then Rechecking(c.request, c.w, c.current)
                              else Returned(c.request, c.w, LedgerCalls.Moved(false, c.current, c.current))
  {
  }

  /** A call whose ref was taken reads the account as it stands, and answers that, or goes on to prove the replay its own. */
  lemma {:induction false} ReplayReads(events: seq<Event>, id: nat)
    requires id in Run(events).calls && Run(events).calls[id].Replayed?
    ensures var s, s', c := Run(events), After(events, id), Run(events).calls[id];
            && !c.w.TransferOf?
            && var row := if c.w.key in s.tables.accounts then s.tables.accounts[c.w.key] else Account(c.w.key, 0, 0);
            var silent := c.request.HoldRequest? || ((c.request.CreditRequest? || c.request.DebitRequest?) && !c.request.managed);
            && Unmoved(s, s') && id in s'.calls
            && s'.calls[id] == if silent then Returned(c.request, c.w, LedgerCalls.Moved(false, row, row)) else Proving(c.request, c.w, row)
  {
    Looked(events, id);
    ReplayAnswer(Run(events).tables, Run(events).calls[id]);
  }

  /** A management release of a released hold answers the account as it stands. */
  lemma {:induction false} AlreadyReleasedReads(events: seq<Event>, id: nat)
    requires id in Run(events).calls && Run(events).calls[id].AlreadyReleased?
    ensures var s, s', c := Run(events), After(events, id), Run(events).calls[id];
            && !c.w.TransferOf?
            && var row := if c.w.key in s.tables.accounts then s.tables.accounts[c.w.key] else Account(c.w.key, 0, 0);
            && Unmoved(s, s') && id in s'.calls
            && s'.calls[id] == Returned(c.request, c.w, LedgerCalls.Moved(false, row, row))
  {
    Looked(events, id);
  }

  /**
   A call proving its replay answers the balance it read once the entry under its ref is its own, a management release after
   one more look at its hold; otherwise it refuses, and names the ref.
   */
  lemma {:induction false} ProofReads(events: seq<Event>, id: nat)
    requires id in Run(events).calls && Run(events).calls[id].Proving?
    ensures var s, s', c := Run(events), After(events, id), Run(events).calls[id];
            && Unmoved(s, s') && id in s'.calls && !c.w.TransferOf?
            && var ref := UnderRef(c.w);
            s'.calls[id] == if ref !in s.tables.log || !Own(c.w, s.tables.log[ref]) then Raised(c.request, RefConflict(ref))
                            else if c.request.ManagedReleaseRequest? then Rechecking(c.request, c.w, c.current)
                            else Returned(c.request, c.w, LedgerCalls.Moved(false, c.current, c.current))
  {
    Looked(events, id);
    ProofAnswer(Run(events).tables, Run(events).calls[id]);
  }

  /** The ref under which the write's own entry would be. */
  function UnderRef(w: Write): string
    requires !w.TransferOf?
  {
    if w.ReversalOf? then w.ref + ":reverse" else if w.ReleaseOf? || w.CaptureOf? then w.ref + ":resolve" else w.ref
  }

  /** The entry is on the write's account, and is related to what it derives from, or of its kind and amount. */
  predicate Own(w: Write, e: Entry)
    requires !w.TransferOf?
  {
    && e.key == w.key
    && (w.ReversalOf? || w.ReleaseOf? || w.CaptureOf? ==> e.related == Some(w.ref))
    && (w.CreditOf? || w.DebitOf? || w.HoldOf? ==> e.kind == (if w.CreditOf? then Credit else Debit) && e.amount == w.amount)
  }

  /** A call refused as short says what it asked for, what was available when it looked, and what was missing; a hold says none of it. */
  lemma {:induction false} ShortSays(events: seq<Event>, id: nat)
    requires id in Run(events).calls && Run(events).calls[id].Short?
    ensures var s, s', c := Run(events), After(events, id), Run(events).calls[id];
            && (c.w.DebitOf? || c.w.HoldOf? || c.w.ReversalOf?)
            && var row := ReadBalance(s.tables, c.w.key);
            && Unmoved(s, s') && id in s'.calls
            && s'.calls[id] == Raised(c.request, InsufficientFunds(if c.w.HoldOf? then None else Some(Gap(c.w.amount, row.balance - row.held))))
  {
    Looked(events, id);
    GapIs(Run(events).calls[id].w, ReadBalance(Run(events).tables, Run(events).calls[id].w.key));
  }

  function Gap(amount: int, available: int): Shortfall {
    Shortfall(amount, available, if available < amount then amount - available else 0)
  }

  lemma GapIs(w: Write, row: Account)
    requires w.DebitOf? || w.HoldOf? || w.ReversalOf?
    ensures ShortBy(w, row) == if w.HoldOf? then None else Some(Gap(w.amount, row.balance - row.held))
  {
  }

  /** The account as an earlier moment of the run had it, with the call under way and its ref taken. */
  ghost predicate StoodSo(events: seq<Event>, n: nat, id: nat, w: Write, row: Account)
    requires !w.TransferOf?
  {
    && n <= |events| && id in Run(events[..n]).calls && Replays(Run(events[..n]).tables, w)
    && row == ReadBalance(Run(events[..n]).tables, w.key)
  }

  /** What a call that applied nothing carries, or has answered, is what its account was at some such moment. */
  ghost predicate SaysWhatStood(events: seq<Event>, id: nat, c: Call) {
    && (c.Proving? || c.Rechecking? ==> !c.w.TransferOf? && exists n: nat :: StoodSo(events, n, id, c.w, c.current))
    && (c.Returned? && c.answer.Moved? && !c.answer.applied ==>
          && !c.w.TransferOf? && c.answer.before == c.answer.after
          && exists n: nat :: StoodSo(events, n, id, c.w, c.answer.after))
  }

  lemma {:induction false} StoodLonger(events: seq<Event>, e: Event, n: nat, id: nat, w: Write, row: Account)
    requires !w.TransferOf? && StoodSo(events, n, id, w, row)
    ensures StoodSo(events + [e], n, id, w, row)
  {
    assert (events + [e])[..n] == events[..n];
  }

  lemma {:induction false} SaysStays(events: seq<Event>, e: Event, id: nat, c: Call)
    requires SaysWhatStood(events, id, c)
    ensures SaysWhatStood(events + [e], id, c)
  {
    if c.Proving? || c.Rechecking? {
      var n: nat :| StoodSo(events, n, id, c.w, c.current);
      StoodLonger(events, e, n, id, c.w, c.current);
    }
    if c.Returned? && c.answer.Moved? && !c.answer.applied {
      var n: nat :| StoodSo(events, n, id, c.w, c.answer.after);
      StoodLonger(events, e, n, id, c.w, c.answer.after);
    }
  }

  /** Reading the account now. */
  lemma {:induction false} StandsNow(events: seq<Event>, e: Event, id: nat, w: Write)
    requires !w.TransferOf? && id in Run(events).calls && Replays(Run(events).tables, w)
    ensures StoodSo(events + [e], |events|, id, w, ReadBalance(Run(events).tables, w.key))
  {
    assert (events + [e])[..|events|] == events;
  }

  /** Where a call's next balance comes from, where it has applied nothing: the account as it stands, or what it carries. */
  lemma NextBalance(t: Tables, u: Tables, outcome: Outcome, c: Call)
    requires !Finished(c) && !c.Fallback? && (c.Replayed? || c.AlreadyReleased? ==> !c.w.TransferOf?)
    ensures var c' := if c.Writing? then Wrote(u, outcome, c.request, c.w) else Answered(t, c);
            && (c'.Proving? ==> c.Replayed? && c'.w == c.w && c'.current == ReadBalance(t, c.w.key))
            && (c'.Rechecking? ==> c.Proving? && c'.w == c.w && c'.current == c.current)
            && (c'.Returned? && c'.answer.Moved? && !c'.answer.applied ==>
                  && (c.Replayed? || c.AlreadyReleased? || c.Proving? || c.Rechecking?)
                  && c'.w == c.w && c'.answer.before == c'.answer.after
                  && c'.answer.after == if c.Replayed? || c.AlreadyReleased? then ReadBalance(t, c.w.key) else c.current)
  {
  }

  lemma RefIsTaken(events: seq<Event>, id: nat)
    requires id in Run(events).calls
    ensures var c := Run(events).calls[id];
            !c.Fallback? && (c.Replayed? || c.AlreadyReleased? ==> !c.w.TransferOf? && Replays(Run(events).tables, c.w))
  {
    EveryRunIsSound(events);
    assert CallSound(Run(events).tables, Run(events).committed, id, Run(events).calls[id]);
  }

  /** A call that says what stood goes on saying it; one that does not yet says what stands, or nothing. */
  lemma {:induction false} SaysNext(events: seq<Event>, id: nat)
    requires id in Run(events).calls && SaysWhatStood(events, id, Run(events).calls[id])
    ensures id in After(events, id).calls && SaysWhatStood(events + [Advance(id)], id, After(events, id).calls[id])
  {
    var s, c := Run(events), Run(events).calls[id];
    RunMore(events, Advance(id));
    RefIsTaken(events, id);
    SaysStays(events, Advance(id), id, c);
    if !Finished(c) {
      var (u, outcome) := if c.Writing? then Batch(s.tables, Statements(c.w)) else (s.tables, Committed);
      NextBalance(s.tables, u, outcome, c);
      if c.Replayed? || c.AlreadyReleased? { StandsNow(events, Advance(id), id, c.w); }
    }
  }

  lemma {:induction false} OtherStep(s: System, e: Event, id: nat)
    requires e != Advance(id)
    ensures id in s.calls ==> id in Step(s, e).calls && Step(s, e).calls[id] == s.calls[id]
    ensures id !in s.calls && id in Step(s, e).calls ==>
              var c := Step(s, e).calls[id];
              !c.Returned? && !c.Proving? && !c.Rechecking?
  {
    StepIsLocal(s, e);
  }

  lemma {:induction false} OtherEvent(events: seq<Event>, e: Event, id: nat)
    requires e != Advance(id)
    ensures id in Run(events).calls ==> id in Run(events + [e]).calls && Run(events + [e]).calls[id] == Run(events).calls[id]
    ensures id !in Run(events).calls && id in Run(events + [e]).calls ==>
              var c := Run(events + [e]).calls[id];
              !c.Returned? && !c.Proving? && !c.Rechecking?
  {
    RunMore(events, e);
    OtherStep(Run(events), e, id);
  }

  /**
   An answer that nothing was applied has one balance before and after: what the account was at a moment since the call
   began, with the write it replays already made. A call still proving its replay carries such a balance, and answers it.
   */
  lemma {:induction false} ReplaySaysWhatStood(events: seq<Event>, id: nat)
    requires id in Run(events).calls
    ensures SaysWhatStood(events, id, Run(events).calls[id])
    decreases |events|
  {
    var init, e := events[..|events|-1], events[|events|-1];
    assert events == init + [e];
    if id in Run(init).calls {
      ReplaySaysWhatStood(init, id);
      SaysStays(init, e, id, Run(init).calls[id]);
    }
    if e != Advance(id) {
      OtherEvent(init, e, id);
    } else if id in Run(init).calls {
      SaysNext(init, id);
    }
  }
}
