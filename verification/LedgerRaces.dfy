/** Runs in which a call returns although what it returned of did not happen. */
module LedgerRaces {
  import opened Options
  import opened LedgerTables
  import opened LedgerWrites
  import opened LedgerBooks
  import opened LedgerInvariant
  import opened LedgerCalls
  import opened LedgerRuns
  import opened LedgerTheorems

  /** A call about to write commits. */
  lemma {:induction false} CommitWriting(events: seq<Event>, id: nat)
    requires id in Run(events).calls && Run(events).calls[id].Writing?
    requires !Replays(Run(events).tables, Run(events).calls[id].w) && Covers(Run(events).tables, Run(events).calls[id].w)
    ensures var s, s' := Run(events), Run(events + [Advance(id)]);
            && s'.tables == Commit(s.tables, s.calls[id].w)
            && s'.committed == s.committed + [Posted(id, s.calls[id].w)]
            && s'.calls.Keys == s.calls.Keys && s'.calls[id].Returned?
            && forall other | other in s.calls && other != id :: s'.calls[other] == s.calls[other]
  {
    EveryRunIsSound(events);
    RunMore(events, Advance(id));
    WritingStep(Run(events), id);
  }

  /** One call, with no reads before it, writes and commits. */
  lemma {:induction false} CommitNow(events: seq<Event>, id: nat, request: Request, w: Write)
    requires id !in Run(events).calls && Start(request) == Writing(request, w)
    requires !Replays(Run(events).tables, w) && Covers(Run(events).tables, w)
    ensures var s, s' := Run(events), Run(events + [Begin(id, request)] + [Advance(id)]);
            && s'.tables == Commit(s.tables, w)
            && s'.committed == s.committed + [Posted(id, w)]
            && s'.calls.Keys == s.calls.Keys + {id} && s'.calls[id].Returned?
            && forall other | other in s.calls :: s'.calls[other] == s.calls[other]
  {
    RunMore(events, Begin(id, request));
    CommitWriting(events + [Begin(id, request)], id);
  }

  /** An account credited an amount. */
  lemma CreditedRun(key: Key, amount: int, paid: string) returns (events: seq<Event>)
    requires 0 < amount
    ensures var s := Run(events);
            && ReadBalance(s.tables, key).Available() == amount
            && s.tables.log.Keys == {paid} && s.tables.holds == map[]
            && s.calls.Keys == {0}
  {
    var request, w := CreditRequest(key, Whole(amount), paid, false), CreditOf(key, amount, paid);
    assert Run([]) == IDLE;
    CommitNow([], 0, request, w);
    events := [] + [Begin(0, request)] + [Advance(0)];
    AccountFlow(EMPTY_TABLES, w, key);
    assert Commit(EMPTY_TABLES, w).log.Keys == Entries(w).Keys;
  }

  /** And a hold of all of it. */
  lemma HeldRun(key: Key, amount: int, paid: string, ref: string) returns (events: seq<Event>)
    requires 0 < amount && paid != ref
    ensures var s := Run(events);
            && s.tables.holds == map[ref := HoldRow(key, amount, Open)]
            && s.tables.log.Keys == {paid, ref}
            && s.calls.Keys == {0, 1}
  {
    var before := CreditedRun(key, amount, paid);
    var request, w := HoldRequest(key, Whole(amount), ref), HoldOf(key, amount, ref);
    var t := Run(before).tables;
    assert Entries(w).Keys == {ref} && t.log.Keys == {paid};
    assert !Replays(t, w);
    CommitNow(before, 1, request, w);
    events := before + [Begin(1, request)] + [Advance(1)];
    assert Commit(t, w).log.Keys == {paid} + {ref};
  }

  /**
   Whatever is held, and under whatever ref: an in-process release and a capture both read the hold open, the capture's
   batch runs first, and the release returns although the hold was captured.
   */
  lemma InProcessReleaseCanLoseSilently(key: Key, amount: int, paid: string, ref: string) returns (events: seq<Event>, id: nat)
    requires 0 < amount && paid != ref && paid != Derived(ref, Resolve)
    ensures var s := Run(events);
            && id in s.calls && s.calls[id].Returned? && s.calls[id].request == ReleaseRequest(ref)
            && ref in s.tables.holds && s.tables.holds[ref].status.Captured?
  {
    var held := HeldRun(key, amount, paid, ref);
    var read := BothRead(held, key, amount, ref);
    assert |Derived(ref, Resolve)| > |ref|;
    id := 2;
    events := LoserReturns(read, 3, 2, ref);
  }

  /** The other way round: the release's batch runs first, and the capture returns although nothing was spent. */
  lemma InProcessCaptureCanLoseSilently(key: Key, amount: int, paid: string, ref: string) returns (events: seq<Event>, id: nat)
    requires 0 < amount && paid != ref && paid != Derived(ref, Resolve)
    ensures var s := Run(events);
            && id in s.calls && s.calls[id].Returned? && s.calls[id].request == CaptureRequest(ref, None)
            && ref in s.tables.holds && s.tables.holds[ref].status.Released?
  {
    var held := HeldRun(key, amount, paid, ref);
    var read := BothRead(held, key, amount, ref);
    assert |Derived(ref, Resolve)| > |ref|;
    id := 3;
    events := LoserReturns(read, 2, 3, ref);
  }

  lemma BothRead(held: seq<Event>, key: Key, amount: int, ref: string) returns (events: seq<Event>)
    requires 0 < amount && ref in Run(held).tables.holds && Run(held).tables.holds[ref] == HoldRow(key, amount, Open)
    requires 2 !in Run(held).calls && 3 !in Run(held).calls
    ensures Run(events).tables == Run(held).tables
    ensures Run(events).calls == Run(held).calls
              [2 := Writing(ReleaseRequest(ref), ReleaseOf(ref, key, amount))]
              [3 := Writing(CaptureRequest(ref, None), CaptureOf(ref, key, amount, amount))]
  {
    var release, capture := ReleaseRequest(ref), CaptureRequest(ref, None);
    var one := held + [Begin(2, release)] + [Advance(2)];
    RunMore(held, Begin(2, release));
    RunMore(held + [Begin(2, release)], Advance(2));
    assert Run(one).calls == Run(held).calls[2 := Writing(release, ReleaseOf(ref, key, amount))];
    events := one + [Begin(3, capture)] + [Advance(3)];
    RunMore(one, Begin(3, capture));
    RunMore(one + [Begin(3, capture)], Advance(3));
  }

  predicate Resolves(w: Write, ref: string) {
    (w.ReleaseOf? || w.CaptureOf?) && w.ref == ref
  }

  predicate Resolving(s: System, id: nat, ref: string) {
    id in s.calls && s.calls[id].Writing? && Resolves(s.calls[id].w, ref)
  }

  /** Of two resolutions about to write, the one whose batch runs second replays, and in process returns. */
  lemma {:induction false} LoserReturns(read: seq<Event>, winner: nat, loser: nat, ref: string) returns (events: seq<Event>)
    requires winner != loser && Resolving(Run(read), winner, ref) && Resolving(Run(read), loser, ref)
    requires Run(read).calls[winner].w.key == Run(read).calls[loser].w.key
    requires Run(read).calls[loser].request.ReleaseRequest? || Run(read).calls[loser].request.CaptureRequest?
    requires Derived(ref, Resolve) !in Run(read).tables.log
    ensures Run(events).tables == Commit(Run(read).tables, Run(read).calls[winner].w)
    ensures loser in Run(events).calls && Run(events).calls[loser].Returned?
    ensures Run(events).calls[loser].request == Run(read).calls[loser].request
  {
    var won := read + [Advance(winner)];
    RunMore(read, Advance(winner));
    EveryRunIsSound(read);
    ResolutionCommits(Run(read), winner);
    EveryRunIsSound(won);
    var lost := won + [Advance(loser)];
    RunMore(won, Advance(loser));
    ResolutionReplays(Run(won), loser);
    events := lost + [Advance(loser)] + [Advance(loser)];
    RunMore(lost, Advance(loser));
    RunMore(lost + [Advance(loser)], Advance(loser));
    ResolutionReturns(Run(lost), loser);
  }

  /** An in-process resolution that replayed, with any resolution of its hold in the log, returns. */
  lemma ResolutionReturns(s: System, id: nat)
    requires id in s.calls && s.calls[id].Replayed? && Proves(s.tables, s.calls[id].w)
    requires s.calls[id].request.ReleaseRequest? || s.calls[id].request.CaptureRequest?
    ensures var s' := Step(Step(s, Advance(id)), Advance(id));
            s'.tables == s.tables && id in s'.calls && s'.calls[id].Returned? && s'.calls[id].request == s.calls[id].request
  {
  }

  /** A resolution about to write, whose ref is free, commits. */
  lemma {:induction false} ResolutionCommits(s: System, id: nat)
    requires Sound(s) && id in s.calls && s.calls[id].Writing? && Resolves(s.calls[id].w, s.calls[id].w.ref)
    requires Derived(s.calls[id].w.ref, Resolve) !in s.tables.log
    ensures var s', w := Step(s, Advance(id)), s.calls[id].w;
            && s'.tables == Commit(s.tables, w)
            && Proves(s'.tables, w)
            && forall other | other in s.calls && other != id :: other in s'.calls && s'.calls[other] == s.calls[other]
  {
    var w := s.calls[id].w;
    assert CallSound(s.tables, s.committed, id, s.calls[id]);
    WritingStep(s, id);
    CommitProves(s.tables, w);
    ResolutionIsFree(s.tables, w);
  }

  lemma ResolutionIsFree(t: Tables, w: Write)
    requires Books(t) && Resolves(w, w.ref) && Derived(w.ref, Resolve) !in t.log
    ensures !Replays(t, w) && Covers(t, w)
  {
    assert Balanced(t, AccountOf(w));
  }

  /** A resolution about to write, whose ref is taken, replays: nothing moves. */
  lemma {:induction false} ResolutionReplays(s: System, id: nat)
    requires Sound(s) && id in s.calls && s.calls[id].Writing? && Resolves(s.calls[id].w, s.calls[id].w.ref)
    requires Derived(s.calls[id].w.ref, Resolve) in s.tables.log
    ensures Step(s, Advance(id)) == s.(calls := s.calls[id := Replayed(s.calls[id].request, s.calls[id].w)])
  {
    ResolutionTaken(s.tables, s.calls[id].w);
    WritingStep(s, id);
  }

  lemma ResolutionTaken(t: Tables, w: Write)
    requires Resolves(w, w.ref) && Derived(w.ref, Resolve) in t.log
    ensures Replays(t, w)
  {
    assert Derived(w.ref, Resolve) in Entries(w);
  }

  // -------------------- a reversal taken for a debit --------------------

  /** A credit, and its reversal. */
  lemma {:induction false} ReversedRun(key: Key, amount: int, ref: string) returns (events: seq<Event>)
    requires 0 < amount
    ensures var s, reversal := Run(events), ReversalOf(ref, key, amount, Debit);
            && Derived(ref, Reverse) in s.tables.log && s.tables.log[Derived(ref, Reverse)] == Entry(key, Debit, amount, Some(ref))
            && s.committed == [Posted(0, CreditOf(key, amount, ref)), Posted(1, reversal)]
            && s.calls.Keys == {0, 1}
  {
    var request, w := CreditRequest(key, Whole(amount), ref, false), CreditOf(key, amount, ref);
    assert Run([]) == IDLE;
    CommitNow([], 0, request, w);
    var credited := [] + [Begin(0, request)] + [Advance(0)];
    CreditedTables(key, amount, ref);
    var read := ReadForReversal(credited, 1, key, amount, ref);
    CommitWriting(read, 1);
    events := read + [Advance(1)];
  }

  /** A reversal arrives, and reads the credit it is to reverse. */
  lemma {:induction false} ReadForReversal(before: seq<Event>, id: nat, key: Key, amount: int, ref: string) returns (events: seq<Event>)
    requires id !in Run(before).calls && ref in Run(before).tables.log && Run(before).tables.log[ref] == Entry(key, Credit, amount, None)
    ensures var s, s' := Run(before), Run(events);
            s' == s.(calls := s.calls[id := Writing(ReverseRequest(ref, None), ReversalOf(ref, key, amount, Debit))])
  {
    var reverse := ReverseRequest(ref, None);
    RunMore(before, Begin(id, reverse));
    events := before + [Begin(id, reverse)] + [Advance(id)];
    RunMore(before + [Begin(id, reverse)], Advance(id));
    assert Run(before).calls[id := Reading(reverse)][id := Read(Run(before).tables, reverse)] == Run(before).calls[id := Read(Run(before).tables, reverse)];
  }

  lemma CreditedTables(key: Key, amount: int, ref: string)
    requires 0 < amount
    ensures var t, reversal := Commit(EMPTY_TABLES, CreditOf(key, amount, ref)), ReversalOf(ref, key, amount, Debit);
            && ref in t.log && t.log[ref] == Entry(key, Credit, amount, None)
            && !Replays(t, reversal) && Covers(t, reversal)
            && Derived(ref, Reverse) in Commit(t, reversal).log
            && Commit(t, reversal).log[Derived(ref, Reverse)] == Entry(key, Debit, amount, Some(ref))
  {
    var t := Commit(EMPTY_TABLES, CreditOf(key, amount, ref));
    AccountFlow(EMPTY_TABLES, CreditOf(key, amount, ref), key);
    assert |Derived(ref, Reverse)| > |ref|;
    assert t.log.Keys == {ref};
  }

  /**
   For any account, amount and ref: a credit, its reversal, and then a management debit of the same amount under the
   reversal's own ref, which is answered as its own replay although no such debit was ever made.
   */
  lemma {:induction false} ReversalTakenForDebit(key: Key, amount: int, ref: string) returns (events: seq<Event>, id: nat)
    requires 0 < amount
    ensures var s := Run(events);
            && id in s.calls && s.calls[id].request == DebitRequest(key, Whole(amount), Derived(ref, Reverse), true)
            && s.calls[id].Returned? && s.calls[id].answer.Moved? && !s.calls[id].answer.applied
            && (forall j | 0 <= j < |s.committed| :: !s.committed[j].w.DebitOf?)
  {
    var reversed := ReversedRun(key, amount, ref);
    var request := DebitRequest(key, Whole(amount), Derived(ref, Reverse), true);
    id := 2;
    events := RetriedRun(reversed, id, request, DebitOf(key, amount, Derived(ref, Reverse)));
  }

  /** A management debit whose ref holds an entry just like it, from arrival to answer. */
  lemma {:induction false} RetriedRun(before: seq<Event>, id: nat, request: Request, w: Write) returns (events: seq<Event>)
    requires id !in Run(before).calls && Start(request) == Writing(request, w)
    requires request.DebitRequest? && request.managed && w.DebitOf? && Proves(Run(before).tables, w)
    ensures var s := Run(events);
            && s.committed == Run(before).committed
            && id in s.calls && s.calls[id].request == request
            && s.calls[id].Returned? && s.calls[id].answer.Moved? && !s.calls[id].answer.applied
  {
    var begun := before + [Begin(id, request)];
    RunMore(before, Begin(id, request));
    EveryRunIsSound(begun);
    var replayed := begun + [Advance(id)];
    RunMore(begun, Advance(id));
    DebitReplays(Run(begun), id, w.ref);
    events := replayed + [Advance(id)] + [Advance(id)];
    RunMore(replayed, Advance(id));
    RunMore(replayed + [Advance(id)], Advance(id));
    ProvedReturns(Run(replayed), id);
  }

  /** A management debit that replayed, with an entry like it under its ref, returns that nothing was applied. */
  lemma ProvedReturns(s: System, id: nat)
    requires id in s.calls && s.calls[id].Replayed? && Proves(s.tables, s.calls[id].w)
    requires s.calls[id].request.DebitRequest? && s.calls[id].request.managed
    ensures var s' := Step(Step(s, Advance(id)), Advance(id));
            && s'.committed == s.committed && id in s'.calls && s'.calls[id].request == s.calls[id].request
            && s'.calls[id].Returned? && s'.calls[id].answer.Moved? && !s'.calls[id].answer.applied
  {
  }

  lemma {:induction false} DebitReplays(s: System, id: nat, ref: string)
    requires Sound(s) && id in s.calls && s.calls[id].Writing? && s.calls[id].w.DebitOf? && s.calls[id].w.ref == ref && ref in s.tables.log
    ensures Step(s, Advance(id)) == s.(calls := s.calls[id := Replayed(s.calls[id].request, s.calls[id].w)])
  {
    assert ref in Entries(s.calls[id].w);
    assert Replays(s.tables, s.calls[id].w);
    WritingStep(s, id);
  }
}
