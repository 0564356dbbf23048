/**
 What the log says about holds and reversals in every reachable state, and what a call's answer is worth.
 */
module LedgerAnswers {
  import opened Options
  import opened LedgerTables
  import opened LedgerWrites
  import opened LedgerBooks
  import opened LedgerInvariant
  import opened LedgerCalls
  import opened LedgerRuns
  import opened LedgerTheorems

  // -------------------- holds --------------------

  predicate ResolvesHold(w: Write, ref: string) {
    (w.ReleaseOf? || w.CaptureOf?) && w.ref == ref
  }

  /** Some batch resolving the hold has committed. */
  ghost predicate ResolutionPosted(committed: seq<Posted>, ref: string) {
    exists j :: 0 <= j < |committed| && ResolvesHold(committed[j].w, ref)
  }

  ghost predicate ReversalPosted(committed: seq<Posted>, ref: string) {
    exists j :: 0 <= j < |committed| && committed[j].w.ReversalOf? && committed[j].w.ref == ref
  }

  /** The batch that wrote an entry. */
  lemma Writer(log: map<string, Entry>, committed: seq<Posted>, ref: string) returns (j: nat)
    requires Logged(log, Written(committed)) && ref in log
    ensures WroteEntry(committed, j, ref, log[ref])
  {
    var k :| 0 <= k < |Written(committed)| && ref in Written(committed)[k];
    j := k;
  }

  lemma LoggedBy(log: map<string, Entry>, committed: seq<Posted>, j: nat, ref: string)
    requires Logged(log, Written(committed)) && j < |committed| && ref in Entries(committed[j].w)
    ensures ref in log && log[ref] == Entries(committed[j].w)[ref]
  {
    assert ref in Written(committed)[j];
  }

  /** What one committed batch wrote under a ref. */
  ghost predicate WroteEntry(committed: seq<Posted>, j: nat, ref: string, e: Entry) {
    j < |committed| && ref in Entries(committed[j].w) && Entries(committed[j].w)[ref] == e
  }

  lemma ResolutionWrote(committed: seq<Posted>, j: nat, ref: string, e: Entry)
    requires WroteEntry(committed, j, Derived(ref, Resolve), e) && e.related == Some(ref)
    ensures ResolutionPosted(committed, ref)
  {
    ResolvesOnly(committed[j].w, ref);
    assert ResolvesHold(committed[j].w, ref);
  }

  lemma ResolutionIsWritten(committed: seq<Posted>, ref: string) returns (j: nat, e: Entry)
    requires ResolutionPosted(committed, ref)
    ensures WroteEntry(committed, j, Derived(ref, Resolve), e) && e.related == Some(ref)
    ensures ResolvesHold(committed[j].w, ref) && e.key == committed[j].w.key
  {
    j :| 0 <= j < |committed| && ResolvesHold(committed[j].w, ref);
    e := Entries(committed[j].w)[Derived(ref, Resolve)];
  }

  lemma ReversalWrote(committed: seq<Posted>, j: nat, ref: string, e: Entry)
    requires WroteEntry(committed, j, Derived(ref, Reverse), e) && e.related == Some(ref)
    ensures ReversalPosted(committed, ref)
  {
    DerivedRefsDisjoint();
    assert committed[j].w.ReversalOf? && committed[j].w.ref == ref;
  }

  lemma ReversalIsWritten(committed: seq<Posted>, ref: string) returns (j: nat, e: Entry)
    requires ReversalPosted(committed, ref)
    ensures WroteEntry(committed, j, Derived(ref, Reverse), e) && e.related == Some(ref)
  {
    j :| 0 <= j < |committed| && committed[j].w.ReversalOf? && committed[j].w.ref == ref;
    e := Entries(committed[j].w)[Derived(ref, Reverse)];
  }

  /** The hold's resolution is in the log exactly when a release or a capture of it committed, whatever refs callers chose. */
  lemma ResolvedExact(t: Tables, committed: seq<Posted>, ref: string)
    requires Logged(t.log, Written(committed))
    ensures Resolved(t, ref) <==> ResolutionPosted(committed, ref)
  {
    if Resolved(t, ref) {
      var j := Writer(t.log, committed, Derived(ref, Resolve));
      ResolutionWrote(committed, j, ref, t.log[Derived(ref, Resolve)]);
    }
    if ResolutionPosted(committed, ref) {
      var j, e := ResolutionIsWritten(committed, ref);
      LoggedBy(t.log, committed, j, Derived(ref, Resolve));
    }
  }

  lemma ResolutionUnique(log: map<string, Entry>, committed: seq<Posted>, ref: string, i: nat, j: nat)
    requires Logged(log, Written(committed)) && i < |committed| && j < |committed|
    requires ResolvesHold(committed[i].w, ref) && ResolvesHold(committed[j].w, ref)
    ensures i == j
  {
    assert Derived(ref, Resolve) in Entries(committed[i].w) && Derived(ref, Resolve) in Entries(committed[j].w);
    OneWriter(committed, i, j, Derived(ref, Resolve), log);
  }

  /**
   A hold is resolved at most once, however many calls read it as open: it is no longer open exactly when a
   resolution of it committed, and never do two commit.
   */
  lemma HoldResolvedOnce(events: seq<Event>, ref: string)
    requires ref in Run(events).tables.holds
    ensures var s := Run(events);
            && (!s.tables.holds[ref].status.Open? <==> Resolved(s.tables, ref))
            && (!s.tables.holds[ref].status.Open? <==> ResolutionPosted(s.committed, ref))
            && forall i, j | 0 <= i < |s.committed| && 0 <= j < |s.committed|
                             && ResolvesHold(s.committed[i].w, ref) && ResolvesHold(s.committed[j].w, ref) :: i == j
  {
    var s := Run(events);
    EveryRunIsSound(events);
    assert HoldShape(s.tables, ref);
    ResolvedExact(s.tables, s.committed, ref);
    forall i, j | 0 <= i < |s.committed| && 0 <= j < |s.committed|
                  && ResolvesHold(s.committed[i].w, ref) && ResolvesHold(s.committed[j].w, ref)
      ensures i == j
    {
      ResolutionUnique(s.tables.log, s.committed, ref, i, j);
    }
  }

  /** A release or a capture about to write is never refused on CHECK: it commits, or its ref is taken. */
  lemma ResolutionNeverShort(events: seq<Event>, id: nat)
    requires id in Run(events).calls && Run(events).calls[id].Writing?
    requires Run(events).calls[id].w.ReleaseOf? || Run(events).calls[id].w.CaptureOf?
    ensures var s := Run(events);
            var outcome := Batch(s.tables, Statements(s.calls[id].w)).1;
            && outcome != Aborted(Check)
            && (outcome == Committed ==> s.calls[id].w.ref in s.tables.holds && s.tables.holds[s.calls[id].w.ref].status.Open?)
  {
    var s := Run(events);
    EveryRunIsSound(events);
    var w := s.calls[id].w;
    assert CallSound(s.tables, s.committed, id, s.calls[id]);
    BatchHasEffect(s.tables, w);
    assert Balanced(s.tables, AccountOf(w));
    assert Derived(w.ref, Resolve) in Entries(w);
    ResolutionIsPossible(s.tables, w);
  }

  // -------------------- reversals --------------------

  /** The entry is a reversal of `ref`. */
  predicate IsReversal(t: Tables, reversal: string, ref: string) {
    && reversal in t.log && (t.log[reversal].kind == Credit || t.log[reversal].kind == Debit)
    && t.log[reversal].related == Some(ref)
  }

  /**
   Corrections are paired: a credit or a debit with a related ref is exactly that entry's `:reverse`, on the same
   account, of the opposite kind, netting it to zero; an entry has at most one, and a reversal has none.
   */
  lemma ReversalsPair(events: seq<Event>, reversal: string, ref: string)
    requires IsReversal(Run(events).tables, reversal, ref)
    ensures var t := Run(events).tables;
            && reversal == Derived(ref, Reverse)
            && ref in t.log && t.log[ref].key == t.log[reversal].key && t.log[ref].kind == Opposite(t.log[reversal].kind)
            && Signed(t.log[ref]) + Signed(t.log[reversal]) == 0
            && (forall again | IsReversal(t, again, ref) :: again == reversal)
            && (forall again :: !IsReversal(t, again, reversal))
  {
    EveryRunIsSound(events);
    OnlyReversal(Run(events).tables, reversal, ref);
  }

  lemma {:induction false} OnlyReversal(t: Tables, reversal: string, ref: string)
    requires Books(t) && IsReversal(t, reversal, ref)
    ensures reversal == Derived(ref, Reverse)
    ensures ref in t.log && t.log[ref].key == t.log[reversal].key && t.log[ref].kind == Opposite(t.log[reversal].kind)
    ensures Signed(t.log[ref]) + Signed(t.log[reversal]) == 0
    ensures forall again | IsReversal(t, again, ref) :: again == reversal
    ensures forall again :: !IsReversal(t, again, reversal)
  {
    ReversalShape(t, reversal, ref);
    forall again | IsReversal(t, again, ref) ensures again == reversal { ReversalShape(t, again, ref); }
    forall again ensures IsReversal(t, again, reversal) ==> t.log[reversal].related == None {
      if IsReversal(t, again, reversal) { ReversalShape(t, again, reversal); }
    }
  }

  lemma ReversalShape(t: Tables, reversal: string, ref: string)
    requires Books(t) && IsReversal(t, reversal, ref)
    ensures reversal == Derived(ref, Reverse) && ref in t.log
    ensures t.log[ref] == Entry(t.log[reversal].key, Opposite(t.log[reversal].kind), t.log[reversal].amount, None)
  {
    assert EntryShape(t, reversal);
  }

  /** A reversal never opens an account, and never needs to: its update always finds the row. */
  lemma ReversalFindsItsAccount(events: seq<Event>, id: nat)
    requires id in Run(events).calls && Run(events).calls[id].Writing? && Run(events).calls[id].w.ReversalOf?
    ensures Run(events).calls[id].w.key in Run(events).tables.accounts
  {
    var s := Run(events);
    EveryRunIsSound(events);
    assert CallSound(s.tables, s.committed, id, s.calls[id]);
    assert EntryShape(s.tables, s.calls[id].w.ref);
  }

  // -------------------- proof of a replay --------------------

  /** After a UNIQUE abort, a reversal or a resolution is accepted exactly when one of its own was what committed. */
  lemma OwnDerivedExact(events: seq<Event>, id: nat)
    requires id in Run(events).calls && Run(events).calls[id].Proving?
    requires var w := Run(events).calls[id].w; w.ReversalOf? || w.ReleaseOf? || w.CaptureOf?
    ensures var s := Run(events);
            var w := s.calls[id].w;
            var ours := if w.ReversalOf? then ReversalPosted(s.committed, w.ref) else ResolutionPosted(s.committed, w.ref);
            && (Proves(s.tables, w) <==> ours)
            && (!ours ==> Step(s, Advance(id)).calls[id] == Raised(s.calls[id].request, RefConflict(ProofRef(w))))
            && (ours ==> !Step(s, Advance(id)).calls[id].Raised?)
  {
    var s := Run(events);
    EveryRunIsSound(events);
    assert CallSound(s.tables, s.committed, id, s.calls[id]);
    ProvesExact(s.tables, s.committed, s.calls[id].w);
    ProvingAnswer(s, id);
  }

  lemma ProvingAnswer(s: System, id: nat)
    requires id in s.calls && s.calls[id].Proving?
    ensures var c, c' := s.calls[id], Step(s, Advance(id)).calls[id];
            if Proves(s.tables, c.w) then !c'.Raised? else c' == Raised(c.request, RefConflict(ProofRef(c.w)))
  {
  }

  lemma ProvesExact(t: Tables, committed: seq<Posted>, w: Write)
    requires Books(t) && Logged(t.log, Written(committed)) && Lawful(t, w) && (w.ReversalOf? || w.ReleaseOf? || w.CaptureOf?)
    ensures Proves(t, w) <==> if w.ReversalOf? then ReversalPosted(committed, w.ref) else ResolutionPosted(committed, w.ref)
  {
    if w.ReversalOf? {
      ReversedExact(t, committed, w);
    } else {
      ResolvedExact(t, committed, w.ref);
      assert HoldShape(t, w.ref);
    }
  }

  lemma ReversedExact(t: Tables, committed: seq<Posted>, w: Write)
    requires Books(t) && Logged(t.log, Written(committed)) && w.ReversalOf? && Lawful(t, w)
    ensures Proves(t, w) <==> ReversalPosted(committed, w.ref)
  {
    var reversal := Derived(w.ref, Reverse);
    if Proves(t, w) {
      var j := Writer(t.log, committed, reversal);
      ReversalWrote(committed, j, w.ref, t.log[reversal]);
    }
    if ReversalPosted(committed, w.ref) {
      var j, e := ReversalIsWritten(committed, w.ref);
      LoggedBy(t.log, committed, j, reversal);
      ReversalOnAccount(t, w);
    }
  }

  /** A related entry under the original's `:reverse` is on the original's account. */
  lemma ReversalOnAccount(t: Tables, w: Write)
    requires Books(t) && w.ReversalOf? && Lawful(t, w)
    requires Derived(w.ref, Reverse) in t.log && t.log[Derived(w.ref, Reverse)].related == Some(w.ref)
    ensures Proves(t, w)
  {
    assert EntryShape(t, Derived(w.ref, Reverse));
    DerivedRefsDisjoint();
  }

  /** A batch that committed under this ref and moved the same: this write itself, or a reversal posted there. */
  predicate SameMovement(v: Write, w: Write)
    requires w.CreditOf? || w.DebitOf?
  {
    v == w
    || (v.ReversalOf? && Derived(v.ref, Reverse) == w.ref && v.key == w.key && v.amount == w.amount
        && v.opposite == if w.CreditOf? then Credit else Debit)
  }

  /**
   A control-plane credit or debit is accepted as its own replay exactly when it committed before, or a reversal of
   the same account, kind and amount did, under the `:reverse` ref it was given.
   */
  lemma SameEntryExact(events: seq<Event>, id: nat)
    requires id in Run(events).calls && Run(events).calls[id].Proving?
    requires var w := Run(events).calls[id].w; w.CreditOf? || w.DebitOf?
    ensures var s := Run(events);
            var w := s.calls[id].w;
            Proves(s.tables, w) <==> exists j :: 0 <= j < |s.committed| && SameMovement(s.committed[j].w, w)
  {
    var s := Run(events);
    EveryRunIsSound(events);
    var w := s.calls[id].w;
    SameMovementExact(s.tables, s.committed, w);
  }

  /** The suffix a caller can look for before choosing a ref. */
  predicate EndsInReverse(ref: string) {
    |ref| >= |SuffixText(Reverse)| && ref[|ref|-|SuffixText(Reverse)|..] == SuffixText(Reverse)
  }

  /** Under a ref that does not end in `:reverse`, it is accepted exactly when that same write committed before. */
  lemma {:induction false} OwnEntryExact(events: seq<Event>, id: nat)
    requires id in Run(events).calls && Run(events).calls[id].Proving?
    requires var w := Run(events).calls[id].w; (w.CreditOf? || w.DebitOf?) && !EndsInReverse(w.ref)
    ensures var s := Run(events);
            var w := s.calls[id].w;
            Proves(s.tables, w) <==> exists j :: 0 <= j < |s.committed| && s.committed[j].w == w
  {
    var s := Run(events);
    var w := s.calls[id].w;
    SameEntryExact(events, id);
    forall v | SameMovement(v, w) ensures v == w { OnlyItself(v, w); }
    if j: nat :| j < |s.committed| && s.committed[j].w == w { assert SameMovement(s.committed[j].w, w); }
  }

  lemma OnlyItself(v: Write, w: Write)
    requires (w.CreditOf? || w.DebitOf?) && !EndsInReverse(w.ref) && SameMovement(v, w)
    ensures v == w
  {
    if v.ReversalOf? { assert EndsInReverse(Derived(v.ref, Reverse)); }
  }

  lemma SameMovementExact(t: Tables, committed: seq<Posted>, w: Write)
    requires Logged(t.log, Written(committed)) && (w.CreditOf? || w.DebitOf?)
    ensures Proves(t, w) <==> exists j :: 0 <= j < |committed| && SameMovement(committed[j].w, w)
  {
    if Proves(t, w) {
      var j := Writer(t.log, committed, w.ref);
      SameMovementEntry(committed[j].w, w);
    }
    if j: nat :| j < |committed| && SameMovement(committed[j].w, w) {
      SameMovementEntry(committed[j].w, w);
      LoggedBy(t.log, committed, j, w.ref);
    }
  }

  /** The entry a batch writes under a ref is this credit's or debit's exactly when it moved the same. */
  lemma SameMovementEntry(v: Write, w: Write)
    requires w.CreditOf? || w.DebitOf?
    ensures SameMovement(v, w) <==>
            && w.ref in Entries(v) && Entries(v)[w.ref].key == w.key && Entries(v)[w.ref].amount == w.amount
            && Entries(v)[w.ref].kind == if w.CreditOf? then Credit else Debit
  {
  }

  // -------------------- exact answers --------------------

  /**
   A write that commits answers at once, with the account exactly as its batch left it and exactly as it stood just
   before, whatever else moves around it.
   */
  lemma OutcomeExact(events: seq<Event>, id: nat)
    requires id in Run(events).calls && Run(events).calls[id].Writing? && !Run(events).calls[id].w.TransferOf?
    requires Step(Run(events), Advance(id)).committed != Run(events).committed
    ensures var s := Run(events);
            var s' := Step(s, Advance(id));
            var key := AccountOf(s.calls[id].w);
            s'.calls[id] == Returned(s.calls[id].request, s.calls[id].w,
                                     LedgerCalls.Moved(true, ReadBalance(s.tables, key), ReadBalance(s'.tables, key)))
  {
    EveryRunIsSound(events);
    WritingStep(Run(events), id);
    CommittedAnswer(Run(events).tables, Run(events).calls[id].request, Run(events).calls[id].w);
  }

  lemma CommittedAnswer(t: Tables, request: Request, w: Write)
    requires !w.TransferOf?
    ensures Wrote(Commit(t, w), Committed, request, w) ==
            Returned(request, w, LedgerCalls.Moved(true, ReadBalance(t, AccountOf(w)), ReadBalance(Commit(t, w), AccountOf(w))))
  {
    AccountFlow(t, w, AccountOf(w));
  }

  /** The read that would stand in for a row missing from the batch's own read is never made. */
  lemma FallbackUnreachable(events: seq<Event>, id: nat)
    requires id in Run(events).calls
    ensures !Run(events).calls[id].Fallback?
  {
    EveryRunIsSound(events);
    var s := Run(events);
    assert CallSound(s.tables, s.committed, id, s.calls[id]);
  }

  /**
   What a call commits is what it was asked: the amount and the account it named, for a correction or a resolution only
   on the account it was confined to, and for a capture the amount it named or all that is held.
   */
  lemma CommitsWhatWasAsked(events: seq<Event>, j: nat)
    requires j < |Run(events).committed|
    ensures var s := Run(events);
            var p := s.committed[j];
            p.id in s.calls && s.calls[p.id].Returned? && s.calls[p.id].w == p.w && Composes(s.calls[p.id].request, p.w)
  {
    EveryRunIsSound(events);
    var s := Run(events);
    var p := s.committed[j];
    assert CallSound(s.tables, s.committed, p.id, s.calls[p.id]);
    assert HasPosted(s.committed, p.id);
    var k :| 0 <= k < |s.committed| && s.committed[k] == Posted(p.id, s.calls[p.id].w);
    assert k == j;
  }

  /** `applied` is true on an answer exactly when that call's own batch committed. */
  lemma AppliedExact(events: seq<Event>, id: nat)
    requires id in Run(events).calls && Run(events).calls[id].Returned? && Run(events).calls[id].answer.Moved?
    ensures Run(events).calls[id].answer.applied <==> HasPosted(Run(events).committed, id)
  {
    EveryRunIsSound(events);
    var s := Run(events);
    assert CallSound(s.tables, s.committed, id, s.calls[id]);
  }

  // -------------------- the management release --------------------

  /** A management release returns normally only if the hold is released then, and in every later state. */
  lemma ReleaseIsTrue(events: seq<Event>, later: seq<Event>, id: nat)
    requires id in Run(events).calls && Run(events).calls[id].Returned?
    requires Run(events).calls[id].request.ManagedReleaseRequest?
    ensures IsReleased(Run(events).tables, Run(events).calls[id].request.ref)
    ensures IsReleased(Run(events + later).tables, Run(events).calls[id].request.ref)
  {
    var s := Run(events);
    EveryRunIsSound(events);
    assert CallSound(s.tables, s.committed, id, s.calls[id]);
    assert (events + later)[..|events|] == events;
    RunExtends(events + later, |events|);
  }

  /**
   A management release that lost its race answers by who won it, wherever the winner's batch fell between its
   reads. Against a capture its next reads never return and end in a refusal; against a release they never raise,
   and return that nothing was applied.
   */
  lemma LostRaceAnswers(events: seq<Event>, id: nat)
    requires id in Run(events).calls && Run(events).calls[id].request.ManagedReleaseRequest?
    requires Run(events).calls[id].Replayed? || Run(events).calls[id].Proving? || Run(events).calls[id].Rechecking?
    requires Run(events).calls[id].request.ref in Run(events).tables.holds
    ensures var s := Run(events);
            var c, c' := s.calls[id], Step(s, Advance(id)).calls[id];
            match s.tables.holds[c.request.ref].status
            case Captured =>
              !c'.Returned? && (c.Rechecking? ==> c' == Raised(c.request, HoldNotOpen))
            case Released =>
              !c'.Raised? && (c.Rechecking? ==> c'.Returned? && !c'.answer.applied)
            case Open =>
              // nobody resolved it: some other entry holds the ref, and the call says so
              c.Proving? ==> c' == Raised(c.request, RefConflict(Derived(c.request.ref, Resolve)))
  {
    EveryRunIsSound(events);
    LostRaceStep(Run(events), id);
  }

  lemma LostRaceStep(s: System, id: nat)
    requires Sound(s) && id in s.calls && s.calls[id].request.ManagedReleaseRequest? && s.calls[id].request.ref in s.tables.holds
    requires s.calls[id].Replayed? || s.calls[id].Proving? || s.calls[id].Rechecking?
    ensures var c, c' := s.calls[id], Answered(s.tables, s.calls[id]);
            match s.tables.holds[c.request.ref].status
            case Captured =>
              !c'.Returned? && (c.Rechecking? ==> c' == Raised(c.request, HoldNotOpen))
            case Released =>
              !c'.Raised? && (c.Rechecking? ==> c'.Returned? && !c'.answer.applied)
            case Open =>
              c.Proving? ==> c' == Raised(c.request, RefConflict(Derived(c.request.ref, Resolve)))
  {
    assert CallSound(s.tables, s.committed, id, s.calls[id]);
    assert HoldShape(s.tables, s.calls[id].request.ref);
  }

  // -------------------- the in-process release --------------------

  /**
   The in-process release keeps a weaker promise: it has no second look at the hold, so one that lost to a capture
   returns as if it had released. What it returned of is released exactly when no capture of the hold committed.
   */
  lemma InProcessReleaseExact(events: seq<Event>, id: nat)
    requires id in Run(events).calls && Run(events).calls[id].Returned? && Run(events).calls[id].request.ReleaseRequest?
    ensures var s := Run(events);
            var ref := s.calls[id].request.ref;
            && ref in s.tables.holds && !s.tables.holds[ref].status.Open?
            && (s.tables.holds[ref].status.Released? <==> !CapturePosted(s.committed, ref))
  {
    var s := Run(events);
    EveryRunIsSound(events);
    var w := s.calls[id].w;
    assert CallSound(s.tables, s.committed, id, s.calls[id]);
    assert HoldShape(s.tables, w.ref);
    CapturedExact(s.tables, s.committed, w.ref);
  }

  /**
   So does the in-process capture: one that lost to a release returns as if it had spent. What it returned of is captured
   exactly when a capture of the hold committed.
   */
  lemma {:induction false} InProcessCaptureExact(events: seq<Event>, id: nat)
    requires id in Run(events).calls && Run(events).calls[id].Returned? && Run(events).calls[id].request.CaptureRequest?
    ensures var s := Run(events);
            var ref := s.calls[id].request.ref;
            && ref in s.tables.holds && !s.tables.holds[ref].status.Open?
            && (s.tables.holds[ref].status.Captured? <==> CapturePosted(s.committed, ref))
  {
    var s := Run(events);
    EveryRunIsSound(events);
    var w := s.calls[id].w;
    assert CallSound(s.tables, s.committed, id, s.calls[id]);
    assert HoldShape(s.tables, w.ref);
    CapturedExact(s.tables, s.committed, w.ref);
  }

  /** Some capture of the hold has committed. */
  ghost predicate CapturePosted(committed: seq<Posted>, ref: string) {
    exists j :: 0 <= j < |committed| && committed[j].w.CaptureOf? && committed[j].w.ref == ref
  }

  lemma CapturedExact(t: Tables, committed: seq<Posted>, ref: string)
    requires Books(t) && Logged(t.log, Written(committed)) && ref in t.holds
    ensures t.holds[ref].status.Captured? <==> CapturePosted(committed, ref)
  {
    var resolution := Derived(ref, Resolve);
    assert HoldShape(t, ref);
    if t.holds[ref].status.Captured? {
      var j := Writer(t.log, committed, resolution);
      CaptureWrote(committed, j, ref, t.log[resolution]);
    }
    if CapturePosted(committed, ref) {
      var j, e := CaptureIsWritten(committed, ref);
      LoggedBy(t.log, committed, j, resolution);
    }
  }

  lemma CaptureWrote(committed: seq<Posted>, j: nat, ref: string, e: Entry)
    requires WroteEntry(committed, j, Derived(ref, Resolve), e) && e.related == Some(ref) && e.kind == Capture
    ensures CapturePosted(committed, ref)
  {
    ResolvesOnly(committed[j].w, ref);
    assert committed[j].w.CaptureOf? && committed[j].w.ref == ref;
  }

  lemma CaptureIsWritten(committed: seq<Posted>, ref: string) returns (j: nat, e: Entry)
    requires CapturePosted(committed, ref)
    ensures WroteEntry(committed, j, Derived(ref, Resolve), e) && e.related == Some(ref) && e.kind == Capture
  {
    j :| 0 <= j < |committed| && committed[j].w.CaptureOf? && committed[j].w.ref == ref;
    e := Entries(committed[j].w)[Derived(ref, Resolve)];
  }

  // -------------------- every call ends --------------------

  /** How many accesses a call can still make. */
  function Remaining(c: Call): nat {
    match c
    case Reading(_) => 5
    case Writing(_, _) => 4
    case Replayed(_, _) => 3
    case Proving(_, _, _) => 2
    case _ => if Finished(c) then 0 else 1
  }

  /** How many accesses the call has made. */
  function Accesses(events: seq<Event>, id: nat): nat {
    if events == [] then 0
    else
      var before := Run(events[..|events|-1]);
      Accesses(events[..|events|-1], id)
      + if events[|events|-1] == Advance(id) && id in before.calls && !Finished(before.calls[id]) then 1 else 0
  }

  lemma AccessSpends(t: Tables, u: Tables, outcome: Outcome, c: Call)
    requires !Finished(c)
    ensures Remaining(if c.Writing? then Wrote(u, outcome, c.request, c.w) else Answered(t, c)) < Remaining(c)
  {
  }

  /** However its accesses interleave with others', a call is over, answered or refused, after at most five of them. */
  lemma {:induction false} CallEnds(events: seq<Event>, id: nat)
    ensures if id in Run(events).calls then Accesses(events, id) + Remaining(Run(events).calls[id]) <= 5 else Accesses(events, id) == 0
  {
    if events != [] {
      var init, e := events[..|events|-1], events[|events|-1];
      var before := Run(init);
      CallEnds(init, id);
      if e == Advance(id) && id in before.calls && !Finished(before.calls[id]) {
        var c := before.calls[id];
        if c.Writing? {
          var (u, outcome) := Batch(before.tables, Statements(c.w));
          AccessSpends(before.tables, u, outcome, c);
        } else {
          AccessSpends(before.tables, before.tables, Committed, c);
        }
      }
    }
  }
}
