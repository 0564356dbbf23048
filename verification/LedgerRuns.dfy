/**
 What holds in every reachable state, whatever calls were made and however their accesses interleaved.
 */
module LedgerRuns {
  import opened Options
  import opened LedgerTables
  import opened LedgerWrites
  import opened LedgerBooks
  import opened LedgerInvariant
  import opened LedgerCalls

  // -------------------- what a call in flight may rest on --------------------

  /** The batch is the one this request composes. */
  predicate Composes(request: Request, w: Write) {
    match request
    case CreditRequest(key, amount, ref, _) => amount.Whole? && w == CreditOf(key, amount.n, ref)
    case DebitRequest(key, amount, ref, _) => amount.Whole? && w == DebitOf(key, amount.n, ref)
    case TransferRequest(from, to, currency, amount, ref) => amount.Whole? && w == TransferOf(from, to, currency, amount.n, ref)
    case HoldRequest(key, amount, ref) => amount.Whole? && w == HoldOf(key, amount.n, ref)
    case ReverseRequest(ref, scope) => w.ReversalOf? && w.ref == ref && OnAccount(w.key, scope)
    case ReleaseRequest(ref) => w.ReleaseOf? && w.ref == ref
    case ManagedReleaseRequest(ref, scope) => w.ReleaseOf? && w.ref == ref && OnAccount(w.key, scope)
    case CaptureRequest(ref, captured) =>
      w.CaptureOf? && w.ref == ref && (if captured.Some? then captured.value == Whole(w.captured) else w.captured == w.amount)
  }

  predicate IsReleased(t: Tables, ref: string) {
    ref in t.holds && t.holds[ref].status.Released?
  }

  /** What a call that answered has established. */
  ghost predicate Settled(t: Tables, request: Request, w: Write) {
    && Replays(t, w)
    && (MustProve(request) ==> Proves(t, w))
    && (request.ManagedReleaseRequest? ==> IsReleased(t, w.ref))
  }

  predicate HasPosted(committed: seq<Posted>, id: nat) {
    exists j :: 0 <= j < |committed| && committed[j].id == id
  }

  /** What is true of one call: what its reads told it still stands, and it has posted exactly when it says so. */
  ghost predicate CallSound(t: Tables, committed: seq<Posted>, id: nat, c: Call) {
    && (!c.Reading? && !c.Raised? ==> Composes(c.request, c.w) && Lawful(t, c.w))
    && (!c.Returned? ==> !HasPosted(committed, id))
    && match c
       case Reading(_) | Writing(_, _) | Raised(_, _) => true
       case Short(_, w) => w.DebitOf? || w.HoldOf? || w.ReversalOf?
       case Fallback(_, _) => false
       case Replayed(request, w) => Replays(t, w) && !w.TransferOf?
       case Proving(request, w, _) => Replays(t, w) && MustProve(request)
       case Rechecking(request, w, _) => request.ManagedReleaseRequest? && Replays(t, w) && Proves(t, w)
       case AlreadyReleased(request, w) =>
         request.ManagedReleaseRequest? && IsReleased(t, w.ref) && Replays(t, w) && Proves(t, w)
       case Returned(request, w, answer) =>
         && Settled(t, request, w)
         && (HasPosted(committed, id) ==> Posted(id, w) in committed)
         && (answer.Moved? <==> !w.TransferOf?)
         && (answer.Moved? ==> (answer.applied <==> HasPosted(committed, id)))
  }

  /** What each committed batch wrote to the log. */
  function Written(committed: seq<Posted>): seq<map<string, Entry>> {
    seq(|committed|, (j: nat) requires j < |committed| => Entries(committed[j].w))
  }

  /** The log is exactly what the batches wrote, each ref by one of them. */
  ghost predicate Logged(log: map<string, Entry>, written: seq<map<string, Entry>>) {
    && (forall j, ref {:trigger ref in written[j]} | 0 <= j < |written| && ref in written[j] :: ref in log && log[ref] == written[j][ref])
    && (forall ref {:trigger ref in log} | ref in log :: exists j :: 0 <= j < |written| && ref in written[j])
    && (forall i, j, ref {:trigger ref in written[i], ref in written[j]} | 0 <= i < j < |written| && ref in written[i] :: ref !in written[j])
  }

  /** The log is what the committed batches wrote, and no call committed twice. */
  ghost predicate Journal(t: Tables, committed: seq<Posted>) {
    && Logged(t.log, Written(committed))
    && (forall i, j | 0 <= i < j < |committed| :: committed[i].id != committed[j].id)
  }

  ghost predicate Sound(s: System) {
    && Books(s.tables)
    && Journal(s.tables, s.committed)
    && (forall id {:trigger CallSound(s.tables, s.committed, id, s.calls[id])} | id in s.calls :: CallSound(s.tables, s.committed, id, s.calls[id]))
    && (forall j | 0 <= j < |s.committed| :: s.committed[j].id in s.calls)
  }

  // -------------------- facts a call read stay true --------------------

  lemma LawfulStays(t: Tables, u: Tables, w: Write)
    requires Extends(t, u) && Lawful(t, w)
    ensures Lawful(u, w)
  {
  }

  lemma ReplaysStays(t: Tables, u: Tables, w: Write)
    requires Extends(t, u) && Replays(t, w)
    ensures Replays(u, w)
  {
    var ref :| ref in Entries(w) && ref in t.log;
    assert ref in u.log;
  }

  lemma ProvesStays(t: Tables, u: Tables, w: Write)
    requires Extends(t, u) && Proves(t, w)
    ensures Proves(u, w)
  {
  }

  /** One call stays sound while others commit around it. */
  lemma CallStays(t: Tables, u: Tables, committed: seq<Posted>, more: seq<Posted>, id: nat, c: Call)
    requires Extends(t, u) && CallSound(t, committed, id, c)
    requires more == committed || (|more| == |committed| + 1 && more[..|committed|] == committed && more[|committed|].id != id)
    ensures CallSound(u, more, id, c)
  {
    assert HasPosted(more, id) == HasPosted(committed, id);
    if !c.Reading? && !c.Raised? {
      LawfulStays(t, u, c.w);
      if Replays(t, c.w) { ReplaysStays(t, u, c.w); }
      if Proves(t, c.w) { ProvesStays(t, u, c.w); }
    }
  }

  // -------------------- one access --------------------

  lemma ReadSound(t: Tables, committed: seq<Posted>, id: nat, request: Request)
    requires Books(t) && !HasPosted(committed, id)
    ensures CallSound(t, committed, id, Read(t, request))
  {
    match request
    case ManagedReleaseRequest(ref, _) =>
      if ref in t.holds {
        assert HoldShape(t, ref);
        if t.holds[ref].status.Released? {
          var w := ReleaseOf(ref, t.holds[ref].key, t.holds[ref].amount);
          assert Derived(ref, Resolve) in Entries(w);
        }
      }
    case _ =>
  }

  /** A hold whose resolution is proved is no longer open; if it is not captured, it is released. */
  lemma ProvedHold(t: Tables, w: Write)
    requires Books(t) && Lawful(t, w) && (w.ReleaseOf? || w.CaptureOf?) && Proves(t, w)
    ensures !t.holds[w.ref].status.Open?
  {
    assert HoldShape(t, w.ref);
  }

  lemma AnsweredSound(t: Tables, committed: seq<Posted>, id: nat, c: Call)
    requires Books(t) && CallSound(t, committed, id, c)
    requires !Finished(c) && !c.Writing?
    ensures CallSound(t, committed, id, Answered(t, c))
  {
    match c
    case Reading(request) => ReadSound(t, committed, id, request);
    case Rechecking(request, w, _) => ProvedHold(t, w);
    case _ =>
  }

  lemma CommittedSound(t: Tables, committed: seq<Posted>, id: nat, request: Request, w: Write, answer: Answer)
    requires Books(t) && CallSound(t, committed, id, Writing(request, w)) && !Replays(t, w) && Covers(t, w)
    requires (answer.Moved? <==> !w.TransferOf?) && (answer.Moved? ==> answer.applied)
    ensures CallSound(Commit(t, w), committed + [Posted(id, w)], id, Returned(request, w, answer))
  {
    CommitExtends(t, w);
    LawfulStays(t, Commit(t, w), w);
    CommitSettles(t, request, w);
    assert (committed + [Posted(id, w)])[|committed|] == Posted(id, w);
  }

  lemma AbortedSound(t: Tables, committed: seq<Posted>, id: nat, request: Request, w: Write, violation: Violation)
    requires CallSound(t, committed, id, Writing(request, w))
    requires violation == Unique ==> Replays(t, w)
    ensures CallSound(t, committed, id, Wrote(t, Aborted(violation), request, w))
  {
    if w.TransferOf? {
      assert !MustProve(request);
    }
  }

  lemma WroteSound(t: Tables, committed: seq<Posted>, id: nat, request: Request, w: Write)
    requires Books(t) && CallSound(t, committed, id, Writing(request, w))
    ensures Replays(t, w) ==> CallSound(t, committed, id, Wrote(t, Aborted(Unique), request, w))
    ensures !Covers(t, w) ==> CallSound(t, committed, id, Wrote(t, Aborted(Check), request, w))
    ensures !Replays(t, w) && Covers(t, w) ==>
              CallSound(Commit(t, w), committed + [Posted(id, w)], id, Wrote(Commit(t, w), Committed, request, w))
  {
    if Replays(t, w) { AbortedSound(t, committed, id, request, w, Unique); }
    if !Covers(t, w) { AbortedSound(t, committed, id, request, w, Check); }
    if !Replays(t, w) && Covers(t, w) {
      var u := Commit(t, w);
      var answer := if w.TransferOf? then Nothing else Applied(w, u.accounts[AccountOf(w)]);
      CommittedSound(t, committed, id, request, w, answer);
      assert Wrote(u, Committed, request, w) == Returned(request, w, answer);
    }
  }

  lemma CommitProves(t: Tables, w: Write)
    requires !w.TransferOf? && !w.HoldOf?
    ensures ProofRef(w) in Entries(w)
    ensures Proves(Commit(t, w), w)
  {
    assert Commit(t, w).log[ProofRef(w)] == Entries(w)[ProofRef(w)];
  }

  /** Committing settles the call: its entries are in, and a release has released. */
  lemma CommitSettles(t: Tables, request: Request, w: Write)
    requires Composes(request, w)
    ensures Settled(Commit(t, w), request, w)
  {
    var u := Commit(t, w);
    if w.TransferOf? {
      assert Derived(w.ref, Out) in Entries(w);
      assert Derived(w.ref, Out) in u.log;
    } else if w.HoldOf? {
      assert w.ref in Entries(w);
      assert w.ref in u.log;
    } else {
      CommitProves(t, w);
      assert ProofRef(w) in u.log;
    }
  }

  // -------------------- the journal --------------------

  lemma LoggedGrows(log: map<string, Entry>, written: seq<map<string, Entry>>, more: map<string, Entry>)
    requires Logged(log, written)
    requires forall ref | ref in more :: ref !in log
    ensures Logged(log + more, written + [more])
  {
    var after := written + [more];
    forall ref | ref in log + more
      ensures exists j :: 0 <= j < |after| && ref in after[j]
    {
      if ref in more {
        assert ref in after[|written|];
      } else {
        var j :| 0 <= j < |written| && ref in written[j];
        assert ref in after[j];
      }
    }
  }

  lemma JournalGrows(t: Tables, committed: seq<Posted>, id: nat, w: Write)
    requires Books(t) && Journal(t, committed) && Lawful(t, w) && !Replays(t, w) && Covers(t, w)
    requires !HasPosted(committed, id)
    ensures Journal(Commit(t, w), committed + [Posted(id, w)])
  {
    LoggedGrows(t.log, Written(committed), Entries(w));
    assert Written(committed + [Posted(id, w)]) == Written(committed) + [Entries(w)];
  }

  // -------------------- every run --------------------

  /** The access of one call keeps the tables' books and its own soundness. */
  lemma AccessKeepsSound(s: System, id: nat)
    requires Sound(s) && id in s.calls && !Finished(s.calls[id])
    ensures var s' := Step(s, Advance(id));
            && Books(s'.tables) && Journal(s'.tables, s'.committed) && Extends(s.tables, s'.tables)
            && CallSound(s'.tables, s'.committed, id, s'.calls[id])
  {
    var c := s.calls[id];
    assert CallSound(s.tables, s.committed, id, c);
    if c.Writing? {
      BatchHasEffect(s.tables, c.w);
      EffectKeepsBooks(s.tables, c.w);
      WroteSound(s.tables, s.committed, id, c.request, c.w);
      if Effect(s.tables, c.w).1 == Committed {
        JournalGrows(s.tables, s.committed, id, c.w);
      }
    } else {
      AnsweredSound(s.tables, s.committed, id, c);
    }
  }

  lemma StepKeepsSound(s: System, e: Event)
    requires Sound(s)
    ensures Sound(Step(s, e))
    ensures Extends(s.tables, Step(s, e).tables)
  {
    var s' := Step(s, e);
    if e.Advance? && e.id in s.calls && !Finished(s.calls[e.id]) {
      AccessKeepsSound(s, e.id);
      forall id | id in s'.calls
        ensures CallSound(s'.tables, s'.committed, id, s'.calls[id])
      {
        if id != e.id {
          assert CallSound(s.tables, s.committed, id, s.calls[id]);
          CallStays(s.tables, s'.tables, s.committed, s'.committed, id, s.calls[id]);
        }
      }
    }
  }

  /** Every reachable state is sound. */
  lemma {:induction false} EveryRunIsSound(events: seq<Event>)
    ensures Sound(Run(events))
    decreases |events|
  {
    if events == [] {
      EmptyBooks();
    } else {
      EveryRunIsSound(events[..|events|-1]);
      StepKeepsSound(Run(events[..|events|-1]), events[|events|-1]);
    }
  }

  /** Later events extend what earlier ones left. */
  lemma {:induction false} RunExtends(events: seq<Event>, n: nat)
    requires n <= |events|
    ensures Extends(Run(events[..n]).tables, Run(events).tables)
    decreases |events|
  {
    if n == |events| {
      assert events[..n] == events;
    } else {
      var before := events[..|events|-1];
      RunExtends(before, n);
      assert before[..n] == events[..n];
      EveryRunIsSound(before);
      StepKeepsSound(Run(before), events[|events|-1]);
      ExtendsTransitive(Run(events[..n]).tables, Run(before).tables, Run(events).tables);
    }
  }
}
