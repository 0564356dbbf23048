/**
 What the ledger promises, over every run: conservation, exactly-once delivery, holds resolved once, reversals
 paired, and answers that say exactly what happened.
 */
module LedgerTheorems {
  import opened Options
  import opened LedgerTables
  import opened LedgerWrites
  import opened LedgerBooks
  import opened LedgerInvariant
  import opened LedgerCalls
  import opened LedgerRuns
  import opened Sums

  // -------------------- conservation --------------------

  function InCurrency(currency: string): (Key, Account) -> int {
    (key: Key, row: Account) => if key.currency == currency then row.balance else 0
  }

  /** Everything every account holds in one currency. */
  ghost function Total(t: Tables, currency: string): int {
    Sum(t.accounts, InCurrency(currency))
  }

  /** What a write brings into a currency, or takes out of it. Moving funds between two accounts is neither. */
  function Issued(w: Write, currency: string): int {
    match w
    case CreditOf(key, amount, _) => if key.currency == currency then amount else 0
    case DebitOf(key, amount, _) => if key.currency == currency then -amount else 0
    case ReversalOf(_, key, amount, opposite) =>
      if key.currency != currency then 0 else if opposite == Credit then amount else -amount
    case CaptureOf(_, key, _, captured) => if key.currency == currency then -captured else 0
    case TransferOf(_, _, _, _, _) => 0
    case HoldOf(_, _, _) => 0
    case ReleaseOf(_, _, _) => 0
  }

  function AllIssued(committed: seq<Posted>, currency: string): int {
    if committed == [] then 0
    else AllIssued(committed[..|committed|-1], currency) + Issued(committed[|committed|-1].w, currency)
  }

  lemma MovedTotal(accounts: map<Key, Account>, key: Key, balance: int, held: int, currency: string)
    ensures Sum(LedgerWrites.Moved(accounts, key, balance, held), InCurrency(currency)) ==
            Sum(accounts, InCurrency(currency)) + if key.currency == currency then balance else 0
  {
    SumWrite(accounts, InCurrency(currency), key, LedgerWrites.Moved(accounts, key, balance, held)[key]);
  }

  lemma CommitTotal(t: Tables, w: Write, currency: string)
    ensures Total(Commit(t, w), currency) == Total(t, currency) + Issued(w, currency)
  {
    MovedTotal(t.accounts, AccountOf(w), BalanceMove(w), HeldMove(w), currency);
    if w.TransferOf? {
      var paid := LedgerWrites.Moved(t.accounts, AccountOf(w), BalanceMove(w), HeldMove(w));
      MovedTotal(paid, Key(w.to, w.currency), w.amount, 0, currency);
    }
  }

  /** The next access of a call about to write, by the effect of its write. */
  lemma WritingStep(s: System, id: nat)
    requires Sound(s) && id in s.calls && s.calls[id].Writing?
    ensures var c := s.calls[id];
            var (u, outcome) := Effect(s.tables, c.w);
            Step(s, Advance(id)) ==
            System(u, s.calls[id := Wrote(u, outcome, c.request, c.w)],
                   if outcome == Committed then s.committed + [Posted(id, c.w)] else s.committed)
  {
    assert CallSound(s.tables, s.committed, id, s.calls[id]);
    BatchHasEffect(s.tables, s.calls[id].w);
  }

  lemma {:induction false} StepTotal(s: System, e: Event, currency: string)
    requires Sound(s)
    ensures Total(Step(s, e).tables, currency) - AllIssued(Step(s, e).committed, currency) ==
            Total(s.tables, currency) - AllIssued(s.committed, currency)
  {
    if e.Advance? && e.id in s.calls && s.calls[e.id].Writing? {
      WritingStep(s, e.id);
      var w := s.calls[e.id].w;
      CommitTotal(s.tables, w, currency);
      IssuedGrows(s.committed, Posted(e.id, w), currency);
    }
  }

  lemma IssuedGrows(committed: seq<Posted>, p: Posted, currency: string)
    ensures AllIssued(committed + [p], currency) == AllIssued(committed, currency) + Issued(p.w, currency)
  {
    assert (committed + [p])[..|committed|] == committed;
  }

  /**
   In every reachable state each account's balance is the signed sum of its log entries, its `held` the sum of its
   open holds, and it is solvent; and a currency's total is what credits, debits, reversals and captures issued,
   so that no transfer, to another account or to itself, and no hold or release ever changes it.
   */
  lemma {:induction false} Conservation(events: seq<Event>, key: Key, currency: string)
    ensures var t := Run(events).tables;
            && ReadBalance(t, key).balance == Sum(t.log, Moves(key))
            && ReadBalance(t, key).held == Sum(t.holds, Reserves(key))
            && 0 <= ReadBalance(t, key).held <= ReadBalance(t, key).balance
            && Total(t, currency) == AllIssued(Run(events).committed, currency)
    decreases |events|
  {
    EveryRunIsSound(events);
    assert Balanced(Run(events).tables, key);
    if events != [] {
      var before, e := Run(events[..|events|-1]), events[|events|-1];
      Conservation(events[..|events|-1], key, currency);
      EveryRunIsSound(events[..|events|-1]);
      StepTotal(before, e, currency);
    }
  }

  // -------------------- serializability --------------------

  /** The committed batches, run one after another from empty tables. */
  function Serial(committed: seq<Posted>): Tables {
    if committed == [] then EMPTY_TABLES
    else Batch(Serial(committed[..|committed|-1]), Statements(committed[|committed|-1].w)).0
  }

  /** However the calls interleave, the tables are the committed batches run one after another. */
  lemma {:induction false} Serializable(events: seq<Event>)
    ensures Run(events).tables == Serial(Run(events).committed)
    decreases |events|
  {
    if events != [] {
      var before, e := Run(events[..|events|-1]), events[|events|-1];
      Serializable(events[..|events|-1]);
      EveryRunIsSound(events[..|events|-1]);
      if e.Advance? && e.id in before.calls && before.calls[e.id].Writing? {
        var w := before.calls[e.id].w;
        assert (before.committed + [Posted(e.id, w)])[..|before.committed|] == before.committed;
      }
    }
  }

  // -------------------- exactly-once delivery --------------------

  /** The schedule with every event of some calls taken out. */
  function Without(events: seq<Event>, gone: set<nat>): seq<Event> {
    if events == [] then []
    else
      var rest, e := Without(events[..|events|-1], gone), events[|events|-1];
      if e.id in gone then rest else rest + [e]
  }

  /** An event of one call leaves every other call alone, and adds to what is committed only that call's batch. */
  lemma StepIsLocal(s: System, e: Event)
    ensures forall id | id != e.id :: (id in s.calls <==> id in Step(s, e).calls) && (id in s.calls ==> Step(s, e).calls[id] == s.calls[id])
    ensures Step(s, e).committed == s.committed
            || exists w :: Step(s, e).committed == s.committed + [Posted(e.id, w)]
    ensures Step(s, e).committed == s.committed ==> Step(s, e).tables == s.tables
  {
  }

  lemma PostedStays(s: System, e: Event, id: nat)
    ensures HasPosted(s.committed, id) ==> HasPosted(Step(s, e).committed, id)
  {
    StepIsLocal(s, e);
    if HasPosted(s.committed, id) {
      var j :| 0 <= j < |s.committed| && s.committed[j].id == id;
      assert Step(s, e).committed[j].id == id;
    }
  }

  lemma StepPosts(s: System, e: Event)
    ensures Step(s, e).committed != s.committed ==> HasPosted(Step(s, e).committed, e.id)
  {
    StepIsLocal(s, e);
    if Step(s, e).committed != s.committed {
      assert Step(s, e).committed[|s.committed|].id == e.id;
    }
  }

  /** The system with some calls forgotten. */
  function Forget(s: System, gone: set<nat>): System {
    s.(calls := s.calls - gone)
  }

  /** No call looks at another, so forgetting some changes no step of the rest. */
  lemma StepForgets(s: System, e: Event, gone: set<nat>)
    ensures e.id !in gone ==> Step(Forget(s, gone), e) == Forget(Step(s, e), gone)
    ensures e.id in gone && Step(s, e).committed == s.committed ==> Forget(Step(s, e), gone) == Forget(s, gone)
  {
    var c := Step(s, e).calls;
    if e.id in c {
      assert s.calls[e.id := c[e.id]] - gone == if e.id in gone then s.calls - gone else (s.calls - gone)[e.id := c[e.id]];
    }
  }

  /** Calls that committed nothing leave no trace: without them the run ends in the same tables. */
  lemma {:induction false} Erasure(events: seq<Event>, gone: set<nat>)
    requires forall id | id in gone :: !HasPosted(Run(events).committed, id)
    ensures Run(Without(events, gone)) == Forget(Run(events), gone)
    decreases |events|
  {
    if events != [] {
      var before, e := Run(events[..|events|-1]), events[|events|-1];
      StepIsLocal(before, e);
      StepForgets(before, e, gone);
      forall id | id in gone ensures !HasPosted(before.committed, id) {
        PostedStays(before, e, id);
      }
      Erasure(events[..|events|-1], gone);
      var rest := Without(events[..|events|-1], gone);
      if e.id in gone {
        StepPosts(before, e);
      } else {
        assert (rest + [e])[..|rest|] == rest;
      }
    }
  }

  /** Every ref the request's batch would take. */
  function Targets(request: Request): set<string> {
    match request
    case CreditRequest(_, _, ref, _) => {ref}
    case DebitRequest(_, _, ref, _) => {ref}
    case HoldRequest(_, _, ref) => {ref}
    case TransferRequest(_, _, _, _, ref) => {Derived(ref, Out), Derived(ref, In)}
    case ReverseRequest(ref, _) => {Derived(ref, Reverse)}
    case ReleaseRequest(ref) => {Derived(ref, Resolve)}
    case ManagedReleaseRequest(ref, _) => {Derived(ref, Resolve)}
    case CaptureRequest(ref, _) => {Derived(ref, Resolve)}
  }

  lemma TargetsAreTaken(request: Request, w: Write)
    requires Composes(request, w)
    ensures Entries(w).Keys == Targets(request)
  {
  }

  /** Of all calls that would take one ref, at most one ever commits. */
  lemma AtMostOnce(events: seq<Event>, one: nat, other: nat, ref: string)
    requires one in Run(events).calls && other in Run(events).calls
    requires ref in Targets(Run(events).calls[one].request) && ref in Targets(Run(events).calls[other].request)
    requires HasPosted(Run(events).committed, one) && HasPosted(Run(events).committed, other)
    ensures one == other
  {
    var s := Run(events);
    EveryRunIsSound(events);
    var i := PostedAt(s, one);
    var j := PostedAt(s, other);
    OneWriter(s.committed, i, j, ref, s.tables.log);
  }

  lemma OneWriter(committed: seq<Posted>, i: nat, j: nat, ref: string, log: map<string, Entry>)
    requires Logged(log, Written(committed))
    requires i < |committed| && j < |committed| && ref in Entries(committed[i].w) && ref in Entries(committed[j].w)
    ensures i == j
  {
    assert ref in Written(committed)[i] && ref in Written(committed)[j];
  }

  /** Where a call's batch is in the journal. */
  lemma PostedAt(s: System, id: nat) returns (j: nat)
    requires Sound(s) && id in s.calls && HasPosted(s.committed, id)
    ensures j < |s.committed| && s.calls[id].Returned? && s.committed[j] == Posted(id, s.calls[id].w)
    ensures Entries(s.committed[j].w).Keys == Targets(s.calls[id].request)
  {
    assert CallSound(s.tables, s.committed, id, s.calls[id]);
    j :| 0 <= j < |s.committed| && s.committed[j] == Posted(id, s.calls[id].w);
    TargetsAreTaken(s.calls[id].request, s.calls[id].w);
  }

  /** The other calls that would take a ref one call takes: its redeliveries, and whatever else collides with it. */
  function Redeliveries(s: System, first: nat): set<nat>
    requires first in s.calls
  {
    set id | id in s.calls && id != first && Targets(s.calls[id].request) * Targets(s.calls[first].request) != {}
  }

  /**
   Exactly-once delivery: with every delivery but the committed one taken out of the schedule, the run ends in the
   same accounts, log and holds.
   */
  lemma ExactlyOnce(events: seq<Event>, first: nat)
    requires first in Run(events).calls && HasPosted(Run(events).committed, first)
    ensures var s := Run(events);
            var once := Run(Without(events, Redeliveries(s, first)));
            once.tables == s.tables && once.committed == s.committed
  {
    var s := Run(events);
    forall id | id in Redeliveries(s, first) ensures !HasPosted(s.committed, id) {
      var ref :| ref in Targets(s.calls[id].request) * Targets(s.calls[first].request);
      if HasPosted(s.committed, id) { AtMostOnce(events, first, id, ref); }
    }
    Erasure(events, Redeliveries(s, first));
  }

  /**
   A batch whose ref is already logged is a replay whatever the balance: nothing moves, and the call never answers
   that funds are short. Where no ref is taken it is refused as short exactly when the account cannot cover it.
   */
  lemma ReplayBeforeShortage(events: seq<Event>, id: nat)
    requires id in Run(events).calls && Run(events).calls[id].Writing?
    ensures var s := Run(events);
            var w, s' := s.calls[id].w, Step(s, Advance(id));
            if Replays(s.tables, w) then
              s'.tables == s.tables && (s'.calls[id].Replayed? || s'.calls[id] == Returned(s.calls[id].request, w, Nothing))
            else if Needs(w) > ReadBalance(s.tables, AccountOf(w)).Available() then
              s'.tables == s.tables && (s'.calls[id].Short? || s'.calls[id] == Raised(s.calls[id].request, InsufficientFunds(None)))
            else
              HasPosted(s'.committed, id) && s'.calls[id].Returned?
  {
    var s := Run(events);
    var w := s.calls[id].w;
    EveryRunIsSound(events);
    assert CallSound(s.tables, s.committed, id, s.calls[id]);
    WritingStep(s, id);
    if !Replays(s.tables, w) {
      WriteIsCovered(s.tables, w);
      CommitOpens(s.tables, w);
      UnreplayedAnswer(s.tables, Commit(s.tables, w), s.calls[id].request, w);
      assert (s.committed + [Posted(id, w)])[|s.committed|].id == id;
    }
  }

  lemma CommitOpens(t: Tables, w: Write)
    ensures AccountOf(w) in Commit(t, w).accounts
  {
    AccountFlow(t, w, AccountOf(w));
  }

  /** Only operations that name the shortfall ever need anything available. */
  lemma OnlyNamedShort(w: Write, available: int)
    requires 0 <= available < Needs(w)
    ensures w.TransferOf? || CanBeShort(w)
  {
  }

  lemma CommittedReturns(u: Tables, request: Request, w: Write)
    requires AccountOf(w) in u.accounts
    ensures Wrote(u, Committed, request, w).Returned?
  {
  }

  lemma ShortRaises(t: Tables, request: Request, w: Write)
    requires w.TransferOf? || CanBeShort(w)
    ensures var c := Wrote(t, Aborted(Check), request, w); c.Short? || c == Raised(request, InsufficientFunds(None))
  {
  }

  lemma UnreplayedAnswer(t: Tables, u: Tables, request: Request, w: Write)
    requires ReadBalance(t, AccountOf(w)).Solvent() && AccountOf(w) in u.accounts
    ensures Wrote(u, Committed, request, w).Returned?
    ensures !Covers(t, w) ==>
              var c := Wrote(t, Aborted(Check), request, w); c.Short? || c == Raised(request, InsufficientFunds(None))
  {
    CommittedReturns(u, request, w);
    if !Covers(t, w) {
      OnlyNamedShort(w, ReadBalance(t, AccountOf(w)).Available());
      ShortRaises(t, request, w);
    }
  }
}
