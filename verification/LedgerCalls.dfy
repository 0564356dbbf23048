/**
 The ledger's operations as calls in flight.

 Every operation is an async function that touches the database a few times: perhaps a read, one batch, perhaps
 reads after an abort. Here a call is suspended between two accesses, and one event lets one call make its next
 access. A run is any sequence of events, so every interleaving of any number of calls is a run.
 */
module LedgerCalls {
  import opened Options
  import opened LedgerTables
  import opened LedgerWrites

  /** What a caller asked for. `managed` marks the control-plane credit and debit, which prove a replay. */
  datatype Request =
    | CreditRequest(key: Key, amount: Number, ref: string, managed: bool)
    | DebitRequest(key: Key, amount: Number, ref: string, managed: bool)
    | ReverseRequest(ref: string, scope: Option<Key>)
    | TransferRequest(from: string, to: string, currency: string, amount: Number, ref: string)
    | HoldRequest(key: Key, amount: Number, ref: string)
    | ReleaseRequest(ref: string)
    | ManagedReleaseRequest(ref: string, scope: Option<Key>)
    | CaptureRequest(ref: string, captured: Option<Number>)

  datatype Shortfall = Shortfall(amount: int, available: int, short: int)

  datatype LedgerError =
    | InvalidAmount
    | EntryNotFound
    | EntryNotReversible(kind: Kind, reverses: Option<string>)
    | HoldNotFound
    | HoldNotOpen
    | InsufficientFunds(gap: Option<Shortfall>)
    | RefConflict(ref: string)
    | Unhandled(violation: Violation)

  /** What a call that returns answers; a transfer answers nothing. */
  datatype Answer = Moved(applied: bool, before: Account, after: Account) | Nothing

  /** One call, by the access it makes next. */
  datatype Call =
    | Reading(request: Request)
    | Writing(request: Request, w: Write)
    | Fallback(request: Request, w: Write)
    | Replayed(request: Request, w: Write)
    | Short(request: Request, w: Write)
    | Proving(request: Request, w: Write, current: Account)
    | Rechecking(request: Request, w: Write, current: Account)
    | AlreadyReleased(request: Request, w: Write)
    | Returned(request: Request, w: Write, answer: Answer)
    | Raised(request: Request, error: LedgerError)

  predicate Finished(c: Call) {
    c.Returned? || c.Raised?
  }

  /** Everything a call does before its first access: check the amount, and compose the batch if it can. */
  function Start(request: Request): Call {
    match request
    case CreditRequest(key, amount, ref, _) =>
      if Positive(amount) then Writing(request, CreditOf(key, amount.n, ref)) else Raised(request, InvalidAmount)
    case DebitRequest(key, amount, ref, _) =>
      if Positive(amount) then Writing(request, DebitOf(key, amount.n, ref)) else Raised(request, InvalidAmount)
    case TransferRequest(from, to, currency, amount, ref) =>
      if Positive(amount) then Writing(request, TransferOf(from, to, currency, amount.n, ref)) else Raised(request, InvalidAmount)
    case HoldRequest(key, amount, ref) =>
      if Positive(amount) then Writing(request, HoldOf(key, amount.n, ref)) else Raised(request, InvalidAmount)
    case _ => Reading(request)
  }

  predicate Positive(amount: Number) {
    amount.Whole? && 0 < amount.n
  }

  predicate OnAccount(key: Key, scope: Option<Key>) {
    scope == None || scope == Some(key)
  }

  /** The first read of a reversal, a release or a capture, and what the call makes of the row. */
  function Read(t: Tables, request: Request): Call {
    match request
    case ReverseRequest(ref, scope) =>
      if ref !in t.log || !OnAccount(t.log[ref].key, scope) then Raised(request, EntryNotFound)
      else
        var e := t.log[ref];
        if e.kind != Credit && e.kind != Debit then Raised(request, EntryNotReversible(e.kind, None))
        else if e.related != None then Raised(request, EntryNotReversible(e.kind, e.related))
        else Writing(request, ReversalOf(ref, e.key, e.amount, Opposite(e.kind)))
    case ReleaseRequest(ref) =>
      if ref !in t.holds then Raised(request, HoldNotFound)
      else if !t.holds[ref].status.Open? then Raised(request, HoldNotOpen)
      else Writing(request, ReleaseOf(ref, t.holds[ref].key, t.holds[ref].amount))
    case ManagedReleaseRequest(ref, scope) =>
      if ref !in t.holds || !OnAccount(t.holds[ref].key, scope) then Raised(request, HoldNotFound)
      else
        var w := ReleaseOf(ref, t.holds[ref].key, t.holds[ref].amount);
        (match t.holds[ref].status
         case Captured => Raised(request, HoldNotOpen)
         case Released => AlreadyReleased(request, w)
         case Open => Writing(request, w))
    case CaptureRequest(ref, captured) =>
      if ref !in t.holds then Raised(request, HoldNotFound)
      else if !t.holds[ref].status.Open? then Raised(request, HoldNotOpen)
      else
        var amount := if captured.Some? then captured.value else Whole(t.holds[ref].amount);
        if amount.NotWhole? || amount.n < 0 || t.holds[ref].amount < amount.n then Raised(request, InvalidAmount)
        else Writing(request, CaptureOf(ref, t.holds[ref].key, t.holds[ref].amount, amount.n))
    case _ => Start(request)  // the others read nothing before their batch
  }

  /** The operation names the shortfall when it can be short; a credit or a resolution has no such handler. */
  predicate CanBeShort(w: Write) {
    w.DebitOf? || w.HoldOf? || w.ReversalOf?
  }

  /** What the call makes of its batch: `u` is what it left. */
  function Wrote(u: Tables, outcome: Outcome, request: Request, w: Write): Call {
    match outcome
    case Committed =>
      if w.TransferOf? then Returned(request, w, Nothing)
      else if AccountOf(w) in u.accounts then Returned(request, w, Applied(w, u.accounts[AccountOf(w)]))
      else Fallback(request, w)
    case Aborted(Unique) =>
      if w.TransferOf? then Returned(request, w, Nothing) else Replayed(request, w)
    case Aborted(Check) =>
      if w.TransferOf? then Raised(request, InsufficientFunds(None))
      else if CanBeShort(w) then Short(request, w)
      else Raised(request, Unhandled(Check))
  }

  /** `before` is what was read inside the batch, minus the write's own movement. */
  function Applied(w: Write, after: Account): Answer {
    Moved(true, after.(balance := after.balance - BalanceMove(w), held := after.held - HeldMove(w)), after)
  }

  /** The call proves a UNIQUE abort was its own replay before it answers one. */
  predicate MustProve(request: Request) {
    match request
    case CreditRequest(_, _, _, managed) => managed
    case DebitRequest(_, _, _, managed) => managed
    case HoldRequest(_, _, _) => false
    case TransferRequest(_, _, _, _, _) => false
    case _ => true
  }

  /** The ref the proof reads. */
  function ProofRef(w: Write): string {
    match w
    case ReversalOf(ref, _, _, _) => Derived(ref, Reverse)
    case ReleaseOf(ref, _, _) => Derived(ref, Resolve)
    case CaptureOf(ref, _, _, _) => Derived(ref, Resolve)
    case _ => w.ref
  }

  /** The row under the proof ref answers for this write. */
  predicate Proves(t: Tables, w: Write) {
    && ProofRef(w) in t.log
    && var e := t.log[ProofRef(w)];
       match w
       case CreditOf(key, amount, _) => e.key == key && e.kind == Credit && e.amount == amount
       case DebitOf(key, amount, _) => e.key == key && e.kind == Debit && e.amount == amount
       case ReversalOf(ref, key, _, _) => e.related == Some(ref) && e.key == key
       case ReleaseOf(ref, key, _) => e.related == Some(ref) && e.key == key
       case CaptureOf(ref, key, _, _) => e.related == Some(ref) && e.key == key
       case _ => false
  }

  /** How short the account is, read after the abort. */
  function ShortBy(w: Write, current: Account): Option<Shortfall> {
    if w.HoldOf? then None
    else
      var gap := w.amount - current.Available();
      Some(Shortfall(w.amount, current.Available(), if 0 < gap then gap else 0))
  }

  /** The accesses other than a batch: one read each. */
  function Answered(t: Tables, c: Call): Call
    requires !Finished(c) && !c.Writing?
  {
    match c
    case Reading(request) => Read(t, request)
    case Fallback(request, w) => Returned(request, w, Applied(w, ReadBalance(t, AccountOf(w))))
    case Replayed(request, w) =>
      var current := ReadBalance(t, AccountOf(w));
      if MustProve(request) then Proving(request, w, current) else Returned(request, w, Moved(false, current, current))
    case Short(request, w) => Raised(request, InsufficientFunds(ShortBy(w, ReadBalance(t, AccountOf(w)))))
    case Proving(request, w, current) =>
      if !Proves(t, w) then Raised(request, RefConflict(ProofRef(w)))
      else if request.ManagedReleaseRequest? then Rechecking(request, w, current)
      else Returned(request, w, Moved(false, current, current))
    case Rechecking(request, w, current) =>
      if w.ref in t.holds && t.holds[w.ref].status.Captured? then Raised(request, HoldNotOpen)
      else Returned(request, w, Moved(false, current, current))
    case AlreadyReleased(request, w) =>
      var current := ReadBalance(t, AccountOf(w));
      Returned(request, w, Moved(false, current, current))
  }

  /** A batch that committed, and the call it was for. */
  datatype Posted = Posted(id: nat, w: Write)

  /** The tables, the calls in flight, and the batches committed so far, in the order they committed. */
  datatype System = System(tables: Tables, calls: map<nat, Call>, committed: seq<Posted>)

  const IDLE := System(EMPTY_TABLES, map[], [])

  /** A new call arrives, or a call in flight makes its next access to the database. */
  datatype Event = Begin(id: nat, request: Request) | Advance(id: nat)

  function Step(s: System, e: Event): System {
    match e
    case Begin(id, request) =>
      if id in s.calls then s else s.(calls := s.calls[id := Start(request)])
    case Advance(id) =>
      if id !in s.calls || Finished(s.calls[id]) then s
      else
        var c := s.calls[id];
        if c.Writing? then
          var (u, outcome) := Batch(s.tables, Statements(c.w));
          System(u, s.calls[id := Wrote(u, outcome, c.request, c.w)],
                 if outcome == Committed then s.committed + [Posted(id, c.w)] else s.committed)
        else s.(calls := s.calls[id := Answered(s.tables, c)])
  }

  function Run(events: seq<Event>): System {
    if events == [] then IDLE else Step(Run(events[..|events|-1]), events[|events|-1])
  }

  lemma RunMore(events: seq<Event>, e: Event)
    ensures Run(events + [e]) == Step(Run(events), e)
  {
    assert (events + [e])[..|events|] == events;
  }

  /** The same system with its rows and its calls updated in place, one access at a time, and all that has happened to it. */
  class Server {
    const db: Database
    var calls: map<nat, Call>
    var committed: seq<Posted>
    ghost var events: seq<Event>

    ghost function State(): System
      reads this, db
    {
      System(db.State(), calls, committed)
    }

    /** The rows and calls are where the events have brought them, so whatever holds of every run holds here. */
    ghost predicate Valid()
      reads this, db
    {
      State() == Run(events)
    }

    constructor ()
      ensures Valid() && events == []
      ensures fresh(db)
    {
      db := new Database();
      calls, committed, events := map[], [], [];
    }

    method Begin(id: nat, request: Request)
      requires Valid()
      modifies this
      ensures Valid() && events == old(events) + [Event.Begin(id, request)]
      ensures State() == Step(old(State()), Event.Begin(id, request))
    {
      RunMore(events, Event.Begin(id, request));
      events := events + [Event.Begin(id, request)];
      if id !in calls {
        calls := calls[id := Start(request)];
      }
    }

    /** Resume one call: run its batch, or make its next read, and suspend it again. */
    method Advance(id: nat)
      requires Valid()
      modifies this, db
      ensures Valid() && events == old(events) + [Event.Advance(id)]
      ensures State() == Step(old(State()), Event.Advance(id))
    {
      RunMore(events, Event.Advance(id));
      events := events + [Event.Advance(id)];
      if id !in calls || Finished(calls[id]) { return; }
      var call := calls[id];
      if call.Writing? {
        var outcome := db.RunBatch(Statements(call.w));
        calls := calls[id := Wrote(Tables(db.accounts, db.log, db.holds), outcome, call.request, call.w)];
        if outcome == Committed {
          committed := committed + [Posted(id, call.w)];
        }
      } else {
        calls := calls[id := Answered(Tables(db.accounts, db.log, db.holds), call)];
      }
    }
  }
}
