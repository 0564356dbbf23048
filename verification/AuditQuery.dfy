/** Filters over the trail: the conditions a query collects, and what they mean together. */
module AuditQuery {
  import opened Options
  import opened Strings
  import opened AuditTrail

  /** Every field is optional; a `tenant` of `Some(None)` asks for the events of no tenant. */
  datatype Filter = Filter(
    actorType: Option<string>, actorId: Option<string>, actorKind: Option<string>,
    action: Option<string>, actionPrefix: Option<string>, outcome: Option<string>, severity: Option<string>,
    resourceType: Option<string>, resourceId: Option<string>,
    project: Option<string>, environment: Option<string>, worker: Option<string>,
    tenant: Option<Option<string>>, since: Option<int>, until: Option<int>)

  datatype Column =
    | ActorType | ActorId | ActorKind | Action | Outcome | Severity | ResourceType | ResourceId
    | Project | Environment | Worker | Tenant

  function Cell(e: AuditEvent, column: Column): Option<string> {
    match column
    case ActorType => Some(e.actorType)
    case ActorId => e.actorId
    case ActorKind => e.actorKind
    case Action => Some(e.action)
    case Outcome => Some(e.outcome)
    case Severity => Some(e.severity)
    case ResourceType => e.resourceType
    case ResourceId => e.resourceId
    case Project => e.project
    case Environment => e.environment
    case Worker => e.worker
    case Tenant => e.tenant
  }

  /** One `where` of the statement. */
  datatype Condition =
    | Equals(column: Column, value: string)
    | IsNull(column: Column)
    | AtLeast(column: Column, low: string)
    | Below(column: Column, high: string)
    | Since(instant: int)
    | Until(instant: int)
    | After(sort: int, id: int)

  predicate Holds(c: Condition, e: AuditEvent) {
    match c
    case Equals(column, value) => SqlEq(Cell(e, column), Some(value))
    case IsNull(column) => Cell(e, column).None?
    case AtLeast(column, low) => Cell(e, column).Some? && !Less(Cell(e, column).value, low)
    case Below(column, high) => Cell(e, column).Some? && Less(Cell(e, column).value, high)
    case Since(instant) => instant <= e.occurredAt
    case Until(instant) => e.occurredAt <= instant
    case After(sort, id) => e.occurredAt < sort || (e.occurredAt == sort && e.id < id)
  }

  predicate AllHold(conditions: seq<Condition>, e: AuditEvent) {
    forall c | c in conditions :: Holds(c, e)
  }

  /** Who did what: the actor's and the action's fields. */
  predicate MatchesDeed(q: Filter, e: AuditEvent) {
    && (q.actorType.Some? ==> e.actorType == q.actorType.value)
    && (q.actorId.Some? ==> e.actorId == q.actorId)
    && (q.actorKind.Some? ==> e.actorKind == q.actorKind)
    && (q.action.Some? ==> e.action == q.action.value)
    && (q.actionPrefix.Some? ==> q.actionPrefix.value + "/" <= e.action)
    && (q.outcome.Some? ==> e.outcome == q.outcome.value)
    && (q.severity.Some? ==> e.severity == q.severity.value)
  }

  /** To what, from where and when. */
  predicate MatchesPlace(q: Filter, e: AuditEvent) {
    && (q.resourceType.Some? ==> e.resourceType == q.resourceType)
    && (q.resourceId.Some? ==> e.resourceId == q.resourceId)
    && (q.project.Some? ==> e.project == q.project)
    && (q.environment.Some? ==> e.environment == q.environment)
    && (q.worker.Some? ==> e.worker == q.worker)
    && (q.tenant.Some? ==> e.tenant == q.tenant.value)
    && (q.since.Some? ==> q.since.value <= e.occurredAt)
    && (q.until.Some? ==> e.occurredAt <= q.until.value)
  }

  /** What the filter asks for, field by field. */
  predicate Matches(q: Filter, e: AuditEvent) {
    MatchesDeed(q, e) && MatchesPlace(q, e)
  }

  /** What the filter wants a column to be, if it asks: a text, or nothing at all. */
  function Wanted(q: Filter, column: Column): Option<Option<string>> {
    match column
    case ActorType => Asking(q.actorType)
    case ActorId => Asking(q.actorId)
    case ActorKind => Asking(q.actorKind)
    case Action => Asking(q.action)
    case Outcome => Asking(q.outcome)
    case Severity => Asking(q.severity)
    case ResourceType => Asking(q.resourceType)
    case ResourceId => Asking(q.resourceId)
    case Project => Asking(q.project)
    case Environment => Asking(q.environment)
    case Worker => Asking(q.worker)
    case Tenant => q.tenant
  }

  function Asking(value: Option<string>): Option<Option<string>> {
    if value.Some? then Some(value) else None
  }

  predicate AsWanted(q: Filter, e: AuditEvent, column: Column) {
    Wanted(q, column).Some? ==> Cell(e, column) == Wanted(q, column).value
  }

  lemma DeedByColumn(q: Filter, e: AuditEvent)
    ensures MatchesDeed(q, e) <==>
            && AsWanted(q, e, ActorType) && AsWanted(q, e, ActorId) && AsWanted(q, e, ActorKind)
            && AsWanted(q, e, Action) && AsWanted(q, e, Outcome) && AsWanted(q, e, Severity)
            && (q.actionPrefix.Some? ==> q.actionPrefix.value + "/" <= e.action)
  {
  }

  lemma PlaceByColumn(q: Filter, e: AuditEvent)
    ensures MatchesPlace(q, e) <==>
            && AsWanted(q, e, ResourceType) && AsWanted(q, e, ResourceId) && AsWanted(q, e, Project)
            && AsWanted(q, e, Environment) && AsWanted(q, e, Worker) && AsWanted(q, e, Tenant)
            && (q.since.Some? ==> e.occurredAt >= q.since.value)
            && (q.until.Some? ==> !(e.occurredAt > q.until.value))
  {
  }

  /** An event matches exactly when every column asked for is as asked, its action is in the domain, and it is inside the window, ends included. */
  lemma {:induction false} MatchesByColumn(q: Filter, e: AuditEvent)
    ensures Matches(q, e) <==>
            && (forall column :: AsWanted(q, e, column))
            && (q.actionPrefix.Some? ==> exists rest :: e.action == q.actionPrefix.value + "/" + rest)
            && (q.since.Some? ==> e.occurredAt >= q.since.value)
            && (q.until.Some? ==> !(e.occurredAt > q.until.value))
  {
    DeedByColumn(q, e);
    PlaceByColumn(q, e);
    if q.actionPrefix.Some? { InDomain(q.actionPrefix.value + "/", e.action); }
  }

  lemma InDomain(domain: string, action: string)
    ensures domain <= action <==> exists rest :: action == domain + rest
  {
    if domain <= action { assert action == domain + action[|domain|..]; }
  }

  // -------------------- the prefix range --------------------

  lemma LessCons(x: char, a: string, y: char, b: string)
    ensures Less([x] + a, [y] + b) <==> x < y || (x == y && Less(a, b))
  {
    assert ([x] + a)[1..] == a && ([y] + b)[1..] == b;
  }

  lemma PrefixCons(x: char, p: string, y: char, a: string)
    ensures [x] + p <= [y] + a <==> x == y && p <= a
  {
    var long, whole := [x] + p, [y] + a;
    assert long[1..] == p && whole[1..] == a;
    if long <= whole {
      assert whole == long + whole[|long|..];
      assert x == whole[0] && a == p + whole[|long|..];
    }
    if x == y && p <= a {
      assert a == p + a[|p|..];
      assert whole == long + a[|p|..];
    }
  }

  /** Everything at or after `p` and a character, and before `p` and the next one, begins with `p` and that character. */
  lemma {:induction false} RangeIsPrefix(p: string, a: string, c: char, next: char)
    requires c as int + 1 == next as int
    ensures !Less(a, p + [c]) && Less(a, p + [next]) <==> p + [c] <= a
  {
    if a != [] {
      var rest := a[1..];
      assert a == [a[0]] + rest;
      if p == [] {
        assert p + [c] == [c] + [] && p + [next] == [next] + [];
        LessCons(a[0], rest, c, []);
        LessCons(a[0], rest, next, []);
        PrefixCons(c, [], a[0], rest);
      } else {
        assert p + [c] == [p[0]] + (p[1..] + [c]) && p + [next] == [p[0]] + (p[1..] + [next]);
        LessCons(a[0], rest, p[0], p[1..] + [c]);
        LessCons(a[0], rest, p[0], p[1..] + [next]);
        PrefixCons(p[0], p[1..] + [c], a[0], rest);
        RangeIsPrefix(p[1..], rest, c, next);
      }
    }
  }

  /** The index range selects exactly the actions of the prefix's domain. */
  lemma DomainRange(p: string, action: string)
    ensures !Less(action, p + "/") && Less(action, p + "0") <==> p + "/" <= action
  {
    RangeIsPrefix(p, action, '/', '0');
  }

  // -------------------- the statement --------------------

  /** `query.where(…)` */
  function Where(conditions: seq<Condition>, c: Condition): (more: seq<Condition>)
    ensures forall e: AuditEvent {:trigger AllHold(more, e)} :: AllHold(more, e) <==> AllHold(conditions, e) && Holds(c, e)
  {
    assert forall x :: x in conditions + [c] <==> x in conditions || x == c;
    conditions + [c]
  }

  method WhereGiven(conditions: seq<Condition>, column: Column, value: Option<string>) returns (more: seq<Condition>)
    ensures forall e: AuditEvent {:trigger AllHold(more, e)} ::
              AllHold(more, e) <==> AllHold(conditions, e) && (value.Some? ==> Cell(e, column) == value)
  {
    more := conditions;
    if value.Some? { more := Where(more, Equals(column, value.value)); }
  }

  /** One domain's action codes, as a range of codes. */
  method WhereDomain(conditions: seq<Condition>, prefix: Option<string>) returns (more: seq<Condition>)
    ensures forall e: AuditEvent {:trigger AllHold(more, e)} ::
              AllHold(more, e) <==> AllHold(conditions, e) && (prefix.Some? ==> prefix.value + "/" <= e.action)
  {
    more := conditions;
    if prefix.Some? {
      var low, high := AtLeast(Action, prefix.value + "/"), Below(Action, prefix.value + "0");
      more := Where(Where(conditions, low), high);
      forall e: AuditEvent ensures Holds(low, e) && Holds(high, e) <==> prefix.value + "/" <= e.action {
        DomainRange(prefix.value, e.action);
      }
    }
  }

  /** No tenant is a question of its own, which no equality asks. */
  method WhereTenant(conditions: seq<Condition>, tenant: Option<Option<string>>) returns (more: seq<Condition>)
    ensures forall e: AuditEvent {:trigger AllHold(more, e)} ::
              AllHold(more, e) <==> AllHold(conditions, e) && (tenant.Some? ==> e.tenant == tenant.value)
  {
    more := conditions;
    if tenant.Some? {
      more := Where(more, if tenant.value.None? then IsNull(Tenant) else Equals(Tenant, tenant.value.value));
    }
  }

  method WhereTime(conditions: seq<Condition>, since: Option<int>, until: Option<int>) returns (more: seq<Condition>)
    ensures forall e: AuditEvent {:trigger AllHold(more, e)} ::
              AllHold(more, e) <==>
              && AllHold(conditions, e)
              && (since.Some? ==> since.value <= e.occurredAt) && (until.Some? ==> e.occurredAt <= until.value)
  {
    more := conditions;
    if since.Some? { more := Where(more, Since(since.value)); }
    if until.Some? { more := Where(more, Until(until.value)); }
  }

  method WhereDeed(q: Filter) returns (query: seq<Condition>)
    ensures forall e: AuditEvent {:trigger AllHold(query, e)} :: AllHold(query, e) <==> MatchesDeed(q, e)
  {
    query := WhereGiven([], ActorType, q.actorType);
    query := WhereGiven(query, ActorId, q.actorId);
    query := WhereGiven(query, ActorKind, q.actorKind);
    query := WhereGiven(query, Action, q.action);
    query := WhereDomain(query, q.actionPrefix);
    query := WhereGiven(query, Outcome, q.outcome);
    query := WhereGiven(query, Severity, q.severity);
  }

  method WherePlace(conditions: seq<Condition>, q: Filter) returns (query: seq<Condition>)
    ensures forall e: AuditEvent {:trigger AllHold(query, e)} :: AllHold(query, e) <==> AllHold(conditions, e) && MatchesPlace(q, e)
  {
    query := WhereGiven(conditions, ResourceType, q.resourceType);
    query := WhereGiven(query, ResourceId, q.resourceId);
    query := WhereGiven(query, Project, q.project);
    query := WhereGiven(query, Environment, q.environment);
    query := WhereGiven(query, Worker, q.worker);
    query := WhereTenant(query, q.tenant);
    query := WhereTime(query, q.since, q.until);
  }

  /** The conditions a filter collects hold together of exactly the events it asks for. */
  method AuditEventQuery(q: Filter) returns (query: seq<Condition>)
    ensures forall e: AuditEvent {:trigger AllHold(query, e)} :: AllHold(query, e) <==> Matches(q, e)
  {
    query := WhereDeed(q);
    query := WherePlace(query, q);
  }
}
