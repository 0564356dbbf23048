/** Keyset paging: one page of the filtered trail, and a whole walk by cursor while the trail is appended to. */
module AuditPaging {
  import opened Options
  import opened Sorting
  import opened AuditTrail
  import opened AuditQuery

  const DEFAULT_PAGE_SIZE := 25
  const MAX_PAGE_SIZE := 100

  /** A JSON scalar: a cursor carries whichever its column stores. */
  datatype Scalar = Num(n: int) | Text(text: string)
  datatype PageCursor = PageCursor(sort: Scalar, id: Scalar)

  /** A cursor on the wire: what `encodeCursor` wrote, or any other text. */
  datatype Token = Encoded(cursor: PageCursor) | Other(text: string)

  function PageLimit(requested: Option<int>): (limit: nat)
    ensures 1 <= limit <= MAX_PAGE_SIZE
    ensures requested.Some? && 1 <= requested.value <= MAX_PAGE_SIZE ==> limit == requested.value
    ensures requested.Some? && requested.value > MAX_PAGE_SIZE ==> limit == MAX_PAGE_SIZE
    ensures requested.Some? && requested.value < 1 ==> limit == 1
    ensures requested.None? ==> limit == DEFAULT_PAGE_SIZE
  {
    var asked := if requested.Some? then requested.value else DEFAULT_PAGE_SIZE;
    var atLeastOne := if asked < 1 then 1 else asked;
    if atLeastOne > MAX_PAGE_SIZE then MAX_PAGE_SIZE else atLeastOne
  }

  function DecodeCursor(token: Option<Token>): Option<PageCursor> {
    if token.Some? && token.value.Encoded? then Some(token.value.cursor) else None
  }

  /** A place in the trail's order. */
  datatype Position = Position(sort: int, id: int)

  /** Anything but a pair of numbers is no cursor at all. */
  function KeysetPosition(cursor: Option<PageCursor>): Option<Position> {
    if cursor.Some? && cursor.value.sort.Num? && cursor.value.id.Num? then Some(Position(cursor.value.sort.n, cursor.value.id.n)) else None
  }

  function PositionOf(e: AuditEvent): Position {
    Position(e.occurredAt, e.id)
  }

  function TokenOf(p: Position): (token: Token)
    ensures KeysetPosition(DecodeCursor(Some(token))) == Some(p)
  {
    Encoded(PageCursor(Num(p.sort), Num(p.id)))
  }

  datatype Page<T> = Page(items: seq<T>, nextCursor: Option<Token>)

  /** The over-fetched rows as a page: what is over is dropped, and says there is more behind the last row kept. */
  function ToPage<T>(rows: seq<T>, limit: nat, position: T -> Position): (page: Page<T>)
    ensures page.items <= rows && |page.items| == if |rows| <= limit then |rows| else limit
    ensures page.nextCursor.Some? <==> |rows| > limit >= 1
    ensures page.nextCursor.Some? ==> page.nextCursor == Some(TokenOf(position(page.items[|page.items|-1])))
  {
    var items := if |rows| > limit then rows[..limit] else rows;
    Page(items, if |rows| > limit && items != [] then Some(TokenOf(position(items[|items|-1]))) else None)
  }

  // -------------------- the order --------------------

  /** Newest first, the id breaking ties. */
  predicate Newer(a: AuditEvent, b: AuditEvent) {
    a.occurredAt > b.occurredAt || (a.occurredAt == b.occurredAt && a.id > b.id)
  }

  function Newest(): (AuditEvent, AuditEvent) -> bool {
    (a: AuditEvent, b: AuditEvent) => Newer(a, b)
  }

  ghost predicate Descending(events: seq<AuditEvent>) {
    forall i, j | 0 <= i < j < |events| :: Newer(events[i], events[j])
  }

  /** Strictly after the position the previous page ended at; everything is after none. */
  predicate Follows(e: AuditEvent, from: Option<Position>) {
    from.None? || Holds(After(from.value.sort, from.value.id), e)
  }

  lemma FollowsIsOlder(a: AuditEvent, b: AuditEvent)
    ensures Follows(b, Some(PositionOf(a))) <==> Newer(a, b)
  {
  }

  // -------------------- one page --------------------

  /** The rows the conditions keep. */
  function Select(trail: seq<AuditEvent>, keep: AuditEvent -> bool): (rows: seq<AuditEvent>)
    ensures forall e :: e in rows <==> e in trail && keep(e)
  {
    if trail == [] then []
    else
      var init, last := trail[..|trail|-1], trail[|trail|-1];
      assert forall e :: e in trail <==> e in init || e == last;
      Select(init, keep) + if keep(last) then [last] else []
  }

  lemma {:induction false} SelectDistinct(trail: seq<AuditEvent>, keep: AuditEvent -> bool)
    requires UniqueIds(trail)
    ensures Distinct(Select(trail, keep))
  {
    if trail != [] {
      var init, last := trail[..|trail|-1], trail[|trail|-1];
      SelectDistinct(init, keep);
      forall i | 0 <= i < |init| ensures init[i] != last { assert trail[i].id != last.id; }
    }
  }

  lemma {:induction false} SelectSame(trail: seq<AuditEvent>, keep: AuditEvent -> bool, also: AuditEvent -> bool)
    requires forall e :: keep(e) == also(e)
    ensures Select(trail, keep) == Select(trail, also)
  {
    if trail != [] { SelectSame(trail[..|trail|-1], keep, also); }
  }

  function Asked(q: Filter, from: Option<Position>): AuditEvent -> bool {
    (e: AuditEvent) => Matches(q, e) && Follows(e, from)
  }

  /** Everything the walk has still to return, in order. */
  function Rest(trail: seq<AuditEvent>, q: Filter, from: Option<Position>): seq<AuditEvent> {
    Sort(Select(trail, Asked(q, from)), Newest())
  }

  lemma NewestOrders()
    ensures Orders(Newest())
  {
  }

  /** What is left is exactly the matching events after the position, newest first. */
  lemma RestIs(trail: seq<AuditEvent>, q: Filter, from: Option<Position>)
    requires UniqueIds(trail)
    ensures Descending(Rest(trail, q, from))
    ensures forall e :: e in Rest(trail, q, from) <==> e in trail && Matches(q, e) && Follows(e, from)
  {
    var kept, rest := Select(trail, Asked(q, from)), Rest(trail, q, from);
    NewestOrders();
    SortSorts(kept, Newest());
    SelectDistinct(trail, Asked(q, from));
    DistinctStays(kept, rest);
    forall e ensures e in rest <==> e in kept { assert e in rest <==> e in multiset(rest); assert e in kept <==> e in multiset(kept); }
    forall i, j | 0 <= i < j < |rest| ensures Newer(rest[i], rest[j]) {
      assert rest[i] in kept && rest[j] in kept;
      SameId(trail, rest[i], rest[j]);
    }
  }

  lemma SameId(trail: seq<AuditEvent>, a: AuditEvent, b: AuditEvent)
    requires UniqueIds(trail) && a in trail && b in trail && a != b
    ensures a.id != b.id
  {
    var i :| 0 <= i < |trail| && trail[i] == a;
    var j :| 0 <= j < |trail| && trail[j] == b;
  }

  /** The front of what is left, fetched with one row over. */
  function FrontOf(rest: seq<AuditEvent>, n: nat): Page<AuditEvent> {
    ToPage(if |rest| > n + 1 then rest[..n + 1] else rest, n, PositionOf)
  }

  function PageOf(trail: seq<AuditEvent>, q: Filter, limit: Option<int>, cursor: Option<Token>): Page<AuditEvent> {
    FrontOf(Rest(trail, q, KeysetPosition(DecodeCursor(cursor))), PageLimit(limit))
  }

  /** What the database answers to some conditions, in the trail's order. */
  function Answered(trail: seq<AuditEvent>, query: seq<Condition>): seq<AuditEvent> {
    Sort(Select(trail, (e: AuditEvent) => AllHold(query, e)), Newest())
  }

  lemma {:induction false} AnsweredIsRest(trail: seq<AuditEvent>, query: seq<Condition>, q: Filter, from: Option<Position>)
    requires forall e: AuditEvent {:trigger AllHold(query, e)} :: AllHold(query, e) <==> Matches(q, e) && Follows(e, from)
    ensures Answered(trail, query) == Rest(trail, q, from)
  {
    SelectSame(trail, (e: AuditEvent) => AllHold(query, e), Asked(q, from));
  }

  /** `pageAuditEvents`. */
  method PageAuditEvents(trail: seq<AuditEvent>, q: Filter, limit: Option<int>, cursor: Option<Token>)
    returns (page: Page<AuditEvent>)
    ensures page == PageOf(trail, q, limit, cursor)
  {
    var n, position := PageLimit(limit), KeysetPosition(DecodeCursor(cursor));
    var query := AuditEventQuery(q);
    if position.Some? { query := Where(query, After(position.value.sort, position.value.id)); }
    var rows := Answered(trail, query);
    AnsweredIsRest(trail, query, q, position);
    page := FrontOf(rows, n);
  }

  // -------------------- a walk over a fixed trail --------------------

  /** Two descending sequences of the same events are one. */
  lemma {:induction false} DescendingUnique(xs: seq<AuditEvent>, ys: seq<AuditEvent>)
    requires Descending(xs) && Descending(ys)
    requires forall e :: e in xs <==> e in ys
    ensures xs == ys
  {
    assert |xs| > 0 ==> xs[0] in ys;
    assert |ys| > 0 ==> ys[0] in xs;
    if xs != [] {
      assert xs[0] == ys[0];
      assert xs == [xs[0]] + xs[1..] && ys == [ys[0]] + ys[1..];
      forall e ensures e in xs[1..] <==> e in ys[1..] {
        if e in xs[1..] { assert Newer(xs[0], e) && e in ys; }
        if e in ys[1..] { assert Newer(ys[0], e) && e in xs; }
      }
      DescendingUnique(xs[1..], ys[1..]);
    }
  }

  /** The tail of a descending sequence is what is older than the last before it. */
  lemma TailIsOlder(events: seq<AuditEvent>, n: nat, e: AuditEvent)
    requires Descending(events) && 1 <= n <= |events|
    ensures e in events[n..] <==> e in events && Newer(events[n-1], e)
  {
    if e in events {
      var i :| 0 <= i < |events| && events[i] == e;
      if i >= n { assert events[n..][i - n] == e; }
      assert i < n - 1 ==> Newer(events[i], events[n-1]);
    }
  }

  /** Past a position it held, what is left is the tail behind it. */
  lemma RestAfter(trail: seq<AuditEvent>, q: Filter, from: Option<Position>, n: nat)
    requires UniqueIds(trail) && 1 <= n <= |Rest(trail, q, from)|
    ensures Rest(trail, q, Some(PositionOf(Rest(trail, q, from)[n-1]))) == Rest(trail, q, from)[n..]
  {
    var rest := Rest(trail, q, from);
    var next := Some(PositionOf(rest[n-1]));
    RestIs(trail, q, from);
    RestIs(trail, q, next);
    assert Follows(rest[n-1], from) by { assert rest[n-1] in rest; }
    forall e ensures e in Rest(trail, q, next) <==> e in rest[n..] {
      FollowsIsOlder(rest[n-1], e);
      TailIsOlder(rest, n, e);
    }
    DescendingUnique(Rest(trail, q, next), rest[n..]);
  }

  lemma Fetched(rest: seq<AuditEvent>, n: nat)
    requires n >= 1
    ensures var page := FrontOf(rest, n);
            if page.nextCursor.None? then page.items == rest
            else
              && |rest| > n && page.items == rest[..n]
              && KeysetPosition(DecodeCursor(page.nextCursor)) == Some(PositionOf(rest[n-1]))
              && rest == page.items + rest[n..]
  {
    if |rest| > n { assert rest == rest[..n] + rest[n..]; }
  }

  /** A page is the front of what is left, and its cursor leaves the tail behind it, if there is one. */
  lemma PageSplits(trail: seq<AuditEvent>, q: Filter, limit: Option<int>, cursor: Option<Token>)
    requires UniqueIds(trail)
    ensures var from := KeysetPosition(DecodeCursor(cursor));
            var page, rest := PageOf(trail, q, limit, cursor), Rest(trail, q, from);
            if page.nextCursor.None? then page.items == rest
            else
              var next := KeysetPosition(DecodeCursor(page.nextCursor));
              && page.items != [] && next == Some(PositionOf(page.items[|page.items|-1]))
              && rest == page.items + Rest(trail, q, next)
  {
    var from, n := KeysetPosition(DecodeCursor(cursor)), PageLimit(limit);
    Fetched(Rest(trail, q, from), n);
    if PageOf(trail, q, limit, cursor).nextCursor.Some? { RestAfter(trail, q, from, n); }
  }

  /** A page holds events after its cursor, newest first, and skips none: what it leaves out is after the next cursor. */
  lemma OnePage(trail: seq<AuditEvent>, q: Filter, limit: Option<int>, cursor: Option<Token>)
    requires UniqueIds(trail)
    ensures var from := KeysetPosition(DecodeCursor(cursor));
            var page := PageOf(trail, q, limit, cursor);
            var next := KeysetPosition(DecodeCursor(page.nextCursor));
            && Descending(page.items)
            && (forall e | e in page.items :: e in trail && Matches(q, e) && Follows(e, from))
            && (forall e | e in trail && Matches(q, e) && Follows(e, from) ::
                  e in page.items || (page.nextCursor.Some? && Follows(e, next)))
            && (page.nextCursor.Some? ==> page.items != [] && next == Some(PositionOf(page.items[|page.items|-1])))
  {
    var from, page := KeysetPosition(DecodeCursor(cursor)), PageOf(trail, q, limit, cursor);
    var next := KeysetPosition(DecodeCursor(page.nextCursor));
    PageSplits(trail, q, limit, cursor);
    RestIs(trail, q, from);
    RestIs(trail, q, next);
    var rest := Rest(trail, q, from);
    assert page.items <= rest;
    forall e | e in page.items ensures e in rest { }
  }

  /**
   Following the cursor on a trail nobody appends to ends, since every page leaves fewer rows behind its cursor, and
   returns every matching event once, newest first: the unpaged answer.
   */
  function FollowCursor(trail: seq<AuditEvent>, q: Filter, limit: Option<int>, cursor: Option<Token>): (events: seq<AuditEvent>)
    requires UniqueIds(trail)
    ensures events == Rest(trail, q, KeysetPosition(DecodeCursor(cursor)))
    decreases |Rest(trail, q, KeysetPosition(DecodeCursor(cursor)))|
  {
    var page := PageOf(trail, q, limit, cursor);
    PageSplits(trail, q, limit, cursor);
    if page.nextCursor.None? then page.items else page.items + FollowCursor(trail, q, limit, page.nextCursor)
  }

  // -------------------- a walk over a growing trail --------------------

  /** The cursor the `k`-th page of a walk was asked with. */
  function CursorAt(pages: seq<Page<AuditEvent>>, k: nat): Option<Token>
    requires k <= |pages|
  {
    if k == 0 then None else pages[k-1].nextCursor
  }

  function StartOf(pages: seq<Page<AuditEvent>>, k: nat): Option<Position>
    requires k <= |pages|
  {
    KeysetPosition(DecodeCursor(CursorAt(pages, k)))
  }

  /** The `k`-th page is the one read from the trail as it was then, from the cursor of the page before. */
  predicate ReadInTurn(trails: seq<seq<AuditEvent>>, q: Filter, limits: seq<Option<int>>, pages: seq<Page<AuditEvent>>, k: nat)
    requires k < |trails| == |limits| == |pages|
  {
    pages[k] == PageOf(trails[k], q, limits[k], CursorAt(pages, k))
  }

  /** Pages read one after another, each from the cursor of the last, while the trail is only ever appended to. */
  ghost predicate Walk(trails: seq<seq<AuditEvent>>, q: Filter, limits: seq<Option<int>>, pages: seq<Page<AuditEvent>>) {
    && |trails| == |limits| == |pages| > 0
    && (forall k | 0 <= k < |trails| :: UniqueIds(trails[k]))
    && (forall j, k | 0 <= j <= k < |trails| :: trails[j] <= trails[k])
    && (forall k {:trigger ReadInTurn(trails, q, limits, pages, k)} | 0 <= k < |pages| :: ReadInTurn(trails, q, limits, pages, k))
    && (forall k | 0 <= k < |pages| - 1 :: pages[k].nextCursor.Some?)
  }

  function Items(pages: seq<Page<AuditEvent>>): seq<AuditEvent> {
    if pages == [] then [] else Items(pages[..|pages|-1]) + pages[|pages|-1].items
  }

  /** The event was there, and after the cursor, when the `k`-th page was read. */
  predicate Within(trails: seq<seq<AuditEvent>>, q: Filter, pages: seq<Page<AuditEvent>>, k: nat, e: AuditEvent)
    requires k < |trails| == |pages|
  {
    e in trails[k] && Matches(q, e) && Follows(e, StartOf(pages, k))
  }

  lemma PageIs(trails: seq<seq<AuditEvent>>, q: Filter, limits: seq<Option<int>>, pages: seq<Page<AuditEvent>>, k: nat)
    requires Walk(trails, q, limits, pages) && k < |pages|
    ensures Descending(pages[k].items)
    ensures forall e | e in pages[k].items :: Within(trails, q, pages, k, e)
    ensures forall e | Within(trails, q, pages, k, e) ::
              e in pages[k].items || (pages[k].nextCursor.Some? && Follows(e, StartOf(pages, k + 1)))
    ensures pages[k].nextCursor.Some? ==>
              pages[k].items != [] && StartOf(pages, k + 1) == Some(PositionOf(pages[k].items[|pages[k].items|-1]))
  {
    assert ReadInTurn(trails, q, limits, pages, k);
    OnePage(trails[k], q, limits[k], CursorAt(pages, k));
  }

  lemma DescendingJoin(xs: seq<AuditEvent>, ys: seq<AuditEvent>)
    requires Descending(xs) && Descending(ys)
    requires xs == [] || forall e | e in ys :: Newer(xs[|xs|-1], e)
    ensures Descending(xs + ys)
  {
    forall i, j | 0 <= i < |xs| && 0 <= j < |ys| ensures Newer(xs[i], ys[j]) {
      assert ys[j] in ys;
      assert i == |xs| - 1 || Newer(xs[i], xs[|xs|-1]);
    }
  }

  lemma {:induction false} WalkSoFar(trails: seq<seq<AuditEvent>>, q: Filter, limits: seq<Option<int>>, pages: seq<Page<AuditEvent>>, n: nat)
    requires Walk(trails, q, limits, pages) && 1 <= n <= |pages|
    ensures Descending(Items(pages[..n]))
    ensures forall e | e in Items(pages[..n]) :: exists k :: 0 <= k < n && Within(trails, q, pages, k, e)
    ensures forall k, e | 0 <= k < n && Within(trails, q, pages, k, e) ::
              e in Items(pages[..n]) || (pages[n-1].nextCursor.Some? && Follows(e, StartOf(pages, n)))
    ensures pages[n-1].nextCursor.Some? ==>
              var items := Items(pages[..n]); items != [] && StartOf(pages, n) == Some(PositionOf(items[|items|-1]))
  {
    var before, page := Items(pages[..n-1]), pages[n-1].items;
    assert pages[..n][..n-1] == pages[..n-1];
    assert Items(pages[..n]) == before + page;
    PageIs(trails, q, limits, pages, n - 1);
    if n > 1 {
      WalkSoFar(trails, q, limits, pages, n - 1);
      forall e | e in page ensures Newer(before[|before|-1], e) {
        FollowsIsOlder(before[|before|-1], e);
      }
      forall k, e | 0 <= k < n && Within(trails, q, pages, k, e)
        ensures e in before + page || (pages[n-1].nextCursor.Some? && Follows(e, StartOf(pages, n)))
      {
        if k < n - 1 && e !in before { assert Within(trails, q, pages, n - 1, e); }
      }
    }
    DescendingJoin(before, page);
  }

  /**
   A walk followed to its end returns, strictly newest first and so never twice, exactly the events that were there and
   still after the cursor when some page was read: every matching event present at the start, and of those appended on
   the way the ones the walk had not passed, whatever the page sizes.
   */
  lemma WalkExact(trails: seq<seq<AuditEvent>>, q: Filter, limits: seq<Option<int>>, pages: seq<Page<AuditEvent>>)
    requires Walk(trails, q, limits, pages) && pages[|pages|-1].nextCursor == None
    ensures Descending(Items(pages))
    ensures forall e :: e in Items(pages) <==> exists k :: 0 <= k < |pages| && Within(trails, q, pages, k, e)
    ensures forall e | e in trails[0] && Matches(q, e) :: e in Items(pages)
  {
    WalkSoFar(trails, q, limits, pages, |pages|);
    assert pages[..|pages|] == pages;
    forall e | e in trails[0] && Matches(q, e) ensures e in Items(pages) { WithinFirst(trails, q, pages, e); }
  }

  /** Everything that matches is within the first page's reach. */
  lemma WithinFirst(trails: seq<seq<AuditEvent>>, q: Filter, pages: seq<Page<AuditEvent>>, e: AuditEvent)
    requires 0 < |trails| == |pages| && e in trails[0] && Matches(q, e)
    ensures Within(trails, q, pages, 0, e)
  {
  }
}
