/** The reach statement's answer: reached calls grouped per called path, folded per group, and what that counts. */
module ReachAnswer {
  import opened Options
  import opened AuditTrail
  import opened Strings
  import opened Sorting
  import opened RoutePattern
  import opened ReachFold
  import opened ReachCalls

  // -------------------- the group --------------------

  function KeepRoute(reached: seq<Reached>, route: Option<string>): seq<Reached> {
    if route.None? || reached == [] then reached
    else KeepRoute(reached[..|reached|-1], route) + if reached[|reached|-1].key.route == route.value then [reached[|reached|-1]] else []
  }

  /** Counted into its group's row, or a row of its own. */
  function Counted(rows: seq<StatementRow>, r: Reached): seq<StatementRow> {
    if rows == [] then [StatementRow(r.key, r.path, 1, r.params, r.occurredAt, r.occurredAt)]
    else
      var init, last := rows[..|rows|-1], rows[|rows|-1];
      if last.key == r.key && last.path == r.path then
        init + [StatementRow(r.key, r.path, last.count + 1, if last.params < r.params then r.params else last.params,
                             Min(last.firstAt, r.occurredAt), Max(last.lastAt, r.occurredAt))]
      else Counted(init, r) + [last]
  }

  function Grouped(reached: seq<Reached>): seq<StatementRow> {
    if reached == [] then [] else Counted(Grouped(reached[..|reached|-1]), reached[|reached|-1])
  }

  /** The statement. */
  function Statement(trail: seq<AuditEvent>, f: Filter, patterns: seq<Pattern>): seq<StatementRow> {
    var rows := Rows(trail, f);
    CallsHavePaths(rows, f);
    Grouped(KeepRoute(AllReached(trail, patterns, Calls(rows, f)), f.route))
  }

  // -------------------- what the statement counts --------------------

  /** The reached rows of one group. */
  function InGroup(reached: seq<Reached>, key: GroupKey): seq<Reached> {
    if reached == [] then []
    else InGroup(reached[..|reached|-1], key) + if reached[|reached|-1].key == key then [reached[|reached|-1]] else []
  }

  function Earliest(reached: seq<Reached>): int
    requires reached != []
  {
    var last := reached[|reached|-1].occurredAt;
    if |reached| == 1 then last else Min(Earliest(reached[..|reached|-1]), last)
  }

  function Latest(reached: seq<Reached>): int
    requires reached != []
  {
    var last := reached[|reached|-1].occurredAt;
    if |reached| == 1 then last else Max(Latest(reached[..|reached|-1]), last)
  }

  /** The group's rows count exactly the group's reached rows, between the earliest and the latest of them. */
  predicate Counts(rows: seq<StatementRow>, reached: seq<Reached>) {
    && CountOf(rows) == |reached|
    && (rows == [] <==> reached == [])
    && (rows != [] ==> FirstOf(rows) == Earliest(reached) && LastOf(rows) == Latest(reached))
  }

  /** Counting one more reached row into some rows: into one of them, or beside them, it is counted once. */
  lemma {:induction false} CountedOnce(rows: seq<StatementRow>, r: Reached)
    ensures CountOf(Counted(rows, r)) == CountOf(rows) + 1
    ensures Counted(rows, r) != []
    ensures FirstOf(Counted(rows, r)) == if rows == [] then r.occurredAt else Min(FirstOf(rows), r.occurredAt)
    ensures LastOf(Counted(rows, r)) == if rows == [] then r.occurredAt else Max(LastOf(rows), r.occurredAt)
  {
    if rows == [] {
      assert Counted(rows, r)[..0] == [];
    } else {
      var init, last, counted := rows[..|rows|-1], rows[|rows|-1], Counted(rows, r);
      if last.key == r.key && last.path == r.path {
        assert counted[..|counted|-1] == init;
      } else {
        CountedOnce(init, r);
        assert counted[..|counted|-1] == Counted(init, r);
      }
    }
  }

  lemma OfLast(init: seq<StatementRow>, last: StatementRow, key: GroupKey)
    ensures Of(init + [last], key) == Of(init, key) + if last.key == key then [last] else []
  {
    assert (init + [last])[..|init|] == init;
  }

  lemma CountedLast(init: seq<StatementRow>, last: StatementRow, r: Reached)
    requires last.key != r.key || last.path != r.path
    ensures Counted(init + [last], r) == Counted(init, r) + [last]
  {
    assert (init + [last])[..|init|] == init;
  }

  lemma CountedBeside(init: seq<StatementRow>, last: StatementRow, r: Reached, key: GroupKey)
    requires last.key != r.key || last.path != r.path
    requires Of(Counted(init, r), key) == if r.key == key then Counted(Of(init, key), r) else Of(init, key)
    ensures Of(Counted(init, r) + [last], key) == if r.key == key then Counted(Of(init + [last], key), r) else Of(init + [last], key)
  {
    OfLast(Counted(init, r), last, key);
    OfLast(init, last, key);
    if last.key == key {
      if r.key == key { CountedLast(Of(init, key), last, r); }
    } else {
      assert Of(init, key) + [] == Of(init, key);
    }
  }

  /** Counting a row touches only its own group. */
  lemma {:induction false} CountedOf(rows: seq<StatementRow>, r: Reached, key: GroupKey)
    ensures Of(Counted(rows, r), key) == if r.key == key then Counted(Of(rows, key), r) else Of(rows, key)
  {
    if rows == [] {
      OfLast([], Counted(rows, r)[0], key);
    } else {
      var init, last := rows[..|rows|-1], rows[|rows|-1];
      assert rows == init + [last];
      if last.key == r.key && last.path == r.path {
        OfLast(init, last, key);
        OfLast(init, Counted(rows, r)[|init|], key);
        if r.key == key {
          var mine := Of(init, key) + [last];
          assert mine[..|mine|-1] == Of(init, key);
        }
      } else {
        CountedOf(init, r, key);
        CountedBeside(init, last, r, key);
      }
    }
  }

  /** Rows that count a group go on counting it, one more reached row counted in. */
  lemma CountsMore(rows: seq<StatementRow>, reached: seq<Reached>, last: Reached)
    requires Counts(rows, reached)
    ensures Counts(Counted(rows, last), reached + [last])
  {
    CountedOnce(rows, last);
    assert (reached + [last])[..|reached|] == reached;
  }

  lemma {:induction false} GroupedCounts(reached: seq<Reached>, key: GroupKey)
    ensures Counts(Of(Grouped(reached), key), InGroup(reached, key))
  {
    if reached != [] {
      var init, last := reached[..|reached|-1], reached[|reached|-1];
      GroupedCounts(init, key);
      CountedOf(Grouped(init), last, key);
      if last.key == key {
        CountsMore(Of(Grouped(init), key), InGroup(init, key), last);
      } else {
        assert InGroup(reached, key) == InGroup(init, key);
      }
    }
  }

  lemma {:induction false} GroupedTotal(reached: seq<Reached>)
    ensures CountOf(Grouped(reached)) == |reached|
  {
    if reached != [] {
      GroupedTotal(reached[..|reached|-1]);
      CountedOnce(Grouped(reached[..|reached|-1]), reached[|reached|-1]);
    }
  }

  /** A read narrowed to a route keeps the route's groups whole, and no other. */
  lemma {:induction false} KeptGroup(reached: seq<Reached>, route: Option<string>, key: GroupKey)
    ensures InGroup(KeepRoute(reached, route), key) == if route.Some? && key.route != route.value then [] else InGroup(reached, key)
  {
    if reached != [] && route.Some? {
      var init, last := reached[..|reached|-1], reached[|reached|-1];
      KeptGroup(init, route, key);
      assert InGroup(init, key) + [] == InGroup(init, key);
      if last.key.route == route.value {
        assert (KeepRoute(init, route) + [last])[..|KeepRoute(init, route)|] == KeepRoute(init, route);
      } else {
        assert KeepRoute(reached, route) == KeepRoute(init, route);
      }
    }
  }

  // -------------------- subjects --------------------

  /** The distinct subjects of some reached rows. */
  function SubjectsReached(reached: seq<Reached>, decode: string -> string): set<SubjectKey> {
    set i | 0 <= i < |reached| :: SubjectKeyAt(reached[i].key.route, reached[i].path, decode)
  }

  /** Rows of one group name every reached row's subject, and carry its route's number of parameters. */
  ghost predicate Names(rows: seq<StatementRow>, reached: seq<Reached>, key: GroupKey, params: nat, decode: string -> string) {
    && (forall i | 0 <= i < |rows| :: rows[i].key == key && rows[i].params == params)
    && SubjectsOf(rows, decode) == SubjectsReached(reached, decode)
  }

  lemma ReachedMore(reached: seq<Reached>, r: Reached, decode: string -> string)
    ensures SubjectsReached(reached + [r], decode) == SubjectsReached(reached, decode) + {SubjectKeyAt(r.key.route, r.path, decode)}
  {
    var more := reached + [r];
    assert SubjectKeyAt(more[|reached|].key.route, more[|reached|].path, decode) in SubjectsReached(more, decode);
    forall i | 0 <= i < |reached| ensures SubjectKeyAt(reached[i].key.route, reached[i].path, decode) in SubjectsReached(more, decode) {
      assert more[i] == reached[i];
    }
  }

  lemma {:induction false} CountedParams(rows: seq<StatementRow>, r: Reached, params: nat)
    requires forall i | 0 <= i < |rows| :: rows[i].key == r.key && rows[i].params == params
    requires r.params == params
    ensures forall i | 0 <= i < |Counted(rows, r)| :: Counted(rows, r)[i].key == r.key && Counted(rows, r)[i].params == params
  {
    if rows != [] { CountedParams(rows[..|rows|-1], r, params); }
  }

  /** Counting a reached row in names its subject, in its path's row or a row of its own. */
  lemma {:induction false} CountedSubjects(rows: seq<StatementRow>, r: Reached, decode: string -> string)
    ensures SubjectsOf(Counted(rows, r), decode) == SubjectsOf(rows, decode) + {SubjectKeyAt(r.key.route, r.path, decode)}
  {
    var counted := Counted(rows, r);
    if rows == [] {
      assert counted == [] + [counted[0]];
      SubjectsMore([], counted[0], decode);
    } else {
      var init, last := rows[..|rows|-1], rows[|rows|-1];
      assert rows == init + [last];
      SubjectsMore(init, last, decode);
      if last.key == r.key && last.path == r.path {
        assert counted == init + [counted[|init|]];
        SubjectsMore(init, counted[|init|], decode);
      } else {
        CountedSubjects(init, r, decode);
        assert counted == Counted(init, r) + [last];
        SubjectsMore(Counted(init, r), last, decode);
      }
    }
  }

  lemma {:induction false} GroupedNames(reached: seq<Reached>, key: GroupKey, params: nat, decode: string -> string)
    requires forall i | 0 <= i < |reached| && reached[i].key == key :: reached[i].params == params
    ensures Names(Of(Grouped(reached), key), InGroup(reached, key), key, params, decode)
  {
    if reached != [] {
      var init, last := reached[..|reached|-1], reached[|reached|-1];
      GroupedNames(init, key, params, decode);
      CountedOf(Grouped(init), last, key);
      if last.key == key {
        CountedParams(Of(Grouped(init), key), last, params);
        CountedSubjects(Of(Grouped(init), key), last, decode);
        ReachedMore(InGroup(init, key), last, decode);
      } else {
        assert InGroup(reached, key) == InGroup(init, key);
      }
    }
  }

  // -------------------- the answer --------------------

  /** The patterns carry the parameters their routes declare, as compiled ones do. */
  predicate Declares(patterns: seq<Pattern>) {
    forall p | p in patterns :: p.params == CountParams(Split(p.pattern))
  }

  lemma RankedDeclares(ordered: seq<Route>)
    ensures Declares(Ranked(ordered))
  {
  }

  /** How many parameters a group's route declares; an unmatched path declares none. */
  function ParamsOf(key: GroupKey): nat {
    if key.matched then CountParams(Split(key.route)) else 0
  }

  lemma {:induction false} ReachedParams(trail: seq<AuditEvent>, patterns: seq<Pattern>, calls: seq<Call>)
    requires Declares(patterns) && forall c | c in calls :: c.row.path.Some?
    ensures forall i | 0 <= i < |AllReached(trail, patterns, calls)| ::
              AllReached(trail, patterns, calls)[i].params == ParamsOf(AllReached(trail, patterns, calls)[i].key)
  {
    if calls != [] { ReachedParams(trail, patterns, calls[..|calls|-1]); }
  }

  lemma {:induction false} KeptParams(reached: seq<Reached>, route: Option<string>)
    requires forall i | 0 <= i < |reached| :: reached[i].params == ParamsOf(reached[i].key)
    ensures forall i | 0 <= i < |KeepRoute(reached, route)| :: KeepRoute(reached, route)[i].params == ParamsOf(KeepRoute(reached, route)[i].key)
  {
    if reached != [] && route.Some? { KeptParams(reached[..|reached|-1], route); }
  }

  /** What one row of the answer says of its group's reached rows. */
  predicate Tells(r: ReachRow, mine: seq<Reached>) {
    mine != [] && r.count == |mine| && r.firstAt == Earliest(mine) && r.lastAt == Latest(mine)
  }

  /** The reached rows a read is of: each of its calls, once per tenant. */
  function ReachedIn(trail: seq<AuditEvent>, f: Filter, patterns: seq<Pattern>): seq<Reached> {
    CallsHavePaths(Rows(trail, f), f);
    AllReached(trail, patterns, Calls(Rows(trail, f), f))
  }

  /**
   The answer counts calls. Every row of it, of a read narrowed to a route or not, counts exactly the calls of its group,
   once per tenant they reached, between the first and the last of them; every group the read asks for has its row; and
   with no route asked for, the counts add up to the total over calls of the distinct tenants each one's handler recorded,
   a call that reached none counting once.
   */
  lemma {:induction false} AnswerCountsCalls(trail: seq<AuditEvent>, f: Filter, patterns: seq<Pattern>, decode: string -> string)
    ensures var reached, out := ReachedIn(trail, f, patterns), Folded(Statement(trail, f, patterns), decode);
            && (forall r | r in out :: (f.route.Some? ==> r.key.route == f.route.value) && Tells(r, InGroup(reached, r.key)))
            && (forall x | x in reached && (f.route.Some? ==> x.key.route == f.route.value) :: exists r :: r in out && r.key == x.key)
            && (f.route.None? ==> Total(out) == CallTotal(trail, RowsOf(Calls(Rows(trail, f), f))))
  {
    var reached := ReachedIn(trail, f, patterns);
    var kept := KeepRoute(reached, f.route);
    assert Grouped(kept) == Statement(trail, f, patterns);
    AnswerRows(reached, f.route, decode);
    FoldExact(Grouped(kept), decode);
    CallsHavePaths(Rows(trail, f), f);
    ReachedTotal(trail, patterns, Calls(Rows(trail, f), f));
    GroupedTotal(kept);
  }

  /** The same of any reached rows. */
  lemma {:induction false} AnswerRows(reached: seq<Reached>, route: Option<string>, decode: string -> string)
    ensures var out := Folded(Grouped(KeepRoute(reached, route)), decode);
            && (forall r | r in out :: (route.Some? ==> r.key.route == route.value) && Tells(r, InGroup(reached, r.key)))
            && (forall x | x in reached && (route.Some? ==> x.key.route == route.value) :: exists r :: r in out && r.key == x.key)
  {
    var kept := KeepRoute(reached, route);
    FoldExact(Grouped(kept), decode);
    forall r | r in Folded(Grouped(kept), decode)
      ensures (route.Some? ==> r.key.route == route.value) && Tells(r, InGroup(reached, r.key))
    {
      GroupedCounts(kept, r.key);
      KeptGroup(reached, route, r.key);
    }
    forall x | x in reached && (route.Some? ==> x.key.route == route.value)
      ensures exists r :: r in Folded(Grouped(kept), decode) && r.key == x.key
    {
      var row := AnswerHas(reached, route, x);
    }
  }

  lemma {:induction false} AnswerHas(reached: seq<Reached>, route: Option<string>, x: Reached) returns (row: StatementRow)
    requires x in reached && (route.Some? ==> x.key.route == route.value)
    ensures row in Grouped(KeepRoute(reached, route)) && row.key == x.key
  {
    var rows := Grouped(KeepRoute(reached, route));
    KeptGroup(reached, route, x.key);
    GroupHolds(reached, x);
    GroupedCounts(KeepRoute(reached, route), x.key);
    KeysHaveRows(rows, x.key);
    row := Of(rows, x.key)[0];
  }

  lemma {:induction false} GroupHolds(reached: seq<Reached>, x: Reached)
    requires x in reached
    ensures InGroup(reached, x.key) != []
  {
    var last := reached[|reached|-1];
    if last.key != x.key {
      assert reached == reached[..|reached|-1] + [last];
      GroupHolds(reached[..|reached|-1], x);
    }
  }

  /**
   The answer counts subjects: of a matched route with parameters, the distinct subjects of the group's calls; of one with
   none, 0; of a path no route matched, nothing.
   */
  lemma {:induction false} AnswerCountsSubjects(trail: seq<AuditEvent>, f: Filter, patterns: seq<Pattern>, decode: string -> string)
    requires Declares(patterns)
    ensures var reached, out := ReachedIn(trail, f, patterns), Folded(Statement(trail, f, patterns), decode);
            forall r | r in out ::
              r.subjects == if !r.key.matched then None
                            else Some(if ParamsOf(r.key) > 0 then |SubjectsReached(InGroup(reached, r.key), decode)| else 0)
  {
    var reached := ReachedIn(trail, f, patterns);
    var kept := KeepRoute(reached, f.route);
    var rows := Grouped(kept);
    assert rows == Statement(trail, f, patterns);
    FoldExact(rows, decode);
    CallsHavePaths(Rows(trail, f), f);
    ReachedParams(trail, patterns, Calls(Rows(trail, f), f));
    KeptParams(reached, f.route);
    forall r | r in Folded(rows, decode)
      ensures r.subjects == if !r.key.matched then None
                            else Some(if ParamsOf(r.key) > 0 then |SubjectsReached(InGroup(reached, r.key), decode)| else 0)
    {
      GroupedNames(kept, r.key, ParamsOf(r.key), decode);
      GroupedCounts(kept, r.key);
      KeptGroup(reached, f.route, r.key);
    }
  }

  /** Asked for every key and route, of a trail where no refusal has two gate rows, the total is over each call once. */
  lemma {:induction false} AnswerCountsEachCallOnce(trail: seq<AuditEvent>, f: Filter, patterns: seq<Pattern>, decode: string -> string)
    requires f.route == None && f.keyId == None
    requires NoTwoGates(Rows(trail, f))
    ensures var rows := Rows(trail, f);
            Total(Folded(Statement(trail, f, patterns), decode)) == CallTotal(trail, CallRows(rows, |rows|))
  {
    AnswerCountsCalls(trail, f, patterns, decode);
    PairingExact(Rows(trail, f));
  }
}
