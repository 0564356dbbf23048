/**
 The reach statement, step by step: the call rows, one row per call, the route each call is, and the tenants it
 reached.
 */
module ReachCalls {
  import opened Options
  import opened AuditTrail
  import opened Strings
  import opened Sorting
  import opened RoutePattern
  import opened ReachFold

  datatype Filter = Filter(connectionId: string, since: int, until: int, keyId: Option<string>, route: Option<string>)

  const ALLOWED := "controlplane/call_allowed"
  const DENIED := "controlplane/call_denied"
  const CONNECTION_RESOURCE := "controlplane_connection"
  const CONTROL_PLANE := "control-plane"

  function Coalesce(a: Option<string>, b: Option<string>): Option<string> {
    if a.Some? then a else b
  }

  // -------------------- rows --------------------

  predicate IsRow(e: AuditEvent, f: Filter) {
    && (e.action == ALLOWED || e.action == DENIED)
    && e.resourceId == Some(f.connectionId)
    && f.since <= e.occurredAt <= f.until
    && e.resourceType == Some(CONNECTION_RESOURCE)
    && e.path.Some?
  }

  function Rows(trail: seq<AuditEvent>, f: Filter): (rows: seq<AuditEvent>)
    ensures forall r :: multiset(rows)[r] ==
                        if (r.action == "controlplane/call_allowed" || r.action == "controlplane/call_denied")
                           && r.resourceId == Some(f.connectionId) && r.resourceType == Some("controlplane_connection")
                           && f.since <= r.occurredAt && r.occurredAt <= f.until && r.path.Some?
                        then multiset(trail)[r] else 0
    ensures forall r :: r in rows <==> r in trail && IsRow(r, f)
  {
    if trail == [] then []
    else
      assert trail == trail[..|trail|-1] + [trail[|trail|-1]];
      Rows(trail[..|trail|-1], f) + if IsRow(trail[|trail|-1], f) then [trail[|trail|-1]] else []
  }

  // -------------------- calls --------------------

  /** One call wrote both rows: all four of the columns that identify it are there and equal. */
  predicate SameCall(a: AuditEvent, b: AuditEvent) {
    SqlEq(a.requestId, b.requestId) && SqlEq(a.actorId, b.actorId) && a.verb == b.verb && SqlEq(a.path, b.path)
  }

  /** The admissions that were a refusal's way past the gate. */
  function Gates(rows: seq<AuditEvent>, call: AuditEvent): seq<AuditEvent> {
    if rows == [] then []
    else
      var last := rows[|rows|-1];
      Gates(rows[..|rows|-1], call) + if call.action == DENIED && last.action == ALLOWED && SameCall(last, call) then [last] else []
  }

  /** Some refusal among the rows is of the call. */
  predicate Refused(rows: seq<AuditEvent>, call: AuditEvent) {
    rows != [] && (Refused(rows[..|rows|-1], call) || (rows[|rows|-1].action == DENIED && SameCall(rows[|rows|-1], call)))
  }

  /** A row is refused exactly when a refusal among the rows has its request, actor, method and path, none of them null. */
  lemma {:induction false} RefusedExact(rows: seq<AuditEvent>, call: AuditEvent)
    ensures Refused(rows, call) <==>
            exists r :: r in rows && r.action == "controlplane/call_denied"
                        && r.requestId.Some? && r.requestId == call.requestId && r.actorId.Some? && r.actorId == call.actorId
                        && r.verb == call.verb && r.path.Some? && r.path == call.path
  {
    if rows != [] {
      RefusedExact(rows[..|rows|-1], call);
      assert forall r :: r in rows <==> r in rows[..|rows|-1] || r == rows[|rows|-1];
    }
  }

  /** A refusal's gates are exactly the admissions of its request, actor, method and path, none of them null; nothing else has any. */
  lemma {:induction false} GatesExact(rows: seq<AuditEvent>, call: AuditEvent, r: AuditEvent)
    ensures multiset(Gates(rows, call))[r] ==
            if call.action == "controlplane/call_denied" && r.action == "controlplane/call_allowed"
               && r.requestId.Some? && r.requestId == call.requestId && r.actorId.Some? && r.actorId == call.actorId
               && r.verb == call.verb && r.path.Some? && r.path == call.path
            then multiset(rows)[r] else 0
  {
    if rows != [] {
      GatesExact(rows[..|rows|-1], call, r);
      assert rows == rows[..|rows|-1] + [rows[|rows|-1]];
    }
  }

  /** A row with no request id or no actor, as off Cloudflare, pairs with nothing: it has no gate, no refusal, and is a call by itself. */
  lemma {:induction false} NullPairsWithNothing(rows: seq<AuditEvent>, row: AuditEvent)
    requires row.requestId == None || row.actorId == None
    ensures Gates(rows, row) == [] && !Refused(rows, row) && IsCall(rows, row)
    ensures forall other :: row !in Gates(rows, other)
  {
    RefusedExact(rows, row);
    NoneSame(rows, row);
    forall other ensures row !in Gates(rows, other) { GatesExact(rows, other, row); }
  }

  /** One row of the join: a call row, beside the gate row it took its missing scope and key from. */
  datatype Call = Call(row: AuditEvent, scope: Option<string>, keyId: Option<string>)

  /** A left join: one row per gate, or one with none. */
  function Joined(row: AuditEvent, gates: seq<AuditEvent>): (joined: seq<Call>)
    ensures |joined| == if gates == [] then 1 else |gates|
    ensures forall i | 0 <= i < |joined| :: joined[i].row == row
  {
    if gates == [] then [Call(row, row.scope, row.keyId)]
    else seq(|gates|, i requires 0 <= i < |gates| => Call(row, Coalesce(row.scope, gates[i].scope), Coalesce(row.keyId, gates[i].keyId)))
  }

  /** What stands for a call: every refusal, and each admission that no refusal is of. */
  predicate IsCall(rows: seq<AuditEvent>, row: AuditEvent) {
    row.action == DENIED || !Refused(rows, row)
  }

  function KeepKey(calls: seq<Call>, keyId: Option<string>): seq<Call> {
    if keyId.None? || calls == [] then calls
    else KeepKey(calls[..|calls|-1], keyId) + if calls[|calls|-1].keyId == keyId then [calls[|calls|-1]] else []
  }

  /** The joined rows of the first `n` rows. */
  function CallsOf(rows: seq<AuditEvent>, n: nat): seq<Call>
    requires n <= |rows|
  {
    if n == 0 then []
    else CallsOf(rows, n - 1) + if IsCall(rows, rows[n-1]) then Joined(rows[n-1], Gates(rows, rows[n-1])) else []
  }

  function Calls(rows: seq<AuditEvent>, f: Filter): seq<Call> {
    KeepKey(CallsOf(rows, |rows|), f.keyId)
  }

  /** The rows that stand for a call, each once. */
  function CallRows(rows: seq<AuditEvent>, n: nat): seq<AuditEvent>
    requires n <= |rows|
  {
    if n == 0 then []
    else CallRows(rows, n - 1) + if IsCall(rows, rows[n-1]) then [rows[n-1]] else []
  }

  function RowsOf(calls: seq<Call>): (rows: seq<AuditEvent>)
    ensures |rows| == |calls|
  {
    seq(|calls|, i requires 0 <= i < |calls| => calls[i].row)
  }

  lemma RowsOfMore(calls: seq<Call>, more: seq<Call>)
    ensures RowsOf(calls + more) == RowsOf(calls) + RowsOf(more)
  {
  }

  /** No refusal among the first `n` rows has two gate rows. */
  predicate OneGatePerRefusal(rows: seq<AuditEvent>, n: nat)
    requires n <= |rows|
  {
    forall i | 0 <= i < n && rows[i].action == DENIED :: |Gates(rows, rows[i])| <= 1
  }

  lemma JoinedRows(row: AuditEvent, gates: seq<AuditEvent>)
    ensures |RowsOf(Joined(row, gates))| == if gates == [] then 1 else |gates|
    ensures forall i | 0 <= i < |RowsOf(Joined(row, gates))| :: RowsOf(Joined(row, gates))[i] == row
  {
  }

  lemma OneGateStep(rows: seq<AuditEvent>, n: nat)
    requires n < |rows|
    ensures OneGatePerRefusal(rows, n + 1) <==> OneGatePerRefusal(rows, n) && |Gates(rows, rows[n])| <= 1
  {
    NoGates(rows, rows[n]);
  }

  lemma PairingStep(before: seq<Call>, kept: seq<AuditEvent>, row: AuditEvent, gates: seq<AuditEvent>)
    requires |before| >= |kept|
    ensures RowsOf(before + Joined(row, gates)) == kept + [row] <==> RowsOf(before) == kept && |gates| <= 1
  {
    JoinedRows(row, gates);
    RowsOfMore(before, Joined(row, gates));
    OneMore(RowsOf(before), kept, RowsOf(Joined(row, gates)), row);
  }

  /** One row more: its joined rows beside it, or, where it is no call, neither. */
  lemma CallsMore(rows: seq<AuditEvent>, n: nat) returns (joined: seq<Call>, row: seq<AuditEvent>)
    requires n < |rows|
    ensures CallsOf(rows, n + 1) == CallsOf(rows, n) + joined && CallRows(rows, n + 1) == CallRows(rows, n) + row
    ensures if row == [] then joined == [] && Gates(rows, rows[n]) == []
            else row == [rows[n]] && joined == Joined(rows[n], Gates(rows, rows[n]))
  {
    if IsCall(rows, rows[n]) {
      joined, row := Joined(rows[n], Gates(rows, rows[n])), [rows[n]];
    } else {
      joined, row := [], [];
      NoGates(rows, rows[n]);
    }
  }

  lemma PairingMore(before: seq<Call>, kept: seq<AuditEvent>, joined: seq<Call>, row: seq<AuditEvent>, call: AuditEvent, gates: seq<AuditEvent>, paired: bool)
    requires |before| >= |kept| && (RowsOf(before) == kept <==> paired)
    requires if row == [] then joined == [] && gates == [] else row == [call] && joined == Joined(call, gates)
    ensures |before + joined| >= |kept + row|
    ensures RowsOf(before + joined) == kept + row <==> paired && |gates| <= 1
  {
    if row == [] {
      assert before + joined == before && kept + row == kept;
    } else {
      PairingStep(before, kept, call, gates);
    }
  }

  lemma {:induction false} PairingPrefix(rows: seq<AuditEvent>, n: nat)
    requires n <= |rows|
    ensures |CallsOf(rows, n)| >= |CallRows(rows, n)|
    ensures RowsOf(CallsOf(rows, n)) == CallRows(rows, n) <==> OneGatePerRefusal(rows, n)
  {
    if n > 0 {
      PairingPrefix(rows, n - 1);
      OneGateStep(rows, n - 1);
      var joined, row := CallsMore(rows, n - 1);
      PairingMore(CallsOf(rows, n - 1), CallRows(rows, n - 1), joined, row, rows[n-1], Gates(rows, rows[n-1]), OneGatePerRefusal(rows, n - 1));
    }
  }

  /** Appending a run of one row to the longer of two sequences keeps them equal only when the run is that one row. */
  lemma OneMore<T>(xs: seq<T>, ys: seq<T>, run: seq<T>, y: T)
    requires |xs| >= |ys| && run != [] && forall i | 0 <= i < |run| :: run[i] == y
    ensures xs + run == ys + [y] <==> xs == ys && |run| == 1
  {
    if xs + run == ys + [y] {
      assert xs == (xs + run)[..|xs|];
      assert ys == (ys + [y])[..|ys|];
    }
    if |run| == 1 { assert run == [y]; }
  }

  lemma {:induction false} NoGates(rows: seq<AuditEvent>, row: AuditEvent)
    ensures row.action != DENIED ==> Gates(rows, row) == []
  {
    if rows != [] { NoGates(rows[..|rows|-1], row); }
  }

  /** The row is of this request, actor, method and path. */
  predicate Identified(e: AuditEvent, request: string, actor: string, verb: string, path: string) {
    e.requestId == Some(request) && e.actorId == Some(actor) && e.verb == verb && e.path == Some(path)
  }

  /** The row has the call's request, actor, method and path, none of them null. */
  predicate Pairs(e: AuditEvent, call: AuditEvent) {
    call.requestId.Some? && call.actorId.Some? && call.path.Some?
    && Identified(e, call.requestId.value, call.actorId.value, call.verb, call.path.value)
  }

  /** Two admissions among the rows pair with the refusal. */
  predicate TwoGates(rows: seq<AuditEvent>, refusal: AuditEvent) {
    exists i, j :: 0 <= i < j < |rows| && rows[i].action == rows[j].action == "controlplane/call_allowed"
                   && Pairs(rows[i], refusal) && Pairs(rows[j], refusal)
  }

  predicate NoTwoGates(rows: seq<AuditEvent>) {
    forall i | 0 <= i < |rows| && rows[i].action == "controlplane/call_denied" :: !TwoGates(rows, rows[i])
  }

  lemma TwoGatesMore(rows: seq<AuditEvent>, last: AuditEvent, call: AuditEvent)
    ensures TwoGates(rows + [last], call) <==>
            TwoGates(rows, call) || (last.action == ALLOWED && Pairs(last, call) && exists r :: r in rows && r.action == ALLOWED && Pairs(r, call))
  {
    var more := rows + [last];
    if TwoGates(rows, call) {
      var i, j :| 0 <= i < j < |rows| && rows[i].action == rows[j].action == ALLOWED && Pairs(rows[i], call) && Pairs(rows[j], call);
      assert Pairs(more[i], call) && Pairs(more[j], call);
    }
    if last.action == ALLOWED && Pairs(last, call) && exists r :: r in rows && r.action == ALLOWED && Pairs(r, call) {
      var i :| 0 <= i < |rows| && rows[i].action == ALLOWED && Pairs(rows[i], call);
      assert Pairs(more[i], call) && Pairs(more[|rows|], call);
    }
  }

  lemma {:induction false} GatesCount(rows: seq<AuditEvent>, call: AuditEvent)
    requires call.action == DENIED
    ensures |Gates(rows, call)| <= 1 <==> !TwoGates(rows, call)
    ensures Gates(rows, call) != [] <==> exists r :: r in rows && r.action == ALLOWED && Pairs(r, call)
  {
    if rows != [] {
      var init, last := rows[..|rows|-1], rows[|rows|-1];
      assert rows == init + [last];
      GatesCount(init, call);
      TwoGatesMore(init, last, call);
      assert forall r :: r in rows <==> r in init || r == last;
    }
  }

  /**
   Pairing gives one row per call exactly when no refusal has two gate rows: every refusal, and each admission no
   refusal is of. With two, that refusal is counted twice.
   */
  lemma {:induction false} PairingExact(rows: seq<AuditEvent>)
    ensures RowsOf(CallsOf(rows, |rows|)) == CallRows(rows, |rows|) <==> NoTwoGates(rows)
  {
    PairingPrefix(rows, |rows|);
    forall i | 0 <= i < |rows| && rows[i].action == DENIED ensures |Gates(rows, rows[i])| <= 1 <==> !TwoGates(rows, rows[i]) {
      GatesCount(rows, rows[i]);
    }
  }

  /** How often a row is among the first `n`. */
  function Times(rows: seq<AuditEvent>, n: nat, r: AuditEvent): nat
    requires n <= |rows|
  {
    if n == 0 then 0 else Times(rows, n - 1, r) + if rows[n-1] == r then 1 else 0
  }

  lemma {:induction false} TimesIn(rows: seq<AuditEvent>, n: nat, r: AuditEvent)
    requires n <= |rows|
    ensures Times(rows, n, r) == multiset(rows[..n])[r]
  {
    if n > 0 {
      TimesIn(rows, n - 1, r);
      assert rows[..n] == rows[..n-1] + [rows[n-1]];
    }
  }

  lemma {:induction false} CallKept(rows: seq<AuditEvent>, n: nat, r: AuditEvent)
    requires n <= |rows| && IsCall(rows, r)
    ensures multiset(CallRows(rows, n))[r] == Times(rows, n, r)
  {
    if n > 0 { CallKept(rows, n - 1, r); }
  }

  lemma {:induction false} GateDropped(rows: seq<AuditEvent>, n: nat, r: AuditEvent)
    requires n <= |rows| && !IsCall(rows, r)
    ensures r !in CallRows(rows, n)
  {
    if n > 0 { GateDropped(rows, n - 1, r); }
  }

  /** The rows that stand for a call are exactly the refusals, and the admissions that are no refusal's gate, each as often as it is there. */
  lemma {:induction false} CallRowsExact(rows: seq<AuditEvent>, r: AuditEvent)
    ensures multiset(CallRows(rows, |rows|))[r] ==
            if r.action != "controlplane/call_denied" && exists d :: d in rows && d.action == "controlplane/call_denied" && Pairs(d, r)
            then 0 else multiset(rows)[r]
  {
    if IsCall(rows, r) { CallKept(rows, |rows|, r); } else { GateDropped(rows, |rows|, r); }
    RefusedPairs(rows, r);
    TimesIn(rows, |rows|, r);
    assert rows[..|rows|] == rows;
  }

  lemma {:induction false} RefusedPairs(rows: seq<AuditEvent>, call: AuditEvent)
    ensures Refused(rows, call) <==> exists d :: d in rows && d.action == DENIED && Pairs(d, call)
  {
    RefusedExact(rows, call);
    if d :| d in rows && d.action == DENIED && Pairs(d, call) {
      assert d.requestId == call.requestId && d.actorId == call.actorId;
    }
    if Refused(rows, call) {
      var d :| d in rows && d.action == DENIED && d.requestId.Some? && d.requestId == call.requestId && d.actorId.Some? && d.actorId == call.actorId
               && d.verb == call.verb && d.path.Some? && d.path == call.path;
      assert Pairs(d, call);
    }
  }

  /** No request, actor, method and path has two gate rows. */
  ghost predicate OneGatePerCall(rows: seq<AuditEvent>) {
    forall i, j, request, actor, verb, path
      {:trigger Identified(rows[i], request, actor, verb, path), Identified(rows[j], request, actor, verb, path)} |
      0 <= i < j < |rows| && rows[i].action == rows[j].action == "controlplane/call_allowed" ::
      !(Identified(rows[i], request, actor, verb, path) && Identified(rows[j], request, actor, verb, path))
  }

  /** At most one gate row per request, actor, method and path is enough. */
  lemma {:induction false} OneGateEach(rows: seq<AuditEvent>, call: AuditEvent)
    requires OneGatePerCall(rows)
    ensures |Gates(rows, call)| <= 1
  {
    if rows != [] {
      var init, last := rows[..|rows|-1], rows[|rows|-1];
      assert forall i | 0 <= i < |init| :: init[i] == rows[i];
      OneGateEach(init, call);
      if last.action == ALLOWED && SameCall(last, call) {
        forall r | r in init && r.action == ALLOWED ensures !SameCall(r, call) {
          var i :| 0 <= i < |init| && init[i] == r;
          assert Identified(rows[|rows|-1], last.requestId.value, last.actorId.value, last.verb, last.path.value);
          assert !Identified(rows[i], last.requestId.value, last.actorId.value, last.verb, last.path.value);
        }
        NoneSame(init, call);
      }
    }
  }

  lemma {:induction false} NoneSame(rows: seq<AuditEvent>, call: AuditEvent)
    requires forall r | r in rows && r.action == ALLOWED :: !SameCall(r, call)
    ensures Gates(rows, call) == []
  {
    if rows != [] { NoneSame(rows[..|rows|-1], call); }
  }

  /** What a call's row does not name is taken from one of its gates, if it has any. */
  predicate TakesFrom(c: Call, gates: seq<AuditEvent>) {
    if gates == [] then c.scope == c.row.scope && c.keyId == c.row.keyId
    else exists g :: g in gates && c.scope == (if c.row.scope.Some? then c.row.scope else g.scope)
                                && c.keyId == if c.row.keyId.Some? then c.row.keyId else g.keyId
  }

  lemma {:induction false} JoinedExact(row: AuditEvent, gates: seq<AuditEvent>, c: Call)
    ensures c in Joined(row, gates) <==> c.row == row && TakesFrom(c, gates)
  {
    if gates != [] && c.row == row && TakesFrom(c, gates) {
      var g :| g in gates && c.scope == (if row.scope.Some? then row.scope else g.scope) && c.keyId == if row.keyId.Some? then row.keyId else g.keyId;
      var i :| 0 <= i < |gates| && gates[i] == g;
      assert Joined(row, gates)[i] == c;
    }
  }

  lemma {:induction false} CallTakes(rows: seq<AuditEvent>, n: nat, c: Call)
    requires n <= |rows| && c in CallsOf(rows, n)
    ensures c.row in CallRows(rows, n) && TakesFrom(c, Gates(rows, c.row))
  {
    if c in CallsOf(rows, n - 1) {
      CallTakes(rows, n - 1, c);
    } else {
      JoinedExact(rows[n-1], Gates(rows, rows[n-1]), c);
    }
  }

  lemma {:induction false} TakesCall(rows: seq<AuditEvent>, n: nat, c: Call)
    requires n <= |rows| && c.row in CallRows(rows, n) && TakesFrom(c, Gates(rows, c.row))
    ensures c in CallsOf(rows, n)
  {
    if c.row in CallRows(rows, n - 1) {
      TakesCall(rows, n - 1, c);
    } else {
      JoinedExact(rows[n-1], Gates(rows, rows[n-1]), c);
    }
  }

  /** The calls are exactly the joined rows of the rows that stand for a call. */
  lemma {:induction false} CallsExact(rows: seq<AuditEvent>, c: Call)
    ensures c in CallsOf(rows, |rows|) <==> c.row in CallRows(rows, |rows|) && TakesFrom(c, Gates(rows, c.row))
  {
    if c in CallsOf(rows, |rows|) { CallTakes(rows, |rows|, c); }
    if c.row in CallRows(rows, |rows|) && TakesFrom(c, Gates(rows, c.row)) { TakesCall(rows, |rows|, c); }
  }

  /** The key filter keeps exactly the calls made with the key, a refusal's taken from its gate row where its own names none. */
  lemma {:induction false} KeepKeyExact(calls: seq<Call>, keyId: Option<string>)
    ensures forall c :: multiset(KeepKey(calls, keyId))[c] == if keyId.Some? && c.keyId != keyId then 0 else multiset(calls)[c]
    ensures forall c :: c in KeepKey(calls, keyId) <==> c in calls && (keyId.Some? ==> c.keyId == keyId)
  {
    if calls != [] {
      KeepKeyExact(calls[..|calls|-1], keyId);
      assert calls == calls[..|calls|-1] + [calls[|calls|-1]];
    }
  }

  lemma {:induction false} CallsOfRows(rows: seq<AuditEvent>, n: nat)
    requires n <= |rows|
    ensures forall c | c in CallsOf(rows, n) :: c.row in rows
  {
    if n > 0 { CallsOfRows(rows, n - 1); }
  }

  lemma CallsHavePaths(rows: seq<AuditEvent>, f: Filter)
    requires forall r | r in rows :: r.path.Some?
    ensures forall c | c in Calls(rows, f) :: c.row.path.Some?
  {
    CallsOfRows(rows, |rows|);
    KeepKeyExact(CallsOf(rows, |rows|), f.keyId);
  }

  // -------------------- matches and tenants --------------------

  /** `pick = 1`: the matching pattern of least rank. */
  function Pick(patterns: seq<Pattern>, verb: string, path: string): (pick: Option<Pattern>)
    ensures pick.Some? ==> pick.value in patterns && Matches(pick.value, verb, path)
    ensures forall p | p in patterns && Matches(p, verb, path) :: pick.Some? && pick.value.rank <= p.rank
  {
    if patterns == [] then None
    else
      var best, last := Pick(patterns[..|patterns|-1], verb, path), patterns[|patterns|-1];
      if Matches(last, verb, path) && (best.None? || last.rank < best.value.rank) then Some(last) else best
  }

  /** The pick is one of the patterns, and a match of least rank. */
  lemma {:induction false} PickPicks(patterns: seq<Pattern>, verb: string, path: string, j: nat) returns (i: nat)
    requires j < |patterns| && Matches(patterns[j], verb, path)
    ensures Picks(patterns, i, Matching(verb, path))
    ensures Pick(patterns, verb, path) == Some(patterns[i])
  {
    assert patterns[j] in patterns;
    var pick := Pick(patterns, verb, path).value;
    assert Matches(pick, verb, path);
    i :| 0 <= i < |patterns| && patterns[i] == pick;
    assert forall k | 0 <= k < |patterns| :: patterns[k] in patterns;
  }

  /** Among the declared routes as they are compiled, the call's is as close as any that matches it. */
  lemma {:induction false} PickIsMostSpecific(ordered: seq<Route>, verb: string, path: string, j: nat)
    requires Ordered(ordered, Ranks()) && j < |ordered| && Matches(Ranked(ordered)[j], verb, path)
    ensures var pick := Pick(Ranked(ordered), verb, path);
            pick.Some? && AsClose(Split(pick.value.pattern)[1..], Split(ordered[j].path)[1..])
  {
    var i := PickPicks(Ranked(ordered), verb, path, j);
    LeastRankIsMostSpecific(ordered, verb, path, i, j);
  }

  predicate Handled(e: AuditEvent, call: AuditEvent) {
    && SqlEq(e.requestId, call.requestId) && SqlEq(e.actorId, call.actorId) && e.id != call.id
    && e.actorType == CONTROL_PLANE && e.tenant.Some?
  }

  /** The distinct tenants the call's handler recorded. */
  function Tenants(trail: seq<AuditEvent>, call: AuditEvent): (tenants: seq<string>)
    ensures Distinct(tenants)
    ensures forall t :: t in tenants <==> exists e :: e in trail && Handled(e, call) && e.tenant == Some(t)
  {
    if trail == [] then []
    else
      var before, last := Tenants(trail[..|trail|-1], call), trail[|trail|-1];
      assert forall e :: e in trail <==> e in trail[..|trail|-1] || e == last;
      if Handled(last, call) && last.tenant.value !in before then before + [last.tenant.value] else before
  }

  /** A tenant is the call's exactly when some other control-plane event of its request and actor, neither of them null, names it. */
  lemma {:induction false} TenantsExact(trail: seq<AuditEvent>, call: AuditEvent, tenant: string)
    ensures tenant in Tenants(trail, call) <==>
            exists e :: e in trail && e.tenant == Some(tenant) && e.actorType == "control-plane" && e.id != call.id
                        && e.requestId.Some? && e.requestId == call.requestId && e.actorId.Some? && e.actorId == call.actorId
  {
    if e :| e in trail && e.tenant == Some(tenant) && e.actorType == "control-plane" && e.id != call.id
            && e.requestId.Some? && e.requestId == call.requestId && e.actorId.Some? && e.actorId == call.actorId {
      assert Handled(e, call);
    }
    if tenant in Tenants(trail, call) {
      var e :| e in trail && Handled(e, call) && e.tenant == Some(tenant);
    }
  }

  // -------------------- reached --------------------

  /** One call reaching one tenant, or none. */
  datatype Reached = Reached(key: GroupKey, path: string, params: nat, occurredAt: int)

  function ReachedAs(call: Call, pick: Option<Pattern>, tenant: Option<string>): Reached
    requires call.row.path.Some?
  {
    Reached(
      GroupKey(Coalesce(tenant, call.row.tenant), if pick.Some? then pick.value.pattern else call.row.path.value,
               call.row.action, call.row.verb, pick.Some?, call.row.outcome, call.scope),
      call.row.path.value, if pick.Some? then pick.value.params else 0, call.row.occurredAt)
  }

  /** The call once per tenant it reached, or once with none. */
  function ReachedBy(call: Call, pick: Option<Pattern>, tenants: seq<string>): (reached: seq<Reached>)
    requires call.row.path.Some?
    ensures |reached| == if tenants == [] then 1 else |tenants|
  {
    if tenants == [] then [ReachedAs(call, pick, None)]
    else seq(|tenants|, i requires 0 <= i < |tenants| => ReachedAs(call, pick, Some(tenants[i])))
  }

  function AllReached(trail: seq<AuditEvent>, patterns: seq<Pattern>, calls: seq<Call>): seq<Reached>
    requires forall c | c in calls :: c.row.path.Some?
  {
    if calls == [] then []
    else
      var init, last := calls[..|calls|-1], calls[|calls|-1];
      AllReached(trail, patterns, init) + ReachedBy(last, Pick(patterns, last.row.verb, last.row.path.value), Tenants(trail, last.row))
  }

  /** Total over calls of the tenants each one's handler recorded, a call that reached none counting once. */
  function CallTotal(trail: seq<AuditEvent>, calls: seq<AuditEvent>): nat {
    if calls == [] then 0
    else
      var tenants := |Tenants(trail, calls[|calls|-1])|;
      CallTotal(trail, calls[..|calls|-1]) + if tenants == 0 then 1 else tenants
  }

  lemma {:induction false} ReachedTotal(trail: seq<AuditEvent>, patterns: seq<Pattern>, calls: seq<Call>)
    requires forall c | c in calls :: c.row.path.Some?
    ensures |AllReached(trail, patterns, calls)| == CallTotal(trail, RowsOf(calls))
  {
    if calls != [] {
      ReachedTotal(trail, patterns, calls[..|calls|-1]);
      assert RowsOf(calls)[..|calls|-1] == RowsOf(calls[..|calls|-1]);
    }
  }

  /** A reached row of a call: its route, or its own path where it has none, and one of the tenants it reached, or its own where there is none. */
  predicate Reaches(c: Call, pick: Option<Pattern>, tenants: seq<string>, r: Reached)
    requires c.row.path.Some?
  {
    && r.path == c.row.path.value && r.occurredAt == c.row.occurredAt
    && r.key.action == c.row.action && r.key.verb == c.row.verb && r.key.outcome == c.row.outcome && r.key.scope == c.scope
    && (if pick.Some? then r.key.matched && r.key.route == pick.value.pattern && r.params == pick.value.params
        else !r.key.matched && r.key.route == r.path && r.params == 0)
    && if tenants == [] then r.key.tenant == c.row.tenant else r.key.tenant.Some? && r.key.tenant.value in tenants
  }

  lemma {:induction false} ReachedByExact(c: Call, pick: Option<Pattern>, tenants: seq<string>, r: Reached)
    requires c.row.path.Some?
    ensures r in ReachedBy(c, pick, tenants) <==> Reaches(c, pick, tenants, r)
  {
    if Reaches(c, pick, tenants, r) && tenants != [] {
      var i :| 0 <= i < |tenants| && tenants[i] == r.key.tenant.value;
      assert ReachedBy(c, pick, tenants)[i] == r;
    }
  }

  /** The reached rows are exactly those of the calls. */
  lemma {:induction false} ReachedExact(trail: seq<AuditEvent>, patterns: seq<Pattern>, calls: seq<Call>, r: Reached)
    requires forall c | c in calls :: c.row.path.Some?
    ensures r in AllReached(trail, patterns, calls) <==>
            exists c :: c in calls && Reaches(c, Pick(patterns, c.row.verb, c.row.path.value), Tenants(trail, c.row), r)
  {
    if calls != [] {
      var last := calls[|calls|-1];
      ReachedExact(trail, patterns, calls[..|calls|-1], r);
      ReachedByExact(last, Pick(patterns, last.row.verb, last.row.path.value), Tenants(trail, last.row), r);
      assert forall c :: c in calls <==> c in calls[..|calls|-1] || c == last;
    }
  }
}
