/** Folding the reach statement's per-path rows into one row per group, in the answer's order. */
module ReachFold {
  import opened Options
  import opened Strings
  import opened Sorting
  import RouteSubject

  /** What two calls share when the answer counts them together. */
  datatype GroupKey = GroupKey(
    tenant: Option<string>, route: string, action: string, verb: string, matched: bool, outcome: string, scope: Option<string>)

  /** One grouped row as the statement returns it: a group, one called path of it, and what was counted. */
  datatype StatementRow = StatementRow(key: GroupKey, path: string, count: int, params: nat, firstAt: int, lastAt: int)

  /** One row of the answer. `subjects` is absent for an unmatched path. */
  datatype ReachRow = ReachRow(key: GroupKey, count: int, subjects: Option<nat>, firstAt: int, lastAt: int)

  /** What one path's subject is counted as: its route's key values, or the path itself. */
  datatype SubjectKey = Values(values: seq<string>) | Path(path: string)

  function SubjectKeyAt(route: string, path: string, decode: string -> string): SubjectKey {
    var key := RouteSubject.SubjectOf(route, path, decode).key;
    if key.Some? then Values(key.value) else Path(path)
  }

  function SubjectKeyOf(row: StatementRow, decode: string -> string): SubjectKey {
    SubjectKeyAt(row.key.route, row.path, decode)
  }

  // -------------------- the group, stated directly --------------------

  function Min(a: int, b: int): int { if b < a then b else a }
  function Max(a: int, b: int): int { if a < b then b else a }

  /** The groups, each once, in the order they first appear. */
  function KeysOf(rows: seq<StatementRow>): seq<GroupKey> {
    if rows == [] then []
    else
      var keys, key := KeysOf(rows[..|rows|-1]), rows[|rows|-1].key;
      if key in keys then keys else keys + [key]
  }

  /** The rows of one group. */
  function Of(rows: seq<StatementRow>, key: GroupKey): seq<StatementRow> {
    if rows == [] then []
    else Of(rows[..|rows|-1], key) + if rows[|rows|-1].key == key then [rows[|rows|-1]] else []
  }

  function CountOf(rows: seq<StatementRow>): int {
    if rows == [] then 0 else CountOf(rows[..|rows|-1]) + rows[|rows|-1].count
  }

  function FirstOf(rows: seq<StatementRow>): int
    requires rows != []
  {
    var last := rows[|rows|-1];
    if |rows| == 1 then last.firstAt else Min(FirstOf(rows[..|rows|-1]), last.firstAt)
  }

  function LastOf(rows: seq<StatementRow>): int
    requires rows != []
  {
    var last := rows[|rows|-1];
    if |rows| == 1 then last.lastAt else Max(LastOf(rows[..|rows|-1]), last.lastAt)
  }

  function SubjectsOf(rows: seq<StatementRow>, decode: string -> string): set<SubjectKey> {
    set i | 0 <= i < |rows| :: SubjectKeyOf(rows[i], decode)
  }

  /** One group of rows as the answer's row. */
  function Direct(rows: seq<StatementRow>, key: GroupKey, decode: string -> string): ReachRow
    requires rows != []
  {
    ReachRow(key, CountOf(rows),
             if !key.matched then None else Some(if rows[0].params > 0 then |SubjectsOf(rows, decode)| else 0),
             FirstOf(rows), LastOf(rows))
  }

  lemma {:induction false} KeysHaveRows(rows: seq<StatementRow>, key: GroupKey)
    ensures key in KeysOf(rows) <==> Of(rows, key) != []
    ensures forall r | r in Of(rows, key) :: r in rows && r.key == key
    ensures forall r | r in rows && r.key == key :: r in Of(rows, key)
  {
    if rows != [] { KeysHaveRows(rows[..|rows|-1], key); }
  }

  lemma {:induction false} KeysDistinct(rows: seq<StatementRow>)
    ensures Distinct(KeysOf(rows))
  {
    if rows != [] { KeysDistinct(rows[..|rows|-1]); }
  }

  // -------------------- the order of the answer --------------------

  datatype Cell = Null | Flag(flag: bool) | Text(text: string)

  function Nullable(o: Option<string>): Cell {
    if o.Some? then Text(o.value) else Null
  }

  /** The group's columns, in the order the answer is sorted by. */
  function Cells(k: GroupKey): seq<Cell> {
    [Nullable(k.tenant), Text(k.route), Text(k.action), Text(k.verb), Flag(k.matched), Text(k.outcome), Nullable(k.scope)]
  }

  /** Null first, and text by character; false before true. */
  predicate CellBefore(x: Cell, y: Cell) {
    match (x, y)
    case (Null, Null) => false
    case (Null, _) => true
    case (Flag(a), Flag(b)) => !a && b
    case (Flag(_), Text(_)) => true
    case (Text(a), Text(b)) => Less(a, b)
    case (_, _) => false
  }

  /** `byGroup` answers below zero: the first column that differs decides. */
  predicate Before(a: seq<Cell>, b: seq<Cell>)
    requires |a| == |b|
  {
    a != [] && if a[0] == b[0] then Before(a[1..], b[1..]) else CellBefore(a[0], b[0])
  }

  function ByGroup(): (ReachRow, ReachRow) -> bool {
    (a: ReachRow, b: ReachRow) => Before(Cells(a.key), Cells(b.key))
  }

  lemma CellsTotal(x: Cell, y: Cell, z: Cell)
    ensures CellBefore(x, y) || x == y || CellBefore(y, x)
    ensures !(CellBefore(x, y) && CellBefore(y, x))
    ensures CellBefore(x, y) && CellBefore(y, z) ==> CellBefore(x, z)
    ensures !CellBefore(x, x)
  {
    if x.Text? && y.Text? {
      LessTotal(x.text, y.text);
      if z.Text? && Less(x.text, y.text) && Less(y.text, z.text) { LessTransitive(x.text, y.text, z.text); }
    }
    if x.Text? { LessIrreflexive(x.text); }
  }

  lemma {:induction false} BeforeTotal(a: seq<Cell>, b: seq<Cell>)
    requires |a| == |b|
    ensures Before(a, b) || a == b || Before(b, a)
    ensures !(Before(a, b) && Before(b, a))
    ensures a == b ==> !Before(a, b)
  {
    if a != [] {
      CellsTotal(a[0], b[0], b[0]);
      BeforeTotal(a[1..], b[1..]);
      assert a == [a[0]] + a[1..] && b == [b[0]] + b[1..];
    }
  }

  lemma {:induction false} BeforeTransitive(a: seq<Cell>, b: seq<Cell>, c: seq<Cell>)
    requires |a| == |b| == |c| && Before(a, b) && Before(b, c)
    ensures Before(a, c)
  {
    CellsTotal(a[0], b[0], c[0]);
    CellsTotal(b[0], a[0], c[0]);
    if a[0] == b[0] && b[0] == c[0] {
      BeforeTransitive(a[1..], b[1..], c[1..]);
    }
  }

  lemma CellsDetermineKey(a: GroupKey, b: GroupKey)
    ensures Cells(a) == Cells(b) <==> a == b
  {
    if Cells(a) == Cells(b) {
      var x, y := Cells(a), Cells(b);
      assert x[0] == y[0] && x[1] == y[1] && x[2] == y[2] && x[3] == y[3] && x[4] == y[4] && x[5] == y[5] && x[6] == y[6];
    }
  }

  /** `byGroup` is a strict total order of groups: of any two different groups exactly one comes first. */
  lemma ByGroupTotal(a: ReachRow, b: ReachRow, c: ReachRow)
    ensures a.key == b.key <==> !ByGroup()(a, b) && !ByGroup()(b, a)
    ensures !(ByGroup()(a, b) && ByGroup()(b, a))
    ensures ByGroup()(a, b) && ByGroup()(b, c) ==> ByGroup()(a, c)
  {
    BeforeTotal(Cells(a.key), Cells(b.key));
    CellsDetermineKey(a.key, b.key);
    if ByGroup()(a, b) && ByGroup()(b, c) { BeforeTransitive(Cells(a.key), Cells(b.key), Cells(c.key)); }
  }

  /** Null before any text, and texts in order. */
  predicate NullFirst(a: Option<string>, b: Option<string>) {
    b.Some? && (a.None? || Less(a.value, b.value))
  }

  lemma {:induction false} LastColumns(x: GroupKey, y: GroupKey)
    ensures Before(Cells(x)[4..], Cells(y)[4..]) ==
            if x.matched != y.matched then !x.matched
            else if x.outcome != y.outcome then Less(x.outcome, y.outcome)
            else x.scope != y.scope && NullFirst(x.scope, y.scope)
  {
    BeforeAt(Cells(x), Cells(y), 4);
    BeforeAt(Cells(x), Cells(y), 5);
    BeforeAt(Cells(x), Cells(y), 6);
  }

  lemma {:induction false} MiddleColumns(x: GroupKey, y: GroupKey)
    ensures Before(Cells(x)[1..], Cells(y)[1..]) ==
            if x.route != y.route then Less(x.route, y.route)
            else if x.action != y.action then Less(x.action, y.action)
            else if x.verb != y.verb then Less(x.verb, y.verb)
            else Before(Cells(x)[4..], Cells(y)[4..])
  {
    BeforeAt(Cells(x), Cells(y), 1);
    BeforeAt(Cells(x), Cells(y), 2);
    BeforeAt(Cells(x), Cells(y), 3);
  }

  lemma {:induction false} FirstColumn(x: GroupKey, y: GroupKey)
    ensures Before(Cells(x), Cells(y)) == if x.tenant != y.tenant then NullFirst(x.tenant, y.tenant) else Before(Cells(x)[1..], Cells(y)[1..])
  {
    assert Cells(x)[0..] == Cells(x) && Cells(y)[0..] == Cells(y);
    BeforeAt(Cells(x), Cells(y), 0);
  }

  /** The first of tenant, route, action, method, match, outcome and scope that differs decides. */
  lemma {:induction false} ByGroupExact(a: ReachRow, b: ReachRow)
    ensures var x, y := a.key, b.key;
            ByGroup()(a, b) ==
            if x.tenant != y.tenant then NullFirst(x.tenant, y.tenant)
            else if x.route != y.route then Less(x.route, y.route)
            else if x.action != y.action then Less(x.action, y.action)
            else if x.verb != y.verb then Less(x.verb, y.verb)
            else if x.matched != y.matched then !x.matched
            else if x.outcome != y.outcome then Less(x.outcome, y.outcome)
            else x.scope != y.scope && NullFirst(x.scope, y.scope)
  {
    FirstColumn(a.key, b.key);
    MiddleColumns(a.key, b.key);
    LastColumns(a.key, b.key);
  }

  lemma {:induction false} BeforeAt(a: seq<Cell>, b: seq<Cell>, n: nat)
    requires n < |a| == |b|
    ensures Before(a[n..], b[n..]) == if a[n] == b[n] then Before(a[n+1..], b[n+1..]) else CellBefore(a[n], b[n])
  {
    assert a[n..][1..] == a[n+1..] && b[n..][1..] == b[n+1..];
  }

  lemma ByGroupOrders()
    ensures Orders(ByGroup())
  {
    forall a, b ensures !(ByGroup()(a, b) && ByGroup()(b, a)) { ByGroupTotal(a, b, b); }
    forall a, b, c | !ByGroup()(b, a) && !ByGroup()(c, b) ensures !ByGroup()(c, a) {
      ByGroupTotal(a, b, c);
      ByGroupTotal(c, a, b);
      ByGroupTotal(b, c, a);
      ByGroupTotal(c, b, a);
    }
  }

  // -------------------- fold --------------------

  /** Every group directly, then sorted. */
  function Folded(rows: seq<StatementRow>, decode: string -> string): seq<ReachRow> {
    Sort(DirectRows(rows, decode), ByGroup())
  }

  function DirectRows(rows: seq<StatementRow>, decode: string -> string): (out: seq<ReachRow>)
    ensures |out| == |KeysOf(rows)|
    ensures forall i | 0 <= i < |out| :: out[i].key == KeysOf(rows)[i]
  {
    var keys := KeysOf(rows);
    seq(|keys|, i requires 0 <= i < |keys| => DirectRow(rows, keys[i], decode))
  }

  function DirectRow(rows: seq<StatementRow>, key: GroupKey, decode: string -> string): (r: ReachRow)
    requires key in KeysOf(rows)
    ensures r.key == key
  {
    KeysHaveRows(rows, key);
    Direct(Of(rows, key), key, decode)
  }

  /** One group while it is folded. */
  datatype Group = Group(row: StatementRow, count: int, subjects: set<SubjectKey>, first: int, last: int)

  /** A group folded so far is its rows so far. */
  predicate Holds(g: Group, rows: seq<StatementRow>, decode: string -> string) {
    rows != [] && g.row == rows[0] && g.count == CountOf(rows) && g.subjects == SubjectsOf(rows, decode)
    && g.first == FirstOf(rows) && g.last == LastOf(rows)
  }

  /** `group.count += row.count`, and the same for its subjects and its instants. */
  function Grown(g: Group, row: StatementRow, decode: string -> string): Group {
    Group(g.row, g.count + row.count, g.subjects + {SubjectKeyOf(row, decode)},
          if row.firstAt < g.first then row.firstAt else g.first,
          if row.lastAt > g.last then row.lastAt else g.last)
  }

  function Started(row: StatementRow, decode: string -> string): Group {
    Group(row, row.count, {SubjectKeyOf(row, decode)}, row.firstAt, row.lastAt)
  }

  lemma SubjectsMore(rows: seq<StatementRow>, row: StatementRow, decode: string -> string)
    ensures SubjectsOf(rows + [row], decode) == SubjectsOf(rows, decode) + {SubjectKeyOf(row, decode)}
  {
    var more := rows + [row];
    assert SubjectKeyOf(more[|rows|], decode) in SubjectsOf(more, decode);
    forall i | 0 <= i < |rows| ensures SubjectKeyOf(rows[i], decode) in SubjectsOf(more, decode) {
      assert more[i] == rows[i];
    }
  }

  lemma HoldsMore(g: Group, rows: seq<StatementRow>, row: StatementRow, decode: string -> string)
    requires Holds(g, rows, decode)
    ensures Holds(Grown(g, row, decode), rows + [row], decode)
  {
    var more := rows + [row];
    assert more[..|rows|] == rows;
    SubjectsMore(rows, row, decode);
  }

  lemma HoldsFirst(row: StatementRow, decode: string -> string)
    ensures Holds(Started(row, decode), [row], decode)
  {
    assert [] + [row] == [row];
    SubjectsMore([], row, decode);
    assert CountOf([row]) == CountOf([row][..0]) + row.count;
  }

  /** The map after the rows so far: each group they have, folded from its own rows. */
  ghost predicate Folding(keys: seq<GroupKey>, folded: map<GroupKey, Group>, rows: seq<StatementRow>, decode: string -> string) {
    && keys == KeysOf(rows)
    && (forall k | k in keys :: k in folded)
    && (forall k | k in folded :: k in keys && Holds(folded[k], Of(rows, k), decode))
  }

  lemma OfAppend(rows: seq<StatementRow>, row: StatementRow, key: GroupKey)
    ensures Of(rows + [row], key) == if row.key == key then Of(rows, key) + [row] else Of(rows, key)
  {
    assert (rows + [row])[..|rows|] == rows;
  }

  lemma FoldingMore(keys: seq<GroupKey>, folded: map<GroupKey, Group>, rows: seq<StatementRow>, row: StatementRow, decode: string -> string)
    requires Folding(keys, folded, rows, decode) && row.key in folded
    ensures Folding(keys, folded[row.key := Grown(folded[row.key], row, decode)], rows + [row], decode)
  {
    assert (rows + [row])[..|rows|] == rows;
    HoldsMore(folded[row.key], Of(rows, row.key), row, decode);
    var after, more := folded[row.key := Grown(folded[row.key], row, decode)], rows + [row];
    forall k | k in after ensures k in keys && Holds(after[k], Of(more, k), decode) { OfAppend(rows, row, k); }
  }

  lemma FoldingNew(keys: seq<GroupKey>, folded: map<GroupKey, Group>, rows: seq<StatementRow>, row: StatementRow, decode: string -> string)
    requires Folding(keys, folded, rows, decode) && row.key !in folded
    ensures Folding(keys + [row.key], folded[row.key := Started(row, decode)], rows + [row], decode)
  {
    assert (rows + [row])[..|rows|] == rows;
    KeysHaveRows(rows, row.key);
    HoldsFirst(row, decode);
    var after, more := folded[row.key := Started(row, decode)], rows + [row];
    forall k | k in after ensures k in keys + [row.key] && Holds(after[k], Of(more, k), decode) {
      OfAppend(rows, row, k);
      if k == row.key { assert Of(more, k) == [] + [row] == [row]; }
    }
  }

  lemma FoldingAnswers(keys: seq<GroupKey>, folded: map<GroupKey, Group>, rows: seq<StatementRow>, decode: string -> string, answers: seq<ReachRow>)
    requires Folding(keys, folded, rows, decode)
    requires |answers| == |keys| && forall i | 0 <= i < |keys| :: answers[i] == Answer(keys[i], folded[keys[i]])
    ensures answers == DirectRows(rows, decode)
  {
    forall i | 0 <= i < |keys| ensures answers[i] == DirectRows(rows, decode)[i] {
      assert Holds(folded[keys[i]], Of(rows, keys[i]), decode);
    }
  }

  function Answer(key: GroupKey, g: Group): ReachRow {
    ReachRow(key, g.count, if !key.matched then None else Some(if g.row.params > 0 then |g.subjects| else 0), g.first, g.last)
  }

  /** `fold`: one pass over the rows, a map of groups updated in place, then the answer's rows in order. */
  method Fold(rows: seq<StatementRow>, decode: string -> string) returns (out: seq<ReachRow>)
    ensures out == Folded(rows, decode)
  {
    var keys: seq<GroupKey>, folded: map<GroupKey, Group> := [], map[];
    for n := 0 to |rows|
      invariant Folding(keys, folded, rows[..n], decode)
    {
      var row := rows[n];
      assert rows[..n+1] == rows[..n] + [row];
      if row.key !in folded {
        FoldingNew(keys, folded, rows[..n], row, decode);
        keys := keys + [row.key];
        folded := folded[row.key := Started(row, decode)];
      } else {
        FoldingMore(keys, folded, rows[..n], row, decode);
        folded := folded[row.key := Grown(folded[row.key], row, decode)];
      }
    }
    assert rows[..|rows|] == rows;
    var answers := seq(|keys|, i requires 0 <= i < |keys| => Answer(keys[i], folded[keys[i]]));
    FoldingAnswers(keys, folded, rows, decode, answers);
    out := Sort(answers, ByGroup());
  }

  // -------------------- what the answer is --------------------

  function Total(out: seq<ReachRow>): int {
    if out == [] then 0 else Total(out[..|out|-1]) + out[|out|-1].count
  }

  lemma {:induction false} TotalInsert(out: seq<ReachRow>, r: ReachRow, before: (ReachRow, ReachRow) -> bool)
    ensures Total(Insert(out, r, before)) == Total(out) + r.count
  {
    if out == [] || !before(r, out[|out|-1]) {
      assert (out + [r])[..|out|] == out;
    } else {
      var init, last := out[..|out|-1], out[|out|-1];
      TotalInsert(init, r, before);
      assert (Insert(init, r, before) + [last])[..|Insert(init, r, before)|] == Insert(init, r, before);
    }
  }

  lemma {:induction false} TotalSort(out: seq<ReachRow>, before: (ReachRow, ReachRow) -> bool)
    ensures Total(Sort(out, before)) == Total(out)
  {
    if out != [] {
      TotalSort(out[..|out|-1], before);
      TotalInsert(Sort(out[..|out|-1], before), out[|out|-1], before);
    }
  }

  /** The counts of some groups' rows. */
  function CountIn(rows: seq<StatementRow>, keys: seq<GroupKey>): int {
    if keys == [] then 0 else CountIn(rows, keys[..|keys|-1]) + CountOf(Of(rows, keys[|keys|-1]))
  }

  lemma OfMore(rows: seq<StatementRow>, row: StatementRow, key: GroupKey)
    ensures CountOf(Of(rows + [row], key)) == CountOf(Of(rows, key)) + if row.key == key then row.count else 0
  {
    OfAppend(rows, row, key);
    assert (Of(rows, key) + [row])[..|Of(rows, key)|] == Of(rows, key);
  }

  lemma DistinctLast(keys: seq<GroupKey>, key: GroupKey)
    requires keys != [] && Distinct(keys)
    ensures key in keys <==> key in keys[..|keys|-1] || key == keys[|keys|-1]
    ensures !(key in keys[..|keys|-1] && key == keys[|keys|-1])
  {
    assert keys == keys[..|keys|-1] + [keys[|keys|-1]];
  }

  lemma {:induction false} CountInMore(rows: seq<StatementRow>, row: StatementRow, keys: seq<GroupKey>)
    requires Distinct(keys)
    ensures CountIn(rows + [row], keys) == CountIn(rows, keys) + if row.key in keys then row.count else 0
  {
    if keys != [] {
      var init, last := keys[..|keys|-1], keys[|keys|-1];
      CountInMore(rows, row, init);
      OfMore(rows, row, last);
      DistinctLast(keys, row.key);
    }
  }

  /** The groups partition the rows: their counts add up to all of them. */
  lemma {:induction false} GroupsPartition(rows: seq<StatementRow>)
    ensures CountIn(rows, KeysOf(rows)) == CountOf(rows)
  {
    if rows != [] {
      var init, row := rows[..|rows|-1], rows[|rows|-1];
      assert rows == init + [row];
      GroupsPartition(init);
      KeysDistinct(init);
      CountInMore(init, row, KeysOf(init));
      if row.key !in KeysOf(init) { CountInNew(init, row, KeysOf(init)); }
    }
  }

  lemma CountInNew(init: seq<StatementRow>, row: StatementRow, keys: seq<GroupKey>)
    requires keys == KeysOf(init) && row.key !in keys
    ensures CountIn(init + [row], keys + [row.key]) == CountIn(init + [row], keys) + row.count
  {
    assert (keys + [row.key])[..|keys|] == keys;
    KeysHaveRows(init, row.key);
    OfMore(init, row, row.key);
  }

  lemma {:induction false} TotalDirect(rows: seq<StatementRow>, keys: seq<GroupKey>, out: seq<ReachRow>, decode: string -> string)
    requires |keys| == |out| && forall i | 0 <= i < |keys| :: keys[i] in KeysOf(rows) && out[i] == DirectRow(rows, keys[i], decode)
    ensures Total(out) == CountIn(rows, keys)
  {
    if keys != [] {
      TotalDirect(rows, keys[..|keys|-1], out[..|out|-1], decode);
    }
  }

  lemma FoldedRow(rows: seq<StatementRow>, decode: string -> string, r: ReachRow)
    requires r in DirectRows(rows, decode)
    ensures Of(rows, r.key) != [] && r == Direct(Of(rows, r.key), r.key, decode)
  {
    var direct := DirectRows(rows, decode);
    var i :| 0 <= i < |direct| && direct[i] == r;
    KeysHaveRows(rows, r.key);
  }

  lemma FoldedGroup(rows: seq<StatementRow>, decode: string -> string, row: StatementRow)
    requires row in rows
    ensures exists r :: r in DirectRows(rows, decode) && r.key == row.key
  {
    var direct := DirectRows(rows, decode);
    KeysHaveRows(rows, row.key);
    var i :| 0 <= i < |KeysOf(rows)| && KeysOf(rows)[i] == row.key;
    assert direct[i] in direct;
  }

  lemma FoldedOrder(rows: seq<StatementRow>, decode: string -> string)
    ensures var out := Folded(rows, decode); forall i, j | 0 <= i < j < |out| :: ByGroup()(out[i], out[j])
    ensures multiset(Folded(rows, decode)) == multiset(DirectRows(rows, decode))
  {
    var direct, out := DirectRows(rows, decode), Folded(rows, decode);
    ByGroupOrders();
    SortSorts(direct, ByGroup());
    KeysDistinct(rows);
    DistinctStays(direct, out);
    forall i, j | 0 <= i < j < |out| ensures ByGroup()(out[i], out[j]) {
      ByGroupTotal(out[i], out[j], out[j]);
      assert out[i] in multiset(out) && out[j] in multiset(out);
      if out[i].key == out[j].key { SameKeySameRow(rows, decode, out[i], out[j]); }
    }
  }

  lemma SameKeySameRow(rows: seq<StatementRow>, decode: string -> string, a: ReachRow, b: ReachRow)
    requires a in DirectRows(rows, decode) && b in DirectRows(rows, decode) && a.key == b.key
    ensures a == b
  {
    FoldedRow(rows, decode, a);
    FoldedRow(rows, decode, b);
  }

  /**
   The folded answer, whatever order the rows came in: strictly increasing in `byGroup`, one row for exactly the groups
   the rows have, each that group's rows counted directly, and no count lost.
   */
  lemma {:induction false} FoldExact(rows: seq<StatementRow>, decode: string -> string)
    ensures var out := Folded(rows, decode);
            && (forall i, j | 0 <= i < j < |out| :: ByGroup()(out[i], out[j]))
            && (forall r | r in out :: Of(rows, r.key) != [] && r == Direct(Of(rows, r.key), r.key, decode))
            && (forall row | row in rows :: exists r :: r in out && r.key == row.key)
            && Total(out) == CountOf(rows)
  {
    var direct, out := DirectRows(rows, decode), Folded(rows, decode);
    FoldedOrder(rows, decode);
    forall r | r in out ensures Of(rows, r.key) != [] && r == Direct(Of(rows, r.key), r.key, decode) {
      assert r in multiset(out);
      FoldedRow(rows, decode, r);
    }
    forall row | row in rows ensures exists r :: r in out && r.key == row.key {
      FoldedGroup(rows, decode, row);
      var r :| r in direct && r.key == row.key;
      assert r in multiset(direct);
    }
    TotalDirect(rows, KeysOf(rows), direct, decode);
    GroupsPartition(rows);
    TotalSort(direct, ByGroup());
  }
}
