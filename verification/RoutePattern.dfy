/**
 Declared admin routes compiled to a glob, a slash count and a rank, and read back into parameters and subjects.
 */
module RoutePattern {
  import opened Options
  import opened Strings
  import opened Keyed
  import opened Sorting
  import Glob

  // -------------------- segments --------------------

  predicate IsWord(c: char) {
    Letter(c) || Digit(c) || c == '_'
  }

  function WordRun(s: string): (n: nat)
    ensures n <= |s|
  {
    if s == [] || !IsWord(s[0]) then 0 else 1 + WordRun(s[1..])
  }

  /** A `{...}` with no line break in it, as `.` matches. */
  predicate Braced(s: string) {
    |s| >= 2 && s[0] == '{' && s[|s|-1] == '}'
    && '\n' !in s && '\r' !in s && '\U{2028}' !in s && '\U{2029}' !in s
  }

  /** The name a `:name`, `:name{regex}`, `:name?` or `:name{regex}?` segment declares. */
  function ParamName(segment: string): Option<string> {
    if segment == [] || segment[0] != ':' then None
    else
      var n := WordRun(segment[1..]);
      var tail := segment[1+n..];
      if n > 0 && (tail == "" || tail == "?" || Braced(tail) || (tail[|tail|-1] == '?' && Braced(tail[..|tail|-1])))
      then Some(segment[1..1+n])
      else None
  }

  /** Letters, digits and underscores, and at least one of them. */
  predicate Named(name: string) {
    name != [] && forall i | 0 <= i < |name| ::
      name[i] in "ABCDEFGHIJKLMNOPQRSTUVWXYZ" || name[i] in "abcdefghijklmnopqrstuvwxyz" || name[i] in "0123456789" || name[i] == '_'
  }

  /** What may follow a parameter's name: a pattern in braces on one line, or none, and then a question mark, or none. */
  ghost predicate Follows(rest: string) {
    rest == "" || rest == "?"
    || (exists inner {:trigger Inline(inner)} :: Inline(inner) && (rest == "{" + inner + "}" || rest == "{" + inner + "}" + "?"))
  }

  predicate Inline(inner: string) {
    forall c | c in ['\n', '\r', '\U{2028}', '\U{2029}'] :: c !in inner
  }

  lemma {:induction false} BracedExact(s: string)
    ensures Braced(s) <==> exists inner {:trigger Inline(inner)} :: Inline(inner) && s == "{" + inner + "}"
  {
    if Braced(s) {
      var inner := s[1..|s|-1];
      assert Inline(inner) && s == "{" + inner + "}";
    }
    if inner: string {:trigger Inline(inner)} :| Inline(inner) && s == "{" + inner + "}" {
      assert forall c | c in s :: c == '{' || c == '}' || c in inner;
    }
  }

  lemma {:induction false} FollowsExact(rest: string)
    ensures Follows(rest) <==> rest == "" || rest == "?" || Braced(rest) || (rest[|rest|-1] == '?' && Braced(rest[..|rest|-1]))
  {
    BracedExact(rest);
    if rest != "" {
      BracedExact(rest[..|rest|-1]);
      if rest[|rest|-1] == '?' { assert rest == rest[..|rest|-1] + "?"; }
      if inner: string {:trigger Inline(inner)} :| Inline(inner) && rest == "{" + inner + "}" + "?" {
        assert rest[..|rest|-1] == "{" + inner + "}";
      }
    }
  }

  lemma {:induction false} WordRunExact(s: string, n: nat)
    requires n <= |s|
    ensures n == WordRun(s) <==> (forall i | 0 <= i < n :: IsWord(s[i])) && (n < |s| ==> !IsWord(s[n]))
  {
    if s != [] && IsWord(s[0]) && n > 0 { WordRunExact(s[1..], n - 1); }
  }

  lemma {:induction false} NamedExact(name: string)
    ensures Named(name) <==> name != [] && forall i | 0 <= i < |name| :: IsWord(name[i])
  {
    forall i | 0 <= i < |name| { LettersAndDigits(name[i]); }
  }

  /** A colon, a name and what may follow it declare that name: the longest run of word characters is the name, whatever follows. */
  lemma {:induction false} NameOf(name: string, rest: string)
    requires name != [] && (forall i | 0 <= i < |name| :: IsWord(name[i])) && Follows(rest)
    ensures ParamName(":" + name + rest) == Some(name)
  {
    var segment := ":" + name + rest;
    FollowsExact(rest);
    assert segment[1..] == name + rest && segment[1 + |name|..] == rest && segment[1..1 + |name|] == name;
    WordRunExact(segment[1..], |name|);
  }

  lemma {:induction false} NameIn(segment: string) returns (name: string, rest: string)
    requires ParamName(segment).Some?
    ensures name == ParamName(segment).value && segment == ":" + name + rest && Follows(rest)
    ensures name != [] && forall i | 0 <= i < |name| :: IsWord(name[i])
  {
    name := ParamName(segment).value;
    rest := segment[1 + |name|..];
    FollowsExact(rest);
    WordRunExact(segment[1..], |name|);
    assert segment == [segment[0]] + segment[1..1 + |name|] + segment[1 + |name|..];
    forall i | 0 <= i < |name| ensures IsWord(name[i]) { assert name[i] == segment[1..][i]; }
  }

  /** A segment declares a parameter exactly when it is a colon, the name, and something that may follow a name. */
  lemma {:induction false} ParamNameExact(segment: string, name: string)
    ensures ParamName(segment) == Some(name) <==>
            exists rest {:trigger Follows(rest)} :: Follows(rest) && Named(name) && segment == ":" + name + rest
  {
    NamedExact(name);
    if ParamName(segment) == Some(name) {
      var _, rest := NameIn(segment);
    }
    if rest: string {:trigger Follows(rest)} :| Follows(rest) && Named(name) && segment == ":" + name + rest {
      NameOf(name, rest);
    }
  }

  predicate IsWildcard(segment: string) {
    segment == "*"
  }

  predicate IsLiteral(segment: string) {
    !IsWildcard(segment) && ParamName(segment).None?
  }

  // -------------------- the glob --------------------

  function SegmentGlob(segment: string): string {
    if IsLiteral(segment) then Glob.Escape(segment) else "*"
  }

  function GlobOf(segments: seq<string>): string
    requires segments != []
  {
    Join(seq(|segments|, (i: nat) requires i < |segments| => SegmentGlob(segments[i])))
  }

  /** The plain rule: as many segments, every literal the same, a parameter anything. */
  predicate Fits(declared: seq<string>, called: seq<string>) {
    && |declared| == |called|
    && forall i | 0 <= i < |declared| && IsLiteral(declared[i]) :: called[i] == declared[i]
  }

  /** Segments as `split` leaves them, none of them the wildcard. */
  predicate Plain(segments: seq<string>) {
    segments != [] && forall i | 0 <= i < |segments| :: '/' !in segments[i] && !IsWildcard(segments[i])
  }

  lemma GlobOfOne(segment: string)
    ensures GlobOf([segment]) == SegmentGlob(segment)
  {
  }

  lemma GlobOfMore(segments: seq<string>)
    requires |segments| > 1
    ensures GlobOf(segments) == SegmentGlob(segments[0]) + ("/" + GlobOf(segments[1..]))
  {
    var globs := seq(|segments|, (i: nat) requires i < |segments| => SegmentGlob(segments[i]));
    var rest := segments[1..];
    assert globs[1..] == seq(|rest|, (i: nat) requires i < |rest| => SegmentGlob(rest[i]));
  }

  /** One segment of the glob, and the slash after it: the path is cut at some slash, at the literal's end for a literal. */
  lemma SegmentCut(segment: string, q: string, path: string)
    requires !IsWildcard(segment)
    ensures Glob.Match(SegmentGlob(segment) + ("/" + q), path) <==>
            exists k :: 0 <= k < |path| && path[k] == '/' && (IsLiteral(segment) ==> path[..k] == segment) && Glob.Match(q, path[k+1..])
  {
    var p := "/" + q;
    assert p[1..] == q;
    if IsLiteral(segment) {
      Glob.EscapedLiteral(segment, p, path);
      if segment <= path {
        var rest := path[|segment|..];
        assert rest != [] ==> rest[1..] == path[|segment|+1..];
        assert path[..|segment|] == segment;
      }
    } else {
      Glob.Star(p, path);
      forall k | 0 <= k <= |path|
        ensures Glob.Match(p, path[k..]) <==> k < |path| && path[k] == '/' && Glob.Match(q, path[k+1..])
      {
        if k < |path| { assert path[k..][1..] == path[k+1..]; }
      }
    }
  }

  /** The last segment has no slash after it. */
  lemma LastSegment(segment: string, path: string)
    requires !IsWildcard(segment)
    ensures Glob.Match(SegmentGlob(segment), path) <==> (IsLiteral(segment) ==> path == segment)
  {
    if IsLiteral(segment) {
      Glob.EscapedLiteral(segment, "", path);
      assert Glob.Escape(segment) + "" == Glob.Escape(segment);
      if segment <= path && path[|segment|..] == [] { assert path == segment; }
    } else {
      Glob.Star("", path);
      assert "*" + "" == "*";
      assert path[|path|..] == [];
      assert Glob.Match("", path[|path|..]);
    }
  }

  lemma SlashCut(path: string, k: nat)
    requires k < |path| && path[k] == '/'
    ensures Count(path, '/') == Count(path[..k], '/') + 1 + Count(path[k+1..], '/')
  {
    assert path == path[..k] + ("/" + path[k+1..]);
    CountConcat(path[..k], "/" + path[k+1..], '/');
    assert ("/" + path[k+1..])[1..] == path[k+1..];
  }

  /** The pattern's own slashes are all in any path its glob matches. */
  lemma {:induction false} SlashesAtLeast(segments: seq<string>, path: string)
    requires Plain(segments) && Glob.Match(GlobOf(segments), path)
    ensures |segments| - 1 <= Count(path, '/')
  {
    if |segments| > 1 {
      GlobOfMore(segments);
      SegmentCut(segments[0], GlobOf(segments[1..]), path);
      var k :| 0 <= k < |path| && path[k] == '/' && Glob.Match(GlobOf(segments[1..]), path[k+1..]);
      SlashesAtLeast(segments[1..], path[k+1..]);
      SlashCut(path, k);
    }
  }

  /** A first segment that fits, before a rest that fits. */
  lemma FitsMore(segments: seq<string>, head: string, rest: seq<string>)
    requires segments != [] && (IsLiteral(segments[0]) ==> head == segments[0]) && Fits(segments[1..], rest)
    ensures Fits(segments, [head] + rest)
  {
    forall i | 0 <= i < |segments| && IsLiteral(segments[i]) ensures ([head] + rest)[i] == segments[i] {
      if i > 0 { assert rest[i-1] == segments[1..][i-1]; }
    }
  }

  /** Where a path of the right slash count is cut: its first segment holds none, and the rest has the rest of them. */
  lemma CutOfGlob(segments: seq<string>, path: string) returns (k: nat)
    requires Plain(segments) && |segments| > 1 && Glob.Match(GlobOf(segments), path) && Count(path, '/') == |segments| - 1
    ensures k < |path| && path[k] == '/' && '/' !in path[..k] && (IsLiteral(segments[0]) ==> path[..k] == segments[0])
    ensures Glob.Match(GlobOf(segments[1..]), path[k+1..]) && Count(path[k+1..], '/') == |segments| - 2
  {
    GlobOfMore(segments);
    SegmentCut(segments[0], GlobOf(segments[1..]), path);
    k :| 0 <= k < |path| && path[k] == '/' && (IsLiteral(segments[0]) ==> path[..k] == segments[0])
         && Glob.Match(GlobOf(segments[1..]), path[k+1..]);
    SlashesAtLeast(segments[1..], path[k+1..]);
    SlashCut(path, k);
    CountZero(path[..k], '/');
  }

  lemma {:induction false} GlobFits(segments: seq<string>, path: string)
    requires Plain(segments) && Glob.Match(GlobOf(segments), path) && Count(path, '/') == |segments| - 1
    ensures Fits(segments, Split(path))
  {
    if |segments| == 1 {
      assert segments == [segments[0]];
      GlobOfOne(segments[0]);
      LastSegment(segments[0], path);
      CountZero(path, '/');
      SplitWhole(path);
    } else {
      var k := CutOfGlob(segments, path);
      GlobFits(segments[1..], path[k+1..]);
      assert path == path[..k] + "/" + path[k+1..];
      SplitHead(path[..k], path[k+1..]);
      FitsMore(segments, path[..k], Split(path[k+1..]));
    }
  }

  lemma {:induction false} FitsGlob(segments: seq<string>, called: seq<string>)
    requires Plain(segments) && Fits(segments, called)
    ensures Glob.Match(GlobOf(segments), Join(called))
  {
    if |segments| == 1 {
      assert segments == [segments[0]];
      GlobOfOne(segments[0]);
      LastSegment(segments[0], called[0]);
    } else {
      FitsGlob(segments[1..], called[1..]);
      GlobOfMore(segments);
      var path, k := Join(called), |called[0]|;
      assert path[k] == '/' && path[..k] == called[0] && path[k+1..] == Join(called[1..]);
      SegmentCut(segments[0], GlobOf(segments[1..]), path);
    }
  }

  /**
   The compiled form is the plain rule: a path matches the glob and has the pattern's slash count exactly when it has
   as many segments and every literal segment is the same.
   */
  lemma {:induction false} CompiledRouteExact(route: string, path: string)
    requires forall i | 0 <= i < |Split(route)| :: !IsWildcard(Split(route)[i])
    ensures Glob.Match(GlobOf(Split(route)), path) && Count(path, '/') == |Split(route)| - 1 <==> Fits(Split(route), Split(path))
  {
    JoinSplit(path);
    if Fits(Split(route), Split(path)) {
      FitsGlob(Split(route), Split(path));
    }
    if Glob.Match(GlobOf(Split(route)), path) && Count(path, '/') == |Split(route)| - 1 {
      GlobFits(Split(route), path);
    }
  }

  // -------------------- which routes can both match --------------------

  /** Two routes some path could be both of: as many segments, and no two literals that differ. */
  predicate Compatible(a: seq<string>, b: seq<string>) {
    && |a| == |b|
    && forall i | 0 <= i < |a| && IsLiteral(a[i]) && IsLiteral(b[i]) :: a[i] == b[i]
  }

  /** A path of both. */
  function Common(a: seq<string>, b: seq<string>): seq<string>
    requires |a| == |b|
  {
    seq(|a|, i requires 0 <= i < |a| => if IsLiteral(a[i]) then a[i] else if IsLiteral(b[i]) then b[i] else "")
  }

  /** Some path is both routes exactly when no position holds two different literals. */
  lemma {:induction false} BothMatchExact(a: string, b: string)
    requires Plain(Split(a)) && Plain(Split(b))
    ensures Compatible(Split(a), Split(b)) <==> exists path :: Fits(Split(a), Split(path)) && Fits(Split(b), Split(path))
  {
    if Compatible(Split(a), Split(b)) {
      var called := Common(Split(a), Split(b));
      SplitJoin(called);
      assert Fits(Split(a), Split(Join(called))) && Fits(Split(b), Split(Join(called)));
    }
  }

  /** Routes with their literals in the same positions that both match one path are the same but for parameter names. */
  lemma SameLiteralsSameRoute(a: seq<string>, b: seq<string>, called: seq<string>)
    requires Fits(a, called) && Fits(b, called)
    requires forall i | 0 <= i < |a| :: IsLiteral(a[i]) <==> IsLiteral(b[i])
    ensures |a| == |b| && forall i | 0 <= i < |a| :: a[i] == b[i] || (!IsLiteral(a[i]) && !IsLiteral(b[i]))
  {
    assert forall i | 0 <= i < |a| && IsLiteral(a[i]) :: a[i] == called[i] == b[i];
  }

  // -------------------- specificity and rank --------------------

  datatype Specificity = Specificity(literals: int, params: int, wildcard: int)

  function CountParams(segments: seq<string>): nat {
    if segments == [] then 0 else (if ParamName(segments[0]).Some? then 1 else 0) + CountParams(segments[1..])
  }

  /** How closely a route pins a path down: more literals count most, then fewer parameters, then having no wildcard. */
  function SpecificityOf(path: string): Specificity {
    var segments := Split(path)[1..];
    var params: int := CountParams(segments);
    var wildcard: int := if "*" in segments then 1 else 0;
    Specificity(|segments| - params - wildcard, -params, -wildcard)
  }

  /** The sort's comparator answers below zero. */
  predicate MoreSpecific(x: Specificity, y: Specificity) {
    x.literals > y.literals
    || (x.literals == y.literals && (x.params > y.params || (x.params == y.params && x.wildcard > y.wildcard)))
  }

  datatype Route = Route(verb: string, path: string)

  datatype Pattern = Pattern(verb: string, pattern: string, glob: string, slashes: Option<nat>, params: nat, rank: nat)

  /** The key of the map that keeps one route per method and path. */
  function KeyOf(r: Route): string {
    r.verb + " " + r.path
  }

  function Compile(r: Route, rank: nat): Pattern {
    var segments := Split(r.path);
    Pattern(r.verb, r.path, GlobOf(segments), if "*" in segments then None else Some(|segments| - 1), CountParams(segments), rank)
  }

  /** The comparator over routes. */
  function Ranks(): (Route, Route) -> bool {
    (a: Route, b: Route) => MoreSpecific(SpecificityOf(a.path), SpecificityOf(b.path))
  }

  lemma RanksOrder()
    ensures Orders(Ranks())
  {
  }

  /** How many segments are of a kind. */
  function HowMany(segments: seq<string>, kind: string -> bool): nat {
    if segments == [] then 0 else (if kind(segments[0]) then 1 else 0) + HowMany(segments[1..], kind)
  }

  predicate IsParam(segment: string) {
    ParamName(segment).Some?
  }

  /** The literal segments; where there are several wildcards, all but one of them count as literals too. */
  function Literals(segments: seq<string>): nat {
    var wildcards := HowMany(segments, IsWildcard);
    HowMany(segments, IsLiteral) + if wildcards > 1 then wildcards - 1 else 0
  }

  /** In segments: no fewer literals; where as many, no more parameters; and where as many of those, no wildcard the other lacks. */
  predicate AsClose(a: seq<string>, b: seq<string>) {
    && Literals(a) >= Literals(b)
    && (Literals(a) == Literals(b) ==>
          && HowMany(a, IsParam) <= HowMany(b, IsParam)
          && (HowMany(a, IsParam) == HowMany(b, IsParam) && HowMany(a, IsWildcard) > 0 ==> HowMany(b, IsWildcard) > 0))
  }

  /** Every segment is one of the three kinds. */
  lemma {:induction false} Kinds(segments: seq<string>)
    ensures HowMany(segments, IsLiteral) + HowMany(segments, IsParam) + HowMany(segments, IsWildcard) == |segments|
    ensures HowMany(segments, IsParam) == CountParams(segments)
    ensures HowMany(segments, IsWildcard) > 0 <==> "*" in segments
  {
    if segments != [] {
      Kinds(segments[1..]);
      assert segments == [segments[0]] + segments[1..];
    }
  }

  /** The comparator's order is that order, of the segments after the first slash. */
  lemma {:induction false} RanksBySegments(a: Route, b: Route)
    ensures !Ranks()(b, a) <==> AsClose(Split(a.path)[1..], Split(b.path)[1..])
  {
    Kinds(Split(a.path)[1..]);
    Kinds(Split(b.path)[1..]);
  }

  /** Each route is as close as every later one. */
  predicate Descends(ordered: seq<Route>) {
    forall i, j | 0 <= i < j < |ordered| :: AsClose(Split(ordered[i].path)[1..], Split(ordered[j].path)[1..])
  }

  lemma {:induction false} OrderedDescends(ordered: seq<Route>)
    requires Ordered(ordered, Ranks())
    ensures Descends(ordered)
  {
    forall i, j | 0 <= i < j < |ordered| ensures AsClose(Split(ordered[i].path)[1..], Split(ordered[j].path)[1..]) {
      RanksBySegments(ordered[i], ordered[j]);
    }
  }

  /** The same route but for some parameters where it has literals. */
  predicate Sharpens(a: seq<string>, b: seq<string>) {
    && |a| == |b| && a != b
    && forall i | 0 <= i < |a| :: a[i] == b[i] || (IsLiteral(a[i]) && IsParam(b[i]))
  }

  lemma {:induction false} SharperCounts(a: seq<string>, b: seq<string>)
    requires |a| == |b| && forall i | 0 <= i < |a| :: a[i] == b[i] || (IsLiteral(a[i]) && IsParam(b[i]))
    ensures HowMany(a, IsWildcard) == HowMany(b, IsWildcard)
    ensures HowMany(a, IsLiteral) >= HowMany(b, IsLiteral)
    ensures a != b ==> HowMany(a, IsLiteral) > HowMany(b, IsLiteral)
  {
    if a != [] {
      SharperCounts(a[1..], b[1..]);
      assert a == [a[0]] + a[1..] && b == [b[0]] + b[1..];
    }
  }

  /** Of two routes that differ only where one has a literal and the other a parameter, the one with the literals ranks first. */
  lemma {:induction false} LiteralBeforeParameter(ordered: seq<Route>, i: nat, j: nat)
    requires Ordered(ordered, Ranks()) && i < |ordered| && j < |ordered|
    requires Sharpens(Split(ordered[i].path)[1..], Split(ordered[j].path)[1..])
    ensures i < j && Ranked(ordered)[i].rank < Ranked(ordered)[j].rank
  {
    var a, b := ordered[i], ordered[j];
    SharperCounts(Split(a.path)[1..], Split(b.path)[1..]);
    RanksBySegments(b, a);
    assert Ranks()(a, b);
    assert Ranked(ordered)[i].rank == i && Ranked(ordered)[j].rank == j;
  }

  /** Where a route's key is first declared. */
  ghost function Declared(routes: seq<Route>): Route -> int {
    (r: Route) => FirstAt(routes, KeyOf, KeyOf(r))
  }

  /** Some routes in rank order: most specific first, then first declared; each key once, none lost and none made up. */
  ghost predicate Ranking(ordered: seq<Route>, routes: seq<Route>) {
    && (forall i | 0 <= i < |ordered| :: ordered[i] in routes)
    && Covers(ordered, routes, KeyOf)
    && (forall i, j | 0 <= i < j < |ordered| :: KeyOf(ordered[i]) != KeyOf(ordered[j]))
    && Ordered(ordered, Ranks())
    && Descends(ordered)
    && Stable(ordered, Ranks(), Declared(routes))
  }

  /** Each compiled under its position. */
  function Ranked(ordered: seq<Route>): (patterns: seq<Pattern>)
    ensures |patterns| == |ordered|
  {
    seq(|ordered|, i requires 0 <= i < |ordered| => Compile(ordered[i], i))
  }

  /** The routes some patterns were compiled from. */
  function RoutesOf(patterns: seq<Pattern>): seq<Route> {
    seq(|patterns|, i requires 0 <= i < |patterns| => Route(patterns[i].verb, patterns[i].pattern))
  }

  lemma RoutesOfRanked(ordered: seq<Route>)
    ensures RoutesOf(Ranked(ordered)) == ordered
  {
  }

  /** `reachPatterns`: the compiled routes, one per method and path, most specific first. */
  method ReachPatterns(routes: seq<Route>) returns (patterns: seq<Pattern>)
    ensures patterns == Ranked(RoutesOf(patterns))
    ensures RoutesOf(patterns) == Sort(Unique(routes, KeyOf), Ranks())
    ensures Ranking(RoutesOf(patterns), routes)
  {
    var keys: seq<string>, unique: map<string, Route> := [], map[];
    for n := 0 to |routes|
      invariant Keeps(keys, unique, KeyOf) && Values(keys, unique) == Unique(routes[..n], KeyOf)
    {
      var route := routes[n];
      var key := KeyOf(route);
      assert routes[..n + 1][..n] == routes[..n];
      if key in unique {
        KeepsAgain(keys, unique, route, KeyOf);
      } else {
        KeepsNew(keys, unique, route, KeyOf);
        keys := keys + [key];
      }
      unique := unique[key := route];
    }
    assert routes[..|routes|] == routes;
    var ordered := Sort(Values(keys, unique), Ranks());
    patterns := Ranked(ordered);
    RoutesOfRanked(ordered);
    SortRanks(routes);
  }

  lemma {:induction false} SortRanks(routes: seq<Route>)
    ensures Ranking(Sort(Unique(routes, KeyOf), Ranks()), routes)
  {
    var values := Unique(routes, KeyOf);
    var ordered := Sort(values, Ranks());
    UniqueExact(routes, KeyOf);
    RanksOrder();
    SortSorts(values, Ranks());
    OrderedDescends(ordered);
    SortStable(values, Ranks(), Declared(routes));
    ReorderedKeys(values, ordered, KeyOf);
    SortMembers(values, ordered, routes);
    forall n | 0 <= n < |routes| ensures FirstAt(ordered, KeyOf, KeyOf(routes[n])) < |ordered| {
      var k := FirstAt(values, KeyOf, KeyOf(routes[n]));
      assert KeyOf(values[k]) == KeyOf(routes[n]);
    }
  }

  lemma {:induction false} SortMembers(values: seq<Route>, ordered: seq<Route>, routes: seq<Route>)
    requires multiset(ordered) == multiset(values) && forall i | 0 <= i < |values| :: values[i] in routes
    ensures forall i | 0 <= i < |ordered| :: ordered[i] in routes
  {
    forall i | 0 <= i < |ordered| ensures ordered[i] in routes {
      assert ordered[i] in multiset(ordered);
      assert ordered[i] in values;
    }
  }

  // -------------------- which route a call is --------------------

  /** The statement's match of one called path against one pattern. */
  predicate Matches(p: Pattern, verb: string, path: string) {
    p.verb == verb && Glob.Match(p.glob, path) && (p.slashes.Some? ==> Count(path, '/') == p.slashes.value)
  }

  function Matching(verb: string, path: string): Pattern -> bool {
    (p: Pattern) => Matches(p, verb, path)
  }

  /** A pattern that matches, and none of lower rank does. */
  ghost predicate Picks(patterns: seq<Pattern>, i: nat, matches: Pattern -> bool) {
    i < |patterns| && matches(patterns[i]) && forall j | 0 <= j < |patterns| && matches(patterns[j]) :: patterns[i].rank <= patterns[j].rank
  }

  /** A compiled route with no wildcard matches a call by the plain rule, and by its method. */
  lemma CompiledMatchExact(route: Route, rank: nat, verb: string, path: string)
    requires "*" !in Split(route.path)
    ensures Matches(Compile(route, rank), verb, path) <==> route.verb == verb && Fits(Split(route.path), Split(path))
  {
    forall i | 0 <= i < |Split(route.path)| ensures !IsWildcard(Split(route.path)[i]) { assert Split(route.path)[i] in Split(route.path); }
    CompiledRouteExact(route.path, path);
  }

  /** Whatever matches: no other match has the least one's rank, and none is more specific. */
  lemma {:induction false} LeastRank(ordered: seq<Route>, matches: Pattern -> bool, i: nat, j: nat)
    requires Ordered(ordered, Ranks()) && i < |ordered| && j < |ordered|
    ensures Picks(Ranked(ordered), i, matches) && matches(Ranked(ordered)[j]) ==>
              !Ranks()(ordered[j], ordered[i]) && (i != j ==> Ranked(ordered)[i].rank < Ranked(ordered)[j].rank)
  {
    var p := Ranked(ordered);
    assert p[i].rank == i && p[j].rank == j;
    RanksOrder();
  }

  /** The route a call is given is as specific as every declared route that matches it, and alone in its rank. */
  lemma {:induction false} LeastRankIsMostSpecific(ordered: seq<Route>, verb: string, path: string, i: nat, j: nat)
    requires Ordered(ordered, Ranks()) && i < |ordered| && j < |ordered|
    ensures Picks(Ranked(ordered), i, Matching(verb, path)) && Matches(Ranked(ordered)[j], verb, path) ==>
              && AsClose(Split(ordered[i].path)[1..], Split(ordered[j].path)[1..])
              && (i != j ==> Ranked(ordered)[i].rank < Ranked(ordered)[j].rank)
  {
    LeastRank(ordered, Matching(verb, path), i, j);
    RanksBySegments(ordered[i], ordered[j]);
  }

  /** Of equally close routes that both match, the one declared first is the one a call is given. */
  lemma {:induction false} TieGoesToFirstDeclared(ordered: seq<Route>, routes: seq<Route>, matches: Pattern -> bool, i: nat, j: nat)
    requires Ranking(ordered, routes) && i < |ordered| && j < |ordered|
    ensures Picks(Ranked(ordered), i, matches) && matches(Ranked(ordered)[j]) && AsClose(Split(ordered[j].path)[1..], Split(ordered[i].path)[1..]) ==>
              i == j || FirstAt(routes, KeyOf, KeyOf(ordered[i])) < FirstAt(routes, KeyOf, KeyOf(ordered[j]))
  {
    LeastRank(ordered, matches, i, j);
    RanksBySegments(ordered[j], ordered[i]);
    var p := Ranked(ordered);
    assert p[i].rank == i && p[j].rank == j;
  }

  /** Two routes the comparator leaves tied can both be one path, so which of them ranks first decides what it is. */
  lemma TiedRoutesCanBothMatch()
    ensures SpecificityOf("/:a/b") == SpecificityOf("/b/:a")
    ensures Fits(Split("/:a/b"), Split("/b/b")) && Fits(Split("/b/:a"), Split("/b/b"))
  {
    OneParam();
    SplitParts(":a", "b");
    SplitParts("b", ":a");
    SplitParts("b", "b");
    assert "/:a/b" == "/" + (":a" + "/" + "b");
    assert "/b/:a" == "/" + ("b" + "/" + ":a");
    assert "/b/b" == "/" + ("b" + "/" + "b");
    OneOfTwo(":a", "b");
    OneOfTwo("b", ":a");
  }

  lemma OneParam()
    ensures ParamName(":a") == Some("a") && IsLiteral("b")
  {
    assert ":a"[1..] == "a" && ":a"[1..2] == "a" && ":a"[2..] == "" && "a"[1..] == "";
    assert WordRun("a") == 1 && WordRun(":a"[1..]) == 1;
  }

  lemma OneOfTwo(a: string, b: string)
    requires (ParamName(a).Some? && IsLiteral(b)) || (IsLiteral(a) && ParamName(b).Some?)
    requires Split("/" + (a + "/" + b)) == ["", a, b] && a != "*" && b != "*"
    ensures SpecificityOf("/" + (a + "/" + b)) == Specificity(1, -1, 0)
  {
    assert ["", a, b][1..] == [a, b] && [a, b][1..] == [b] && [b][1..] == [];
    assert CountParams([b]) == if ParamName(b).Some? then 1 else 0;
    assert CountParams([a, b]) == 1;
  }

  lemma SplitParts(a: string, b: string)
    requires '/' !in a && '/' !in b
    ensures Split("/" + (a + "/" + b)) == ["", a, b]
  {
    SplitWhole(b);
    SplitHead(a, b);
    SplitHead("", a + "/" + b);
    assert "" + "/" + (a + "/" + b) == "/" + (a + "/" + b);
  }
}
