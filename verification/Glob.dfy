/** SQLite's `GLOB`, and what an escaped literal and a parameter's star match in it. */
module Glob {
  import opened Options
  import opened Strings

  /** The rest of a `[...]` class after its opening: the pattern past its `]` when it admits `c`. */
  function ClassRest(p: string, c: char, seen: bool, prior: Option<char>, invert: bool): (rest: Option<string>)
    ensures rest.Some? ==> |rest.value| < |p|
    decreases |p|
  {
    if p == [] then None
    else if p[0] == ']' then (if seen != invert then Some(p[1..]) else None)
    else if p[0] == '-' && |p| > 1 && p[1] != ']' && prior.Some? then
      ClassRest(p[2..], c, seen || prior.value <= c <= p[1], None, invert)
    else
      ClassRest(p[1..], c, seen || c == p[0], Some(p[0]), invert)
  }

  function Class(p: string, c: char): (rest: Option<string>)
    ensures rest.Some? ==> |rest.value| < |p|
  {
    var invert := p != [] && p[0] == '^';
    var q := if invert then p[1..] else p;
    if q != [] && q[0] == ']' then ClassRest(q[1..], c, c == ']', None, invert)
    else ClassRest(q, c, false, None, invert)
  }

  /** `s GLOB p`. */
  predicate Match(p: string, s: string)
    decreases |p| + |s|
  {
    if p == [] then s == []
    else if p[0] == '*' then Match(p[1..], s) || (s != [] && Match(p, s[1..]))
    else if s == [] then false
    else if p[0] == '?' then Match(p[1..], s[1..])
    else if p[0] == '[' then
      var rest := Class(p[1..], s[0]);
      rest.Some? && Match(rest.value, s[1..])
    else p[0] == s[0] && Match(p[1..], s[1..])
  }

  lemma RangeRest(low: char, high: char, c: char, invert: bool)
    requires low != ']' && high != ']'
    ensures ClassRest([low, '-', high, ']'], c, false, None, invert) ==
            if (low <= c <= high || c == low) != invert then Some([]) else None
  {
    assert [low, '-', high, ']'][1..] == ['-', high, ']'];
    assert ['-', high, ']'][2..] == [']'] && [']'][1..] == [];
    var seen := low <= c <= high || c == low;
    assert ClassRest([']'], c, seen, None, invert) == if seen != invert then Some([]) else None;
    assert ClassRest(['-', high, ']'], c, c == low, Some(low), invert) == ClassRest([']'], c, seen, None, invert);
  }

  /** A class of one range admits what is between its ends, and with a caret everything else. */
  lemma RangeExact(low: char, high: char, c: char)
    requires low != ']' && low != '^' && high != ']'
    ensures Match(['[', low, '-', high, ']'], [c]) <==> low <= c <= high || c == low
    ensures Match(['[', '^', low, '-', high, ']'], [c]) <==> !(low <= c <= high || c == low)
  {
    RangeRest(low, high, c, false);
    RangeRest(low, high, c, true);
    assert ['[', low, '-', high, ']'][1..] == [low, '-', high, ']'];
    assert ['[', '^', low, '-', high, ']'][1..] == ['^', low, '-', high, ']'];
    assert ['^', low, '-', high, ']'][1..] == [low, '-', high, ']'];
    assert [c][1..] == [];
  }

  /** A bracket that comes first in a class is one of its members. */
  lemma BracketExact(c: char)
    ensures Match("[]]", [c]) <==> c == ']'
    ensures Match("[^]]", [c]) <==> c != ']'
  {
    assert "[]]"[1..] == "]]" && "]]"[1..] == "]" && "]"[1..] == "" && "[^]]"[1..] == "^]]" && "^]]"[1..] == "]]";
    assert [c][1..] == [];
  }

  predicate Special(c: char) {
    c == '*' || c == '?' || c == '['
  }

  /** Each metacharacter in a class of its own. */
  function Escape(segment: string): string {
    if segment == [] then []
    else (if Special(segment[0]) then ['[', segment[0], ']'] else [segment[0]]) + Escape(segment[1..])
  }

  lemma EscapedChar(c: char, q: string, s: string)
    ensures Match((if Special(c) then ['[', c, ']'] else [c]) + q, s) <==> s != [] && s[0] == c && Match(q, s[1..])
  {
    if Special(c) {
      var p := ['[', c, ']'] + q;
      assert p[1..] == [c, ']'] + q;
      assert p[1..][1..] == [']'] + q;
      assert ([']'] + q)[1..] == q;
      if s != [] {
        assert ClassRest(p[1..], s[0], false, None, false) == ClassRest([']'] + q, s[0], s[0] == c, Some(c), false);
      }
    } else {
      assert ([c] + q)[1..] == q;
    }
  }

  /** An escaped literal matches itself and nothing else, whatever pattern follows it. */
  lemma {:induction false} EscapedLiteral(literal: string, q: string, s: string)
    ensures Match(Escape(literal) + q, s) <==> literal <= s && Match(q, s[|literal|..])
  {
    if literal == [] {
      assert Escape(literal) + q == q;
    } else {
      var head := if Special(literal[0]) then ['[', literal[0], ']'] else [literal[0]];
      assert Escape(literal) + q == head + (Escape(literal[1..]) + q);
      EscapedChar(literal[0], Escape(literal[1..]) + q, s);
      if s != [] {
        EscapedLiteral(literal[1..], q, s[1..]);
        assert literal <= s <==> literal[0] == s[0] && literal[1..] <= s[1..];
        if literal <= s {
          assert s[1..][|literal|-1..] == s[|literal|..];
        }
      }
    }
  }

  /** A star takes any stretch of characters, slashes included. */
  lemma {:induction false} Star(q: string, s: string)
    ensures Match("*" + q, s) <==> exists k :: 0 <= k <= |s| && Match(q, s[k..])
    decreases |s|
  {
    assert ("*" + q)[1..] == q;
    assert s[0..] == s;
    if s != [] {
      Star(q, s[1..]);
      if k :| 0 <= k <= |s[1..]| && Match(q, s[1..][k..]) {
        assert s[1..][k..] == s[k+1..];
      }
      if k :| 0 < k <= |s| && Match(q, s[k..]) {
        assert s[1..][k-1..] == s[k..];
      }
    }
  }
}
