/** Reading one flag from an argument list: the loop, the rule it follows, and where citty's rule differs. */
module BooleanToken {
  import opened Options

  const PASSTHROUGH := "--"

  /** What one token says about a flag. */
  datatype Spelling = On | Off | Valued(typed: string) | NegatedValued(typed: string) | Unrelated

  function Spell(token: string, name: string): Spelling {
    var positive, negative := "--" + name, "--no-" + name;
    if token == negative then Off
    else if token == positive then On
    else if positive + "=" <= token then Valued(token[|positive| + 1..])
    else if negative + "=" <= token then NegatedValued(token[|negative| + 1..])
    else Unrelated
  }

  predicate TrueOrFalse(typed: string) {
    typed == "true" || typed == "false"
  }

  /** A value that is neither, on either spelling. */
  predicate IsMalformed(s: Spelling) {
    (s.Valued? || s.NegatedValued?) && !TrueOrFalse(s.typed)
  }

  predicate IsNegatedValue(s: Spelling) {
    s.NegatedValued?
  }

  /** What a token sets the flag to, if anything, a bare negation aside. */
  function Decides(s: Spelling): Option<bool> {
    match s
    case On => Some(true)
    case Valued(typed) => Some(typed != "false")
    case NegatedValued(typed) => if TrueOrFalse(typed) then Some(typed == "false") else None
    case _ => None
  }

  /** What citty takes it to set: a negation with a value is another flag to it. */
  function CittyDecides(s: Spelling): Option<bool> {
    if s.NegatedValued? then None else Decides(s)
  }

  /** The tokens before the first `--`. */
  function Flags(argv: seq<string>): (flags: seq<string>)
    ensures flags <= argv && PASSTHROUGH !in flags
    ensures |flags| < |argv| ==> argv[|flags|] == PASSTHROUGH
  {
    if argv == [] || argv[0] == PASSTHROUGH then []
    else
      assert forall t :: t in [argv[0]] + Flags(argv[1..]) <==> t == argv[0] || t in Flags(argv[1..]);
      [argv[0]] + Flags(argv[1..])
  }

  datatype Reading = Reading(value: Option<bool>, malformed: Option<string>, negatedValue: Option<string>)

  predicate Negated(flags: seq<string>, name: string) {
    exists i :: 0 <= i < |flags| && Spell(flags[i], name) == Off
  }

  /** `v` is what the last token that decides says, or nothing where none does. */
  predicate IsLast(flags: seq<string>, name: string, decides: Spelling -> Option<bool>, v: Option<bool>) {
    if v.None? then forall i | 0 <= i < |flags| :: decides(Spell(flags[i], name)).None?
    else exists i :: 0 <= i < |flags| && decides(Spell(flags[i], name)) == v
                     && forall j | i < j < |flags| :: decides(Spell(flags[j], name)).None?
  }

  /** `t` is the first token of a kind, or nothing where there is none. */
  predicate IsFirst(flags: seq<string>, name: string, kind: Spelling -> bool, t: Option<string>) {
    if t.None? then forall i | 0 <= i < |flags| :: !kind(Spell(flags[i], name))
    else exists i :: 0 <= i < |flags| && flags[i] == t.value && kind(Spell(flags[i], name))
                     && forall j | 0 <= j < i :: !kind(Spell(flags[j], name))
  }

  /** A bare negation anywhere is false; otherwise the last token that decides. */
  predicate IsValue(flags: seq<string>, name: string, decides: Spelling -> Option<bool>, v: Option<bool>) {
    if Negated(flags, name) then v == Some(false) else IsLast(flags, name, decides, v)
  }

  /** The declarative rule: only the tokens before `--`, read so. */
  predicate Reads(argv: seq<string>, name: string, r: Reading) {
    var flags := Flags(argv);
    && IsValue(flags, name, Decides, r.value)
    && IsFirst(flags, name, IsMalformed, r.malformed)
    && IsFirst(flags, name, IsNegatedValue, r.negatedValue)
  }

  predicate CittyReads(argv: seq<string>, name: string, v: Option<bool>) {
    IsValue(Flags(argv), name, CittyDecides, v)
  }

  function Or(t: Option<string>, token: string): Option<string> {
    if t.Some? then t else Some(token)
  }

  lemma LastMore(flags: seq<string>, token: string, name: string, decides: Spelling -> Option<bool>, v: Option<bool>)
    requires IsLast(flags, name, decides, v)
    ensures var d := decides(Spell(token, name)); IsLast(flags + [token], name, decides, if d.Some? then d else v)
  {
    var more, d := flags + [token], decides(Spell(token, name));
    if d.Some? {
      assert decides(Spell(more[|flags|], name)) == d;
    } else if v.Some? {
      var i :| 0 <= i < |flags| && decides(Spell(flags[i], name)) == v && forall j | i < j < |flags| :: decides(Spell(flags[j], name)).None?;
      assert decides(Spell(more[i], name)) == v;
    }
  }

  lemma FirstMore(flags: seq<string>, token: string, name: string, kind: Spelling -> bool, t: Option<string>)
    requires IsFirst(flags, name, kind, t)
    ensures IsFirst(flags + [token], name, kind, if kind(Spell(token, name)) then Or(t, token) else t)
  {
    var more := flags + [token];
    if t.Some? {
      var i :| 0 <= i < |flags| && flags[i] == t.value && kind(Spell(flags[i], name)) && forall j | 0 <= j < i :: !kind(Spell(flags[j], name));
      assert more[i] == t.value && kind(Spell(more[i], name));
    } else if kind(Spell(token, name)) {
      assert more[|flags|] == token && kind(Spell(more[|flags|], name));
    }
  }

  lemma NegatedMore(flags: seq<string>, token: string, name: string)
    ensures Negated(flags + [token], name) <==> Negated(flags, name) || Spell(token, name) == Off
  {
    var more := flags + [token];
    if Negated(flags, name) {
      var i :| 0 <= i < |flags| && Spell(flags[i], name) == Off;
      assert Spell(more[i], name) == Off;
    }
    if Spell(token, name) == Off { assert Spell(more[|flags|], name) == Off; }
  }

  /** What the loop has made of some tokens. */
  predicate SoFar(flags: seq<string>, name: string, negated: bool, value: Option<bool>, malformed: Option<string>, negatedValue: Option<string>) {
    && (negated <==> Negated(flags, name))
    && IsLast(flags, name, Decides, value)
    && IsFirst(flags, name, IsMalformed, malformed)
    && IsFirst(flags, name, IsNegatedValue, negatedValue)
  }

  lemma {:induction false} SoFarMore(flags: seq<string>, token: string, name: string,
                                     negated: bool, value: Option<bool>, malformed: Option<string>, negatedValue: Option<string>)
    requires SoFar(flags, name, negated, value, malformed, negatedValue)
    ensures var s := Spell(token, name);
            SoFar(flags + [token], name, negated || s == Off, if Decides(s).Some? then Decides(s) else value,
                  if IsMalformed(s) then Or(malformed, token) else malformed,
                  if IsNegatedValue(s) then Or(negatedValue, token) else negatedValue)
  {
    NegatedMore(flags, token, name);
    LastMore(flags, token, name, Decides, value);
    FirstMore(flags, token, name, IsMalformed, malformed);
    FirstMore(flags, token, name, IsNegatedValue, negatedValue);
  }

  /** One pass over the tokens. */
  method ReadBooleanToken(argv: seq<string>, name: string) returns (r: Reading)
    ensures Reads(argv, name, r)
  {
    var flags := Flags(argv);
    var positive, negative := "--" + name, "--no-" + name;
    var negated := false;
    var value: Option<bool>, malformed: Option<string>, negatedValue: Option<string> := None, None, None;
    for k := 0 to |flags|
      invariant SoFar(flags[..k], name, negated, value, malformed, negatedValue)
    {
      var token := flags[k];
      assert flags[..k + 1] == flags[..k] + [token];
      SoFarMore(flags[..k], token, name, negated, value, malformed, negatedValue);
      if token == negative {
        negated := true;
      } else if token == positive {
        value := Some(true);
      } else if positive + "=" <= token {
        var typed := token[|positive| + 1..];
        if typed != "true" && typed != "false" { malformed := Or(malformed, token); }
        value := Some(typed != "false");
      } else if negative + "=" <= token {
        var typed := token[|negative| + 1..];
        negatedValue := Or(negatedValue, token);
        if typed != "true" && typed != "false" { malformed := Or(malformed, token); } else { value := Some(typed == "false"); }
      }
    }
    assert flags[..|flags|] == flags;
    r := Reading(if negated then Some(false) else value, malformed, negatedValue);
  }

  lemma LastUnique(flags: seq<string>, name: string, decides: Spelling -> Option<bool>, v: Option<bool>, w: Option<bool>)
    requires IsLast(flags, name, decides, v) && IsLast(flags, name, decides, w)
    ensures v == w
  {
  }

  /** The token spells the flag in some way. */
  predicate Mentions(token: string, name: string) {
    token == "--" + name || token == "--no-" + name || "--" + name + "=" <= token || "--no-" + name + "=" <= token
  }

  /**
   What is read of an argv whose last token before `--` to mention the flag is known: false where it is negated bare
   anywhere; else true for the bare flag, anything but `false` for a value, and the opposite of a negated true or false.
   */
  lemma {:induction false} LastMention(argv: seq<string>, name: string, r: Reading, i: nat)
    requires Reads(argv, name, r) && i < |Flags(argv)|
    requires forall j | i < j < |Flags(argv)| :: !Mentions(Flags(argv)[j], name)
    ensures var flags, positive, negative := Flags(argv), "--" + name, "--no-" + name;
            && (negative in flags ==> r.value == Some(false))
            && (negative !in flags && flags[i] == positive ==> r.value == Some(true))
            && (negative !in flags && flags[i] != positive && positive + "=" <= flags[i] ==>
                  r.value == Some(flags[i] != positive + "=" + "false"))
            && (negative !in flags && flags[i] != positive && !(positive + "=" <= flags[i]) ==>
                  && (flags[i] == negative + "=" + "true" ==> r.value == Some(false))
                  && (flags[i] == negative + "=" + "false" ==> r.value == Some(true)))
  {
    var flags, positive, negative := Flags(argv), "--" + name, "--no-" + name;
    if negative in flags {
      var k :| 0 <= k < |flags| && flags[k] == negative;
      assert Spell(flags[k], name) == Off;
    } else {
      assert forall k | 0 <= k < |flags| :: Spell(flags[k], name) == Off ==> flags[k] == negative;
      ValueOf(flags[i], positive + "=", "false");
      ValueOf(flags[i], negative + "=", "true");
      ValueOf(flags[i], negative + "=", "false");
      if Decides(Spell(flags[i], name)).Some? {
        assert IsLast(flags, name, Decides, Decides(Spell(flags[i], name)));
        LastUnique(flags, name, Decides, r.value, Decides(Spell(flags[i], name)));
      }
    }
  }

  lemma ValueOf(token: string, prefix: string, typed: string)
    ensures prefix <= token ==> (token[|prefix|..] == typed <==> token == prefix + typed)
    ensures token == prefix + typed ==> prefix <= token
  {
    if prefix <= token { assert token == prefix + token[|prefix|..]; }
  }

  // -------------------- citty --------------------

  /** Where no token is a negation with a value, which `--json` refuses, the flag reads as citty parses it. */
  lemma AgreesWithCitty(argv: seq<string>, name: string, r: Reading, v: Option<bool>)
    requires Reads(argv, name, r) && CittyReads(argv, name, v) && r.negatedValue.None?
    ensures r.value == v
  {
    var flags := Flags(argv);
    forall i | 0 <= i < |flags| ensures Decides(Spell(flags[i], name)) == CittyDecides(Spell(flags[i], name)) {
    }
    if !Negated(flags, name) {
      assert IsLast(flags, name, Decides, v);
      LastUnique(flags, name, Decides, r.value, v);
    }
  }

  /** Nothing from `at` on is a token citty reads, and `at` is where that begins. */
  predicate Tail(flags: seq<string>, name: string, at: nat)
    requires at <= |flags|
  {
    && (forall i | at <= i < |flags| :: CittyDecides(Spell(flags[i], name)).None?)
    && (at > 0 ==> CittyDecides(Spell(flags[at-1], name)).Some?)
  }

  /** What the tail decides last, all the tokens do; a tail that decides nothing leaves the token before it the last. */
  lemma LastOfTail(flags: seq<string>, name: string, at: nat, tail: Option<bool>)
    requires at <= |flags| && IsLast(flags[at..], name, Decides, tail)
    ensures tail.Some? ==> IsLast(flags, name, Decides, tail)
    ensures tail.None? ==> forall j | at <= j < |flags| :: Decides(Spell(flags[j], name)).None?
  {
    var rest := flags[at..];
    assert forall j | at <= j < |flags| :: flags[j] == rest[j - at];
    if tail.Some? {
      var i :| 0 <= i < |rest| && Decides(Spell(rest[i], name)) == tail && forall j | i < j < |rest| :: Decides(Spell(rest[j], name)).None?;
      assert Decides(Spell(flags[at + i], name)) == tail;
    }
  }

  lemma LastBefore(flags: seq<string>, name: string, decides: Spelling -> Option<bool>, at: nat, v: Option<bool>)
    requires at <= |flags| && IsLast(flags, name, decides, v)
    requires forall j | at <= j < |flags| :: decides(Spell(flags[j], name)).None?
    requires at > 0 ==> decides(Spell(flags[at-1], name)).Some?
    ensures v == if at > 0 then decides(Spell(flags[at-1], name)) else None
  {
    LastUnique(flags, name, decides, v, if at > 0 then decides(Spell(flags[at-1], name)) else None);
  }

  /**
   Exactly when the two readings agree: a bare negation settles both; otherwise what is behind the last token citty reads
   either decides nothing, or last decides what that token did.
   */
  lemma AgreeExact(argv: seq<string>, name: string, r: Reading, v: Option<bool>, at: nat, tail: Option<bool>)
    requires at <= |Flags(argv)|
    ensures Reads(argv, name, r) && CittyReads(argv, name, v)
            && Tail(Flags(argv), name, at) && IsLast(Flags(argv)[at..], name, Decides, tail) ==>
              (r.value == v <==> Negated(Flags(argv), name) || tail.None? || tail == v)
  {
    var flags := Flags(argv);
    if Reads(argv, name, r) && CittyReads(argv, name, v) && Tail(flags, name, at) && IsLast(flags[at..], name, Decides, tail) && !Negated(flags, name) {
      LastOfTail(flags, name, at, tail);
      if tail.Some? {
        LastUnique(flags, name, Decides, r.value, tail);
      } else {
        LastBefore(flags, name, Decides, at, r.value);
        LastBefore(flags, name, CittyDecides, at, v);
      }
    }
  }

  /** `refuseJsonFlag`: the token it names, if it refuses. */
  function MisreadToken(r: Reading): Option<string> {
    if r.negatedValue.Some? then r.negatedValue else r.malformed
  }

  /** One of the four spellings that are read as written, or no spelling of the flag at all. */
  predicate ReadsAsWritten(token: string) {
    !Mentions(token, "json") || token == "--json" || token == "--no-json" || token == "--json=true" || token == "--json=false"
  }

  predicate AllReadAsWritten(flags: seq<string>) {
    forall i | 0 <= i < |flags| :: ReadsAsWritten(flags[i])
  }

  predicate NoneOf(flags: seq<string>, name: string, kind: Spelling -> bool) {
    forall i | 0 <= i < |flags| :: !kind(Spell(flags[i], name))
  }

  /** There is no first token of a kind exactly when there is none. */
  lemma NoFirst(flags: seq<string>, name: string, kind: Spelling -> bool, t: Option<string>)
    requires IsFirst(flags, name, kind, t)
    ensures t.None? <==> NoneOf(flags, name, kind)
  {
  }

  lemma {:induction false} AllAsWritten(flags: seq<string>)
    ensures NoneOf(flags, "json", IsMalformed) && NoneOf(flags, "json", IsNegatedValue) <==>
            AllReadAsWritten(flags)
  {
    forall i | 0 <= i < |flags|
      ensures ReadsAsWritten(flags[i]) <==> !IsMalformed(Spell(flags[i], "json")) && !IsNegatedValue(Spell(flags[i], "json"))
    {
      SpelledAsWritten(flags[i]);
    }
  }

  /** An argv `--json` accepts spells it only the four ways that are read as written, and citty reads it the same. */
  lemma {:induction false} AcceptedJson(argv: seq<string>, r: Reading, v: Option<bool>)
    requires Reads(argv, "json", r) && CittyReads(argv, "json", v)
    ensures MisreadToken(r).None? <==> AllReadAsWritten(Flags(argv))
    ensures MisreadToken(r).None? ==> r.value == v
  {
    NoFirst(Flags(argv), "json", IsMalformed, r.malformed);
    NoFirst(Flags(argv), "json", IsNegatedValue, r.negatedValue);
    AllAsWritten(Flags(argv));
    if MisreadToken(r).None? { AgreesWithCitty(argv, "json", r, v); }
  }

  lemma SpelledAsWritten(token: string)
    ensures !IsMalformed(Spell(token, "json")) && !IsNegatedValue(Spell(token, "json")) <==> ReadsAsWritten(token)
  {
    assert "--" + "json" == "--json" && "--no-" + "json" == "--no-json";
    assert "--json" + "=" == "--json=" && "--no-json" + "=" == "--no-json=";
    if "--json=" <= token { assert token == "--json=" + token[7..]; }
    if "--no-json=" <= token { assert token[2] == 'n' && |token| >= 10; }
    if token == "--json=true" { assert token[7..] == "true"; }
    if token == "--json=false" { assert token[7..] == "false"; }
  }
}
