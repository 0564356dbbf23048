/** Keyspace members: how a member's stored name is composed, and taken apart. */
module Keyspace {
  import opened Options
  import opened Strings

  const SEPARATOR := '/'
  const MAX_KEY_LENGTH := 128

  predicate Alphanumeric(c: char) {
    Letter(c) || Digit(c)
  }

  /** `SecretKey`: letters, digits, dot, dash and underscore, beginning with a letter or digit. */
  predicate ValidKey(key: string) {
    && 1 <= |key| <= MAX_KEY_LENGTH
    && Alphanumeric(key[0])
    && forall i | 0 <= i < |key| :: Alphanumeric(key[i]) || key[i] in "._-"
  }

  /** A key is legal exactly when it is 1 to 128 of those characters, and the first is no mark. */
  lemma {:induction false} ValidKeyExact(key: string)
    ensures ValidKey(key) <==>
            && 0 < |key| < 129
            && (forall c | c in key :: c in "ABCDEFGHIJKLMNOPQRSTUVWXYZ" || c in "abcdefghijklmnopqrstuvwxyz" || c in "0123456789"
                                       || c == '.' || c == '-' || c == '_')
            && key[0] != '.' && key[0] != '-' && key[0] != '_'
  {
    forall c: char ensures Alphanumeric(c) <==>
      c in "ABCDEFGHIJKLMNOPQRSTUVWXYZ" || c in "abcdefghijklmnopqrstuvwxyz" || c in "0123456789"
    {
      LettersAndDigits(c);
    }
  }

  datatype InvalidKey = InvalidKey(keyspace: string)

  function KeyedSecretName(name: string, key: string): Result<string, InvalidKey> {
    if ValidKey(key) then Ok(name + [SEPARATOR] + key) else Err(InvalidKey(name))
  }

  /** `indexOf`, and the length where there is none. */
  function IndexOf(s: string, c: char): (at: nat)
    ensures at <= |s| && forall i | 0 <= i < at :: s[i] != c
    ensures at < |s| ==> s[at] == c
  {
    if s == [] || s[0] == c then 0 else 1 + IndexOf(s[1..], c)
  }

  datatype Member = Member(name: string, key: string)

  function ParseKeyedSecretName(stored: string): Option<Member> {
    var at := IndexOf(stored, SEPARATOR);
    if at == |stored| || at == 0 then None
    else if ValidKey(stored[at+1..]) then Some(Member(stored[..at], stored[at+1..])) else None
  }

  /** What a registry entry may be called. */
  predicate EntryName(name: string) {
    name != "" && SEPARATOR !in name
  }

  lemma KeyHasNoSeparator(key: string)
    requires ValidKey(key)
    ensures SEPARATOR !in key
  {
  }

  /** A slash-free text before the separator is what `indexOf` cuts at. */
  lemma CutAtFirst(name: string, key: string, at: nat)
    requires at == IndexOf(name + [SEPARATOR] + key, SEPARATOR)
    ensures at <= |name|
    ensures SEPARATOR !in name ==> at == |name|
  {
    var s := name + [SEPARATOR] + key;
    assert s[|name|] == SEPARATOR;
    assert forall i | 0 <= i < |name| :: s[i] == name[i];
  }

  /** Two members share a stored name only by being the same member, whatever their keyspaces are called. */
  lemma ComposeInjective(name1: string, key1: string, name2: string, key2: string)
    requires KeyedSecretName(name1, key1).Ok? && KeyedSecretName(name1, key1) == KeyedSecretName(name2, key2)
    ensures name1 == name2 && key1 == key2
  {
    var s := name1 + [SEPARATOR] + key1;
    KeyHasNoSeparator(key1);
    KeyHasNoSeparator(key2);
    assert s == name2 + [SEPARATOR] + key2;
    assert s[|name1|] == SEPARATOR && s[|name2|] == SEPARATOR;
    assert forall i | |name1| < i < |s| :: s[i] == key1[i - |name1| - 1];
    assert forall i | |name2| < i < |s| :: s[i] == key2[i - |name2| - 1];
    assert |name1| == |name2|;
    assert s[..|name1|] == name1 && s[..|name2|] == name2;
    assert s[|name1| + 1..] == key1 && s[|name2| + 1..] == key2;
  }

  /** Taking a composed name apart gives its keyspace and key back exactly when the keyspace is a legal entry name. */
  lemma RoundTripExact(name: string, key: string)
    requires ValidKey(key)
    ensures ParseKeyedSecretName(KeyedSecretName(name, key).value) == Some(Member(name, key)) <==> EntryName(name)
  {
    var s := name + [SEPARATOR] + key;
    var at := IndexOf(s, SEPARATOR);
    CutAtFirst(name, key, at);
    if EntryName(name) {
      assert s[..at] == name && s[at+1..] == key;
    }
    if ParseKeyedSecretName(s) == Some(Member(name, key)) {
      assert s[..at] == name;
    }
  }

  /** What parses is a member, and composes to the name it was parsed from; and nothing else does. */
  lemma ParseExact(stored: string, name: string, key: string)
    ensures ParseKeyedSecretName(stored) == Some(Member(name, key)) <==>
            EntryName(name) && KeyedSecretName(name, key) == Ok(stored)
  {
    var at := IndexOf(stored, SEPARATOR);
    if ParseKeyedSecretName(stored) == Some(Member(name, key)) {
      assert stored == stored[..at] + [SEPARATOR] + stored[at+1..];
    }
    if EntryName(name) && KeyedSecretName(name, key) == Ok(stored) {
      RoundTripExact(name, key);
    }
  }
}
