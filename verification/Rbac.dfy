/**
 Roles and policies (internal/rbac): rules compiled into a bitset and a key whitelist, policy
 snapshots replaced wholesale, and the mutations an administrator can apply. Names, rules and
 keys are byte strings.
 */
module Rbac {
  import opened Bytes
  import opened Bitset

  type Text = seq<byte>

  /** The bytes of an ASCII literal. */
  function B(s: string): Text {
    seq(|s|, i requires 0 <= i < |s| => s[i] as int % 256)
  }

  function Upper(s: Text): Text {
    seq(|s|, i requires 0 <= i < |s| => if 97 <= s[i] <= 122 then s[i] - 32 else s[i])
  }

  function Lower(s: Text): Text {
    seq(|s|, i requires 0 <= i < |s| => if 65 <= s[i] <= 90 then s[i] + 32 else s[i])
  }

  /**
   strings.ToUpper as far as it can give an ASCII name: besides the letters, U+0131 becomes I
   and U+017F becomes S; every other character stays outside ASCII.
   */
  function FoldUpper(s: Text): Text {
    if s == [] then []
    else if |s| >= 2 && s[0] == 0xC4 && s[1] == 0xB1 then B("I") + FoldUpper(s[2..])
    else if |s| >= 2 && s[0] == 0xC5 && s[1] == 0xBF then B("S") + FoldUpper(s[2..])
    else Upper(s[..1]) + FoldUpper(s[1..])
  }

  /** strings.ToLower likewise: U+0130 becomes i and U+212A becomes k. */
  function FoldLower(s: Text): Text {
    if s == [] then []
    else if |s| >= 2 && s[0] == 0xC4 && s[1] == 0xB0 then B("i") + FoldLower(s[2..])
    else if |s| >= 3 && s[0] == 0xE2 && s[1] == 0x84 && s[2] == 0xAA then B("k") + FoldLower(s[3..])
    else Lower(s[..1]) + FoldLower(s[1..])
  }

  const GET: u16 := 1
  const SET: u16 := 2
  const DEL: u16 := 3
  const COMMAND: u16 := 5
  const ROLE: u16 := 7
  const ACL: u16 := 8

  const NAMES: seq<string> := [
    "GET", "SET", "DEL", "PING", "COMMAND", "AUTH", "ROLE", "ACL", "INFO", "FLUSH", "SHUTDOWN",
    "CONFIG", "DEBUG", "MONITOR", "USER", "GRANT", "REVOKE"]

  function IndexOf(name: Text, i: nat): Option<u16>
    requires i <= |NAMES|
    decreases |NAMES| - i
  {
    if i == |NAMES| then None else if B(NAMES[i]) == name then Some(i + 1) else IndexOf(name, i + 1)
  }

  /** LookupCommand: ids are positions in the registry, counted from 1. */
  function Lookup(name: Text): Option<u16> { IndexOf(FoldUpper(name), 0) }

  /** Category, after folding; "none" is known and empty. */
  function Category(name: Text): Option<seq<u16>> {
    var n := FoldLower(name);
    if n == B("login") then Some([6, 4, 5])
    else if n == B("read") then Some([1, 9])
    else if n == B("write") then Some([2, 3])
    else if n == B("readwrite") then Some([1, 2, 3, 4, 5, 9, 6])
    else if n == B("operator") then Some([1, 2, 3, 4, 5, 9, 6, 10])
    else if n == B("maintenance") then Some([10, 11, 12, 13, 14])
    else if n == B("admin") then Some([6, 7, 8, 15, 16, 17])
    else if n == B("all") then Some(seq(17, i requires 0 <= i < 17 => i + 1))
    else if n == B("none") then Some([])
    else None
  }

  // ----- Rules -----

  const PLUS: byte := 43
  const MINUS: byte := 45
  const AT: byte := 64
  const TILDE: byte := 126
  const STAR: byte := 42

  /** The commands a rule of the given sign names, or nothing when it names none that exist. */
  function Named(rule: Text, sign: byte): Option<seq<u16>> {
    if |rule| == 0 || rule[0] != sign then Some([])
    else if |rule| >= 2 && rule[1] == AT then Category(rule[2..])
    else
      var id := Lookup(rule[1..]);
      if id.Some? then Some([id.value]) else None
  }

  predicate Grants(rule: Text, id: u16) {
    Named(rule, PLUS).Some? && id in Named(rule, PLUS).value
  }

  predicate Denies(rule: Text, id: u16) {
    Named(rule, MINUS).Some? && id in Named(rule, MINUS).value
  }

  /** The key prefix of a ~ rule with one trailing star taken off. */
  function Prefix(rule: Text): Text
    requires |rule| >= 1
  {
    if |rule| >= 2 && rule[|rule| - 1] == STAR then rule[1..|rule| - 1] else rule[1..]
  }

  predicate AllKeys(rule: Text) { rule == [TILDE, STAR] }

  predicate WellFormed(rule: Text) {
    && |rule| > 0
    && (rule[0] == PLUS || rule[0] == MINUS || rule[0] == TILDE)
    && Named(rule, PLUS).Some? && Named(rule, MINUS).Some?
    && (rule[0] == TILDE ==> AllKeys(rule) || Prefix(rule) != [])
  }

  /** The prefixes the rules whitelist, in order. */
  function Prefixes(rules: seq<Text>): seq<Text> {
    if rules == [] then []
    else Prefixes(rules[..|rules| - 1]) + Own(rules[|rules| - 1])
  }

  function Own(rule: Text): seq<Text> {
    if IsPrefixRule(rule) then [Prefix(rule)] else []
  }

  predicate IsPrefixRule(rule: Text) { |rule| > 0 && rule[0] == TILDE && !AllKeys(rule) }

  datatype Role = Role(name: Text, permissions: seq<u64>, namespaces: seq<Text>)
  {
    predicate AllowsKey(key: Text) {
      namespaces == [] || exists i :: 0 <= i < |namespaces| && namespaces[i] <= key
    }
  }

  /** A command is held when some rule grants it and none denies it, wherever the rules stand. */
  ghost predicate Holds(rules: seq<Text>, id: u16) {
    && (exists i :: 0 <= i < |rules| && Grants(rules[i], id))
    && (forall i :: 0 <= i < |rules| ==> !Denies(rules[i], id))
  }

  /** Turn on every listed id. */
  method SetAll(perms: Bits, ids: seq<u16>)
    modifies perms
    ensures forall id: u16 :: Has(perms.words, id) <==> id in ids || Has(old(perms.words), id)
  {
    hide Has;
    for i := 0 to |ids|
      invariant forall id: u16 :: Has(perms.words, id) <==> id in ids[..i] || Has(old(perms.words), id)
    {
      perms.Set(ids[i]);
      assert ids[..i + 1] == ids[..i] + [ids[i]];
    }
    assert ids[..|ids|] == ids;
  }

  method ClearAll(perms: Bits, ids: seq<u16>)
    modifies perms
    ensures forall id: u16 :: Has(perms.words, id) <==> id !in ids && Has(old(perms.words), id)
  {
    hide Has;
    for i := 0 to |ids|
      invariant forall id: u16 :: Has(perms.words, id) <==> id !in ids[..i] && Has(old(perms.words), id)
    {
      perms.Clear(ids[i]);
      assert ids[..i + 1] == ids[..i] + [ids[i]];
    }
    assert ids[..|ids|] == ids;
  }

  /** The switch on one rule: grants go to the bitset, denials to a list, prefixes to another. */
  method ApplyRule(rule: Text, perms: Bits, denies: seq<u16>, namespaces: seq<Text>)
    returns (ok: bool, denies1: seq<u16>, namespaces1: seq<Text>)
    modifies perms
    ensures ok <==> WellFormed(rule)
    ensures ok ==> namespaces1 == namespaces + Own(rule)
    ensures ok ==> forall id: u16 :: Has(perms.words, id) <==> Grants(rule, id) || Has(old(perms.words), id)
    ensures ok ==> forall id: u16 :: id in denies1 <==> Denies(rule, id) || id in denies
  {
    hide Has, Category, Lookup, Grants, Denies;
    ok, denies1, namespaces1 := true, denies, namespaces;
    if |rule| >= 2 && rule[0] == PLUS && rule[1] == AT {
      var ids := Category(rule[2..]);
      if ids.None? { ok := false; return; }
      PlusRule(rule, ids.value);
      SetAll(perms, ids.value);
    } else if |rule| >= 2 && rule[0] == MINUS && rule[1] == AT {
      var ids := Category(rule[2..]);
      if ids.None? { ok := false; return; }
      MinusRule(rule, ids.value);
      denies1 := denies + ids.value;
    } else if |rule| >= 1 && rule[0] == PLUS {
      var id := Lookup(rule[1..]);
      if id.None? { ok := false; return; }
      PlusRule(rule, [id.value]);
      perms.Set(id.value);
    } else if |rule| >= 1 && rule[0] == MINUS {
      var id := Lookup(rule[1..]);
      if id.None? { ok := false; return; }
      MinusRule(rule, [id.value]);
      denies1 := denies + [id.value];
    } else if |rule| >= 1 && rule[0] == TILDE {
      TildeRule(rule);
      if rule != [TILDE, STAR] {
        var prefix := if rule[|rule| - 1] == STAR && |rule| >= 2 then rule[1..|rule| - 1] else rule[1..];
        if |prefix| == 0 { ok := false; return; }
        namespaces1 := namespaces + [prefix];
      }
    } else {
      ok := false;
    }
  }

  /**
   ParseRole. Denials are collected and cleared last, so their position does not matter.
   */
  method ParseRole(name: Text, rules: seq<Text>) returns (r: Option<Role>)
    ensures r.Some? <==> rules != [] && forall i :: 0 <= i < |rules| ==> WellFormed(rules[i])
    ensures r.Some? ==> r.value.name == name && r.value.namespaces == Prefixes(rules)
    ensures r.Some? ==> forall id: u16 :: Has(r.value.permissions, id) <==> Holds(rules, id)
  {
    hide Has, Grants, Denies, WellFormed, Own;
    if |rules| == 0 { return None; }
    var perms := new Bits();
    var denies: seq<u16> := [];
    var namespaces: seq<Text> := [];
    for i := 0 to |rules|
      invariant fresh(perms)
      invariant forall j :: 0 <= j < i ==> WellFormed(rules[j])
      invariant namespaces == Prefixes(rules[..i])
      invariant forall id: u16 :: Has(perms.words, id) <==> Granted(rules, i, id)
      invariant forall id: u16 :: id in denies <==> Denied(rules, i, id)
    {
      assert rules[..i + 1][..i] == rules[..i];
      var ok;
      ok, denies, namespaces := ApplyRule(rules[i], perms, denies, namespaces);
      if !ok { return None; }
    }
    assert rules[..|rules|] == rules;
    ClearAll(perms, denies);
    r := Some(Role(name, perms.words, namespaces));
  }

  ghost predicate Granted(rules: seq<Text>, n: nat, id: u16)
    requires n <= |rules|
  {
    exists i :: 0 <= i < n && Grants(rules[i], id)
  }

  ghost predicate Denied(rules: seq<Text>, n: nat, id: u16)
    requires n <= |rules|
  {
    exists i :: 0 <= i < n && Denies(rules[i], id)
  }

  lemma PlusRule(rule: Text, ids: seq<u16>)
    requires |rule| > 0 && rule[0] == PLUS && Named(rule, PLUS) == Some(ids)
    ensures WellFormed(rule) && forall id: u16 :: (Grants(rule, id) <==> id in ids) && !Denies(rule, id)
  {}

  lemma MinusRule(rule: Text, ids: seq<u16>)
    requires |rule| > 0 && rule[0] == MINUS && Named(rule, MINUS) == Some(ids)
    ensures WellFormed(rule) && forall id: u16 :: (Denies(rule, id) <==> id in ids) && !Grants(rule, id)
  {}

  lemma TildeRule(rule: Text)
    requires |rule| > 0 && rule[0] == TILDE
    ensures WellFormed(rule) <==> AllKeys(rule) || Prefix(rule) != []
    ensures forall id: u16 :: !Grants(rule, id) && !Denies(rule, id)
  {}

  predicate Lets(rule: Text, key: Text) { IsPrefixRule(rule) && Prefix(rule) <= key }

  predicate AnyPrefix(ps: seq<Text>, key: Text) { exists k :: 0 <= k < |ps| && ps[k] <= key }

  /** Which keys the whitelist of a rule list lets through: all, unless a prefix rule is present. */
  lemma WhitelistMeaning(r: Role, rules: seq<Text>, key: Text)
    requires r.namespaces == Prefixes(rules)
    ensures r.AllowsKey(key) <==>
            ((forall i :: 0 <= i < |rules| ==> !IsPrefixRule(rules[i]))
             || (exists i :: 0 <= i < |rules| && Lets(rules[i], key)))
  {
    PrefixesAre(rules, key);
  }

  lemma {:induction false} PrefixesAre(rules: seq<Text>, key: Text)
    ensures Prefixes(rules) == [] <==> forall i :: 0 <= i < |rules| ==> !IsPrefixRule(rules[i])
    ensures AnyPrefix(Prefixes(rules), key) <==> exists i :: 0 <= i < |rules| && Lets(rules[i], key)
  {
    hide Lets, AnyPrefix, Prefix, IsPrefixRule, AllKeys, Own;
    if rules == [] {
      AnyPrefixNone(key);
    } else {
      var n := |rules| - 1;
      var init, last := rules[..n], rules[n];
      PrefixesAre(init, key);
      OwnPrefix(last, key);
      AnyPrefixSnoc(Prefixes(init), Own(last), key);
      SplitLast(rules, key);
    }
  }

  lemma SplitLast(rules: seq<Text>, key: Text)
    requires rules != []
    ensures var n := |rules| - 1;
            && ((exists i :: 0 <= i < |rules| && Lets(rules[i], key))
               <==> ((exists i :: 0 <= i < n && Lets(rules[..n][i], key)) || Lets(rules[n], key)))
            && ((forall i :: 0 <= i < |rules| ==> !IsPrefixRule(rules[i]))
               <==> ((forall i :: 0 <= i < n ==> !IsPrefixRule(rules[..n][i])) && !IsPrefixRule(rules[n])))
  {
    hide Lets, IsPrefixRule;
    var n := |rules| - 1;
    assert forall i :: 0 <= i < n ==> rules[..n][i] == rules[i];
  }

  lemma OwnPrefix(rule: Text, key: Text)
    ensures AnyPrefix(Own(rule), key) <==> Lets(rule, key)
    ensures Own(rule) == [] <==> !IsPrefixRule(rule)
  {
    if IsPrefixRule(rule) { assert Own(rule)[0] == Prefix(rule); }
  }

  lemma AnyPrefixNone(key: Text)
    ensures !AnyPrefix([], key)
  {}

  lemma AnyPrefixSnoc(ps: seq<Text>, qs: seq<Text>, key: Text)
    ensures AnyPrefix(ps + qs, key) <==> AnyPrefix(ps, key) || AnyPrefix(qs, key)
  {
    var all := ps + qs;
    if AnyPrefix(ps, key) {
      var k :| 0 <= k < |ps| && ps[k] <= key;
      assert all[k] <= key;
    }
    if AnyPrefix(qs, key) {
      var k :| 0 <= k < |qs| && qs[k] <= key;
      assert all[|ps| + k] <= key;
    }
  }
}
