/**
 The admin payloads of the binary protocol (internal/network/role.go, acl.go): ROLE arguments,
 ROLE LIST and ACL LOG, encoded and decoded by the loops of the source and proved to be
 bijections between encodable values and accepted payloads.
 */
module NetCodec {
  import opened Bytes
  import opened Codec

  type Text = seq<byte>

  datatype RoleEntry = RoleEntry(name: Text, commands: seq<Text>, namespaces: seq<Text>)

  datatype LogEntry = LogEntry(timestamp: Text, username: Text, remoteAddr: Text, reason: Text)

  /** A codec read through an isomorphism. */
  function Via<S, T>(c: Codec<S>, to: T -> S, from: S -> T): Codec<T> {
    Codec((x: T) => c.ok(to(x)), (x: T) => c.enc(to(x)),
          (b: seq<byte>) => var r := c.dec(b); if r.None? then None else Some((from(r.value.0), r.value.1)))
  }

  lemma ViaLawful<S(!new), T(!new)>(c: Codec<S>, to: T -> S, from: S -> T)
    requires Lawful(c) && (forall x :: from(to(x)) == x) && (forall y :: to(from(y)) == y)
    ensures Lawful(Via(c, to, from))
  {
    var v := Via(c, to, from);
    forall x: T, rest: seq<byte> | v.ok(x) ensures v.dec(v.enc(x) + rest) == Some((x, |v.enc(x)|)) {
      assert c.dec(c.enc(to(x)) + rest) == Some((to(x), |c.enc(to(x))|));
    }
    forall b: seq<byte> | v.dec(b).Some?
      ensures var (x, n) := v.dec(b).value; v.ok(x) && n <= |b| && b[..n] == v.enc(x)
    {
      var (y, n) := c.dec(b).value;
      assert to(from(y)) == y;
    }
  }

  function RoleCodec(): Codec<RoleEntry> {
    Via(Pair(Token(), Pair(List(Token()), List(Token()))),
        (e: RoleEntry) => (e.name, (e.commands, e.namespaces)),
        (t: (Text, (seq<Text>, seq<Text>))) => RoleEntry(t.0, t.1.0, t.1.1))
  }

  function LogCodec(): Codec<LogEntry> {
    Via(Pair(Token(), Pair(Token(), Pair(Token(), Token()))),
        (e: LogEntry) => (e.timestamp, (e.username, (e.remoteAddr, e.reason))),
        (t: (Text, (Text, (Text, Text)))) => LogEntry(t.0, t.1.0, t.1.1.0, t.1.1.1))
  }

  lemma RoleLawful()
    ensures Lawful(RoleCodec())
  {
    hide Lawful;
    TokenLawful();
    ListLawful(Token());
    PairLawful(List(Token()), List(Token()));
    PairLawful(Token(), Pair(List(Token()), List(Token())));
    ViaLawful(Pair(Token(), Pair(List(Token()), List(Token()))),
              (e: RoleEntry) => (e.name, (e.commands, e.namespaces)),
              (t: (Text, (seq<Text>, seq<Text>))) => RoleEntry(t.0, t.1.0, t.1.1));
  }

  lemma LogLawful()
    ensures Lawful(LogCodec())
  {
    hide Lawful;
    TokenLawful();
    PairLawful(Token(), Token());
    PairLawful(Token(), Pair(Token(), Token()));
    PairLawful(Token(), Pair(Token(), Pair(Token(), Token())));
    ViaLawful(Pair(Token(), Pair(Token(), Pair(Token(), Token()))),
              (e: LogEntry) => (e.timestamp, (e.username, (e.remoteAddr, e.reason))),
              (t: (Text, (Text, (Text, Text)))) => LogEntry(t.0, t.1.0, t.1.1.0, t.1.1.1));
  }

  // ----- The bijections -----

  lemma RoleArgsBijection(payload: seq<byte>, args: seq<Text>)
    ensures Whole(List(Token()), payload) == Some(args) <==> ListOk(Token(), args) && payload == ListEnc(Token(), args)
  {
    hide Lawful, Whole;
    TokenLawful();
    ListLawful(Token());
    WholeIff(List(Token()), payload, args);
  }

  lemma RoleListBijection(payload: seq<byte>, entries: seq<RoleEntry>)
    ensures Whole(List(RoleCodec()), payload) == Some(entries)
            <==> ListOk(RoleCodec(), entries) && payload == ListEnc(RoleCodec(), entries)
  {
    hide Lawful, Whole;
    RoleLawful();
    ListLawful(RoleCodec());
    WholeIff(List(RoleCodec()), payload, entries);
  }

  lemma AclLogBijection(payload: seq<byte>, entries: seq<LogEntry>)
    ensures Whole(List(LogCodec()), payload) == Some(entries)
            <==> ListOk(LogCodec(), entries) && payload == ListEnc(LogCodec(), entries)
  {
    hide Lawful, Whole;
    LogLawful();
    ListLawful(LogCodec());
    WholeIff(List(LogCodec()), payload, entries);
  }

  // ----- Encoding loops -----

  lemma {:induction false} ItemsSnoc<T>(c: Codec<T>, xs: seq<T>, i: nat)
    requires i < |xs|
    ensures Items(c, xs[..i + 1]) == Items(c, xs[..i]) + c.enc(xs[i])
    decreases |xs|
  {
    var ys := xs[..i + 1];
    if i > 0 {
      ItemsSnoc(c, xs[1..], i - 1);
      assert ys[1..] == xs[1..][..i] && xs[..i][1..] == xs[1..][..i - 1];
      assert xs[1..][i - 1] == xs[i];
    } else {
      assert ys[1..] == [];
    }
  }

  /** encodeList: appended to buf, or refused when the count or an item does not fit in 16 bits. */
  method EncodeList(buf: seq<byte>, items: seq<Text>) returns (r: Option<seq<byte>>)
    ensures r == if ListOk(Token(), items) then Some(buf + ListEnc(Token(), items)) else None
  {
    hide Be, Items;
    if |items| > U16 - 1 { return None; }
    var out := buf + Be(|items|, 2);
    ItemsNone(Token());
    assert items[..0] == [];
    for i := 0 to |items|
      invariant forall j :: 0 <= j < i ==> TokenOk(items[j])
      invariant out == buf + Be(|items|, 2) + Items(Token(), items[..i])
    {
      if |items[i]| > U16 - 1 {
        assert !Token().ok(items[i]);
        return None;
      }
      ItemsSnoc(Token(), items, i);
      out := out + Be(|items[i]|, 2) + items[i];
    }
    assert items[..|items|] == items;
    Regroup(buf, Be(|items|, 2), Items(Token(), items));
    r := Some(out);
  }

  lemma Regroup(a: seq<byte>, b: seq<byte>, c: seq<byte>)
    ensures a + b + c == a + (b + c)
  {}

  lemma ItemsNone<T>(c: Codec<T>)
    ensures Items(c, []) == []
  {}

  function Sizes(args: seq<Text>): nat {
    if args == [] then 0 else Sizes(args[..|args| - 1]) + 2 + |args[|args| - 1]|
  }

  lemma {:induction false} SizesAre(args: seq<Text>, i: nat)
    requires i <= |args|
    ensures |Items(Token(), args[..i])| == Sizes(args[..i]) && Sizes(args[..i]) <= Sizes(args)
    decreases |args| - i, i
  {
    SizesCount(args, i);
    SizesGrow(args, i);
  }

  lemma {:induction false} SizesCount(args: seq<Text>, i: nat)
    requires i <= |args|
    ensures |Items(Token(), args[..i])| == Sizes(args[..i])
  {
    if i > 0 {
      SizesCount(args, i - 1);
      ItemsSnoc(Token(), args, i - 1);
      assert args[..i][..i - 1] == args[..i - 1];
    }
  }

  lemma {:induction false} SizesGrow(args: seq<Text>, i: nat)
    requires i <= |args|
    ensures Sizes(args[..i]) <= Sizes(args)
  {
    if i < |args| {
      SizesGrow(args[..|args| - 1], i);
      assert args[..|args| - 1][..i] == args[..i];
    } else {
      assert args[..i] == args;
    }
  }

  /** copy(buf[pos:], a). */
  method CopyAt(buf: array<byte>, pos: nat, a: Text)
    requires pos + |a| <= buf.Length
    modifies buf
    ensures buf[..pos + |a|] == old(buf[..pos]) + a
  {
    for k := 0 to |a|
      invariant buf[..pos + k] == old(buf[..pos]) + a[..k]
    {
      buf[pos + k] := a[k];
    }
  }

  /** EncodeRoleArgs: sized first, then filled in place. */
  method EncodeRoleArgs(args: seq<Text>) returns (r: Option<seq<byte>>)
    ensures r == if ListOk(Token(), args) then Some(ListEnc(Token(), args)) else None
  {
    hide Be, Items, Sizes;
    if |args| > U16 - 1 { return None; }
    var size := 2;
    SizesNone();
    assert args[..0] == [];
    for i := 0 to |args|
      invariant forall j :: 0 <= j < i ==> TokenOk(args[j])
      invariant size == 2 + Sizes(args[..i])
    {
      if |args[i]| > U16 - 1 {
        assert !Token().ok(args[i]);
        return None;
      }
      SizesSnoc(args, i);
      size := size + 2 + |args[i]|;
    }
    assert args[..|args|] == args;
    var buf := new byte[size](_ => 0);
    CopyAt(buf, 0, Be(|args|, 2));
    var pos := 2;
    ItemsNone(Token());
    for i := 0 to |args|
      invariant buf.Length == 2 + Sizes(args) && pos == 2 + Sizes(args[..i]) <= buf.Length
      invariant buf[..pos] == Be(|args|, 2) + Items(Token(), args[..i])
    {
      SizesSnoc(args, i);
      SizesAre(args, i + 1);
      ItemsSnoc(Token(), args, i);
      CopyAt(buf, pos, Be(|args[i]|, 2));
      pos := pos + 2;
      CopyAt(buf, pos, args[i]);
      pos := pos + |args[i]|;
    }
    assert buf[..pos] == buf[..];
    r := Some(buf[..]);
  }

  lemma SizesNone()
    ensures Sizes([]) == 0
  {}

  lemma SizesSnoc(args: seq<Text>, i: nat)
    requires i < |args|
    ensures Sizes(args[..i + 1]) == Sizes(args[..i]) + 2 + |args[i]|
  {
    assert args[..i + 1][..i] == args[..i];
  }

  method EncodeRoleList(entries: seq<RoleEntry>) returns (r: Option<seq<byte>>)
    ensures r == if ListOk(RoleCodec(), entries) then Some(ListEnc(RoleCodec(), entries)) else None
  {
    hide Be, Items, ListEnc, ListOk, TokenEnc, RoleCodec;
    if |entries| > U16 - 1 { TooLong(RoleCodec(), entries); return None; }
    var buf := Be(|entries|, 2);
    ItemsNone(RoleCodec());
    assert entries[..0] == [];
    for i := 0 to |entries|
      invariant forall j :: 0 <= j < i ==> RoleCodec().ok(entries[j])
      invariant buf == Be(|entries|, 2) + Items(RoleCodec(), entries[..i])
    {
      var e := entries[i];
      ghost var before := buf;
      RoleParts(e);
      if |e.name| > U16 - 1 { NotOk(RoleCodec(), entries, i); return None; }
      buf := buf + TokenEnc(e.name);
      var list := EncodeList(buf, e.commands);
      if list.None? { NotOk(RoleCodec(), entries, i); return None; }
      buf := list.value;
      list := EncodeList(buf, e.namespaces);
      if list.None? { NotOk(RoleCodec(), entries, i); return None; }
      buf := list.value;
      ItemsSnoc(RoleCodec(), entries, i);
      Regroup(before, TokenEnc(e.name), ListEnc(Token(), e.commands));
      Regroup(before, TokenEnc(e.name) + ListEnc(Token(), e.commands), ListEnc(Token(), e.namespaces));
      Regroup(TokenEnc(e.name), ListEnc(Token(), e.commands), ListEnc(Token(), e.namespaces));
      Regroup(Be(|entries|, 2), Items(RoleCodec(), entries[..i]), RoleCodec().enc(e));
    }
    assert entries[..|entries|] == entries;
    Fits(RoleCodec(), entries);
    r := Some(buf);
  }

  lemma RoleParts(e: RoleEntry)
    ensures RoleCodec().ok(e) <==> TokenOk(e.name) && ListOk(Token(), e.commands) && ListOk(Token(), e.namespaces)
    ensures RoleCodec().enc(e) == TokenEnc(e.name) + (ListEnc(Token(), e.commands) + ListEnc(Token(), e.namespaces))
  {
    hide ListOk, ListEnc, TokenOk, TokenEnc;
  }

  lemma TooLong<T>(c: Codec<T>, xs: seq<T>)
    requires |xs| >= U16
    ensures !ListOk(c, xs)
  {}

  lemma NotOk<T>(c: Codec<T>, xs: seq<T>, i: nat)
    requires i < |xs| && !c.ok(xs[i])
    ensures !ListOk(c, xs)
  {}

  lemma Fits<T>(c: Codec<T>, xs: seq<T>)
    requires |xs| < U16 && forall i :: 0 <= i < |xs| ==> c.ok(xs[i])
    ensures ListOk(c, xs) && ListEnc(c, xs) == Be(|xs|, 2) + Items(c, xs)
  {}

  function Fields(e: LogEntry): seq<Text> { [e.timestamp, e.username, e.remoteAddr, e.reason] }

  lemma FieldsEncode(e: LogEntry)
    ensures LogCodec().enc(e) == Items(Token(), Fields(e))
    ensures LogCodec().ok(e) <==> AllOk(Token(), Fields(e))
  {
    hide TokenEnc, TokenOk, Items;
    var f := Fields(e);
    var none: seq<Text> := [];
    ItemsNone(Token());
    ItemsCons(Token(), e.reason, none);
    ItemsCons(Token(), e.remoteAddr, [e.reason]);
    ItemsCons(Token(), e.username, [e.remoteAddr, e.reason]);
    ItemsCons(Token(), e.timestamp, [e.username, e.remoteAddr, e.reason]);
    assert [e.reason] + none == [e.reason] && [e.remoteAddr] + [e.reason] == [e.remoteAddr, e.reason];
    assert [e.username] + [e.remoteAddr, e.reason] == [e.username, e.remoteAddr, e.reason];
    assert [e.timestamp] + [e.username, e.remoteAddr, e.reason] == f;
    assert TokenEnc(e.reason) + [] == TokenEnc(e.reason);
    assert f[0] == e.timestamp && f[1] == e.username && f[2] == e.remoteAddr && f[3] == e.reason;
  }

  lemma ItemsCons<T>(c: Codec<T>, x: T, xs: seq<T>)
    ensures Items(c, [x] + xs) == c.enc(x) + Items(c, xs)
  {
    assert ([x] + xs)[1..] == xs;
  }

  method EncodeAclLog(entries: seq<LogEntry>) returns (r: Option<seq<byte>>)
    ensures r == if ListOk(LogCodec(), entries) then Some(ListEnc(LogCodec(), entries)) else None
  {
    hide Be, Items, ListEnc, ListOk, TokenEnc, LogCodec, Fields;
    if |entries| > U16 - 1 { TooLong(LogCodec(), entries); return None; }
    var buf := Be(|entries|, 2);
    ItemsNone(LogCodec());
    assert entries[..0] == [];
    for i := 0 to |entries|
      invariant forall j :: 0 <= j < i ==> LogCodec().ok(entries[j])
      invariant buf == Be(|entries|, 2) + Items(LogCodec(), entries[..i])
    {
      FieldsEncode(entries[i]);
      var more := EncodeFields(buf, Fields(entries[i]));
      if more.None? { NotOk(LogCodec(), entries, i); return None; }
      ItemsSnoc(LogCodec(), entries, i);
      Regroup(Be(|entries|, 2), Items(LogCodec(), entries[..i]), LogCodec().enc(entries[i]));
      buf := more.value;
    }
    assert entries[..|entries|] == entries;
    Fits(LogCodec(), entries);
    r := Some(buf);
  }

  /** The inner loop over an entry's fields. */
  method EncodeFields(buf: seq<byte>, fields: seq<Text>) returns (r: Option<seq<byte>>)
    ensures r == if AllOk(Token(), fields) then Some(buf + Items(Token(), fields)) else None
  {
    hide Be, Items;
    var out := buf;
    ItemsNone(Token());
    assert fields[..0] == [];
    for i := 0 to |fields|
      invariant forall j :: 0 <= j < i ==> TokenOk(fields[j])
      invariant out == buf + Items(Token(), fields[..i])
    {
      if |fields[i]| > U16 - 1 {
        assert !Token().ok(fields[i]);
        return None;
      }
      ItemsSnoc(Token(), fields, i);
      out := out + Be(|fields[i]|, 2) + fields[i];
    }
    assert fields[..|fields|] == fields;
    r := Some(out);
  }

  // ----- Decoding loops -----

  /** decodeU16String: the token at pos and the position after it. */
  method DecodeToken(payload: seq<byte>, pos: nat) returns (r: Option<(Text, nat)>)
    requires pos <= |payload|
    ensures r == At(Token(), payload, pos)
    ensures r.Some? ==> r.value.1 <= |payload|
  {
    hide UnBe;
    if pos + 2 > |payload| { return None; }
    assert payload[pos..][..2] == payload[pos..pos + 2];
    var n := UnBe(payload[pos..pos + 2]);
    if pos + 2 + n > |payload| { return None; }
    assert payload[pos..][2..2 + n] == payload[pos + 2..pos + 2 + n];
    r := Some((payload[pos + 2..pos + 2 + n], pos + 2 + n));
  }

  /** A codec run at a position, with the position after as the result. */
  function At<T>(c: Codec<T>, payload: seq<byte>, pos: nat): Option<(T, nat)>
    requires pos <= |payload|
  {
    var r := c.dec(payload[pos..]);
    if r.None? then None else Some((r.value.0, pos + r.value.1))
  }

  /** What n more items from pos on make of a list already holding acc. */
  function Onward<T>(c: Codec<T>, payload: seq<byte>, pos: nat, n: nat, acc: seq<T>): Option<(seq<T>, nat)>
    requires pos <= |payload|
  {
    var r := DecItems(c, payload[pos..], n);
    if r.None? then None else Some((acc + r.value.0, pos + r.value.1))
  }

  lemma OnwardStep<T>(c: Codec<T>, payload: seq<byte>, pos: nat, n: nat, acc: seq<T>)
    requires pos <= |payload| && n > 0
    ensures At(c, payload, pos).None? ==> Onward(c, payload, pos, n, acc) == None
    ensures At(c, payload, pos).Some? && At(c, payload, pos).value.1 <= |payload| ==>
              var (x, next) := At(c, payload, pos).value;
              Onward(c, payload, pos, n, acc) == Onward(c, payload, next, n - 1, acc + [x])
  {
    var r := c.dec(payload[pos..]);
    if r.Some? && pos + r.value.1 <= |payload| {
      var (x, k) := r.value;
      assert payload[pos..][k..] == payload[pos + k..];
      var rest := DecItems(c, payload[pos + k..], n - 1);
      if rest.Some? { assert acc + ([x] + rest.value.0) == acc + [x] + rest.value.0; }
    }
  }

  lemma OnwardStart<T>(c: Codec<T>, payload: seq<byte>, pos: nat)
    requires pos + 2 <= |payload|
    ensures At(List(c), payload, pos) == Onward(c, payload, pos + 2, UnBe(payload[pos..pos + 2]), [])
  {
    hide UnBe, DecItems;
    assert payload[pos..][..2] == payload[pos..pos + 2] && payload[pos..][2..] == payload[pos + 2..];
    var r := DecItems(c, payload[pos + 2..], UnBe(payload[pos..pos + 2]));
    if r.Some? { assert [] + r.value.0 == r.value.0; }
  }

  lemma OnwardEnd<T>(c: Codec<T>, payload: seq<byte>, pos: nat, acc: seq<T>)
    requires pos <= |payload|
    ensures Onward(c, payload, pos, 0, acc) == Some((acc, pos))
  {
    var none: seq<T> := [];
    assert acc + none == acc;
  }

  /** decodeStringList and decodeByteList: a count, then that many tokens. */
  method DecodeList(payload: seq<byte>, pos: nat) returns (r: Option<(seq<Text>, nat)>)
    requires pos <= |payload|
    ensures r == At(List(Token()), payload, pos)
    ensures r.Some? ==> r.value.1 <= |payload|
  {
    hide UnBe, Onward, At, TokenDec;
    if pos + 2 > |payload| { TooShort(Token(), payload, pos); return None; }
    OnwardStart(Token(), payload, pos);
    var count := UnBe(payload[pos..pos + 2]);
    var at: nat := pos + 2;
    var out: seq<Text> := [];
    for i := 0 to count
      invariant at <= |payload| && At(List(Token()), payload, pos) == Onward(Token(), payload, at, count - i, out)
    {
      OnwardStep(Token(), payload, at, count - i, out);
      var token := DecodeToken(payload, at);
      if token.None? { return None; }
      out := out + [token.value.0];
      at := token.value.1;
    }
    OnwardEnd(Token(), payload, at, out);
    r := Some((out, at));
  }

  lemma TooShort<T>(c: Codec<T>, payload: seq<byte>, pos: nat)
    requires pos <= |payload| < pos + 2
    ensures At(List(c), payload, pos) == None
  {}

  lemma WholeAt<T>(c: Codec<T>, payload: seq<byte>)
    ensures Whole(c, payload) ==
            if At(c, payload, 0).Some? && At(c, payload, 0).value.1 == |payload| then Some(At(c, payload, 0).value.0)
            else None
  {
    assert payload[0..] == payload;
  }

  /** DecodeRoleArgs accepts a payload exactly when it is the encoding of the arguments it returns. */
  method DecodeRoleArgs(payload: seq<byte>) returns (r: Option<seq<Text>>)
    ensures forall args :: r == Some(args) <==> ListOk(Token(), args) && payload == ListEnc(Token(), args)
  {
    hide At, Whole, ListOk, ListEnc;
    WholeAt(List(Token()), payload);
    forall args
      ensures Whole(List(Token()), payload) == Some(args)
              <==> ListOk(Token(), args) && payload == ListEnc(Token(), args)
    {
      RoleArgsBijection(payload, args);
    }
    var list := DecodeList(payload, 0);
    if list.Some? && list.value.1 == |payload| { return Some(list.value.0); }
    return None;
  }

  method DecodeRoleList(payload: seq<byte>) returns (r: Option<seq<RoleEntry>>)
    ensures forall entries :: r == Some(entries) <==>
              ListOk(RoleCodec(), entries) && payload == ListEnc(RoleCodec(), entries)
  {
    hide UnBe, Onward, At, Whole, ListOk, ListEnc, RoleCodec;
    WholeAt(List(RoleCodec()), payload);
    forall entries
      ensures Whole(List(RoleCodec()), payload) == Some(entries)
              <==> ListOk(RoleCodec(), entries) && payload == ListEnc(RoleCodec(), entries)
    {
      RoleListBijection(payload, entries);
    }
    if |payload| < 2 { TooShort(RoleCodec(), payload, 0); return None; }
    OnwardStart(RoleCodec(), payload, 0);
    var count := UnBe(payload[0..2]);
    var pos: nat := 2;
    var entries: seq<RoleEntry> := [];
    for i := 0 to count
      invariant pos <= |payload|
                && At(List(RoleCodec()), payload, 0) == Onward(RoleCodec(), payload, pos, count - i, entries)
    {
      OnwardStep(RoleCodec(), payload, pos, count - i, entries);
      var e := DecodeRoleEntry(payload, pos);
      if e.None? { return None; }
      entries := entries + [e.value.0];
      pos := e.value.1;
    }
    OnwardEnd(RoleCodec(), payload, pos, entries);
    if pos == |payload| { return Some(entries); }
    return None;
  }

  /** One role: a name, its commands, its namespaces. */
  method DecodeRoleEntry(payload: seq<byte>, pos: nat) returns (r: Option<(RoleEntry, nat)>)
    requires pos <= |payload|
    ensures r == At(RoleCodec(), payload, pos)
    ensures r.Some? ==> r.value.1 <= |payload|
  {
    hide At, RoleCodec, TokenDec, ListDec, PairDec;
    RoleAt(payload, pos);
    PairAt(Token(), Pair(List(Token()), List(Token())), payload, pos);
    var name := DecodeToken(payload, pos);
    if name.None? { return None; }
    PairAt(List(Token()), List(Token()), payload, name.value.1);
    var commands := DecodeList(payload, name.value.1);
    if commands.None? { return None; }
    var namespaces := DecodeList(payload, commands.value.1);
    if namespaces.None? { return None; }
    r := Some((RoleEntry(name.value.0, commands.value.0, namespaces.value.0), namespaces.value.1));
  }

  lemma PairAt<S, T>(c: Codec<S>, d: Codec<T>, payload: seq<byte>, pos: nat)
    requires pos <= |payload|
    ensures At(c, payload, pos).None? ==> At(Pair(c, d), payload, pos) == None
    ensures At(c, payload, pos).Some? && At(c, payload, pos).value.1 <= |payload| ==>
              var (x, mid) := At(c, payload, pos).value;
              At(Pair(c, d), payload, pos) ==
              if At(d, payload, mid).None? then None
              else Some(((x, At(d, payload, mid).value.0), At(d, payload, mid).value.1))
  {
    var r := c.dec(payload[pos..]);
    if r.Some? && pos + r.value.1 <= |payload| {
      assert payload[pos..][r.value.1..] == payload[pos + r.value.1..];
    }
  }

  /** The inner loop over the four fields, written field by field in the source. */
  method DecodeFields(payload: seq<byte>, pos: nat) returns (r: Option<(seq<Text>, nat)>)
    requires pos <= |payload|
    ensures r == Onward(Token(), payload, pos, 4, [])
    ensures r.Some? ==> |r.value.0| == 4 && r.value.1 <= |payload|
  {
    hide Onward, At, TokenDec;
    var at: nat := pos;
    var out: seq<Text> := [];
    for i := 0 to 4
      invariant |out| == i && at <= |payload|
                && Onward(Token(), payload, pos, 4, []) == Onward(Token(), payload, at, 4 - i, out)
    {
      OnwardStep(Token(), payload, at, 4 - i, out);
      var token := DecodeToken(payload, at);
      if token.None? { return None; }
      out := out + [token.value.0];
      at := token.value.1;
    }
    OnwardEnd(Token(), payload, at, out);
    r := Some((out, at));
  }

  /** Four tokens read one by one are the four fields of an entry. */
  lemma FieldsDecode(payload: seq<byte>, pos: nat)
    requires pos <= |payload|
    ensures var r := Onward(Token(), payload, pos, 4, []);
            && (r.None? ==> At(LogCodec(), payload, pos) == None)
            && (r.Some? ==>
                  && |r.value.0| == 4
                  && At(LogCodec(), payload, pos)
                     == Some((LogEntry(r.value.0[0], r.value.0[1], r.value.0[2], r.value.0[3]), r.value.1)))
  {
    hide At, Onward, PairDec, TokenDec;
    var c := Token();
    LogAt(payload, pos);
    var none: seq<Text> := [];
    OnwardStep(c, payload, pos, 4, none);
    PairAt(c, Pair(c, Pair(c, c)), payload, pos);
    TokenEnds(payload, pos);
    if At(c, payload, pos).Some? {
      var (t, p1) := At(c, payload, pos).value;
      OnwardStep(c, payload, p1, 3, none + [t]);
      PairAt(c, Pair(c, c), payload, p1);
      TokenEnds(payload, p1);
      if At(c, payload, p1).Some? {
        var (u, p2) := At(c, payload, p1).value;
        OnwardStep(c, payload, p2, 2, none + [t] + [u]);
        PairAt(c, c, payload, p2);
        TokenEnds(payload, p2);
        if At(c, payload, p2).Some? {
          var (a, p3) := At(c, payload, p2).value;
          OnwardStep(c, payload, p3, 1, none + [t] + [u] + [a]);
          TokenEnds(payload, p3);
          if At(c, payload, p3).Some? {
            var (r, p4) := At(c, payload, p3).value;
            OnwardEnd(c, payload, p4, none + [t] + [u] + [a] + [r]);
          }
        }
      }
    }
  }

  lemma TokenEnds(payload: seq<byte>, pos: nat)
    requires pos <= |payload|
    ensures At(Token(), payload, pos).Some? ==> At(Token(), payload, pos).value.1 <= |payload|
  {}

  lemma RoleAt(payload: seq<byte>, pos: nat)
    requires pos <= |payload|
    ensures var r := At(Pair(Token(), Pair(List(Token()), List(Token()))), payload, pos);
            At(RoleCodec(), payload, pos) ==
              if r.None? then None
              else var ((name, (cmds, spaces)), n) := r.value;
                   Some((RoleEntry(name, cmds, spaces), n))
  {
    hide PairDec;
  }

  lemma LogAt(payload: seq<byte>, pos: nat)
    requires pos <= |payload|
    ensures var r := At(Pair(Token(), Pair(Token(), Pair(Token(), Token()))), payload, pos);
            At(LogCodec(), payload, pos) ==
              if r.None? then None else var ((t, (u, (a, w))), n) := r.value; Some((LogEntry(t, u, a, w), n))
  {
    hide PairDec;
  }

  method DecodeAclLog(payload: seq<byte>) returns (r: Option<seq<LogEntry>>)
    ensures forall entries :: r == Some(entries) <==>
              ListOk(LogCodec(), entries) && payload == ListEnc(LogCodec(), entries)
  {
    hide UnBe, Onward, At, Whole, ListOk, ListEnc, LogCodec;
    WholeAt(List(LogCodec()), payload);
    forall entries
      ensures Whole(List(LogCodec()), payload) == Some(entries)
              <==> ListOk(LogCodec(), entries) && payload == ListEnc(LogCodec(), entries)
    {
      AclLogBijection(payload, entries);
    }
    if |payload| < 2 { TooShort(LogCodec(), payload, 0); return None; }
    OnwardStart(LogCodec(), payload, 0);
    var count := UnBe(payload[0..2]);
    var pos: nat := 2;
    var entries: seq<LogEntry> := [];
    for i := 0 to count
      invariant pos <= |payload|
                && At(List(LogCodec()), payload, 0) == Onward(LogCodec(), payload, pos, count - i, entries)
    {
      OnwardStep(LogCodec(), payload, pos, count - i, entries);
      FieldsDecode(payload, pos);
      var f := DecodeFields(payload, pos);
      if f.None? { return None; }
      entries := entries + [LogEntry(f.value.0[0], f.value.0[1], f.value.0[2], f.value.0[3])];
      pos := f.value.1;
    }
    OnwardEnd(LogCodec(), payload, pos, entries);
    if pos == |payload| { return Some(entries); }
    return None;
  }

  // ----- ROLE GETUSER, which has no length check and one loose byte -----

  datatype RoleUser = RoleUser(role: Text, hasPass: bool)

  function EncGetUser(u: RoleUser): seq<byte> {
    Be(|u.role|, 2) + u.role + [if u.hasPass then 1 else 0]
  }

  function DecGetUser(payload: seq<byte>): Option<RoleUser> {
    if |payload| < 3 then None
    else
      var n := UnBe(payload[..2]);
      if 2 + n + 1 != |payload| then None else Some(RoleUser(payload[2..2 + n], payload[2 + n] == 1))
  }

  lemma LowWord(n: nat)
    ensures UnBe(Be(n, 2)) == n % U16
  {
    var b := Be(n, 2);
    assert Be(n, 2) == Be(n / 256, 1) + [n % 256] && Be(n / 256, 1) == Be(n / 256 / 256, 0) + [n / 256 % 256];
    assert b == [n / 256 % 256, n % 256];
    assert b[..1] == [n / 256 % 256] && b[..1][..0] == [];
    assert UnBe(b) == 256 * UnBe(b[..1]) + n % 256 && UnBe(b[..1]) == 256 * UnBe(b[..1][..0]) + n / 256 % 256;
    assert UnBe(b) == 256 * (n / 256 % 256) + n % 256;
  }

  /** The round trip holds if and only if the role name fits the 16-bit length. */
  lemma GetUserRoundTripIff(u: RoleUser)
    ensures DecGetUser(EncGetUser(u)) == Some(u) <==> |u.role| < U16
  {
    hide Be, UnBe;
    LowWord(|u.role|);
    var p := EncGetUser(u);
    assert p[..2] == Be(|u.role|, 2);
    if |u.role| < U16 { assert p[2..2 + |u.role|] == u.role; }
  }

  /** A role name of 65536 bytes is written with length 0, and its reply is refused. */
  lemma LongRoleNameRefused(u: RoleUser)
    requires |u.role| == U16
    ensures DecGetUser(EncGetUser(u)) == None
  {
    hide Be, UnBe;
    LowWord(|u.role|);
    assert EncGetUser(u)[..2] == Be(|u.role|, 2);
  }

  /** An accepted payload is the encoding of its result if and only if its flag byte is 0 or 1. */
  lemma GetUserExactIff(payload: seq<byte>)
    requires DecGetUser(payload).Some?
    ensures EncGetUser(DecGetUser(payload).value) == payload <==> payload[|payload| - 1] <= 1
  {
    hide Be, UnBe;
    var n := |payload| - 3;
    BeUnBe(payload[..2]);
    assert payload == payload[..2] + payload[2..2 + n] + [payload[2 + n]];
    var back := EncGetUser(DecGetUser(payload).value);
    assert back[2 + n] == if payload[2 + n] == 1 then 1 else 0;
  }
}
