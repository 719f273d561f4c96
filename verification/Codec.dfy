/**
 Length-prefixed codecs. A codec is lawful when decoding inverts encoding whatever follows, and
 what decodes is exactly the encoding of the result. Counted lists of a lawful codec are lawful,
 which gives every nested format of internal/network at once.
 */
module Codec {
  import opened Bytes

  datatype Codec<!T> = Codec(ok: T -> bool, enc: T -> seq<byte>, dec: seq<byte> -> Option<(T, nat)>)

  /** Decoding an encoding gives the value and its exact length, whatever follows. */
  ghost predicate Inverts<T(!new)>(c: Codec<T>) {
    forall x: T, rest: seq<byte> :: c.ok(x) ==> c.dec(c.enc(x) + rest) == Some((x, |c.enc(x)|))
  }

  /** What decodes is an encodable value whose encoding is exactly the bytes consumed. */
  ghost predicate Exact<T(!new)>(c: Codec<T>) {
    forall b: seq<byte> :: c.dec(b).Some? ==>
      var (x, n) := c.dec(b).value; c.ok(x) && n <= |b| && b[..n] == c.enc(x)
  }

  ghost predicate Lawful<T(!new)>(c: Codec<T>) { Inverts(c) && Exact(c) }

  lemma Inverted<T(!new)>(c: Codec<T>, x: T, rest: seq<byte>)
    requires Lawful(c) && c.ok(x)
    ensures c.dec(c.enc(x) + rest) == Some((x, |c.enc(x)|))
  {}

  lemma Exactly<T(!new)>(c: Codec<T>, b: seq<byte>)
    requires Lawful(c) && c.dec(b).Some?
    ensures var (x, n) := c.dec(b).value; c.ok(x) && n <= |b| && b[..n] == c.enc(x)
  {}

  /** A whole payload: nothing may trail. */
  function Whole<T>(c: Codec<T>, payload: seq<byte>): Option<T> {
    var r := c.dec(payload);
    if r.Some? && r.value.1 == |payload| then Some(r.value.0) else None
  }

  /** The two directions of the bijection between encodable values and accepted payloads. */
  lemma WholeIff<T(!new)>(c: Codec<T>, payload: seq<byte>, x: T)
    requires Lawful(c)
    ensures Whole(c, payload) == Some(x) <==> c.ok(x) && payload == c.enc(x)
  {
    hide Lawful;
    if c.ok(x) && payload == c.enc(x) {
      assert c.enc(x) + [] == payload;
      Inverted(c, x, []);
    }
    if Whole(c, payload) == Some(x) {
      Exactly(c, payload);
      assert payload[..|payload|] == payload;
    }
  }

  // ----- Tokens -----

  predicate TokenOk(t: seq<byte>) { |t| < U16 }

  function TokenEnc(t: seq<byte>): seq<byte> { Be(|t|, 2) + t }

  function TokenDec(b: seq<byte>): (r: Option<(seq<byte>, nat)>)
    ensures r.Some? ==> 2 <= r.value.1 <= |b|
  {
    if |b| < 2 then None
    else
      var n := UnBe(b[..2]);
      if 2 + n > |b| then None else Some((b[2..2 + n], 2 + n))
  }

  function Token(): Codec<seq<byte>> { Codec(TokenOk, TokenEnc, TokenDec) }

  lemma TokenInverts(t: seq<byte>, rest: seq<byte>)
    requires TokenOk(t)
    ensures TokenDec(TokenEnc(t) + rest) == Some((t, |TokenEnc(t)|))
  {
    hide Be, UnBe;
    Widths();
    UnBeBe(|t|, 2);
    var b := TokenEnc(t) + rest;
    assert b[..2] == Be(|t|, 2) && b[2..2 + |t|] == t;
  }

  lemma TokenExact(b: seq<byte>)
    requires TokenDec(b).Some?
    ensures var (t, n) := TokenDec(b).value; TokenOk(t) && n <= |b| && b[..n] == TokenEnc(t)
  {
    hide Be, UnBe;
    Widths();
    BeUnBe(b[..2]);
    var (t, n) := TokenDec(b).value;
    assert b[..n] == b[..2] + b[2..n];
  }

  lemma TokenLawful()
    ensures Lawful(Token())
  {
    forall t: seq<byte>, rest: seq<byte> | TokenOk(t) ensures TokenDec(TokenEnc(t) + rest) == Some((t, |TokenEnc(t)|)) {
      TokenInverts(t, rest);
    }
    forall b: seq<byte> | TokenDec(b).Some?
      ensures var (t, n) := TokenDec(b).value; TokenOk(t) && n <= |b| && b[..n] == TokenEnc(t)
    {
      TokenExact(b);
    }
  }

  // ----- Counted lists -----

  function Items<T>(c: Codec<T>, xs: seq<T>): seq<byte> {
    if xs == [] then [] else c.enc(xs[0]) + Items(c, xs[1..])
  }

  function DecItems<T>(c: Codec<T>, b: seq<byte>, n: nat): Option<(seq<T>, nat)> {
    if n == 0 then Some(([], 0))
    else
      var first := c.dec(b);
      if first.None? || first.value.1 > |b| then None
      else
        var rest := DecItems(c, b[first.value.1..], n - 1);
        if rest.None? then None else Some(([first.value.0] + rest.value.0, first.value.1 + rest.value.1))
  }

  predicate AllOk<T>(c: Codec<T>, xs: seq<T>) { forall i :: 0 <= i < |xs| ==> c.ok(xs[i]) }

  lemma {:induction false} ItemsInvert<T(!new)>(c: Codec<T>, xs: seq<T>, rest: seq<byte>)
    requires Lawful(c) && AllOk(c, xs)
    ensures DecItems(c, Items(c, xs) + rest, |xs|) == Some((xs, |Items(c, xs)|))
  {
    hide Lawful;
    if xs != [] {
      ItemsInvert(c, xs[1..], rest);
      var e, more := c.enc(xs[0]), Items(c, xs[1..]) + rest;
      Inverted(c, xs[0], more);
      assert Items(c, xs) + rest == e + more;
      assert (e + more)[|e|..] == more;
      assert [xs[0]] + xs[1..] == xs;
    }
  }

  lemma {:induction false} ItemsExact<T(!new)>(c: Codec<T>, b: seq<byte>, n: nat)
    requires Lawful(c) && DecItems(c, b, n).Some?
    ensures var (xs, m) := DecItems(c, b, n).value; |xs| == n && AllOk(c, xs) && m <= |b| && b[..m] == Items(c, xs)
  {
    hide Lawful;
    if n > 0 {
      var (x, k) := c.dec(b).value;
      Exactly(c, b);
      ItemsExact(c, b[k..], n - 1);
      var (ys, m) := DecItems(c, b[k..], n - 1).value;
      assert ([x] + ys)[1..] == ys;
      assert b[..k + m] == b[..k] + b[k..][..m];
    }
  }

  predicate ListOk<T>(c: Codec<T>, xs: seq<T>) { |xs| < U16 && AllOk(c, xs) }

  function ListEnc<T>(c: Codec<T>, xs: seq<T>): seq<byte> { Be(|xs|, 2) + Items(c, xs) }

  function ListDec<T>(c: Codec<T>, b: seq<byte>): Option<(seq<T>, nat)> {
    if |b| < 2 then None
    else
      var r := DecItems(c, b[2..], UnBe(b[..2]));
      if r.None? then None else Some((r.value.0, 2 + r.value.1))
  }

  function List<T>(c: Codec<T>): Codec<seq<T>> {
    Codec((xs: seq<T>) => ListOk(c, xs), (xs: seq<T>) => ListEnc(c, xs), (b: seq<byte>) => ListDec(c, b))
  }

  lemma ListInverts<T(!new)>(c: Codec<T>, xs: seq<T>, rest: seq<byte>)
    requires Lawful(c) && ListOk(c, xs)
    ensures ListDec(c, ListEnc(c, xs) + rest) == Some((xs, |ListEnc(c, xs)|))
  {
    hide Be, UnBe, Items, DecItems, Lawful;
    Widths();
    UnBeBe(|xs|, 2);
    ItemsInvert(c, xs, rest);
    var b := ListEnc(c, xs) + rest;
    assert b[..2] == Be(|xs|, 2) && b[2..] == Items(c, xs) + rest;
  }

  lemma ListExact<T(!new)>(c: Codec<T>, b: seq<byte>)
    requires Lawful(c) && ListDec(c, b).Some?
    ensures var (xs, n) := ListDec(c, b).value; ListOk(c, xs) && n <= |b| && b[..n] == ListEnc(c, xs)
  {
    hide Be, UnBe, Items, DecItems, Lawful;
    Widths();
    BeUnBe(b[..2]);
    ItemsExact(c, b[2..], UnBe(b[..2]));
    var (xs, n) := ListDec(c, b).value;
    assert b[..n] == b[..2] + b[2..][..n - 2];
  }

  lemma ListLawful<T(!new)>(c: Codec<T>)
    requires Lawful(c)
    ensures Lawful(List(c))
  {
    hide ListEnc, ListDec, ListOk;
    var l := List(c);
    forall xs: seq<T>, rest: seq<byte> | l.ok(xs) ensures l.dec(l.enc(xs) + rest) == Some((xs, |l.enc(xs)|)) {
      ListInverts(c, xs, rest);
    }
    forall b: seq<byte> | l.dec(b).Some?
      ensures var (xs, n) := l.dec(b).value; l.ok(xs) && n <= |b| && b[..n] == l.enc(xs)
    {
      ListExact(c, b);
    }
  }

  // ----- One thing after another -----

  function PairDec<S, T>(c: Codec<S>, d: Codec<T>, b: seq<byte>): Option<((S, T), nat)> {
    var first := c.dec(b);
    if first.None? || first.value.1 > |b| then None
    else
      var second := d.dec(b[first.value.1..]);
      if second.None? then None else Some(((first.value.0, second.value.0), first.value.1 + second.value.1))
  }

  function Pair<S, T>(c: Codec<S>, d: Codec<T>): Codec<(S, T)> {
    Codec(
      (x: (S, T)) => c.ok(x.0) && d.ok(x.1),
      (x: (S, T)) => c.enc(x.0) + d.enc(x.1),
      (b: seq<byte>) => PairDec(c, d, b))
  }

  lemma PairLawful<S(!new), T(!new)>(c: Codec<S>, d: Codec<T>)
    requires Lawful(c) && Lawful(d)
    ensures Lawful(Pair(c, d))
  {
    var p := Pair(c, d);
    forall x: (S, T), rest: seq<byte> | p.ok(x) ensures p.dec(p.enc(x) + rest) == Some((x, |p.enc(x)|)) {
      PairInverts(c, d, x, rest);
    }
    forall b: seq<byte> | p.dec(b).Some?
      ensures var (x, n) := p.dec(b).value; p.ok(x) && n <= |b| && b[..n] == p.enc(x)
    {
      PairExact(c, d, b);
    }
  }

  lemma PairInverts<S(!new), T(!new)>(c: Codec<S>, d: Codec<T>, x: (S, T), rest: seq<byte>)
    requires Lawful(c) && Lawful(d) && c.ok(x.0) && d.ok(x.1)
    ensures PairDec(c, d, c.enc(x.0) + d.enc(x.1) + rest) == Some((x, |c.enc(x.0) + d.enc(x.1)|))
  {
    hide Lawful;
    var e, f := c.enc(x.0), d.enc(x.1);
    Inverted(c, x.0, f + rest);
    Inverted(d, x.1, rest);
    assert e + f + rest == e + (f + rest) && (e + (f + rest))[|e|..] == f + rest;
  }

  lemma PairExact<S(!new), T(!new)>(c: Codec<S>, d: Codec<T>, b: seq<byte>)
    requires Lawful(c) && Lawful(d) && PairDec(c, d, b).Some?
    ensures var (x, n) := PairDec(c, d, b).value;
            c.ok(x.0) && d.ok(x.1) && n <= |b| && b[..n] == c.enc(x.0) + d.enc(x.1)
  {
    hide Lawful;
    var (x, k) := c.dec(b).value;
    var (y, m) := d.dec(b[k..]).value;
    Exactly(c, b);
    Exactly(d, b[k..]);
    assert b[..k + m] == b[..k] + b[k..][..m];
  }
}
