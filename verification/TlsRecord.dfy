/**
 The TLS 1.3 record formats (internal/tls/conn.go, cipher_suites.go; sections 5.1 to 5.4 of
 RFC 8446): record nonces, sealing and opening one record, and cutting a byte stream into records.
 The AEAD and the key schedule are uninterpreted.
 */
module TlsRecord {
  import opened Bytes

  const MAX_PLAIN: nat := 16384
  const OVERHEAD: nat := 16
  const RECORD_HEADER: nat := 5
  const CHANGE_CIPHER_SPEC: byte := 20
  const ALERT: byte := 21
  const HANDSHAKE: byte := 22
  const APPLICATION_DATA: byte := 23

  type Secret = seq<byte>

  /** What a cipher suite derives from a traffic secret, and the AEAD under the derived key. */
  datatype Suite = Suite(
    next: Secret -> Secret,
    iv: Secret -> seq<byte>,
    seal: (Secret, seq<byte>, seq<byte>, seq<byte>) -> seq<byte>,
    open: (Secret, seq<byte>, seq<byte>, seq<byte>) -> Option<seq<byte>>)
  {
    ghost predicate Lawful() {
      && (forall s: Secret {:trigger iv(s)} :: |iv(s)| == 12)
      && (forall s: Secret, n: seq<byte>, ad: seq<byte>, p: seq<byte> {:trigger seal(s, n, ad, p)} ::
            |seal(s, n, ad, p)| == |p| + OVERHEAD && open(s, n, ad, seal(s, n, ad, p)) == Some(p))
    }
  }

  /** A lawful suite exists whose successive secrets all differ. */
  function Example(): Suite {
    Suite(
      (s: Secret) => s + [0],
      (_: Secret) => seq(12, _ => 0),
      (_: Secret, _: seq<byte>, _: seq<byte>, p: seq<byte>) => p + seq(OVERHEAD, _ => 0),
      (_: Secret, _: seq<byte>, _: seq<byte>, b: seq<byte>) =>
        if |b| < OVERHEAD then None else Some(b[..|b| - OVERHEAD]))
  }

  lemma ExampleIsLawful()
    ensures Example().Lawful()
  {
    var e := Example();
    forall s: Secret, n: seq<byte>, ad: seq<byte>, p: seq<byte>
      ensures |e.seal(s, n, ad, p)| == |p| + OVERHEAD && e.open(s, n, ad, e.seal(s, n, ad, p)) == Some(p)
    {
      assert (p + seq(OVERHEAD, _ => 0))[..|p|] == p;
    }
  }

  /** One direction's state: the traffic secret and the number of records under it. */
  datatype Half = Half(secret: Secret, count: nat)

  // ----- Nonces -----

  /** Exclusive or of the low k bits. */
  function XorBits(a: nat, b: nat, k: nat): nat {
    if k == 0 then 0 else (if a % 2 == b % 2 then 0 else 1) + 2 * XorBits(a / 2, b / 2, k - 1)
  }

  function Twice(k: nat): nat { if k == 0 then 1 else 2 * Twice(k - 1) }

  lemma {:induction false} XorBitsBack(a: nat, b: nat, k: nat)
    requires a < Twice(k)
    ensures XorBits(a, b, k) < Twice(k)
    ensures XorBits(XorBits(a, b, k), b, k) == a
  {
    if k > 0 {
      XorBitsBack(a / 2, b / 2, k - 1);
      assert XorBits(a, b, k) / 2 == XorBits(a / 2, b / 2, k - 1);
    }
  }

  lemma {:induction false} XorBitsSwap(a: nat, b: nat, k: nat)
    ensures XorBits(a, b, k) == XorBits(b, a, k)
  {
    if k > 0 { XorBitsSwap(a / 2, b / 2, k - 1); }
  }

  lemma TwiceEight()
    ensures Twice(8) == 256
  {
    assert Twice(4) == 16 && Twice(6) == 4 * Twice(4);
  }

  function Xor(a: byte, b: byte): byte {
    TwiceEight();
    XorBitsBack(a, b, 8);
    XorBits(a, b, 8)
  }

  /** Applying the same byte twice is the identity, from either side. */
  lemma XorBack(a: byte, b: byte)
    ensures Xor(Xor(a, b), b) == a
    ensures Xor(a, Xor(a, b)) == b
  {
    TwiceEight();
    XorBitsBack(a, b, 8);
    XorBitsBack(b, a, 8);
    XorBitsSwap(a, b, 8);
    XorBitsSwap(a, Xor(a, b), 8);
  }

  /** The per-record nonce: the last eight bytes of the mask exclusive-or'd with the sequence number. */
  function Masked(mask: seq<byte>, seqno: seq<byte>): (n: seq<byte>)
    requires |mask| == 12 && |seqno| == 8
    ensures |n| == 12
  {
    seq(12, i requires 0 <= i < 12 => if i < 4 then mask[i] else Xor(mask[i], seqno[i - 4]))
  }

  function Nonce(s: Suite, h: Half): seq<byte>
    requires |s.iv(h.secret)| == 12
  {
    Masked(s.iv(h.secret), Be(h.count, 8))
  }

  /** Under one mask, different sequence numbers give different nonces. */
  lemma NonceInjective(s: Suite, a: Half, b: Half)
    requires s.Lawful() && a.secret == b.secret && a.count < U64 && b.count < U64 && Nonce(s, a) == Nonce(s, b)
    ensures a.count == b.count
  {
    hide Be, UnBe, Xor;
    var mask, x, y := s.iv(a.secret), Be(a.count, 8), Be(b.count, 8);
    forall i | 0 <= i < 8 ensures x[i] == y[i] {
      assert Masked(mask, x)[4 + i] == Masked(mask, y)[4 + i];
      XorBack(mask[4 + i], x[i]);
      XorBack(mask[4 + i], y[i]);
    }
    assert x == y;
    Widths();
    UnBeBe(a.count, 8);
    UnBeBe(b.count, 8);
  }

  // ----- One record -----

  /** The outer header: always application data, version 0x0303, then the length. */
  function Head(n: nat): (h: seq<byte>)
    requires n < U16
    ensures |h| == RECORD_HEADER
  {
    [APPLICATION_DATA, 3, 3, n / 256, n % 256]
  }

  /** A record around an inner plaintext (content, content type, zero padding). */
  function SealInner(s: Suite, h: Half, inner: seq<byte>): seq<byte>
    requires |s.iv(h.secret)| == 12 && |inner| + OVERHEAD < U16
  {
    var head := Head(|inner| + OVERHEAD);
    head + s.seal(h.secret, Nonce(s, h), head, inner)
  }

  /** encrypt: the content type goes inside, and this program never pads. */
  function SealRecord(s: Suite, h: Half, typ: byte, data: seq<byte>): seq<byte>
    requires |s.iv(h.secret)| == 12 && |data| <= MAX_PLAIN
  {
    SealInner(s, h, data + [typ])
  }

  datatype Opened = Ignored(size: nat) | BadMac | Unexpected | Overflow | Fragment(typ: byte, data: seq<byte>)

  /** The content type is the last byte that is not padding. */
  function Strip(inner: seq<byte>): (r: Option<nat>)
    ensures r.Some? ==> r.value < |inner| && inner[r.value] != 0 && forall i :: r.value < i < |inner| ==> inner[i] == 0
    ensures r.None? ==> forall i :: 0 <= i < |inner| ==> inner[i] == 0
  {
    if inner == [] then None
    else if inner[|inner| - 1] != 0 then Some(|inner| - 1)
    else Strip(inner[..|inner| - 1])
  }

  /** decrypt, for a TLS 1.3 connection with keys. An inner plaintext of no bytes keeps the outer type. */
  function OpenRecord(s: Suite, h: Half, record: seq<byte>): Opened
    requires |s.iv(h.secret)| == 12 && |record| >= RECORD_HEADER
  {
    if record[0] == CHANGE_CIPHER_SPEC then Ignored(|record| - RECORD_HEADER)
    else
      var inner := s.open(h.secret, Nonce(s, h), record[..RECORD_HEADER], record[RECORD_HEADER..]);
      if inner.None? then BadMac
      else if record[0] != APPLICATION_DATA then Unexpected
      else if |inner.value| > MAX_PLAIN + 1 then Overflow
      else if inner.value == [] then Fragment(APPLICATION_DATA, [])
      else
        var end := Strip(inner.value);
        if end.None? then Unexpected else Fragment(inner.value[end.value], inner.value[..end.value])
  }

  /** A peer's record opens to its content and type whatever the padding (section 5.4 of RFC 8446). */
  lemma OpenPadded(s: Suite, h: Half, typ: byte, data: seq<byte>, pad: seq<byte>)
    requires s.Lawful() && typ != 0 && |data| + |pad| <= MAX_PLAIN && forall i :: 0 <= i < |pad| ==> pad[i] == 0
    ensures OpenRecord(s, h, SealInner(s, h, data + [typ] + pad)) == Fragment(typ, data)
  {
    hide Nonce;
    var inner := data + [typ] + pad;
    var record := SealInner(s, h, inner);
    var head := Head(|inner| + OVERHEAD);
    assert record[..RECORD_HEADER] == head;
    assert record[RECORD_HEADER..] == s.seal(h.secret, Nonce(s, h), head, inner);
    assert inner[|data|] == typ;
    assert forall i :: |data| < i < |inner| ==> inner[i] == pad[i - |data| - 1];
    assert Strip(inner) == Some(|data|);
    assert inner[..|data|] == data;
  }

  lemma OpenSeal(s: Suite, h: Half, typ: byte, data: seq<byte>)
    requires s.Lawful() && typ != 0 && |data| <= MAX_PLAIN
    ensures OpenRecord(s, h, SealRecord(s, h, typ, data)) == Fragment(typ, data)
  {
    assert data + [typ] + [] == data + [typ];
    OpenPadded(s, h, typ, data, []);
  }

  /** The framing of readRecordOrCCS: header, length check, then the whole record and what follows it. */
  datatype Cut = NeedMore | BadRecord(alert: byte) | Record(bytes: seq<byte>, rest: seq<byte>)

  function Take(wire: seq<byte>): (c: Cut)
    ensures c.Record? ==> |c.bytes| >= RECORD_HEADER && c.bytes + c.rest == wire
  {
    if |wire| < RECORD_HEADER then NeedMore
    else if wire[1] != 3 || wire[2] != 3 then BadRecord(PROTOCOL_VERSION)
    else
      var n: nat := wire[3] as int * 256 + wire[4] as int;
      if n > MAX_PLAIN + 256 then BadRecord(RECORD_OVERFLOW)
      else if |wire| < RECORD_HEADER + n then NeedMore
      else Record(wire[..RECORD_HEADER + n], wire[RECORD_HEADER + n..])
  }

  /** Whatever follows, a sealed record is cut off exactly; every proper prefix of it asks for more. */
  lemma TakeSealed(s: Suite, h: Half, typ: byte, data: seq<byte>, rest: seq<byte>)
    requires s.Lawful() && |data| <= MAX_PLAIN
    ensures Take(SealRecord(s, h, typ, data) + rest) == Record(SealRecord(s, h, typ, data), rest)
    ensures forall k :: 0 <= k < |SealRecord(s, h, typ, data)| ==> Take(SealRecord(s, h, typ, data)[..k]) == NeedMore
  {
    hide Nonce;
    var r := SealRecord(s, h, typ, data);
    var n := |data| + 1 + OVERHEAD;
    assert |r| == RECORD_HEADER + n && r[..RECORD_HEADER] == Head(n);
    assert r[1] == 3 && r[2] == 3 && r[3] == n / 256 && r[4] == n % 256;
    assert (r + rest)[..RECORD_HEADER + n] == r && (r + rest)[RECORD_HEADER + n..] == rest;
  }

  // ----- What a record does to the connection -----

  const UNEXPECTED_MESSAGE: byte := 10
  const BAD_RECORD_MAC: byte := 20
  const RECORD_OVERFLOW: byte := 22
  const PROTOCOL_VERSION: byte := 70

  /** Records in a row that bring nothing before the connection is given up. */
  const MAX_USELESS: nat := 16

  /** Bytes for the reader, handshake bytes, nothing, the end as the peer announced it, or an error with its alert. */
  datatype Outcome = Input(data: seq<byte>) | Hand(data: seq<byte>) | Dropped | Ended(code: byte) | Refused(alert: byte)

  /** The switch of readRecordOrCCS after the handshake; useless is how many records brought nothing so far. */
  function Judge(r: Opened, useless: nat): Outcome {
    var none := if useless + 1 > MAX_USELESS then Refused(UNEXPECTED_MESSAGE) else Dropped;
    match r
    case Ignored(size) => if size > MAX_PLAIN then Refused(RECORD_OVERFLOW) else none
    case BadMac => Refused(BAD_RECORD_MAC)
    case Unexpected => Refused(UNEXPECTED_MESSAGE)
    case Overflow => Refused(RECORD_OVERFLOW)
    case Fragment(typ, data) =>
      if |data| > MAX_PLAIN then Refused(RECORD_OVERFLOW)
      else if typ == ALERT then (if |data| != 2 then Refused(UNEXPECTED_MESSAGE) else Ended(data[1]))
      else if typ == CHANGE_CIPHER_SPEC || (typ == APPLICATION_DATA && data == []) then none
      else if typ == APPLICATION_DATA then Input(data)
      else if typ == HANDSHAKE && data != [] then Hand(data)
      else Refused(UNEXPECTED_MESSAGE)
  }

  /** An error alert as sendAlert writes it. */
  function AlertBody(alert: byte): seq<byte> { [2, alert] }

  /** A connection survives a sealed record of either kind this program sends. */
  lemma JudgeSent(typ: byte, data: seq<byte>, useless: nat)
    requires 0 < |data| <= MAX_PLAIN
    ensures typ == APPLICATION_DATA ==> Judge(Fragment(typ, data), useless) == Input(data)
    ensures typ == HANDSHAKE ==> Judge(Fragment(typ, data), useless) == Hand(data)
  {}

  // ----- Key updates, from either end -----

  /** keyUpdateMsg as marshalled: type 24, a 24-bit length of 1, and the request flag. */
  function KeyUpdate(requested: bool): seq<byte> { [24, 0, 0, 1, if requested then 1 else 0] }

  /** readHandshake and unmarshal: the flag of a key update, or none for anything else. */
  function ReadKeyUpdate(msg: seq<byte>): Option<bool> {
    if |msg| != 5 || msg[0] != 24 || msg[1] != 0 || msg[2] != 0 || msg[3] != 1 || msg[4] > 1 then None
    else Some(msg[4] == 1)
  }

  /** Exactly the two marshalled messages read as key updates, each with its own flag. */
  lemma ReadKeyUpdateIff(msg: seq<byte>, requested: bool)
    ensures ReadKeyUpdate(msg) == Some(requested) <==> msg == KeyUpdate(requested)
  {}

  /**
   The writing half after a record: the sequence number moves on, and the announcement of a key
   update, which is sealed under the old secret, is followed by the switch to the next one.
   */
  function AfterSend(s: Suite, h: Half, typ: byte, data: seq<byte>): Half {
    if typ == HANDSHAKE && (data == KeyUpdate(true) || data == KeyUpdate(false)) then Half(s.next(h.secret), 0)
    else Half(h.secret, h.count + 1)
  }

  /** The reading half after a record that opened: it moves on, and then acts on a key update. */
  function AfterReceive(s: Suite, h: Half, typ: byte, data: seq<byte>): Half {
    var moved := Half(h.secret, h.count + 1);
    if typ == HANDSHAKE && ReadKeyUpdate(data).Some? then Half(s.next(moved.secret), 0) else moved
  }

  // ----- A fragmented write -----

  predicate Fragmented(frags: seq<seq<byte>>) {
    forall i :: 0 <= i < |frags| ==> 0 < |frags[i]| <= MAX_PLAIN
  }

  function Concat(frags: seq<seq<byte>>): seq<byte> {
    if frags == [] then [] else Concat(frags[..|frags| - 1]) + frags[|frags| - 1]
  }

  /** The bytes of a run of records of one type, sealed one after the other from h on. */
  function SealAll(s: Suite, h: Half, typ: byte, frags: seq<seq<byte>>): seq<byte>
    requires |s.iv(h.secret)| == 12 && Fragmented(frags)
  {
    if frags == [] then []
    else
      var k := |frags| - 1;
      SealAll(s, h, typ, frags[..k]) + SealRecord(s, Half(h.secret, h.count + k), typ, frags[k])
  }
}
