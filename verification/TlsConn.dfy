/**
 The record layer as objects (internal/tls/conn.go, cipher_suites.go): the nonce mask and the
 sequence number are changed in place, and a write is cut into records by a loop.
 */
module TlsConn {
  import opened Bytes
  import opened TlsRecord

  /** xorNonceAEAD: the mask is changed for the call and changed back. */
  class XorNonceAead {
    const suite: Suite
    const key: Secret
    const nonceMask: array<byte>

    constructor (suite: Suite, key: Secret)
      requires suite.Lawful()
      ensures this.suite == suite && this.key == key && Valid() && fresh(nonceMask)
    {
      this.suite, this.key := suite, key;
      var mask := suite.iv(key);
      nonceMask := new byte[12](i requires 0 <= i < 12 => mask[i]);
      new;
      assert nonceMask[..] == mask;
    }

    ghost predicate Valid()
      reads nonceMask
    {
      suite.Lawful() && nonceMask.Length == 12 && nonceMask[..] == suite.iv(key)
    }

    /** for i, b := range nonce: nonceMask[4+i] ^= b. */
    method Mix(nonce: seq<byte>)
      requires nonceMask.Length == 12 && |nonce| == 8
      modifies nonceMask
      ensures nonceMask[..] == Masked(old(nonceMask[..]), nonce)
    {
      hide Xor;
      for i := 0 to 8
        invariant forall j :: 4 <= j < 4 + i ==> nonceMask[j] == Xor(old(nonceMask[j]), nonce[j - 4])
        invariant forall j :: 0 <= j < 12 && !(4 <= j < 4 + i) ==> nonceMask[j] == old(nonceMask[j])
      {
        nonceMask[4 + i] := Xor(nonceMask[4 + i], nonce[i]);
      }
    }

    /** Mixing twice restores the mask. */
    lemma MixedBack(mask: seq<byte>, nonce: seq<byte>)
      requires |mask| == 12 && |nonce| == 8
      ensures Masked(Masked(mask, nonce), nonce) == mask
    {
      hide Xor;
      forall i | 4 <= i < 12 ensures Masked(Masked(mask, nonce), nonce)[i] == mask[i] {
        XorBack(mask[i], nonce[i - 4]);
      }
    }

    method Seal(nonce: seq<byte>, plaintext: seq<byte>, ad: seq<byte>) returns (out: seq<byte>)
      requires Valid() && |nonce| == 8
      modifies nonceMask
      ensures Valid() && nonceMask[..] == old(nonceMask[..])
      ensures out == suite.seal(key, Masked(suite.iv(key), nonce), ad, plaintext)
    {
      hide Masked;
      MixedBack(nonceMask[..], nonce);
      Mix(nonce);
      out := suite.seal(key, nonceMask[..], ad, plaintext);
      Mix(nonce);
    }

    method Open(nonce: seq<byte>, ciphertext: seq<byte>, ad: seq<byte>) returns (out: Option<seq<byte>>)
      requires Valid() && |nonce| == 8
      modifies nonceMask
      ensures Valid() && nonceMask[..] == old(nonceMask[..])
      ensures out == suite.open(key, Masked(suite.iv(key), nonce), ad, ciphertext)
    {
      hide Masked;
      MixedBack(nonceMask[..], nonce);
      Mix(nonce);
      out := suite.open(key, nonceMask[..], ad, ciphertext);
      Mix(nonce);
    }
  }

  /** Carrying into a run of 255s: the byte before it goes up by one and the run becomes zeros. */
  lemma {:induction false} Carry(s: seq<byte>, t: seq<byte>, i: nat)
    requires |s| == |t| && i < |s| && s[i] < 255 && t[i] == s[i] + 1
    requires forall j :: 0 <= j < i ==> t[j] == s[j]
    requires forall j :: i < j < |s| ==> s[j] == 255 && t[j] == 0
    ensures UnBe(t) == UnBe(s) + 1
  {
    var k := |s| - 1;
    if i == k {
      assert s[..k] == t[..k];
    } else {
      Carry(s[..k], t[..k], i);
    }
  }

  lemma {:induction false} AllOnes(s: seq<byte>)
    ensures UnBe(s) + 1 <= Pow256(|s|)
    ensures UnBe(s) + 1 == Pow256(|s|) <==> forall j :: 0 <= j < |s| ==> s[j] == 255
  {
    if s != [] {
      var k := |s| - 1;
      AllOnes(s[..k]);
      assert (forall j :: 0 <= j < |s| ==> s[j] == 255)
             <==> ((forall j :: 0 <= j < k ==> s[..k][j] == 255) && s[k] == 255);
    }
  }

  /** halfConn with TLS 1.3 keys installed. */
  class HalfConn {
    const suite: Suite
    const seqno: array<byte>
    var trafficSecret: Secret
    var cipher: XorNonceAead

    constructor (suite: Suite, secret: Secret)
      requires suite.Lawful()
      ensures this.suite == suite && Valid() && State() == Half(secret, 0) && fresh(Repr())
    {
      this.suite, trafficSecret := suite, secret;
      cipher := new XorNonceAead(suite, secret);
      seqno := new byte[8](_ => 0);
      new;
      assert seqno[..] == Zeros8();
      ZeroCount();
    }

    ghost function Repr(): set<object>
      reads this
    {
      {this, seqno, cipher, cipher.nonceMask}
    }

    ghost predicate Valid()
      reads this, seqno, cipher, cipher.nonceMask
    {
      && suite.Lawful() && seqno.Length == 8 && seqno != cipher.nonceMask
      && cipher.Valid() && cipher.suite == suite && cipher.key == trafficSecret
    }

    ghost function State(): Half
      reads this, seqno
      requires seqno.Length == 8
    {
      Half(trafficSecret, UnBe(seqno[..]))
    }

    /** A new secret: new key, new mask, and the sequence number starts over. */
    method SetTrafficSecret(secret: Secret)
      requires Valid()
      modifies Repr()
      ensures Valid() && State() == Half(secret, 0) && fresh(Repr() - old(Repr()))
    {
      trafficSecret := secret;
      cipher := new XorNonceAead(suite, secret);
      for i := 0 to 8
        invariant forall j :: 0 <= j < i ==> seqno[j] == 0
        modifies seqno
      {
        seqno[i] := 0;
      }
      assert seqno[..] == Zeros8();
      ZeroCount();
    }

    /** incSeq: big-endian increment with carry; ok is false where the source panics, at 2^64 - 1. */
    method IncSeq() returns (ok: bool)
      requires seqno.Length == 8
      modifies seqno
      ensures ok <==> old(State()).count + 1 < U64
      ensures ok ==> State() == Half(trafficSecret, old(State()).count + 1)
    {
      hide UnBe, Pow256;
      ghost var was := seqno[..];
      AllOnes(was);
      Widths();
      var i := 7;
      while i >= 0
        invariant -1 <= i <= 7
        invariant forall j :: 0 <= j <= i ==> seqno[j] == was[j]
        invariant forall j :: i < j < 8 ==> seqno[j] == 0 && was[j] == 255
      {
        seqno[i] := if seqno[i] == 255 then 0 else seqno[i] + 1;
        if seqno[i] != 0 {
          Carry(was, seqno[..], i);
          return true;
        }
        i := i - 1;
      }
      return false;
    }

    lemma CountBytes(s: seq<byte>)
      requires |s| == 8
      ensures Be(UnBe(s), 8) == s && UnBe(s) < U64
    {
      BeUnBe(s);
      Widths();
    }

    /** encrypt: the record sealed at the current state, which then moves on by one. */
    method Encrypt(typ: byte, payload: seq<byte>) returns (ok: bool, record: seq<byte>)
      requires Valid() && |payload| <= MAX_PLAIN
      modifies seqno, cipher.nonceMask
      ensures Valid()
      ensures record == SealRecord(suite, old(State()), typ, payload)
      ensures ok <==> old(State()).count + 1 < U64
      ensures ok ==> State() == Half(trafficSecret, old(State()).count + 1)
    {
      hide Be, UnBe, Masked;
      CountBytes(seqno[..]);
      var n := |payload| + 1 + OVERHEAD;
      var header := [APPLICATION_DATA, 3, 3, n / 256, n % 256];
      var sealed := cipher.Seal(seqno[..], payload + [typ], header);
      record := header + sealed;
      ok := IncSeq();
    }

    /** The padding scan from the end of the inner plaintext. */
    method FindType(inner: seq<byte>) returns (end: Option<nat>)
      ensures end == Strip(inner)
    {
      var i := |inner| - 1;
      assert inner[..i + 1] == inner;
      while i >= 0
        invariant -1 <= i < |inner|
        invariant Strip(inner) == Strip(inner[..i + 1])
      {
        if inner[i] != 0 { return Some(i); }
        assert inner[..i + 1][..i] == inner[..i];
        i := i - 1;
      }
      return None;
    }

    /** decrypt: the sequence number moves on only for a record that opened. */
    method Decrypt(record: seq<byte>) returns (ok: bool, r: Opened)
      requires Valid() && |record| >= RECORD_HEADER
      modifies seqno, cipher.nonceMask
      ensures Valid()
      ensures r == OpenRecord(suite, old(State()), record)
      ensures !r.Fragment? ==> ok && State() == old(State())
      ensures r.Fragment? ==> (ok <==> old(State()).count + 1 < U64)
      ensures r.Fragment? && ok ==> State() == Half(trafficSecret, old(State()).count + 1)
    {
      hide Be, UnBe, Masked, Strip;
      CountBytes(seqno[..]);
      ok := true;
      if record[0] == CHANGE_CIPHER_SPEC { return ok, Ignored(|record| - RECORD_HEADER); }
      var inner := cipher.Open(seqno[..], record[RECORD_HEADER..], record[..RECORD_HEADER]);
      if inner.None? { return ok, BadMac; }
      if record[0] != APPLICATION_DATA { return ok, Unexpected; }
      if |inner.value| > MAX_PLAIN + 1 { return ok, Overflow; }
      if |inner.value| == 0 {
        r := Fragment(APPLICATION_DATA, []);
      } else {
        var end := FindType(inner.value);
        if end.None? { return ok, Unexpected; }
        r := Fragment(inner.value[end.value], inner.value[..end.value]);
      }
      ok := IncSeq();
    }
  }

  function Zeros8(): seq<byte> { [0, 0, 0, 0, 0, 0, 0, 0] }

  lemma ZeroCount()
    ensures UnBe(Zeros8()) == 0
  {
    var z := Zeros8();
    forall k | 0 <= k <= 8 ensures UnBe(z[..k]) == 0 { ZeroPrefix(k); }
    assert z[..8] == z;
  }

  lemma {:induction false} ZeroPrefix(k: nat)
    requires k <= 8
    ensures UnBe(Zeros8()[..k]) == 0
  {
    if k > 0 {
      ZeroPrefix(k - 1);
      assert Zeros8()[..k][..k - 1] == Zeros8()[..k - 1];
    }
  }

  const MSS: nat := 1208
  const BOOST: nat := 131072

  class Conn {
    const inHalf: HalfConn
    const out: HalfConn
    const sizingDisabled: bool
    var bytesSent: nat
    var packetsSent: nat
    var sent: seq<byte>
    var readErr: bool
    var retryCount: nat

    constructor (suite: Suite, inSecret: Secret, outSecret: Secret, sizingDisabled: bool)
      requires suite.Lawful()
      ensures Valid() && sent == [] && inHalf.State() == Half(inSecret, 0) && out.State() == Half(outSecret, 0)
      ensures !readErr && retryCount == 0
    {
      inHalf := new HalfConn(suite, inSecret);
      out := new HalfConn(suite, outSecret);
      this.sizingDisabled, bytesSent, packetsSent, sent := sizingDisabled, 0, 0, [];
      readErr, retryCount := false, 0;
    }

    ghost predicate Valid()
      reads this, inHalf, inHalf.seqno, inHalf.cipher, inHalf.cipher.nonceMask,
            out, out.seqno, out.cipher, out.cipher.nonceMask
    {
      inHalf.Valid() && out.Valid() && inHalf.suite == out.suite && inHalf.Repr() !! out.Repr()
    }

    /** maxPayloadSizeForWrite: small records first, growing by one packet each, then full ones. */
    method MaxPayload(typ: byte) returns (n: nat)
      modifies this`packetsSent
      ensures 0 < n <= MAX_PLAIN
      ensures packetsSent ==
              old(packetsSent) + if !sizingDisabled && typ == APPLICATION_DATA && bytesSent < BOOST then 1 else 0
      ensures sizingDisabled || typ != APPLICATION_DATA || bytesSent >= BOOST || old(packetsSent) >= 13
              ==> n == MAX_PLAIN
      ensures !(sizingDisabled || typ != APPLICATION_DATA || bytesSent >= BOOST || old(packetsSent) >= 13) ==>
                n == (MSS - RECORD_HEADER - OVERHEAD - 1) * (old(packetsSent) + 1)
    {
      if sizingDisabled || typ != APPLICATION_DATA { return MAX_PLAIN; }
      if bytesSent >= BOOST { return MAX_PLAIN; }
      var payloadBytes := MSS - RECORD_HEADER - OVERHEAD - 1;
      var pkt := packetsSent;
      packetsSent := packetsSent + 1;
      if pkt > 1000 { return MAX_PLAIN; }
      n := payloadBytes * (pkt + 1);
      if n > MAX_PLAIN { n := MAX_PLAIN; }
    }

    /** One turn of the write loop: a header, the sealed fragment, and the counters. */
    method WriteOne(typ: byte, rest: seq<byte>) returns (ok: bool, m: nat)
      requires Valid() && |rest| > 0
      modifies this`packetsSent, this`bytesSent, this`sent, out.seqno, out.cipher.nonceMask
      ensures Valid() && 0 < m <= |rest| && m <= MAX_PLAIN
      ensures typ != APPLICATION_DATA && |rest| <= MAX_PLAIN ==> m == |rest|
      ensures sent == old(sent) + SealRecord(out.suite, old(out.State()), typ, rest[..m])
      ensures ok <==> old(out.State()).count + 1 < U64
      ensures ok ==> out.State() == Half(out.trafficSecret, old(out.State()).count + 1)
    {
      hide UnBe, SealRecord, OpenRecord, Be, Masked;
      m := |rest|;
      var maxPayload := MaxPayload(typ);
      if m > maxPayload { m := maxPayload; }
      var record;
      ok, record := out.Encrypt(typ, rest[..m]);
      sent := sent + record;
      bytesSent := bytesSent + |record|;
    }

    /** writeRecordLocked: the data leaves as full records of one type, sealed in order. */
    method WriteRecord(typ: byte, data: seq<byte>) returns (ok: bool, ghost frags: seq<seq<byte>>)
      requires Valid()
      modifies this`packetsSent, this`bytesSent, this`sent, out.seqno, out.cipher.nonceMask
      ensures Valid() && Fragmented(frags) && |frags| <= |data|
      ensures sent == old(sent) + SealAll(out.suite, old(out.State()), typ, frags)
      ensures ok ==> Concat(frags) == data && out.State() == Half(out.trafficSecret, old(out.State()).count + |frags|)
      ensures old(out.State()).count + |frags| < U64 ==> ok
      ensures typ != APPLICATION_DATA && 0 < |data| <= MAX_PLAIN ==> frags == [data]
    {
      hide UnBe, SealRecord, SealAll, Concat, Fragmented, XorNonceAead.Valid;
      var rest := data;
      frags := [];
      ghost var start := out.State();
      SealNone(out.suite, start, typ);
      while |rest| > 0
        invariant Valid()
        invariant Fragmented(frags) && data == Concat(frags) + rest && |frags| + |rest| <= |data|
        invariant out.State() == Half(out.trafficSecret, start.count + |frags|)
        invariant sent == old(sent) + SealAll(out.suite, start, typ, frags)
        invariant typ != APPLICATION_DATA && 0 < |data| <= MAX_PLAIN
                  ==> (frags == [] && rest == data) || (frags == [data] && rest == [])
      {
        var m;
        ok, m := WriteOne(typ, rest);
        SealSnoc(out.suite, start, typ, frags, rest[..m]);
        Regroup(old(sent), SealAll(out.suite, start, typ, frags),
            SealRecord(out.suite, Half(start.secret, start.count + |frags|), typ, rest[..m]));
        Regroup(Concat(frags), rest[..m], rest[m..]);
        assert rest == rest[..m] + rest[m..] && (m == |rest| ==> rest[..m] == rest);
        frags := frags + [rest[..m]];
        rest := rest[m..];
        if !ok { return; }
      }
      ok := true;
    }

    lemma Regroup(a: seq<byte>, b: seq<byte>, c: seq<byte>)
      ensures a + b + c == a + (b + c)
    {}

    lemma SealNone(s: Suite, h: Half, typ: byte)
      requires s.Lawful()
      ensures Fragmented([]) && SealAll(s, h, typ, []) == [] && Concat([]) == []
    {}

    lemma SealOne(s: Suite, h: Half, typ: byte, f: seq<byte>)
      requires s.Lawful() && 0 < |f| <= MAX_PLAIN
      ensures Fragmented([f]) && SealAll(s, h, typ, [f]) == SealRecord(s, h, typ, f)
    {
      SealNone(s, h, typ);
      SealSnoc(s, h, typ, [], f);
      assert [] + [f] == [f];
    }

    lemma SealSnoc(s: Suite, h: Half, typ: byte, frags: seq<seq<byte>>, f: seq<byte>)
      requires s.Lawful() && Fragmented(frags) && 0 < |f| <= MAX_PLAIN
      ensures Fragmented(frags + [f]) && Concat(frags + [f]) == Concat(frags) + f
      ensures SealAll(s, h, typ, frags + [f])
              == SealAll(s, h, typ, frags) + SealRecord(s, Half(h.secret, h.count + |frags|), typ, f)
    {
      assert (frags + [f])[..|frags|] == frags;
    }

    /**
     handleKeyUpdate: the reading half moves to the next secret; if asked to, the writing half
     announces its own update under the old secret and then moves too.
     */
    method HandleKeyUpdate(requested: bool) returns (ok: bool)
      requires Valid()
      modifies this`packetsSent, this`bytesSent, this`sent, inHalf.Repr(), out.Repr()
      ensures Valid()
      ensures inHalf.State() == Half(inHalf.suite.next(old(inHalf.trafficSecret)), 0)
      ensures !requested ==> ok && sent == old(sent) && out.State() == old(out.State())
      ensures requested && old(out.State()).count + 1 < U64 ==>
                && ok
                && sent == old(sent) + SealRecord(out.suite, old(out.State()), HANDSHAKE, KeyUpdate(false))
                && out.State() == AfterSend(out.suite, old(out.State()), HANDSHAKE, KeyUpdate(false))
    {
      hide UnBe, SealRecord;
      inHalf.SetTrafficSecret(inHalf.suite.next(inHalf.trafficSecret));
      if requested {
        ok := SendKeyUpdate(false);
      } else {
        ok := true;
      }
    }

    /** The announcement, a single record, and the switch right after it. */
    method SendKeyUpdate(requested: bool) returns (ok: bool)
      requires Valid()
      modifies this`packetsSent, this`bytesSent, this`sent, out.Repr()
      ensures Valid() && fresh(out.Repr() - old(out.Repr()))
      ensures old(out.State()).count + 1 < U64 ==>
                && ok
                && sent == old(sent) + SealRecord(out.suite, old(out.State()), HANDSHAKE, KeyUpdate(requested))
                && out.State() == AfterSend(out.suite, old(out.State()), HANDSHAKE, KeyUpdate(requested))
    {
      hide UnBe, SealRecord;
      var msg := KeyUpdate(requested);
      ghost var frags;
      ok, frags := WriteRecord(HANDSHAKE, msg);
      SealOne(out.suite, old(out.State()), HANDSHAKE, msg);
      if !ok { return; }
      out.SetTrafficSecret(out.suite.next(out.trafficSecret));
    }

    /** sendAlert for an error: one record under the writing half's state. */
    method SendAlert(alert: byte)
      requires Valid() && out.State().count + 1 < U64
      modifies this`packetsSent, this`bytesSent, this`sent, out.seqno, out.cipher.nonceMask
      ensures Valid() && inHalf.State() == old(inHalf.State())
      ensures sent == old(sent) + SealRecord(out.suite, old(out.State()), ALERT, AlertBody(alert))
      ensures out.State() == AfterSend(out.suite, old(out.State()), ALERT, AlertBody(alert))
    {
      hide UnBe, SealRecord;
      ghost var frags;
      var ok;
      ok, frags := WriteRecord(ALERT, AlertBody(alert));
      SealOne(out.suite, old(out.State()), ALERT, AlertBody(alert));
    }

    /** The effect of an alert to send, if any, on what was sent. */
    twostate predicate Alerted(alert: Option<byte>)
      reads this, out, out.seqno, out.cipher, out.cipher.nonceMask
    {
      old(out.Valid()) && out.Valid() && out.suite.Lawful() &&
      match alert
      case None => sent == old(sent) && out.State() == old(out.State())
      case Some(a) =>
        && sent == old(sent) + SealRecord(out.suite, old(out.State()), ALERT, AlertBody(a))
        && out.State() == AfterSend(out.suite, old(out.State()), ALERT, AlertBody(a))
    }

    /** What follows from an opened record, once the reading half has counted it. */
    method Act(r: Opened) returns (o: Outcome)
      requires Valid() && out.State().count + 1 < U64
      modifies this, inHalf.Repr(), out.Repr()
      ensures Valid() && o == Judge(r, old(retryCount)) && (readErr <==> old(readErr) || o.Ended? || o.Refused?)
      ensures inHalf.State() == if o.Hand? && ReadKeyUpdate(o.data).Some?
                                then Half(inHalf.suite.next(old(inHalf.State()).secret), 0) else old(inHalf.State())
      ensures retryCount == if o.Dropped? then old(retryCount) + 1
                            else if o.Hand? && ReadKeyUpdate(o.data).Some? then 1
                            else if o.Hand? || o.Input? then 0 else old(retryCount)
      ensures if o == Hand(KeyUpdate(true)) then
                && sent == old(sent) + SealRecord(out.suite, old(out.State()), HANDSHAKE, KeyUpdate(false))
                && out.State() == AfterSend(out.suite, old(out.State()), HANDSHAKE, KeyUpdate(false))
              else Alerted(if o.Refused? then Some(o.alert) else None)
    {
      hide UnBe, SealRecord, Judge, AfterSend, ReadKeyUpdate;
      o := Judge(r, retryCount);
      match o {
        case Input(_) => retryCount := 0;
        case Hand(data) =>
          var update := ReadKeyUpdate(data);
          retryCount := if update.Some? then 1 else 0;
          ReadKeyUpdateIff(data, true);
          ReadKeyUpdateIff(data, false);
          if update.Some? { var _ := HandleKeyUpdate(update.value); }
        case Dropped => retryCount := retryCount + 1;
        case Ended(_) => readErr := true;
        case Refused(alert) =>
          SendAlert(alert);
          readErr := true;
      }
    }

    lemma JudgedHand(r: Opened, useless: nat)
      ensures Judge(r, useless).Hand? <==> r.Fragment? && r.typ == HANDSHAKE && 0 < |r.data| <= MAX_PLAIN
      ensures Judge(r, useless).Hand? ==> Judge(r, useless).data == r.data
      ensures r.Fragment? && ReadKeyUpdate(r.data).Some? ==> 0 < |r.data| <= MAX_PLAIN
      ensures |KeyUpdate(true)| == 5 && ReadKeyUpdate(KeyUpdate(true)).Some?
    {}

    /**
     Read one record off the raw input (readRecordOrCCS, and handlePostHandshakeMessage for a key
     update): cut it off, open it at the reading half's state, and act on it. An error is answered
     with its alert and ends the reading for good, as does the peer's own alert.
     */
    method ReadRecord(raw: seq<byte>) returns (cut: Cut, r: Opened, o: Outcome)
      requires Valid() && inHalf.State().count + 1 < U64 && out.State().count + 1 < U64
      modifies this, inHalf.Repr(), out.Repr()
      ensures Valid() && cut == (if old(readErr) then NeedMore else Take(raw))
      // Nothing is read before a whole record is there, or after an error.
      ensures cut.NeedMore? ==> Alerted(None) && inHalf.State() == old(inHalf.State())
                                && readErr == old(readErr) && retryCount == old(retryCount)
      ensures cut.BadRecord? ==> Alerted(Some(cut.alert)) && inHalf.State() == old(inHalf.State()) && readErr
      ensures cut.Record? ==>
                && r == OpenRecord(inHalf.suite, old(inHalf.State()), cut.bytes)
                && o == Judge(r, old(retryCount)) && (readErr <==> o.Ended? || o.Refused?)
                && inHalf.State() == (if r.Fragment? then AfterReceive(inHalf.suite, old(inHalf.State()), r.typ, r.data)
                                      else old(inHalf.State()))
                && retryCount == (if o.Dropped? then old(retryCount) + 1
                                  else if o.Hand? && ReadKeyUpdate(o.data).Some? then 1
                                  else if o.Hand? || o.Input? then 0 else old(retryCount))
                && (r == Fragment(HANDSHAKE, KeyUpdate(true)) ==>
                      && sent == old(sent) + SealRecord(out.suite, old(out.State()), HANDSHAKE, KeyUpdate(false))
                      && out.State() == AfterSend(out.suite, old(out.State()), HANDSHAKE, KeyUpdate(false)))
                && (r != Fragment(HANDSHAKE, KeyUpdate(true)) ==> Alerted(if o.Refused? then Some(o.alert) else None))
    {
      hide UnBe, SealRecord, OpenRecord, SealAll, Judge, ReadKeyUpdate, Take;
      cut, r, o := if readErr then NeedMore else Take(raw), Ignored(0), Dropped;
      if cut.NeedMore? { return; }
      if cut.BadRecord? {
        SendAlert(cut.alert);
        readErr := true;
        return;
      }
      var counted;
      counted, r := inHalf.Decrypt(cut.bytes);
      JudgedHand(r, retryCount);
      o := Act(r);
    }
  }
}
