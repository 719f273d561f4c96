/**
 The write-ahead log's two byte formats and the scan that replays them
 (internal/persistence/persistence.go). A plaintext log is a run of records; an
 encrypted log is a magic prefix followed by length-prefixed sealed records whose
 nonce carries a counter.
 */
module Wal {
  import opened Bytes
  import opened Aead

  /** The TTL that marks a record as a deletion (math.MinInt64). */
  const TOMBSTONE: int := -I63

  const HEADER: nat := 16
  const MAGIC: seq<byte> := [0x54, 0x53, 0x57, 0x01]

  /** One logged operation. ttl is a deadline in Unix nanoseconds, 0 for none. */
  datatype Record = Record(key: seq<byte>, value: seq<byte>, ttl: int) {
    predicate Encodable() {
      |key| < U32 && |value| < U32 && -I63 <= ttl < I63
    }

    function Header(): (h: seq<byte>)
      requires Encodable()
      ensures |h| == HEADER
    {
      Le(|key|, 4) + Le(|value|, 4) + Le(ToU64(ttl), 8)
    }

    function Encode(): seq<byte>
      requires Encodable()
    {
      Header() + key + value
    }
  }

  /** A record together with the nonce counter it was sealed under; 0 in a plaintext log. */
  datatype Frame = Frame(ctr: nat, rec: Record)

  datatype Mode = Plain | Sealed(cipher: Cipher, shard: nat) {
    ghost predicate Valid() {
      Sealed? ==> cipher.Lawful() && shard < U32
    }

    function Prefix(): seq<byte> {
      if Plain? then [] else MAGIC
    }
  }

  function Nonce(ctr: nat, shard: nat): (n: seq<byte>)
    ensures |n| == NONCE
  {
    Le(ctr, 8) + Le(shard, 4)
  }

  /** What Write and Delete accept: lengths that fit their prefixes (lines 323-336 and 274-280). */
  predicate Fits(mode: Mode, f: Frame) {
    && f.rec.Encodable()
    && match mode
       case Plain => f.ctr == 0
       case Sealed(_, _) => f.ctr < U64 && NONCE + HEADER + |f.rec.key| + |f.rec.value| + TAG < U32
  }

  predicate AllFit(mode: Mode, fs: seq<Frame>) {
    forall i :: 0 <= i < |fs| ==> Fits(mode, fs[i])
  }

  function EncodeFrame(mode: Mode, f: Frame): seq<byte>
    requires Fits(mode, f)
  {
    match mode
    case Plain => f.rec.Encode()
    case Sealed(c, shard) =>
      var nonce := Nonce(f.ctr, shard);
      var box := c.seal(nonce, f.rec.Encode());
      Le(NONCE + |box|, 4) + nonce + box
  }

  /** The body of a log file: its records without the magic prefix. */
  function LogBytes(mode: Mode, fs: seq<Frame>): seq<byte>
    requires AllFit(mode, fs)
  {
    if fs == [] then [] else LogBytes(mode, fs[..|fs| - 1]) + EncodeFrame(mode, fs[|fs| - 1])
  }

  function FileBytes(mode: Mode, fs: seq<Frame>): seq<byte>
    requires AllFit(mode, fs)
  {
    mode.Prefix() + LogBytes(mode, fs)
  }

  // ----- Scanning -----

  /**
   One turn of a replay loop. Stop leaves the offset where it was; Bad is an opened
   record whose lengths disagree, which the loop counts into the offset but does not
   apply; seen is the counter read before the turn ended.
   */
  datatype Turn = Stop(seen: nat) | Bad(len: nat, seen: nat) | Good(frame: Frame, len: nat)

  /** The record whose 16-byte header, key and value start at b, when it is all there. */
  function RecordAt(b: seq<byte>): (r: Option<Record>)
    ensures r.Some? ==> r.value.Encodable() && |r.value.key| + |r.value.value| + HEADER <= |b|
  {
    if |b| < HEADER then None
    else
      var kl, vl := UnLe(b[0..4]), UnLe(b[4..8]);
      if kl + vl > |b| - HEADER then None
      else
        Widths(); UnLeBound(b[0..4]); UnLeBound(b[4..8]); UnLeBound(b[8..16]);
        Some(Record(b[HEADER..HEADER + kl], b[HEADER + kl..HEADER + kl + vl], ToI64(UnLe(b[8..16]))))
  }

  function Size(r: Record): nat { HEADER + |r.key| + |r.value| }

  function SealedTurn(cipher: Cipher, b: seq<byte>): Turn {
    if |b| < 4 then Stop(0)
    else
      var recLen := UnLe(b[..4]);
      if recLen < NONCE + TAG || recLen > |b| - 4 then Stop(0)
      else
        var nonce, box := b[4..4 + NONCE], b[4 + NONCE..4 + recLen];
        var ctr := UnLe(nonce[..8]);
        match cipher.open(nonce, box)
        case None => Stop(ctr)
        case Some(plain) =>
          if |plain| < HEADER then Stop(ctr)
          else
            match RecordAt(plain)
            case None => Bad(4 + recLen, ctr)
            case Some(r) => if Size(r) != |plain| then Bad(4 + recLen, ctr) else Good(Frame(ctr, r), 4 + recLen)
  }

  function Next(mode: Mode, b: seq<byte>): (t: Turn)
    ensures t.Good? ==> 0 < t.len <= |b|
    ensures t.Bad? ==> 0 < t.len <= |b|
  {
    match mode
    case Plain => (match RecordAt(b) case None => Stop(0) case Some(r) => Good(Frame(0, r), Size(r)))
    case Sealed(c, _) => SealedTurn(c, b)
  }

  /** What a whole replay reads: the frames, the bytes they span, and the largest counter seen. */
  datatype Scan = Scan(frames: seq<Frame>, offset: nat, maxCtr: nat)

  function ScanLog(mode: Mode, b: seq<byte>): (s: Scan)
    ensures s.offset <= |b|
    decreases |b|
  {
    match Next(mode, b)
    case Stop(c) => Scan([], 0, c)
    case Bad(len, c) => Scan([], len, c)
    case Good(f, len) =>
      var s := ScanLog(mode, b[len..]);
      Scan([f] + s.frames, len + s.offset, Max(f.ctr, s.maxCtr))
  }

  function MaxCtr(fs: seq<Frame>): nat {
    if fs == [] then 0 else Max(MaxCtr(fs[..|fs| - 1]), fs[|fs| - 1].ctr)
  }

  // ----- Reading back one frame -----

  lemma RecordAtEncode(r: Record, rest: seq<byte>)
    requires r.Encodable()
    ensures RecordAt(r.Encode() + rest) == Some(r)
    ensures |r.Encode()| == Size(r)
  {
    var b := r.Encode() + rest;
    Widths();
    UnLeLe(|r.key|, 4);
    UnLeLe(|r.value|, 4);
    UnLeLe(ToU64(r.ttl), 8);
    assert b[0..4] == Le(|r.key|, 4);
    assert b[4..8] == Le(|r.value|, 4);
    assert b[8..16] == Le(ToU64(r.ttl), 8);
    assert b[HEADER..HEADER + |r.key|] == r.key;
    assert b[HEADER + |r.key|..Size(r)] == r.value;
  }

  /** A plaintext record cut short anywhere is not read. */
  lemma RecordAtTorn(r: Record, k: nat)
    requires r.Encodable() && k < |r.Encode()|
    ensures RecordAt(r.Encode()[..k]) == None
  {
    hide Le, UnLe;
    var e, b := r.Encode(), r.Encode()[..k];
    if k >= HEADER {
      Widths();
      UnLeLe(|r.key|, 4);
      UnLeLe(|r.value|, 4);
      assert e[0..4] == Le(|r.key|, 4);
      assert e[4..8] == Le(|r.value|, 4);
      assert b[0..4] == e[0..4] && b[4..8] == e[4..8];
    }
  }

  lemma SealedFrameLayout(mode: Mode, f: Frame)
    requires mode.Valid() && mode.Sealed? && Fits(mode, f)
    ensures var e := EncodeFrame(mode, f);
            && |e| == 4 + NONCE + Size(f.rec) + TAG
            && UnLe(e[..4]) == |e| - 4
            && e[4..4 + NONCE] == Nonce(f.ctr, mode.shard)
            && e[4 + NONCE..] == mode.cipher.seal(Nonce(f.ctr, mode.shard), f.rec.Encode())
            && UnLe(e[4..12]) == f.ctr
  {
    var nonce := Nonce(f.ctr, mode.shard);
    var box := mode.cipher.seal(nonce, f.rec.Encode());
    var e := EncodeFrame(mode, f);
    RecordAtEncode(f.rec, []);
    Widths();
    UnLeLe(NONCE + |box|, 4);
    UnLeLe(f.ctr, 8);
    assert e[..4] == Le(NONCE + |box|, 4);
    assert e[4..4 + NONCE] == nonce;
    assert e[4 + NONCE..] == box;
    assert e[4..12] == nonce[..8] == Le(f.ctr, 8);
  }

  /** A whole frame is read back exactly, whatever follows it. */
  lemma NextEncode(mode: Mode, f: Frame, rest: seq<byte>)
    requires mode.Valid() && Fits(mode, f)
    ensures Next(mode, EncodeFrame(mode, f) + rest) == Good(f, |EncodeFrame(mode, f)|)
  {
    RecordAtEncode(f.rec, rest);
    if mode.Sealed? {
      SealedFrameLayout(mode, f);
      var e := EncodeFrame(mode, f);
      var b := e + rest;
      assert b[..4] == e[..4];
      assert b[4..4 + NONCE] == e[4..4 + NONCE];
      assert b[4 + NONCE..|e|] == e[4 + NONCE..];
      assert b[4..4 + NONCE][..8] == e[4..12];
      RecordAtEncode(f.rec, []);
      assert f.rec.Encode() + [] == f.rec.Encode();
    }
  }

  /** A frame cut short anywhere stops the scan without moving the offset. */
  lemma NextTorn(mode: Mode, f: Frame, k: nat)
    requires mode.Valid() && Fits(mode, f) && k < |EncodeFrame(mode, f)|
    ensures Next(mode, EncodeFrame(mode, f)[..k]) == Stop(0)
  {
    match mode
    case Plain => RecordAtTorn(f.rec, k);
    case Sealed(_, _) =>
      SealedFrameLayout(mode, f);
      var e := EncodeFrame(mode, f);
      if k >= 4 { assert e[..k][..4] == e[..4]; }
  }

  lemma NextEmpty(mode: Mode)
    ensures Next(mode, []) == Stop(0)
  {}

  // ----- Reading back whole logs -----

  lemma {:induction false} LogBytesCons(mode: Mode, f: Frame, fs: seq<Frame>)
    requires Fits(mode, f) && AllFit(mode, fs)
    ensures AllFit(mode, [f] + fs)
    ensures LogBytes(mode, [f] + fs) == EncodeFrame(mode, f) + LogBytes(mode, fs)
  {
    hide EncodeFrame, Fits;
    var all := [f] + fs;
    if fs == [] {
      assert all[..0] == [];
    } else {
      LogBytesCons(mode, f, fs[..|fs| - 1]);
      assert all[..|all| - 1] == [f] + fs[..|fs| - 1];
    }
  }

  lemma {:induction false} MaxCtrCons(f: Frame, fs: seq<Frame>)
    ensures MaxCtr([f] + fs) == Max(f.ctr, MaxCtr(fs))
  {
    var all := [f] + fs;
    if fs == [] {
      assert all[..0] == [];
    } else {
      MaxCtrCons(f, fs[..|fs| - 1]);
      assert all[..|all| - 1] == [f] + fs[..|fs| - 1];
    }
  }

  /** Frames followed by a tail the scan stops at: exactly the frames are read. */
  lemma {:induction false} ScanFrames(mode: Mode, fs: seq<Frame>, tail: seq<byte>)
    requires mode.Valid() && AllFit(mode, fs) && Next(mode, tail) == Stop(0)
    ensures ScanLog(mode, LogBytes(mode, fs) + tail) == Scan(fs, |LogBytes(mode, fs)|, MaxCtr(fs))
  {
    hide EncodeFrame, Fits, Next;
    if fs == [] {
      assert LogBytes(mode, fs) + tail == tail;
    } else {
      var f, rest := fs[0], fs[1..];
      assert fs == [f] + rest;
      LogBytesCons(mode, f, rest);
      MaxCtrCons(f, rest);
      var e := EncodeFrame(mode, f);
      var after := LogBytes(mode, rest) + tail;
      assert LogBytes(mode, fs) + tail == e + after;
      NextEncode(mode, f, after);
      assert (e + after)[|e|..] == after;
      ScanFrames(mode, rest, tail);
    }
  }

  /** How many whole frames the first k bytes of the log hold. */
  function WholeFrames(mode: Mode, fs: seq<Frame>, k: nat): (m: nat)
    requires AllFit(mode, fs)
    ensures m <= |fs|
  {
    if |LogBytes(mode, fs)| <= k then |fs| else WholeFrames(mode, fs[..|fs| - 1], k)
  }

  /**
   Torn-tail parsing: any byte prefix of a log reads as exactly the whole frames it
   contains, and the truncation offset is exactly their total length.
   */
  lemma {:induction false} TornTail(mode: Mode, fs: seq<Frame>, k: nat)
    requires mode.Valid() && AllFit(mode, fs) && k <= |LogBytes(mode, fs)|
    ensures var m := WholeFrames(mode, fs, k);
            && |LogBytes(mode, fs[..m])| <= k
            && (m < |fs| ==> k < |LogBytes(mode, fs[..m + 1])|)
            && ScanLog(mode, LogBytes(mode, fs)[..k]) == Scan(fs[..m], |LogBytes(mode, fs[..m])|, MaxCtr(fs[..m]))
  {
    hide EncodeFrame, Fits, Next, ScanLog, LogBytes, AllFit, MaxCtr;
    var all := LogBytes(mode, fs);
    WholeTake(fs);
    if |all| <= k {
      WholeTake(all);
      NextEmpty(mode);
      ScanFrames(mode, fs, []);
      assert all + [] == all;
    } else {
      LogSplit(mode, fs);
      var n := |fs| - 1;
      var head := LogBytes(mode, fs[..n]);
      if k < |head| {
        TornTail(mode, fs[..n], k);
        WholeTake(fs[..n]);
        TakeTake(fs, n, WholeFrames(mode, fs[..n], k));
        TakeTake(fs, n, WholeFrames(mode, fs[..n], k) + 1);
        TakeHead(head, EncodeFrame(mode, fs[n]), k);
      } else {
        TornLast(mode, fs, k - |head|);
      }
    }
  }

  lemma WholeTake<T>(s: seq<T>)
    ensures s[..|s|] == s
  {}

  lemma TakeTake<T>(s: seq<T>, n: nat, m: nat)
    requires n <= |s|
    ensures m <= n ==> s[..n][..m] == s[..m]
  {}

  lemma TakeHead<T>(s: seq<T>, t: seq<T>, k: nat)
    requires k <= |s|
    ensures (s + t)[..k] == s[..k]
  {}

  lemma LogSplit(mode: Mode, fs: seq<Frame>)
    requires AllFit(mode, fs) && |LogBytes(mode, fs)| > 0
    ensures fs != [] && AllFit(mode, fs[..|fs| - 1]) && Fits(mode, fs[|fs| - 1])
    ensures LogBytes(mode, fs) == LogBytes(mode, fs[..|fs| - 1]) + EncodeFrame(mode, fs[|fs| - 1])
  {
    hide EncodeFrame, Fits;
  }

  lemma TornLast(mode: Mode, fs: seq<Frame>, cut: nat)
    requires mode.Valid() && fs != [] && AllFit(mode, fs) && AllFit(mode, fs[..|fs| - 1]) && Fits(mode, fs[|fs| - 1])
    requires cut < |EncodeFrame(mode, fs[|fs| - 1])|
    ensures var init := fs[..|fs| - 1];
            var head := LogBytes(mode, init);
            && WholeFrames(mode, fs, |head| + cut) == |init|
            && ScanLog(mode, LogBytes(mode, fs)[..|head| + cut]) == Scan(init, |head|, MaxCtr(init))
  {
    hide EncodeFrame, Fits, Next, ScanLog, AllFit;
    var init, last := fs[..|fs| - 1], fs[|fs| - 1];
    var head, tail := LogBytes(mode, init), EncodeFrame(mode, last)[..cut];
    assert LogBytes(mode, fs)[..|head| + cut] == head + tail;
    NextTorn(mode, last, cut);
    ScanFrames(mode, init, tail);
  }

  // ----- Replaying any file twice -----

  /** A turn that accepts len bytes looked at no others. */
  lemma NextLocal(mode: Mode, b: seq<byte>, k: nat)
    requires k <= |b|
    requires var t := Next(mode, b); !t.Stop? && t.len <= k
    ensures Next(mode, b[..k]) == Next(mode, b)
  {
    var c := b[..k];
    match mode
    case Plain =>
      assert c[0..4] == b[0..4] && c[4..8] == b[4..8] && c[8..16] == b[8..16];
      var r := RecordAt(b).value;
      assert c[HEADER..HEADER + |r.key|] == b[HEADER..HEADER + |r.key|];
      assert c[HEADER + |r.key|..Size(r)] == b[HEADER + |r.key|..Size(r)];
    case Sealed(_, _) =>
      assert c[..4] == b[..4];
      var n := UnLe(b[..4]);
      assert c[4..4 + NONCE] == b[4..4 + NONCE];
      assert c[4 + NONCE..4 + n] == b[4 + NONCE..4 + n];
  }

  /**
   Replaying the truncated file reads the same frames and truncates nothing. This
   holds of every byte string, corrupt or not.
   */
  lemma {:induction false} SecondReplay(mode: Mode, b: seq<byte>)
    requires mode.Valid()
    ensures var s := ScanLog(mode, b);
            var again := ScanLog(mode, b[..s.offset]);
            again.frames == s.frames && again.offset == s.offset == |b[..s.offset]|
    decreases |b|
  {
    hide Next;
    var s := ScanLog(mode, b);
    match Next(mode, b)
    case Stop(_) =>
      NextEmpty(mode);
      assert b[..0] == [];
    case Bad(len, _) => NextLocal(mode, b, len);
    case Good(f, len) =>
      var rest := ScanLog(mode, b[len..]);
      SecondReplay(mode, b[len..]);
      assert s.offset == len + rest.offset;
      NextLocal(mode, b, s.offset);
      var kept := b[..s.offset];
      assert kept[len..] == b[len..][..rest.offset];
      assert Next(mode, kept) == Good(f, len);
  }
}
