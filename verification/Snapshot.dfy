/**
 The snapshot file (internal/persistence/snapshot.go): a header that carries a key
 count, a key fingerprint and a checksum over the rest, then the live entries in the
 plaintext log's record layout. hash stands for xxhash64 and is left uninterpreted.
 */
module Snapshot {
  import opened Bytes
  import opened Aead
  import opened Wal
  import opened Replay
  import opened TimedStore
  import E = Engine

  type Hash = seq<byte> -> u64

  const SNAP_MAGIC: seq<byte> := [0x54, 0x53, 0x4E, 0x53]
  const FINGERPRINT: nat := 16
  const BASE_HEADER: nat := 32
  const SNAP_HEADER: nat := 48
  const ZERO8: seq<byte> := [0, 0, 0, 0, 0, 0, 0, 0]
  const NO_KEY: seq<byte> := ZERO8 + ZERO8

  function RecordOf(e: E.Entry): Record { Record(e.key, e.value, e.exp) }
  function EntryOf(r: Record): E.Entry { E.Entry(r.key, r.value, r.ttl) }

  predicate Writable(es: seq<E.Entry>) { forall i :: 0 <= i < |es| ==> RecordOf(es[i]).Encodable() }

  /** The entries as they travel through the pipe and as they follow the header. */
  function Body(es: seq<E.Entry>): seq<byte>
    requires Writable(es)
  {
    if es == [] then [] else Body(es[..|es| - 1]) + RecordOf(es[|es| - 1]).Encode()
  }

  function Header(count: nat, created: nat, sum: nat, fp: seq<byte>): (h: seq<byte>)
    requires |fp| == FINGERPRINT
    ensures |h| == SNAP_HEADER
  {
    SNAP_MAGIC + Le(2, 4) + Le(count, 8) + Le(created, 8) + Le(sum, 8) + fp
  }

  /** The whole file for a given entry order and creation time. */
  function Render(es: seq<E.Entry>, created: nat, fp: seq<byte>, hash: Hash): seq<byte>
    requires Writable(es) && |fp| == FINGERPRINT
  {
    Header(|es|, created, hash(Header(0, created, 0, fp) + Body(es)), fp) + Body(es)
  }

  // ----- Writing -----

  lemma BodySnoc(es: seq<E.Entry>, i: nat)
    requires Writable(es) && i < |es|
    ensures Body(es[..i + 1]) == Body(es[..i]) + RecordOf(es[i]).Encode()
  {
    assert es[..i + 1][..i] == es[..i];
  }

  /** snapshotWrite: hash and file grow entry by entry, then the header is patched. */
  method WriteInProcess(es: seq<E.Entry>, created: nat, fp: seq<byte>, hash: Hash) returns (file: seq<byte>)
    requires Writable(es) && |fp| == FINGERPRINT
    ensures file == Render(es, created, fp, hash)
  {
    hide Record.Encode, Header;
    var hdr := Header(0, created, 0, fp);
    file := hdr;
    var hashed := hdr;
    var keyCount := 0;
    while keyCount < |es|
      invariant 0 <= keyCount <= |es|
      invariant file == hashed == hdr + Body(es[..keyCount])
    {
      var entry := RecordOf(es[keyCount]).Encode();
      BodySnoc(es, keyCount);
      hashed := hashed + entry;
      file := file + entry;
      keyCount := keyCount + 1;
    }
    assert es[..keyCount] == es;
    file := Header(keyCount, created, hash(hashed), fp) + file[SNAP_HEADER..];
  }

  /** serializeEngineToWriter. */
  method Serialize(es: seq<E.Entry>) returns (pipe: seq<byte>)
    requires Writable(es)
    ensures pipe == Body(es)
  {
    hide Record.Encode;
    pipe := [];
    for i := 0 to |es|
      invariant pipe == Body(es[..i])
    {
      BodySnoc(es, i);
      pipe := pipe + RecordOf(es[i]).Encode();
    }
    assert es[..|es|] == es;
  }

  /** The entries spelled by a byte string, when it is nothing but whole entries. */
  function ParseEntries(b: seq<byte>): (r: Option<seq<E.Entry>>)
    ensures r.Some? ==> Writable(r.value)
    decreases |b|
  {
    if b == [] then Some([])
    else
      match RecordAt(b)
      case None => None
      case Some(rec) =>
        match ParseEntries(b[Size(rec)..])
        case None => None
        case Some(rest) => Some([EntryOf(rec)] + rest)
  }

  lemma {:induction false} BodyCons(e: E.Entry, es: seq<E.Entry>)
    requires RecordOf(e).Encodable() && Writable(es)
    ensures Writable([e] + es)
    ensures Body([e] + es) == RecordOf(e).Encode() + Body(es)
  {
    hide Record.Encode;
    var all := [e] + es;
    if es == [] {
      assert all[..0] == [];
    } else {
      BodyCons(e, es[..|es| - 1]);
      assert all[..|all| - 1] == [e] + es[..|es| - 1];
    }
  }

  lemma {:induction false} ParseBody(es: seq<E.Entry>)
    requires Writable(es)
    ensures ParseEntries(Body(es)) == Some(es)
  {
    hide Record.Encode, RecordAt;
    if es != [] {
      var e, rest := es[0], es[1..];
      assert es == [e] + rest;
      BodyCons(e, rest);
      var enc := RecordOf(e).Encode();
      RecordAtEncode(RecordOf(e), Body(rest));
      RecordAtEncode(RecordOf(e), []);
      assert Body(es)[|enc|..] == Body(rest);
      ParseBody(rest);
    }
  }

  lemma RecordAtWhole(b: seq<byte>)
    requires RecordAt(b).Some?
    ensures RecordAt(b).value.Encode() == b[..Size(RecordAt(b).value)]
  {
    Widths();
    LeUnLe(b[0..4]); LeUnLe(b[4..8]); LeUnLe(b[8..16]);
    UnLeBound(b[8..16]);
    var r := RecordAt(b).value;
    assert r.Header() == b[0..4] + b[4..8] + b[8..16] == b[..HEADER];
    assert r.key == b[HEADER..HEADER + |r.key|];
    assert r.Header() + r.key == b[..HEADER + |r.key|];
  }

  /** Bytes that parse are exactly the encoding of what they parse to. */
  lemma {:induction false} BodyParse(b: seq<byte>)
    requires ParseEntries(b).Some?
    ensures Body(ParseEntries(b).value) == b
    decreases |b|
  {
    hide Record.Encode, RecordAt;
    if b != [] {
      var rec := RecordAt(b).value;
      var rest := b[Size(rec)..];
      BodyParse(rest);
      BodyCons(EntryOf(rec), ParseEntries(rest).value);
      RecordAtWhole(b);
      assert RecordOf(EntryOf(rec)) == rec;
      assert b == b[..Size(rec)] + rest;
    }
  }

  /** snapshotChildWrite: re-reads the pipe entry by entry; a torn entry aborts. */
  method ChildWrite(pipe: seq<byte>, created: nat, fp: seq<byte>, hash: Hash) returns (file: Option<seq<byte>>)
    requires |fp| == FINGERPRINT
    ensures file == match ParseEntries(pipe)
                    case None => None
                    case Some(es) => Some(Render(es, created, fp, hash))
  {
    hide Record.Encode, Header, RecordAt;
    var hdr := Header(0, created, 0, fp);
    var out, hashed := hdr, hdr;
    var keyCount, pos := 0, 0;
    while pos < |pipe|
      invariant 0 <= pos <= |pipe|
      invariant out == hashed == hdr + pipe[..pos]
      invariant match ParseEntries(pipe[pos..])
                case None => ParseEntries(pipe) == None
                case Some(rest) => ParseEntries(pipe).Some? && keyCount + |rest| == |ParseEntries(pipe).value|
      decreases |pipe| - pos
    {
      match RecordAt(pipe[pos..])
      case None => return None;
      case Some(rec) =>
        RecordAtWhole(pipe[pos..]);
        var next := pos + Size(rec);
        assert pipe[pos..][Size(rec)..] == pipe[next..];
        assert pipe[..next] == pipe[..pos] + pipe[pos..][..Size(rec)];
        hashed := hashed + rec.Encode();
        out := out + rec.Encode();
        keyCount := keyCount + 1;
        pos := next;
    }
    assert pipe[pos..] == [] && pipe[..pos] == pipe;
    BodyParse(pipe);
    file := Some(Header(keyCount, created, hash(hashed), fp) + out[SNAP_HEADER..]);
  }

  /** The pipe-and-child path writes the bytes of the in-process path, for every entry list. */
  lemma PathsAgree(es: seq<E.Entry>, created: nat, fp: seq<byte>, hash: Hash)
    requires Writable(es) && |fp| == FINGERPRINT
    ensures ParseEntries(Body(es)).Some?
    ensures Render(ParseEntries(Body(es)).value, created, fp, hash) == Render(es, created, fp, hash)
  {
    ParseBody(es);
  }

  // ----- Reading -----

  /** The file with its count and checksum fields zeroed: what the checksum covers. */
  function Blank(b: seq<byte>): seq<byte>
    requires |b| >= BASE_HEADER
  {
    b[..8] + ZERO8 + b[16..24] + ZERO8 + b[BASE_HEADER..]
  }

  predicate ChecksumOk(b: seq<byte>, hash: Hash) {
    |b| >= BASE_HEADER && hash(Blank(b)) == UnLe(b[24..32])
  }

  /** Version 1 files carry no fingerprint, which reads as all zero. */
  function HeaderSize(version: nat): nat { if version == 2 then SNAP_HEADER else BASE_HEADER }

  /** snapshotRead up to the point where the engine is touched. */
  function ReadSnapshot(b: seq<byte>, fp: seq<byte>, hash: Hash): Option<seq<E.Entry>> {
    if |b| < BASE_HEADER || b[..4] != SNAP_MAGIC then None
    else
      var version := UnLe(b[4..8]);
      if (version != 1 && version != 2) || |b| < HeaderSize(version) then None
      else if (if version == 2 then b[BASE_HEADER..SNAP_HEADER] else NO_KEY) != fp then None
      else
        match ParseEntries(b[HeaderSize(version)..])
        case None => None
        case Some(es) => if ChecksumOk(b, hash) then Some(es) else None
  }

  lemma HeaderFields(count: nat, created: nat, sum: nat, fp: seq<byte>, body: seq<byte>)
    requires |fp| == FINGERPRINT && sum < U64
    ensures var b := Header(count, created, sum, fp) + body;
            && b[..4] == SNAP_MAGIC && UnLe(b[4..8]) == 2
            && b[BASE_HEADER..SNAP_HEADER] == fp && b[SNAP_HEADER..] == body
            && UnLe(b[24..32]) == sum
            && Blank(b) == Header(0, created, 0, fp) + body
  {
    hide Le, UnLe;
    Slices(SNAP_MAGIC, Le(2, 4), Le(count, 8), Le(created, 8), Le(sum, 8), fp, body);
    Widths();
    UnLeLe(2, 4);
    UnLeLe(sum, 8);
    LeZero();
    assert |ZERO8| == 8;
    Slices(SNAP_MAGIC, Le(2, 4), ZERO8, Le(created, 8), ZERO8, fp, body);
  }

  lemma Slices(m: seq<byte>, v: seq<byte>, c: seq<byte>, t: seq<byte>, s: seq<byte>, fp: seq<byte>, body: seq<byte>)
    requires |m| == |v| == 4 && |c| == |t| == |s| == 8 && |fp| == FINGERPRINT
    ensures var b := m + v + c + t + s + fp + body;
            && b[..4] == m && b[4..8] == v && b[24..32] == s && b[BASE_HEADER..SNAP_HEADER] == fp
            && b[SNAP_HEADER..] == body
            && b[..8] + ZERO8 + b[16..24] + ZERO8 + b[BASE_HEADER..] == m + v + ZERO8 + t + ZERO8 + fp + body
  {
    var b := m + v + c + t + s + fp + body;
    assert b[..8] == m + v && b[16..24] == t && b[BASE_HEADER..] == fp + body;
  }

  lemma LeZero()
    ensures Le(0, 8) == ZERO8
  {
    assert Le(0, 2) == [0, 0];
    assert Le(0, 4) == [0, 0] + Le(0, 2);
    assert Le(0, 6) == [0, 0] + Le(0, 4);
  }

  /** A written snapshot reads back entry for entry under its own key, and not at all under another. */
  lemma RoundTrip(es: seq<E.Entry>, created: nat, fp: seq<byte>, fp': seq<byte>, hash: Hash)
    requires Writable(es) && |fp| == FINGERPRINT
    ensures ReadSnapshot(Render(es, created, fp, hash), fp', hash) == if fp' == fp then Some(es) else None
  {
    hide Record.Encode, RecordAt, Header, ParseEntries, UnLe;
    var sum := hash(Header(0, created, 0, fp) + Body(es));
    HeaderFields(|es|, created, sum, fp, Body(es));
    ParseBody(es);
  }

  /** Nothing is accepted unless the recomputed checksum matches the stored one. */
  lemma AcceptedIsChecked(b: seq<byte>, fp: seq<byte>, hash: Hash)
    requires ReadSnapshot(b, fp, hash).Some?
    ensures ChecksumOk(b, hash)
  {}

  // ----- Loading into the engine -----

  function LoadAll(m: Store, es: seq<E.Entry>, now: int): Store {
    if es == [] then m
    else
      var m1, e := LoadAll(m, es[..|es| - 1], now), es[|es| - 1];
      if e.exp == 0 || now < e.exp then m1[e.key := Item(e.value, e.exp)] else m1
  }

  predicate DistinctKeys(es: seq<E.Entry>) {
    forall i, j :: 0 <= i < j < |es| ==> es[i].key != es[j].key
  }

  lemma {:induction false} MapOfKeys(es: seq<E.Entry>, k: Key)
    requires k in E.MapOf(es)
    ensures exists i :: 0 <= i < |es| && es[i].key == k
  {
    if es[|es| - 1].key != k {
      var init := es[..|es| - 1];
      MapOfKeys(init, k);
      var i :| 0 <= i < |init| && init[i].key == k;
      assert es[i].key == k;
    }
  }

  /** Loading into an empty engine restores exactly the entries whose deadline is ahead. */
  lemma {:induction false} LoadRestores(es: seq<E.Entry>, now: int)
    requires DistinctKeys(es)
    ensures LoadAll(map[], es, now) == Unexpired(E.MapOf(es), now)
  {
    if es != [] {
      var init, e := es[..|es| - 1], es[|es| - 1];
      LoadRestores(init, now);
      if e.key in E.MapOf(init) {
        MapOfKeys(init, e.key);
        assert false;
      }
    }
  }

  /** The same under a memory ceiling: it stops at the first entry the engine has no room for. */
  ghost function LoadUnder(max: nat, m: Store, es: seq<E.Entry>, now: int): Option<Store> {
    if es == [] then Some(m)
    else
      var m1, e := LoadUnder(max, m, es[..|es| - 1], now), es[|es| - 1];
      if m1.None? then None
      else if e.exp != 0 && e.exp <= now then m1
      else if E.Admits(max, E.TotalBytes(m1.value) % U64, |e.key| + |e.value|)
      then Some(m1.value[e.key := Item(e.value, e.exp)]) else None
  }

  /** Entry i has expired, or finds room beside the entries before it. */
  ghost predicate RoomAt(max: nat, m: Store, es: seq<E.Entry>, i: nat, now: int)
    requires i < |es|
  {
    es[i].exp == 0 || now < es[i].exp ==>
      E.Admits(max, E.TotalBytes(LoadAll(m, es[..i], now)) % U64, |es[i].key| + |es[i].value|)
  }

  /** When a snapshot loads under a ceiling: if and only if every entry finds room. */
  lemma {:induction false} LoadUnderIff(max: nat, m: Store, es: seq<E.Entry>, now: int)
    ensures LoadUnder(max, m, es, now).Some? <==> forall i :: 0 <= i < |es| ==> RoomAt(max, m, es, i, now)
  {
    hide E.TotalBytes, E.Admits, RoomAt;
    if es != [] {
      var n := |es| - 1;
      var init := es[..n];
      LoadUnderIff(max, m, init, now);
      LoadUnderIsLoad(max, m, init, now);
      forall i | 0 <= i < n ensures RoomAt(max, m, init, i, now) <==> RoomAt(max, m, es, i, now) {
        RoomAtPrefix(max, m, es, n, i, now);
      }
      RoomAtLast(max, m, es, now);
    }
  }

  lemma RoomAtPrefix(max: nat, m: Store, es: seq<E.Entry>, n: nat, i: nat, now: int)
    requires i < n <= |es|
    ensures RoomAt(max, m, es[..n], i, now) <==> RoomAt(max, m, es, i, now)
  {
    hide E.TotalBytes, E.Admits, LoadAll;
    assert es[..n][..i] == es[..i];
  }

  lemma RoomAtLast(max: nat, m: Store, es: seq<E.Entry>, now: int)
    requires es != []
    ensures var n := |es| - 1;
            RoomAt(max, m, es, n, now)
            <==> (es[n].exp == 0 || now < es[n].exp ==>
                    E.Admits(max, E.TotalBytes(LoadAll(m, es[..n], now)) % U64, |es[n].key| + |es[n].value|))
  {
    hide E.TotalBytes, E.Admits, LoadAll;
  }

  lemma {:induction false} LoadUnderIsLoad(max: nat, m: Store, es: seq<E.Entry>, now: int)
    ensures LoadUnder(max, m, es, now).Some? ==> LoadUnder(max, m, es, now).value == LoadAll(m, es, now)
    ensures max == 0 ==> LoadUnder(max, m, es, now).Some?
  {
    hide E.TotalBytes;
    if es != [] { LoadUnderIsLoad(max, m, es[..|es| - 1], now); }
  }

  lemma {:induction false} LoadStops(max: nat, m: Store, es: seq<E.Entry>, i: nat, now: int)
    requires i <= |es| && LoadUnder(max, m, es[..i], now).None?
    ensures LoadUnder(max, m, es, now).None?
  {
    if i < |es| {
      assert es[..|es| - 1][..i] == es[..i];
      LoadStops(max, m, es[..|es| - 1], i, now);
    } else {
      assert es[..i] == es;
    }
  }

  datatype ReadResult = Loaded(count: nat) | Rejected | EngineFull

  /**
   snapshotRead. The file is parsed and hashed completely before the first write, so an
   engine that changed means the checksum matched. The at-rest values are stored as they are.
   */
  method SnapshotRead(engine: E.Engine, b: seq<byte>, fp: seq<byte>, hash: Hash, now: int, nonce: seq<byte>)
    returns (r: ReadResult)
    requires engine.Valid() && |nonce| == NONCE
    modifies engine.Repr()
    ensures engine.Valid()
    ensures engine.items != old(engine.items) ==> ChecksumOk(b, hash)
    ensures r.Rejected? <==> ReadSnapshot(b, fp, hash) == None
    ensures r.Rejected? ==> engine.State() == old(engine.State())
    ensures r.Loaded? ==> engine.items == LoadAll(old(engine.items), ReadSnapshot(b, fp, hash).value, now)
    ensures engine.maxBytes == 0 ==> !r.EngineFull?
    ensures r.EngineFull? <==> ReadSnapshot(b, fp, hash).Some?
                               && LoadUnder(engine.maxBytes, old(engine.items), ReadSnapshot(b, fp, hash).value, now)
                                  .None?
  {
    hide ChecksumOk, RecordAt;
    if |b| < BASE_HEADER || b[..4] != SNAP_MAGIC { return Rejected; }
    var version := UnLe(b[4..8]);
    if version != 1 && version != 2 { return Rejected; }
    if |b| < HeaderSize(version) { return Rejected; }
    if (if version == 2 then b[BASE_HEADER..SNAP_HEADER] else NO_KEY) != fp { return Rejected; }
    var entries, checked := Collect(b, HeaderSize(version), hash);
    if entries.None? || !checked { return Rejected; }
    AcceptedIsChecked(b, fp, hash);
    r := Apply(engine, entries.value, now, nonce);
  }

  function Prepend(es: seq<E.Entry>, rest: Option<seq<E.Entry>>): Option<seq<E.Entry>> {
    if rest.None? then None else Some(es + rest.value)
  }

  lemma PrependNone(rest: Option<seq<E.Entry>>)
    ensures Prepend([], rest) == rest
  {
    if rest.Some? { assert [] + rest.value == rest.value; }
  }

  lemma PrependSnoc(es: seq<E.Entry>, e: E.Entry, rest: Option<seq<E.Entry>>)
    ensures Prepend(es, Prepend([e], rest)) == Prepend(es + [e], rest)
  {
    if rest.Some? { assert es + ([e] + rest.value) == es + [e] + rest.value; }
  }

  /** The read loop: entries are collected and hashed, nothing is applied. */
  method Collect(b: seq<byte>, start: nat, hash: Hash) returns (entries: Option<seq<E.Entry>>, checked: bool)
    requires BASE_HEADER <= start <= |b|
    ensures entries == ParseEntries(b[start..])
    ensures entries.Some? ==> checked == ChecksumOk(b, hash)
  {
    hide RecordAt, Record.Encode, UnLe;
    var hashed := b[..8] + ZERO8 + b[16..24] + ZERO8 + b[BASE_HEADER..start];
    var es: seq<E.Entry> := [];
    var pos := start;
    PrependNone(ParseEntries(b[pos..]));
    while pos < |b|
      invariant start <= pos <= |b|
      invariant hashed == b[..8] + ZERO8 + b[16..24] + ZERO8 + b[BASE_HEADER..pos]
      invariant ParseEntries(b[start..]) == Prepend(es, ParseEntries(b[pos..]))
      decreases |b| - pos
    {
      match RecordAt(b[pos..])
      case None => return None, false;
      case Some(rec) =>
        RecordAtWhole(b[pos..]);
        var next := pos + Size(rec);
        assert b[pos..][Size(rec)..] == b[next..];
        assert b[pos..][..Size(rec)] == b[pos..next];
        assert b[BASE_HEADER..next] == b[BASE_HEADER..pos] + b[pos..next];
        PrependSnoc(es, EntryOf(rec), ParseEntries(b[next..]));
        hashed := hashed + rec.Encode();
        es := es + [EntryOf(rec)];
        pos := next;
    }
    assert b[pos..] == [] && b[BASE_HEADER..pos] == b[BASE_HEADER..];
    assert es + [] == es;
    entries, checked := Some(es), hash(hashed) == UnLe(b[24..32]);
  }

  /** One entry: a sealed value goes in as it is, a plain one through the pooled buffer. */
  method ApplyEntry(engine: E.Engine, e: E.Entry, duration: nat, now: int, nonce: seq<byte>) returns (ok: bool)
    requires engine.Valid() && NONCE + |e.key| + |e.value| + TAG < U64 && |nonce| == NONCE
    requires e.exp == if duration == 0 then 0 else now + duration
    modifies engine.Repr()
    ensures engine.Valid()
    ensures ok <==> E.Admits(engine.maxBytes, E.TotalBytes(old(engine.items)) % U64, |e.key| + |e.value|)
    ensures engine.items == if ok then old(engine.items)[e.key := Item(e.value, e.exp)] else old(engine.items)
  {
    hide E.TotalBytes, E.Admits;
    if engine.config.cipher.Some? {
      ok := engine.SetRaw(e.key, e.value, duration, now);
    } else {
      var buf := e.key + e.value;
      assert buf[..|e.key|] == e.key && buf[|e.key|..] == e.value;
      ok := engine.SetFromBuffer(buf, |e.key|, duration, now, nonce);
    }
  }

  method Apply(engine: E.Engine, es: seq<E.Entry>, now: int, nonce: seq<byte>) returns (r: ReadResult)
    requires engine.Valid() && Writable(es) && |nonce| == NONCE
    modifies engine.Repr()
    ensures engine.Valid()
    ensures r.Loaded? ==> engine.items == LoadAll(old(engine.items), es, now)
    ensures !r.Rejected? && (engine.maxBytes == 0 ==> r.Loaded?)
    ensures r.Loaded? <==> LoadUnder(engine.maxBytes, old(engine.items), es, now).Some?
  {
    hide E.TotalBytes, E.Admits;
    LoadUnderIsLoad(engine.maxBytes, engine.items, es, now);
    var loaded := 0;
    var i := 0;
    while i < |es|
      invariant 0 <= i <= |es| && engine.Valid()
      invariant engine.items == LoadAll(old(engine.items), es[..i], now)
      invariant LoadUnder(engine.maxBytes, old(engine.items), es[..i], now) == Some(engine.items)
      modifies engine.Repr()
    {
      var e := es[i];
      var duration := 0;
      assert es[..i + 1][..i] == es[..i];
      i := i + 1;
      if e.exp != 0 {
        duration := e.exp - now;
        if duration <= 0 { continue; }
      }
      var ok := ApplyEntry(engine, e, duration, now, nonce);
      if !ok {
        LoadStops(engine.maxBytes, old(engine.items), es, i, now);
        return EngineFull;
      }
      loaded := loaded + 1;
    }
    assert es[..i] == es;
    r := Loaded(loaded);
  }
}
