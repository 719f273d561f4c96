/**
 The open shard as the object it is (shardHandle in internal/persistence/persistence.go):
 a file it appends to, a nonce counter and a format flag it changes in place. Each method
 is tied to the formats of Wal, the replay of Replay and the open step of ShardRun.
 */
module ShardHandle {
  import opened Bytes
  import opened Aead
  import opened Wal
  import opened Replay
  import opened TimedStore
  import opened ShardRun
  import opened Ceiling
  import M = Migration
  import S = Snapshot
  import E = Engine

  /** The engine's items are the sealed form of m: same keys and deadlines, values that unseal to m's. */
  ghost predicate Shows(c: Config, items: Store, m: Store) {
    && items.Keys == m.Keys
    && forall k :: k in m ==> c.Unseal(items[k].value) == Some(m[k].value) && items[k].exp == m[k].exp
  }

  lemma ShowsSet(c: Config, items: Store, m: Store, k: Key, stored: seq<byte>, value: seq<byte>, exp: int)
    requires Shows(c, items, m) && c.Unseal(stored) == Some(value)
    ensures Shows(c, items[k := Item(stored, exp)], m[k := Item(value, exp)])
  {}

  lemma ShowsDelete(c: Config, items: Store, m: Store, k: Key)
    requires Shows(c, items, m)
    ensures Shows(c, items - {k}, m - {k})
  {}

  /** A source of nonces for the values sealed at rest. */
  type Random = nat -> seq<byte>

  ghost predicate GoodRandom(rand: Random) { forall i :: |rand(i)| == NONCE }

  lemma SizedSet(c: Config, items: Store, m: Store, k: Key, stored: seq<byte>, value: seq<byte>, exp: int)
    requires Sized(c, items, m) && |stored| == StoredLen(c, value)
    ensures Sized(c, items[k := Item(stored, exp)], m[k := Item(value, exp)])
  {}

  lemma SealedLen(c: Config, nonce: seq<byte>, value: seq<byte>)
    requires c.Valid() && |nonce| == NONCE
    ensures |c.Seal(nonce, value)| == StoredLen(c, value)
  {
    if c.cipher.Some? { c.cipher.value.DecryptEncrypt(nonce, value); }
  }

  /**
   applyRecord: a tombstone deletes, an expired SET is skipped, anything else is set, and fails
   exactly when the engine has no room for it.
   */
  method ApplyRecord(engine: E.Engine, rec: Record, now: int, nonce: seq<byte>, ghost m: Store) returns (ok: bool)
    requires engine.Valid() && rec.Encodable() && |nonce| == NONCE && Shows(engine.config, engine.items, m)
    modifies engine.Repr()
    ensures engine.Valid()
    ensures engine.maxBytes == 0 ==> ok
    ensures ok ==> Shows(engine.config, engine.items, ReplayOne(m, rec, now))
    ensures old(Sized(engine.config, engine.items, m)) ==>
              && (ok <==> UnderOne(engine.config, engine.maxBytes, m, rec, now).Some?)
              && (ok ==> Sized(engine.config, engine.items, ReplayOne(m, rec, now)))
  {
    hide E.TotalBytes, Room, Shows, Sized;
    if rec.ttl == TOMBSTONE {
      var _ := engine.Delete(rec.key, now);
      ShowsDelete(engine.config, old(engine.items), m, rec.key);
      if old(Sized(engine.config, engine.items, m)) { SizedDelete(engine.config, old(engine.items), m, rec.key); }
      return true;
    }
    var duration := 0;
    if rec.ttl != 0 {
      duration := rec.ttl - now;
      if duration <= 0 { return true; }
    }
    ok := ApplySet(engine, rec, duration, now, nonce, m);
  }

  /** The SET of applyRecord. */
  method ApplySet(engine: E.Engine, rec: Record, duration: int, now: int, nonce: seq<byte>, ghost m: Store)
      returns (ok: bool)
    requires engine.Valid() && rec.Encodable() && |nonce| == NONCE && Shows(engine.config, engine.items, m)
    requires Deadline(duration, now) == rec.ttl
    modifies engine.Repr()
    ensures engine.Valid()
    ensures engine.maxBytes == 0 ==> ok
    ensures ok ==> Shows(engine.config, engine.items, m[rec.key := Item(rec.value, rec.ttl)])
    ensures old(Sized(engine.config, engine.items, m)) ==>
              && (ok <==> Room(engine.config, engine.maxBytes, m, rec))
              && (ok ==> Sized(engine.config, engine.items, m[rec.key := Item(rec.value, rec.ttl)]))
  {
    hide E.TotalBytes, Room, Shows, Sized;
    ghost var stored := engine.config.Seal(nonce, rec.value);
    SealedLen(engine.config, nonce, rec.value);
    engine.config.UnsealSeal(nonce, rec.value);
    ShowsSet(engine.config, engine.items, m, rec.key, stored, rec.value, rec.ttl);
    if Sized(engine.config, engine.items, m) {
      RoomIsGuard(engine.config, engine.maxBytes, engine.items, m, rec);
      SizedSet(engine.config, engine.items, m, rec.key, stored, rec.value, rec.ttl);
    }
    ok := engine.Set(rec.key, rec.value, duration, now, nonce);
  }

  lemma SizedDelete(c: Config, items: Store, m: Store, k: Key)
    requires Sized(c, items, m)
    ensures Sized(c, items - {k}, m - {k})
  {}

  /** Folding one more frame into a replay that has read fs. */
  lemma ReplaySnoc(m: Store, fs: seq<Frame>, f: Frame, now: int)
    ensures ReplayAll(m, Recs(fs + [f]), now) == ReplayOne(ReplayAll(m, Recs(fs), now), f.rec, now)
  {
    assert Recs(fs + [f])[..|fs|] == Recs(fs);
  }

  /** The rest of a scan after a good turn. */
  lemma ScanTurn(mode: Mode, b: seq<byte>, pos: nat, fs: seq<Frame>)
    requires pos <= |b| && Next(mode, b[pos..]).Good?
    requires ScanLog(mode, b).frames == fs + ScanLog(mode, b[pos..]).frames
    requires ScanLog(mode, b).offset == pos + ScanLog(mode, b[pos..]).offset
    ensures var t := Next(mode, b[pos..]);
            && pos + t.len <= |b|
            && ScanLog(mode, b).frames == (fs + [t.frame]) + ScanLog(mode, b[pos + t.len..]).frames
            && ScanLog(mode, b).offset == pos + t.len + ScanLog(mode, b[pos + t.len..]).offset
            && ScanLog(mode, b[pos..]).maxCtr == Max(t.frame.ctr, ScanLog(mode, b[pos + t.len..]).maxCtr)
  {
    hide Next;
    var t := Next(mode, b[pos..]);
    assert b[pos..][t.len..] == b[pos + t.len..];
  }

  lemma Assoc(x: seq<byte>, a: seq<byte>, b: seq<byte>, c: seq<byte>)
    ensures x + a + b + c == x + (a + b + c)
  {}

  lemma PlainTurn(at: seq<byte>)
    ensures Next(Plain, at)
         == if |at| < HEADER || UnLe(at[0..4]) + UnLe(at[4..8]) > |at| - HEADER then Stop(0)
            else Good(Frame(0, RecordAt(at).value), HEADER + UnLe(at[0..4]) + UnLe(at[4..8]))
    ensures RecordAt(at).Some? <==> |at| >= HEADER && UnLe(at[0..4]) + UnLe(at[4..8]) <= |at| - HEADER
  {}

  lemma ReplayNothing(m: Store, now: int)
    ensures ReplayAll(m, Recs([]), now) == m
  {}

  /** The engine stores what a replay of fs over m has built, and the ceiling let it through so far. */
  ghost predicate Through(c: Config, max: nat, items: Store, m: Store, fs: seq<Frame>, now: int) {
    Sized(c, items, ReplayAll(m, Recs(fs), now)) && ReplayUnder(c, max, m, Recs(fs), now).Some?
  }

  lemma ThroughStart(c: Config, max: nat, items: Store, m: Store, now: int)
    requires Sized(c, items, m)
    ensures Through(c, max, items, m, [], now)
  {}

  lemma ThroughStep(c: Config, max: nat, m: Store, fs: seq<Frame>, f: Frame, now: int)
    requires ReplayUnder(c, max, m, Recs(fs), now).Some?
    ensures ReplayUnder(c, max, m, Recs(fs + [f]), now) == UnderOne(c, max, ReplayAll(m, Recs(fs), now), f.rec, now)
  {
    hide UnderOne, ReplayUnder;
    assert Recs(fs + [f]) == Recs(fs) + [f.rec];
    UnderSnoc(c, max, m, Recs(fs), f.rec, now);
    UnderIsReplay(c, max, m, Recs(fs), now);
  }

  /** A frame the ceiling refused is in the log for good. */
  lemma ThroughStops(c: Config, max: nat, m: Store, fs: seq<Frame>, more: seq<Frame>, now: int)
    requires ReplayUnder(c, max, m, Recs(fs), now).None?
    ensures ReplayUnder(c, max, m, Recs(fs + more), now).None?
  {
    hide ReplayUnder;
    assert Recs(fs + more) == Recs(fs) + Recs(more);
    RefusedForGood(c, max, m, Recs(fs), Recs(more), now);
  }

  /** One more frame of a replay that has read fs. */
  method ReplayFrame(engine: E.Engine, f: Frame, now: int, nonce: seq<byte>, ghost m: Store, ghost fs: seq<Frame>)
    returns (ok: bool)
    requires engine.Valid() && f.rec.Encodable() && |nonce| == NONCE
    requires Shows(engine.config, engine.items, ReplayAll(m, Recs(fs), now))
    modifies engine.Repr()
    ensures engine.Valid()
    ensures engine.maxBytes == 0 ==> ok
    ensures ok ==> Shows(engine.config, engine.items, ReplayAll(m, Recs(fs + [f]), now))
    ensures old(Through(engine.config, engine.maxBytes, engine.items, m, fs, now)) ==>
              if ok then Through(engine.config, engine.maxBytes, engine.items, m, fs + [f], now)
              else ReplayUnder(engine.config, engine.maxBytes, m, Recs(fs + [f]), now).None?
  {
    hide Shows, Recs, ReplayAll, ReplayOne, ReplayUnder, UnderOne, Sized;
    ReplaySnoc(m, fs, f, now);
    if Through(engine.config, engine.maxBytes, engine.items, m, fs, now) {
      ThroughStep(engine.config, engine.maxBytes, m, fs, f, now);
    }
    ok := ApplyRecord(engine, f.rec, now, nonce, ReplayAll(m, Recs(fs), now));
  }

  // ----- Helpers of the migration -----

  /** es lists the same keys and deadlines with the values unsealed. */
  ghost predicate Unsealed(c: Config, sealed: seq<E.Entry>, es: seq<E.Entry>) {
    && |sealed| == |es|
    && forall i :: 0 <= i < |es| ==>
         es[i].key == sealed[i].key && es[i].exp == sealed[i].exp && c.Unseal(sealed[i].value) == Some(es[i].value)
  }

  lemma UnsealedSnoc(c: Config, listed: seq<E.Entry>, i: nat, es: seq<E.Entry>, plain: seq<byte>)
    requires i < |listed| && Unsealed(c, listed[..i], es) && c.Unseal(listed[i].value) == Some(plain)
    ensures Unsealed(c, listed[..i + 1], es + [E.Entry(listed[i].key, plain, listed[i].exp)])
  {
    hide Config.Unseal;
  }

  lemma NumberedNone(mode: Mode)
    requires mode.Sealed?
    ensures M.Migratable(mode, []) && FileBytes(mode, M.Numbered([])) == MAGIC
  {}

  lemma NumberedSnoc(mode: Mode, es: seq<E.Entry>, e: E.Entry)
    requires M.Migratable(mode, es) && Fits(mode, Frame(|es|, S.RecordOf(e)))
    ensures M.Migratable(mode, es + [e])
    ensures FileBytes(mode, M.Numbered(es + [e]))
            == FileBytes(mode, M.Numbered(es)) + EncodeFrame(mode, Frame(|es|, S.RecordOf(e)))
  {
    hide Fits, EncodeFrame;
    assert M.Numbered(es + [e]) == M.Numbered(es) + [Frame(|es|, S.RecordOf(e))];
    LogSnoc(mode, M.Numbered(es), Frame(|es|, S.RecordOf(e)));
  }

  /** A listed entry is an item of the engine. */
  lemma EntryIsItem(listed: seq<E.Entry>, i: nat, items: Store, now: int)
    requires S.DistinctKeys(listed) && E.MapOf(listed) == VisibleAt(items, now) && i < |listed|
    ensures listed[i].key in items && items[listed[i].key] == Item(listed[i].value, listed[i].exp)
  {
    M.EntryInMap(listed, i);
    VisibleLookup(items, now, listed[i].key);
  }

  lemma ListedCount(listed: seq<E.Entry>, items: Store, now: int)
    requires S.DistinctKeys(listed) && E.MapOf(listed) == VisibleAt(items, now)
    ensures |listed| <= |items|
  {
    KeysCount(listed);
    var ks := set i | 0 <= i < |listed| :: listed[i].key;
    forall k | k in ks ensures k in items.Keys {
      var i :| 0 <= i < |listed| && listed[i].key == k;
      EntryIsItem(listed, i, items, now);
    }
    SubsetSize(ks, items.Keys);
  }

  lemma SubsetSize(a: set<Key>, b: set<Key>)
    requires a <= b
    ensures |a| <= |b|
  {
    assert b == a + (b - a);
  }

  lemma {:induction false} KeysCount(es: seq<E.Entry>)
    requires S.DistinctKeys(es)
    ensures |set i | 0 <= i < |es| :: es[i].key| == |es|
  {
    if es != [] {
      var init := es[..|es| - 1];
      KeysCount(init);
      assert (set i | 0 <= i < |es| :: es[i].key) == (set i | 0 <= i < |init| :: init[i].key) + {es[|es| - 1].key};
    }
  }

  lemma {:induction false} MapOfUnsealed(c: Config, listed: seq<E.Entry>, es: seq<E.Entry>)
    requires Unsealed(c, listed, es)
    ensures Shows(c, E.MapOf(listed), E.MapOf(es))
  {
    if es != [] {
      var n := |es| - 1;
      assert Unsealed(c, listed[..n], es[..n]);
      MapOfUnsealed(c, listed[..n], es[..n]);
      ShowsSet(c, E.MapOf(listed[..n]), E.MapOf(es[..n]), es[n].key, listed[n].value, es[n].value, es[n].exp);
    }
  }

  lemma AreDistinct(es: seq<E.Entry>)
    requires forall i, j :: 0 <= i < j < |es| ==> es[i].key != es[j].key
    ensures S.DistinctKeys(es)
  {}

  predicate EncodesUnsealed(c: Config, e: E.Entry) {
    var v := c.Unseal(e.value);
    v.Some? ==> Record(e.key, v.value, e.exp).Encodable()
  }

  /** The temporary log of the migration: the magic, then each entry through the encrypted append. */
  method Reseal(shardID: nat, cipher: Cipher, c: Config, listed: seq<E.Entry>)
    returns (ok: bool, temp: seq<byte>, ghost es: seq<E.Entry>)
    requires shardID < U32 && cipher.Lawful() && |listed| < U64
    requires forall i :: 0 <= i < |listed| ==> EncodesUnsealed(c, listed[i])
    ensures ok ==> Unsealed(c, listed, es) && M.Migratable(Sealed(cipher, shardID), es)
    ensures ok ==> temp == FileBytes(Sealed(cipher, shardID), M.Numbered(es)) && |es| == |listed|
  {
    hide EncodeFrame, AllFit, M.Numbered, FileBytes, Unsealed;
    var h := new Handle(shardID, MAGIC, None, 0);
    h.walVer, h.cipher := 1, Some(cipher);
    ghost var mode := Sealed(cipher, shardID);
    es, temp := [], [];
    var i := 0;
    NumberedNone(mode);
    assert listed[..0] == [];
    UnsealedNone(c);
    while i < |listed|
      invariant 0 <= i <= |listed| && |es| == i
      invariant h.Valid() && h.walVer == 1 && h.cipher == Some(cipher) && h.shardID == shardID && h.nonceCtr == i
      invariant Unsealed(c, listed[..i], es)
      invariant M.Migratable(mode, es) && h.file == FileBytes(mode, M.Numbered(es))
    {
      assert EncodesUnsealed(c, listed[i]);
      if c.Unseal(listed[i].value).None? { return false, [], []; }
      var plain := c.Unseal(listed[i].value).value;
      ok := h.AppendRecordEncrypted(Record(listed[i].key, plain, listed[i].exp));
      if !ok { return; }
      ghost var out := E.Entry(listed[i].key, plain, listed[i].exp);
      NumberedSnoc(mode, es, out);
      UnsealedSnoc(c, listed, i, es, plain);
      es := es + [out];
      i := i + 1;
    }
    assert listed[..i] == listed;
    ok, temp := true, h.file;
  }

  lemma UnsealedDistinct(c: Config, listed: seq<E.Entry>, es: seq<E.Entry>)
    requires Unsealed(c, listed, es) && S.DistinctKeys(listed)
    ensures S.DistinctKeys(es)
  {}

  lemma UnsealedNone(c: Config)
    ensures Unsealed(c, [], [])
  {}

  class Handle {
    var file: seq<byte>
    var snap: Option<seq<byte>>
    var sidecar: nat
    var walVer: nat
    var nonceCtr: nat
    var cipher: Option<Cipher>
    var fingerprint: seq<byte>
    var needsMigrate: bool
    var pending: Option<Cipher>
    var pendingFp: seq<byte>
    const shardID: nat

    constructor (shardID: nat, file: seq<byte>, snap: Option<seq<byte>>, sidecar: nat)
      ensures this.shardID == shardID && this.file == file && this.snap == snap && this.sidecar == sidecar
      ensures walVer == 0 && nonceCtr == 0 && cipher == None && !needsMigrate && pending == None
              && fingerprint == S.NO_KEY
    {
      this.shardID, this.file, this.snap, this.sidecar := shardID, file, snap, sidecar;
      walVer, nonceCtr, cipher, needsMigrate, pending := 0, 0, None, false, None;
      fingerprint, pendingFp := S.NO_KEY, S.NO_KEY;
    }

    ghost predicate Valid()
      reads this
    {
      && shardID < U32 && nonceCtr < U64
      && (cipher.Some? ==> cipher.value.Lawful()) && (pending.Some? ==> pending.value.Lawful())
      && (walVer == 0 || (walVer == 1 && cipher.Some?))
      && (needsMigrate ==> pending.Some? && walVer == 0)
    }

    ghost function FileMode(): Mode
      reads this
      requires walVer == 1 ==> cipher.Some?
    {
      if walVer == 1 then Sealed(cipher.value, shardID) else Plain
    }

    /** OpenShard. The magic decides the format; a plaintext log under a key waits for migration. */
    method OpenShard(eng: Option<Cipher>, fp: seq<byte>) returns (ok: bool)
      requires Valid() && walVer == 0 && !needsMigrate && (eng.Some? ==> eng.value.Lawful())
      modifies this
      ensures ok ==> Valid()
      ensures ok <==> (old(file) == [] || (|old(file)| >= 4 && (old(file)[..4] == MAGIC ==> eng.Some?)))
      ensures ok ==> file == if old(file) == [] && eng.Some? then MAGIC else old(file)
      ensures ok ==> walVer == if eng.Some? && (old(file) == [] || old(file)[..4] == MAGIC) then 1 else 0
      ensures ok ==> (needsMigrate <==> eng.Some? && walVer == 0)
      ensures ok && needsMigrate ==> pending == eng && pendingFp == fp
      ensures ok ==> fingerprint == (if walVer == 1 then fp else old(fingerprint))
      ensures ok && eng.None? ==> OpenLog(Plain, old(file)) == Some(ScanLog(Plain, file))
      ensures ok && walVer == 1 ==> cipher == eng && |file| >= 4 && file[..4] == MAGIC
                                    && OpenLog(FileMode(), old(file)) == Some(ScanLog(FileMode(), file[4..]))
      ensures snap == old(snap) && sidecar == old(sidecar) && nonceCtr == old(nonceCtr)
    {
      hide ScanLog;
      if |file| == 0 {
        ScanEmpty(Plain);
        if eng.Some? {
          file := MAGIC;
          cipher, walVer, fingerprint := eng, 1, fp;
          ScanEmpty(Sealed(eng.value, shardID));
          assert file[4..] == [];
        }
      } else {
        if |file| < 4 { return false; }
        if file[..4] == MAGIC {
          if eng.None? { return false; }
          cipher, walVer, fingerprint := eng, 1, fp;
        } else {
          if eng.Some? { needsMigrate, pending, pendingFp := true, eng, fp; }
          walVer := 0;
        }
      }
      ok := true;
    }

    lemma ScanEmpty(mode: Mode)
      ensures ScanLog(mode, []) == Scan([], 0, 0)
    {}

    /** appendRecord: one frame at the end of the file, synced; refused while a migration is due. */
    method AppendRecord(rec: Record) returns (ok: bool)
      requires Valid() && rec.Encodable()
      modifies this`file, this`nonceCtr
      ensures Valid()
      ensures needsMigrate ==> !ok && file == old(file) && nonceCtr == old(nonceCtr)
      ensures !needsMigrate ==>
                var f := Frame(if walVer == 1 then old(nonceCtr) else 0, rec);
                && ok == Fits(FileMode(), f)
                && file == old(file) + (if ok then EncodeFrame(FileMode(), f) else [])
                && nonceCtr == if walVer == 1 then (old(nonceCtr) + 1) % U64 else old(nonceCtr)
    {
      if needsMigrate { return false; }
      hide Record.Header, Le;
      if walVer == 1 {
        hide EncodeFrame;
        ok := AppendRecordEncrypted(rec);
        return;
      }
      Assoc(file, rec.Header(), rec.key, rec.value);
      file := file + rec.Header();
      file := file + rec.key;
      file := file + rec.value;
      ok := true;
    }

    /** appendRecordEncrypted. The counter is taken before the size check, so a refusal spends it. */
    method AppendRecordEncrypted(rec: Record) returns (ok: bool)
      requires Valid() && rec.Encodable() && walVer == 1
      modifies this`file, this`nonceCtr
      ensures Valid()
      ensures var f := Frame(old(nonceCtr), rec);
              && ok == Fits(FileMode(), f)
              && file == old(file) + if ok then EncodeFrame(FileMode(), f) else []
      ensures nonceCtr == (old(nonceCtr) + 1) % U64
    {
      hide Record.Encode, Le, Nonce, RecordAt;
      var plaintext := rec.Encode();
      RecordAtEncode(rec, []);
      var ctr := nonceCtr;
      nonceCtr := (nonceCtr + 1) % U64;
      var nonce := Nonce(ctr, shardID);
      var ciphertext := cipher.value.seal(nonce, plaintext);
      var recLen := NONCE + |ciphertext|;
      if recLen > U32 - 1 { return false; }
      Assoc(file, Le(recLen, 4), nonce, ciphertext);
      file := file + Le(recLen, 4);
      file := file + nonce;
      file := file + ciphertext;
      ok := true;
    }

    /** Write: over-long keys and values are refused before anything is written. */
    method Write(key: Key, value: seq<byte>, ttl: int) returns (ok: bool)
      requires Valid() && -I63 <= ttl < I63
      modifies this`file, this`nonceCtr
      ensures Valid()
      ensures !Record(key, value, ttl).Encodable() ==> !ok && file == old(file) && nonceCtr == old(nonceCtr)
      ensures ok ==> var f := Frame(if walVer == 1 then old(nonceCtr) else 0, Record(key, value, ttl));
                     !needsMigrate && Fits(FileMode(), f) && file == old(file) + EncodeFrame(FileMode(), f)
      ensures !ok ==> file == old(file)
      ensures Record(key, value, ttl).Encodable() && !needsMigrate ==>
                && (ok <==> Fits(FileMode(), Frame(if walVer == 1 then old(nonceCtr) else 0, Record(key, value, ttl))))
                && nonceCtr == if walVer == 1 then (old(nonceCtr) + 1) % U64 else old(nonceCtr)
    {
      hide EncodeFrame;
      if |key| > U32 - 1 || |value| > U32 - 1 { return false; }
      ok := AppendRecord(Record(key, value, ttl));
    }

    /** Delete: a tombstone record, with no value. */
    method Delete(key: Key) returns (ok: bool)
      requires Valid()
      modifies this`file, this`nonceCtr
      ensures Valid()
      ensures ok ==> var f := Frame(if walVer == 1 then old(nonceCtr) else 0, Record(key, [], TOMBSTONE));
                     !needsMigrate && Fits(FileMode(), f) && file == old(file) + EncodeFrame(FileMode(), f)
      ensures !ok ==> file == old(file)
      ensures |key| < U32 && !needsMigrate ==>
                && (ok <==> Fits(FileMode(),
                                 Frame(if walVer == 1 then old(nonceCtr) else 0, Record(key, [], TOMBSTONE))))
                && nonceCtr == if walVer == 1 then (old(nonceCtr) + 1) % U64 else old(nonceCtr)
    {
      hide EncodeFrame;
      if |key| > U32 - 1 { return false; }
      ok := AppendRecord(Record(key, [], TOMBSTONE));
    }

    /** replayWALPlaintext: remaining and validOffset walk the file record by record. */
    method ReplayPlaintext(engine: E.Engine, now: int, rand: Random, ghost m: Store) returns (ok: bool)
      requires Valid() && walVer == 0 && engine.Valid() && GoodRandom(rand) && Shows(engine.config, engine.items, m)
      modifies this`file, engine.Repr()
      ensures engine.Valid() && Valid()
      ensures engine.maxBytes == 0 ==> ok
      ensures ok ==> var s := ScanLog(Plain, old(file));
                     && file == old(file)[..s.offset]
                     && Shows(engine.config, engine.items, ReplayAll(m, Recs(s.frames), now))
      ensures !ok ==> file == old(file)
      // The ceiling lets the replay through exactly when it admits every effective SET in turn.
      ensures old(Sized(engine.config, engine.items, m)) ==>
                var rs := Recs(ScanLog(Plain, old(file)).frames);
                && (ok <==> ReplayUnder(engine.config, engine.maxBytes, m, rs, now).Some?)
                && (ok ==> Sized(engine.config, engine.items, ReplayAll(m, rs, now)))
    {
      hide ScanLog, Recs, ReplayAll, Shows, Next, RecordAt, UnLe, E.Engine.Valid, Through, ReplayUnder;
      ghost var sized := Sized(engine.config, engine.items, m);
      if sized { ThroughStart(engine.config, engine.maxBytes, engine.items, m, now); }
      hide Sized;
      ReplayNothing(m, now);
      var fileSize := |file|;
      var remaining := fileSize;
      var validOffset := 0;
      var records := 0;
      ghost var fs: seq<Frame> := [];
      assert file[0..] == file;
      while true
        invariant 0 <= remaining <= fileSize && validOffset == fileSize - remaining
        invariant engine.Valid() && Shows(engine.config, engine.items, ReplayAll(m, Recs(fs), now))
        invariant ScanLog(Plain, file).frames == fs + ScanLog(Plain, file[validOffset..]).frames
        invariant ScanLog(Plain, file).offset == validOffset + ScanLog(Plain, file[validOffset..]).offset
        invariant sized ==> Through(engine.config, engine.maxBytes, engine.items, m, fs, now)
        modifies engine.Repr()
        decreases remaining
      {
        var at := file[validOffset..];
        PlainTurn(at);
        if |at| < HEADER { ScanStops(Plain, at); break; }
        var keyLen, valLen := UnLe(at[0..4]), UnLe(at[4..8]);
        if keyLen + valLen > remaining - HEADER { ScanStops(Plain, at); break; }
        var rec := RecordAt(at).value;
        ScanTurn(Plain, file, validOffset, fs);
        remaining := remaining - HEADER - (keyLen + valLen);
        validOffset := fileSize - remaining;
        ok := ReplayFrame(engine, Frame(0, rec), now, rand(records), m, fs);
        if !ok {
          if sized {
            ThroughStops(engine.config, engine.maxBytes, m, fs + [Frame(0, rec)],
                         ScanLog(Plain, file[validOffset..]).frames, now);
          }
          return;
        }
        fs := fs + [Frame(0, rec)];
        records := records + 1;
      }
      assert fs + [] == fs;
      if sized { ThroughEnd(engine.config, engine.maxBytes, engine.items, m, fs, now); }
      file := file[..validOffset];
      ok := true;
    }

    lemma ThroughEnd(c: Config, max: nat, items: Store, m: Store, fs: seq<Frame>, now: int)
      requires Through(c, max, items, m, fs, now)
      ensures ReplayUnder(c, max, m, Recs(fs), now).Some? && Sized(c, items, ReplayAll(m, Recs(fs), now))
    {}

    lemma ScanStops(mode: Mode, b: seq<byte>)
      requires !Next(mode, b).Good?
      ensures ScanLog(mode, b).frames == []
      ensures Next(mode, b).Stop? ==> ScanLog(mode, b).offset == 0
      ensures Next(mode, b).Bad? ==> ScanLog(mode, b).offset == Next(mode, b).len
      ensures ScanLog(mode, b).maxCtr == Next(mode, b).seen
    {
      hide Next;
    }

    /** replayWALEncrypted: also recovers the counter, which never falls below the sidecar. */
    method ReplayEncrypted(engine: E.Engine, now: int, rand: Random, ghost m: Store) returns (ok: bool)
      requires Valid() && walVer == 1 && engine.Valid() && GoodRandom(rand) && Shows(engine.config, engine.items, m)
      requires |file| >= 4
      requires sidecar < U64 && ScanLog(FileMode(), file[4..]).maxCtr + 1 < U64
      modifies this`file, this`nonceCtr, this`sidecar, engine.Repr()
      ensures engine.Valid() && Valid()
      ensures engine.maxBytes == 0 ==> ok
      ensures ok ==> var s := ScanLog(FileMode(), old(file)[4..]);
                     && file == old(file)[..4 + s.offset]
                     && nonceCtr == sidecar == ReopenCtr(s.maxCtr, old(sidecar))
                     && Shows(engine.config, engine.items, ReplayAll(m, Recs(s.frames), now))
      ensures !ok ==> file == old(file) && sidecar == old(sidecar)
      ensures old(Sized(engine.config, engine.items, m)) ==>
                var rs := Recs(ScanLog(FileMode(), old(file)[4..]).frames);
                && (ok <==> ReplayUnder(engine.config, engine.maxBytes, m, rs, now).Some?)
                && (ok ==> Sized(engine.config, engine.items, ReplayAll(m, rs, now)))
    {
      hide ScanLog, Recs, ReplayAll, Shows, Sized, E.Engine.Valid, ReplayUnder;
      var validOffset, maxNonce;
      ok, validOffset, maxNonce := ReplaySealed(file[4..], engine, now, rand, m);
      if !ok { return; }
      var walCtr := maxNonce + 1;
      if sidecar > walCtr { walCtr := sidecar; }
      nonceCtr := walCtr;
      sidecar := walCtr;
      file := file[..4 + validOffset];
      ok := true;
    }

    /** Its loop over the frames after the magic. */
    method ReplaySealed(body: seq<byte>, engine: E.Engine, now: int, rand: Random, ghost m: Store)
      returns (ok: bool, validOffset: nat, maxNonce: nat)
      requires Valid() && walVer == 1 && engine.Valid() && GoodRandom(rand) && Shows(engine.config, engine.items, m)
      modifies engine.Repr()
      ensures engine.Valid() && (engine.maxBytes == 0 ==> ok)
      ensures ok ==> var s := ScanLog(FileMode(), body);
                     && validOffset == s.offset <= |body| && maxNonce == s.maxCtr
                     && Shows(engine.config, engine.items, ReplayAll(m, Recs(s.frames), now))
      ensures old(Sized(engine.config, engine.items, m)) ==>
                var rs := Recs(ScanLog(FileMode(), body).frames);
                && (ok <==> ReplayUnder(engine.config, engine.maxBytes, m, rs, now).Some?)
                && (ok ==> Sized(engine.config, engine.items, ReplayAll(m, rs, now)))
    {
      hide ScanLog, Recs, ReplayAll, Shows, SealedTurn, E.Engine.Valid, Through, ReplayUnder;
      ghost var sized := Sized(engine.config, engine.items, m);
      if sized { ThroughStart(engine.config, engine.maxBytes, engine.items, m, now); }
      hide Sized;
      ReplayNothing(m, now);
      ghost var mode := FileMode();
      validOffset, maxNonce := 0, 0;
      var records := 0;
      ghost var fs: seq<Frame> := [];
      assert body[0..] == body;
      while true
        invariant 0 <= validOffset <= |body|
        invariant engine.Valid() && Shows(engine.config, engine.items, ReplayAll(m, Recs(fs), now))
        invariant ScanLog(mode, body).frames == fs + ScanLog(mode, body[validOffset..]).frames
        invariant ScanLog(mode, body).offset == validOffset + ScanLog(mode, body[validOffset..]).offset
        invariant ScanLog(mode, body).maxCtr == Max(maxNonce, ScanLog(mode, body[validOffset..]).maxCtr)
        invariant sized ==> Through(engine.config, engine.maxBytes, engine.items, m, fs, now)
        modifies engine.Repr()
        decreases |body| - validOffset
      {
        var at := body[validOffset..];
        var turn := SealedTurn(cipher.value, at);
        assert turn == Next(mode, at);
        if turn.Stop? {
          ScanStops(mode, at);
          maxNonce := Max(maxNonce, turn.seen);
          break;
        }
        if turn.Bad? {
          ScanStops(mode, at);
          validOffset := validOffset + turn.len;
          maxNonce := Max(maxNonce, turn.seen);
          break;
        }
        var f := turn.frame;
        assert f.rec.Encodable() by { TurnEncodable(cipher.value, at); }
        ScanTurn(mode, body, validOffset, fs);
        validOffset := validOffset + turn.len;
        maxNonce := Max(maxNonce, f.ctr);
        ok := ReplayFrame(engine, f, now, rand(records), m, fs);
        if !ok {
          if sized {
            ThroughStops(engine.config, engine.maxBytes, m, fs + [f], ScanLog(mode, body[validOffset..]).frames, now);
          }
          return;
        }
        fs := fs + [f];
        records := records + 1;
      }
      assert fs + [] == fs;
      if sized { ThroughEnd(engine.config, engine.maxBytes, engine.items, m, fs, now); }
      ok := true;
    }

    lemma TurnEncodable(c: Cipher, b: seq<byte>)
      ensures var t := SealedTurn(c, b); t.Good? ==> t.frame.rec.Encodable()
    {
      hide UnLe;
    }

    /**
     The migration branch of LoadShard: every live entry is unsealed, re-sealed into a
     temporary log under counters from 0, and the log is renamed over the old file. On any
     failure the plaintext log stays.
     */
    method Migrate(engine: E.Engine, now: int) returns (ok: bool, ghost es: seq<E.Entry>)
      requires Valid() && needsMigrate && engine.Valid() && |engine.items| < U64
      requires engine.config.cipher.Some? ==> engine.config.cipher == pending
      requires forall k :: k in engine.items ==>
                 EncodesUnsealed(engine.config, E.Entry(k, engine.items[k].value, engine.items[k].exp))
      modifies this
      ensures Valid() && snap == old(snap)
      ensures !ok ==> file == old(file) && sidecar == old(sidecar) && needsMigrate
      ensures ok ==> !needsMigrate && walVer == 1 && cipher == old(pending) && fingerprint == old(pendingFp)
      // The entries written are the live items, unsealed.
      ensures ok ==> S.DistinctKeys(es) && Shows(engine.config, VisibleAt(engine.items, now), E.MapOf(es))
      ensures ok ==> M.Migratable(FileMode(), es) && file == FileBytes(FileMode(), M.Numbered(es))
      ensures ok ==> nonceCtr == sidecar == |es|
    {
      hide M.Numbered, M.Migratable, FileBytes, Shows, Unsealed, E.TotalBytes, VisibleAt, S.DistinctKeys;
      hide EncodesUnsealed;
      var listed := engine.ForEach(now);
      assert S.DistinctKeys(listed) by { AreDistinct(listed); }
      ListedCount(listed, engine.items, now);
      forall i | 0 <= i < |listed| ensures EncodesUnsealed(engine.config, listed[i]) {
        EntryIsItem(listed, i, engine.items, now);
        assert listed[i] == E.Entry(listed[i].key, engine.items[listed[i].key].value, engine.items[listed[i].key].exp);
      }
      var written, temp;
      written, temp, es := Reseal(shardID, pending.value, engine.config, listed);
      if !written { return false, es; }
      MapOfUnsealed(engine.config, listed, es);
      UnsealedDistinct(engine.config, listed, es);
      file := temp;
      cipher, pending, walVer, needsMigrate, fingerprint := pending, None, 1, false, pendingFp;
      nonceCtr := |listed|;
      sidecar := nonceCtr;
      ok := true;
    }

    /**
     truncateWALLocked, which a crash may stop after any number of its disk steps: whenever a
     byte of an encrypted log was cut, the counter had reached the sidecar.
     */
    method Truncate(offset: nat, steps: nat)
      requires Valid() && offset <= |file|
      modifies this`file, this`sidecar
      ensures Valid()
      ensures file == if steps >= 1 + walVer then old(file)[..offset] else old(file)
      ensures sidecar == if walVer == 1 && steps >= 1 then nonceCtr else old(sidecar)
      ensures walVer == 1 && file != old(file) ==> sidecar == nonceCtr
    {
      var left := steps;
      if walVer == 1 {
        if left == 0 { return; }
        sidecar := nonceCtr;
        left := left - 1;
      }
      if left == 0 { return; }
      file := file[..offset];
    }

    /**
     Snapshot, which a crash may stop after any number of its disk steps: the file of the listed
     entries, written by a child over a pipe or in process, is renamed into place, and the log is
     truncated to its own size, which persists the counter and cuts nothing.
     */
    method Snapshot(engine: E.Engine, now: int, created: nat, hash: S.Hash, forked: bool, steps: nat)
      returns (ghost es: seq<E.Entry>)
      requires Valid() && engine.Valid() && |fingerprint| == S.FINGERPRINT
      requires forall k :: k in engine.items ==> Record(k, engine.items[k].value, engine.items[k].exp).Encodable()
      modifies this`snap, this`file, this`sidecar
      ensures Valid() && file == old(file)
      ensures S.Writable(es) && S.DistinctKeys(es) && E.MapOf(es) == VisibleAt(engine.items, now)
      ensures snap == if steps >= 1 then Some(S.Render(es, created, fingerprint, hash)) else old(snap)
      ensures sidecar == if walVer == 1 && steps >= 2 then nonceCtr else old(sidecar)
    {
      hide S.DistinctKeys, E.MapOf, VisibleAt, S.Render, S.Body, E.TotalBytes, S.ParseEntries;
      var listed := engine.ForEach(now);
      es := listed;
      assert S.DistinctKeys(listed) by { AreDistinct(listed); }
      forall i | 0 <= i < |listed| ensures S.RecordOf(listed[i]).Encodable() {
        EntryIsItem(listed, i, engine.items, now);
      }
      var dump;
      if forked {
        var pipe := S.Serialize(listed);
        var out := S.ChildWrite(pipe, created, fingerprint, hash);
        S.PathsAgree(listed, created, fingerprint, hash);
        dump := out.value;
      } else {
        dump := S.WriteInProcess(listed, created, fingerprint, hash);
      }
      if steps == 0 { return; }
      snap := Some(dump);
      Truncate(|file|, steps - 1);
    }

    /** The part of CloseShard under the handle's lock. */
    method Close()
      requires Valid()
      modifies this`sidecar
      ensures Valid()
      ensures sidecar == if walVer == 1 then nonceCtr else old(sidecar)
    {
      if walVer == 1 { sidecar := nonceCtr; }
    }
  }

  /** The open shards by number; a shard that is closed is no longer there. */
  class Storage {
    var shards: map<nat, Handle>

    constructor ()
      ensures shards == map[]
    {
      shards := map[];
    }

    /**
     CloseShard, where saved and closed say which of the two file operations succeed: the handle is
     forgotten exactly when both do, its counter persisted first, and no other shard is touched. A
     shard that is not open is closed already.
     */
    method CloseShard(id: nat, saved: bool, closed: bool) returns (ok: bool)
      requires id in shards ==> shards[id].Valid()
      modifies this, if id in shards then {shards[id]} else {}
      ensures ok <==> id !in old(shards) || ((old(shards)[id].walVer == 1 ==> saved) && closed)
      ensures shards == if ok then old(shards) - {id} else old(shards)
      ensures id in old(shards) ==>
                var h := old(shards)[id];
                && h.Valid() && h.file == old(h.file) && h.nonceCtr == old(h.nonceCtr)
                && h.sidecar == if h.walVer == 1 && saved then h.nonceCtr else old(h.sidecar)
    {
      if id !in shards { assert shards - {id} == shards; return true; }
      var h := shards[id];
      if h.walVer == 1 && !saved { return false; }
      h.Close();
      if !closed { return false; }
      shards := shards - {id};
      ok := true;
    }
  }
}
