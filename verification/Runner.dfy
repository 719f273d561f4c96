/**
 The shard as commands reach it (internal/shard/runner.go): the log is written first and
 the engine second, and LoadShard rebuilds the engine from the files at start-up.
 */
module Runner {
  import opened Bytes
  import opened Aead
  import opened Wal
  import opened Replay
  import opened TimedStore
  import opened ShardRun
  import opened ShardHandle
  import opened Ceiling
  import S = Snapshot
  import E = Engine
  import M = Migration

  datatype Response = Value(value: Option<seq<byte>>) | Stored | Removed(existed: bool) | LogError | EngineFull

  /** An encrypted append spends a counter. */
  function NextCtr(walVer: nat, ctr: nat): nat { if walVer == 1 then (ctr + 1) % U64 else ctr }

  class Shard {
    const engine: E.Engine
    const handle: Handle

    constructor (engine: E.Engine, handle: Handle)
      ensures this.engine == engine && this.handle == handle
    {
      this.engine, this.handle := engine, handle;
    }

    ghost predicate Valid()
      reads this, engine, engine.wheel, engine.wheel.slotSizes, handle
    {
      engine.Valid() && handle.Valid()
    }

    /** The bytes an accepted record adds to the log, and nothing when it is refused. */
    ghost function Logged(rec: Record, ctr: nat): seq<byte>
      reads handle
      requires handle.Valid()
    {
      var f := Frame(if handle.walVer == 1 then ctr else 0, rec);
      if handle.needsMigrate || !Fits(handle.FileMode(), f) then [] else EncodeFrame(handle.FileMode(), f)
    }

    method Get(key: Key, now: int) returns (r: Response)
      requires Valid()
      modifies engine
      ensures Valid()
      ensures r == Value(Answer(engine.config, old(engine.State()), key, now))
      ensures engine.State() == AfterGet(old(engine.State()), key, now)
    {
      var v := engine.Get(key, now);
      r := Value(v);
    }

    /**
     SET: logged, then applied. A write the engine rejects for memory is already in the log;
     it is undone by a tombstone only when the key was not visible before.
     */
    method Set(key: Key, value: seq<byte>, ttl: int, now: int, nonce: seq<byte>) returns (r: Response)
      requires Valid() && |nonce| == NONCE && 0 < now && (ttl > 0 ==> now + ttl < I63)
      requires |key| + NONCE + |value| + TAG < U64
      modifies engine.Repr(), handle`file, handle`nonceCtr
      ensures Valid()
      ensures r.Stored? || r.LogError? || r.EngineFull?
      ensures r.LogError? ==> handle.file == old(handle.file)
      ensures !r.LogError? ==> |key| < U32 && old(Logged(Record(key, value, Deadline(ttl, now)), handle.nonceCtr)) != []
      // Once logged, it is rejected exactly when the guard refuses it beside what the lookup left.
      ensures !r.LogError? ==>
                (r.EngineFull? <==> !E.Admits(engine.maxBytes,
                                              E.TotalBytes(AfterGet(old(engine.State()), key, now).items) % U64,
                                              |key| + |engine.config.Seal(nonce, value)|))
      ensures engine.State() == if r.Stored? then
                                  Put(engine.config, AfterGet(old(engine.State()), key, now), key,
                                      engine.config.Seal(nonce, value), ttl, now)
                                else AfterGet(old(engine.State()), key, now)
      ensures r.Stored? || (r.EngineFull? && old(Answer(engine.config, engine.State(), key, now)).Some?) ==>
                && handle.file == old(handle.file)
                                  + old(Logged(Record(key, value, Deadline(ttl, now)), handle.nonceCtr))
                && handle.nonceCtr == NextCtr(handle.walVer, old(handle.nonceCtr))
      ensures r.EngineFull? && old(Answer(engine.config, engine.State(), key, now)).None? ==>
                && handle.file == old(handle.file)
                                  + old(Logged(Record(key, value, Deadline(ttl, now)), handle.nonceCtr))
                                  + old(Logged(Record(key, [], TOMBSTONE), (handle.nonceCtr + 1) % U64))
                && handle.nonceCtr == NextCtr(handle.walVer, NextCtr(handle.walVer, old(handle.nonceCtr)))
    {
      hide EncodeFrame, E.TotalBytes, Put, AfterGet, Answer;
      var expiration := 0;
      if ttl > 0 { expiration := now + ttl; }
      var before := engine.Get(key, now);
      var ok := LogSet(key, value, expiration);
      if !ok { return LogError; }
      ok := engine.Set(key, value, ttl, now, nonce);
      if !ok {
        if before.None? { var _ := handle.Delete(key); }
        return EngineFull;
      }
      r := Stored;
    }

    /** The log half of SET. */
    method LogSet(key: Key, value: seq<byte>, expiration: int) returns (ok: bool)
      requires handle.Valid() && -I63 <= expiration < I63
      modifies handle`file, handle`nonceCtr
      ensures handle.Valid()
      ensures !ok ==> handle.file == old(handle.file)
      ensures ok ==>
                && |key| < U32 && !handle.needsMigrate
                && handle.file == old(handle.file) + old(Logged(Record(key, value, expiration), handle.nonceCtr))
                && old(Logged(Record(key, value, expiration), handle.nonceCtr)) != []
                && handle.nonceCtr == NextCtr(handle.walVer, old(handle.nonceCtr))
    {
      hide EncodeFrame;
      ok := handle.Write(key, value, expiration);
      if ok {
        FrameIsNotEmpty(handle.FileMode(),
            Frame(if handle.walVer == 1 then old(handle.nonceCtr) else 0, Record(key, value, expiration)));
      }
    }

    lemma FrameIsNotEmpty(mode: Mode, f: Frame)
      requires mode.Valid() && Fits(mode, f)
      ensures EncodeFrame(mode, f) != []
    {
      FrameNotEmpty(mode, f);
    }

    /** DEL: the tombstone is logged whether or not the key exists; the reply tells if it was visible. */
    method Del(key: Key, now: int) returns (r: Response)
      requires Valid()
      modifies engine, handle`file, handle`nonceCtr
      ensures Valid()
      ensures r.LogError? || r.Removed?
      ensures r.Removed? ==>
                && r.existed == Deleted(old(engine.State()), key, now)
                && engine.State() == AfterDelete(old(engine.State()), key)
                && |key| < U32
                && handle.file == old(handle.file) + old(Logged(Record(key, [], TOMBSTONE), handle.nonceCtr))
                && handle.file != old(handle.file)
                && handle.nonceCtr == NextCtr(handle.walVer, old(handle.nonceCtr))
      ensures r.LogError? ==> engine.State() == old(engine.State()) && handle.file == old(handle.file)
    {
      hide EncodeFrame, E.TotalBytes;
      var ok := handle.Delete(key);
      if !ok { return LogError; }
      FrameIsNotEmpty(handle.FileMode(),
          Frame(if handle.walVer == 1 then old(handle.nonceCtr) else 0, Record(key, [], TOMBSTONE)));
      var existed := engine.Delete(key, now);
      r := Removed(existed);
    }

    /**
     LoadShard into an empty engine: snapshot, then log, then the migration if one is due. m is the
     map the snapshot stands for, empty when there is none; es is what a migration wrote.
     */
    method Load(now: int, rand: Random, hash: S.Hash, ghost m: Store) returns (ok: bool, ghost es: seq<E.Entry>)
      requires Valid() && GoodRandom(rand) && engine.items == map[]
      requires handle.walVer == 1 ==> |handle.file| >= 4 && handle.sidecar < U64
                                      && ScanLog(handle.FileMode(), handle.file[4..]).maxCtr + 1 < U64
      requires var e := SnapshotEntries(handle.snap, handle.fingerprint, hash);
               e.Some? ==> Shows(engine.config, S.LoadAll(map[], e.value, now), m)
      // A migration seals the log with the cipher that seals values at rest, and keys are countable.
      requires handle.needsMigrate ==>
                 && (engine.config.cipher.Some? ==> engine.config.cipher == handle.pending)
                 && AllItemsEncode(m) && |m| + |handle.file| < U64
      modifies engine.Repr(), handle
      ensures Valid()
      ensures var e := SnapshotEntries(old(handle.snap), old(handle.fingerprint), hash);
              e.None? ==> !ok && engine.items == map[] && handle.file == old(handle.file)
      // Without a migration it starts exactly when the snapshot is sound and the ceiling admits
      // snapshot and log in turn.
      ensures var e := SnapshotEntries(old(handle.snap), old(handle.fingerprint), hash);
              !old(handle.needsMigrate) && e.Some? && Sized(engine.config, S.LoadAll(map[], e.value, now), m) ==>
                (ok <==> && S.LoadUnder(engine.maxBytes, map[], e.value, now).Some?
                         && ReplayUnder(engine.config, engine.maxBytes, m, old(LogRecords()), now).Some?)
      ensures var e := SnapshotEntries(old(handle.snap), old(handle.fingerprint), hash);
              ok && e.Some? && Sized(engine.config, S.LoadAll(map[], e.value, now), m) ==>
                Sized(engine.config, engine.items, ReplayAll(m, old(LogRecords()), now))
      ensures engine.maxBytes == 0 && !old(handle.needsMigrate) ==>
                (ok <==> SnapshotEntries(old(handle.snap), old(handle.fingerprint), hash).Some?)
      ensures !old(handle.needsMigrate) ==>
                && !handle.needsMigrate && handle.FileMode() == old(handle.FileMode())
                && handle.fingerprint == old(handle.fingerprint)
      ensures handle.snap == old(handle.snap)
      ensures ok ==> Shows(engine.config, engine.items, ReplayAll(m, old(LogRecords()), now))
      ensures ok && !old(handle.needsMigrate) && old(handle.walVer) == 0 ==>
                handle.file == old(handle.file)[..ScanLog(Plain, old(handle.file)).offset]
      ensures ok && old(handle.walVer) == 1 ==>
                var s := ScanLog(old(handle.FileMode()), old(handle.file)[4..]);
                && handle.file == old(handle.file)[..4 + s.offset]
                && handle.nonceCtr == handle.sidecar == ReopenCtr(s.maxCtr, old(handle.sidecar))
      ensures ok && old(handle.needsMigrate) ==>
                && !handle.needsMigrate && handle.walVer == 1 && handle.cipher == old(handle.pending)
                && handle.fingerprint == old(handle.pendingFp)
                && S.DistinctKeys(es) && Shows(engine.config, VisibleAt(engine.items, now), E.MapOf(es))
                && M.Migratable(handle.FileMode(), es) && handle.file == FileBytes(handle.FileMode(), M.Numbered(es))
                && handle.nonceCtr == handle.sidecar == |es|
      ensures !ok && old(handle.needsMigrate) ==>
                && handle.needsMigrate && handle.sidecar == old(handle.sidecar)
                && (handle.file == old(handle.file)
                    || handle.file == old(handle.file)[..ScanLog(Plain, old(handle.file)).offset])
    {
      hide ScanLog, ReplayAll, Recs, S.ReadSnapshot, S.LoadAll, S.LoadUnder, ReplayUnder, E.TotalBytes, Shows, Sized;
      hide AllItemsEncode, M.Migratable, M.Numbered, FileBytes, VisibleAt, S.DistinctKeys, E.MapOf;
      es := [];
      if SnapshotExists(handle.snap) {
        var res := S.SnapshotRead(engine, handle.snap.value, handle.fingerprint, hash, now, rand(0));
        if !res.Loaded? { return false, es; }
      } else {
        LoadNothing(engine.maxBytes, now);
      }
      ghost var rs := LogRecords();
      if handle.walVer == 1 {
        ok := handle.ReplayEncrypted(engine, now, rand, m);
        return;
      }
      ghost var file := handle.file;
      ok := handle.ReplayPlaintext(engine, now, rand, m);
      if ok && handle.needsMigrate {
        CanMigrate(engine.config, engine.items, m, file, now);
        ok, es := handle.Migrate(engine, now);
      }
    }

    /** The records in the log file. */
    ghost function LogRecords(): seq<Record>
      reads handle
      requires handle.Valid()
    {
      if handle.walVer == 1 && |handle.file| >= 4 then Recs(ScanLog(handle.FileMode(), handle.file[4..]).frames)
      else Recs(ScanLog(Plain, handle.file).frames)
    }

    lemma LoadNothing(max: nat, now: int)
      ensures S.LoadAll(map[], [], now) == map[] && S.LoadUnder(max, map[], [], now) == Some(map[])
    {}
  }

  // ----- What replay builds can be migrated -----

  ghost predicate AllItemsEncode(m: Store) {
    forall k :: k in m ==> Record(k, m[k].value, m[k].exp).Encodable()
  }

  lemma {:induction false} ScanEncodes(b: seq<byte>)
    ensures forall i :: 0 <= i < |ScanLog(Plain, b).frames| ==> ScanLog(Plain, b).frames[i].rec.Encodable()
    ensures |ScanLog(Plain, b).frames| <= |b|
    decreases |b|
  {
    hide RecordAt;
    var t := Next(Plain, b);
    if t.Good? { ScanEncodes(b[t.len..]); }
  }

  lemma {:induction false} ReplayEncodes(m: Store, rs: seq<Record>, now: int)
    requires AllItemsEncode(m) && forall i :: 0 <= i < |rs| ==> rs[i].Encodable()
    ensures AllItemsEncode(ReplayAll(m, rs, now)) && |ReplayAll(m, rs, now)| <= |m| + |rs|
  {
    hide AllItemsEncode, ReplayOne;
    if rs != [] {
      ReplayEncodes(m, rs[..|rs| - 1], now);
      OneEncodes(ReplayAll(m, rs[..|rs| - 1], now), rs[|rs| - 1], now);
    }
  }

  lemma OneEncodes(m: Store, r: Record, now: int)
    requires AllItemsEncode(m) && r.Encodable()
    ensures AllItemsEncode(ReplayOne(m, r, now)) && |ReplayOne(m, r, now)| <= |m| + 1
  {
    hide E.TotalBytes;
    if r.key in m { E.SizeWithout(m, r.key); } else { assert m - {r.key} == m; }
    E.TotalWith(m, r.key, Item(r.value, r.ttl));
  }

  lemma CanMigrate(c: Config, items: Store, m: Store, file: seq<byte>, now: int)
    requires AllItemsEncode(m) && |m| + |file| < U64
    requires Shows(c, items, ReplayAll(m, Recs(ScanLog(Plain, file).frames), now))
    ensures |items| < U64
    ensures forall k :: k in items ==> EncodesUnsealed(c, E.Entry(k, items[k].value, items[k].exp))
  {
    hide ScanLog, ReplayAll;
    ScanEncodes(file);
    var r := ReplayAll(m, Recs(ScanLog(Plain, file).frames), now);
    ReplayEncodes(m, Recs(ScanLog(Plain, file).frames), now);
    assert |items.Keys| == |r.Keys|;
  }

  /** snapshotExists: a file that does not start with the snapshot magic is ignored. */
  predicate SnapshotExists(snap: Option<seq<byte>>) {
    snap.Some? && |snap.value| >= 4 && snap.value[..4] == S.SNAP_MAGIC
  }

  function SnapshotEntries(snap: Option<seq<byte>>, fp: seq<byte>, hash: S.Hash): Option<seq<E.Entry>> {
    if SnapshotExists(snap) then S.ReadSnapshot(snap.value, fp, hash) else Some([])
  }
}
