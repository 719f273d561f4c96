/**
 A shard with a memory ceiling serves as Ceiling says: SET and DEL are its steps, and a restart
 from the log succeeds exactly when no write was rejected.
 */
module CeilingLink {
  import opened Bytes
  import opened Aead
  import opened Wal
  import opened Replay
  import opened ShardRun
  import opened ShardHandle
  import opened Runner
  import opened Ceiling
  import ShardLink
  import E = Engine
  import S = Snapshot
  import TS = TimedStore

  /** The shard is up with this map and this log, written as the frames fs. */
  ghost predicate Answers(shard: Shard, sv: Served, fs: seq<Frame>)
    reads shard, shard.engine, shard.engine.wheel, shard.engine.wheel.slotSizes, shard.handle
  {
    && shard.Valid() && !shard.handle.needsMigrate
    && Logs(shard.handle.FileMode(), shard.handle.file, sv.log, fs)
    && ShardLink.Holds(shard.engine.config, shard.engine.items, sv.m)
  }

  ghost predicate Logs(mode: Mode, file: seq<byte>, log: seq<Record>, fs: seq<Frame>) {
    AllFit(mode, fs) && file == FileBytes(mode, fs) && Recs(fs) == log
  }

  lemma {:induction false} LogsSnoc(mode: Mode, file: seq<byte>, log: seq<Record>, fs: seq<Frame>, f: Frame)
    requires Logs(mode, file, log, fs) && Fits(mode, f)
    ensures Logs(mode, file + EncodeFrame(mode, f), log + [f.rec], fs + [f])
  {
    hide EncodeFrame, Fits, FileBytes;
    LogSnoc(mode, fs, f);
  }

  /** A tombstone fits wherever a write of its key does. */
  lemma {:induction false} TombstoneFits(mode: Mode, ctr: nat, next: nat, r: Record)
    requires Fits(mode, Frame(ctr, r)) && (if mode.Plain? then next == 0 else next < U64)
    ensures Fits(mode, Frame(next, Tombstone(r.key)))
  {}

  /** The frame a shard logs for a record, under this counter. */
  function FrameOf(mode: Mode, ctr: nat, r: Record): Frame { Frame(if mode.Plain? then 0 else ctr, r) }

  lemma {:induction false} LoggedFrame(shard: Shard, r: Record, ctr: nat)
    requires shard.Valid() && !shard.handle.needsMigrate
    ensures var mode := shard.handle.FileMode();
            var f := FrameOf(mode, ctr, r);
            shard.Logged(r, ctr) == if Fits(mode, f) then EncodeFrame(mode, f) else []
  {
    hide EncodeFrame, Fits;
  }

  /**
   SET under any ceiling. Unless the log refuses it, it is one step of Ceiling: rejected exactly
   when there is no room, and then with the tombstone exactly when the key was not visible.
   */
  method SetServes(shard: Shard, key: Key, value: seq<byte>, ttl: int, nonce: seq<byte>, now: int,
                   ghost sv: Served, ghost fs: seq<Frame>)
    returns (r: Response, ghost tv: Served, ghost gs: seq<Frame>)
    requires Answers(shard, sv, fs)
    requires |nonce| == NONCE && 0 < now && (ttl > 0 ==> now + ttl < I63) && |key| + NONCE + |value| + TAG < U64
    modifies shard.engine.Repr(), shard.handle`file, shard.handle`nonceCtr
    ensures Answers(shard, tv, gs)
    ensures r.Stored? || r.LogError? || r.EngineFull?
    ensures var c, max, rec := shard.engine.config, shard.engine.maxBytes, Record(key, value, TS.Deadline(ttl, now));
            if r.LogError? then tv == sv.(m := TS.Evict(sv.m, key, now))
            else && tv == Serve(c, max, sv, SetOp(rec, now))
                 && (r.EngineFull? <==> !Room(c, max, TS.Evict(sv.m, key, now), rec))
  {
    hide EncodeFrame, FileBytes, AllFit, Recs, ShardLink.Holds, E.TotalBytes, E.Admits, Room, TS.Put, TS.AfterGet, Fits;
    hide TS.Answer, Logs;
    ghost var c, max, rec := shard.engine.config, shard.engine.maxBytes, Record(key, value, TS.Deadline(ttl, now));
    ghost var mode, ctr, st := shard.handle.FileMode(), shard.handle.nonceCtr, shard.engine.State();
    ghost var file := shard.handle.file;
    ghost var f, g := FrameOf(mode, ctr, rec), FrameOf(mode, (ctr + 1) % U64, Tombstone(key));
    LoggedFrame(shard, rec, ctr);
    LoggedFrame(shard, Tombstone(key), (ctr + 1) % U64);
    SetLeaves(c, max, st, sv.m, rec, nonce, ttl, now);
    r := shard.Set(key, value, ttl, now, nonce);
    tv, gs := sv.(m := TS.Evict(sv.m, key, now)), fs;
    if !r.LogError? {
      tv, gs := Serve(c, max, sv, SetOp(rec, now)), fs + [f];
      LogsSnoc(mode, file, sv.log, fs, f);
      if r.EngineFull? && key !in TS.Evict(sv.m, key, now) {
        gs := fs + [f] + [g];
        TombstoneFits(mode, f.ctr, g.ctr, rec);
        LogsSnoc(mode, file + EncodeFrame(mode, f), sv.log + [rec], fs + [f], g);
      } else {
        assert sv.log + [rec] + [] == sv.log + [rec];
      }
    }
  }

  /** What the lookup and the write make of an engine and of the map it holds. */
  lemma {:induction false} SetLeaves(
      c: TS.Config, max: nat, st: TS.Shard, m: Store, rec: Record, nonce: seq<byte>, ttl: int, now: int)
    requires c.Valid() && |nonce| == NONCE && st.wheel.Valid() && ShardLink.Holds(c, st.items, m)
    requires rec.ttl == TS.Deadline(ttl, now) && 0 < now
    ensures var left, seen := TS.Evict(m, rec.key, now), TS.AfterGet(st, rec.key, now);
            && ShardLink.Holds(c, seen.items, left)
            && ShardLink.Holds(c, TS.Put(c, seen, rec.key, c.Seal(nonce, rec.value), ttl, now).items, Effect(left, rec))
            && (TS.Answer(c, st, rec.key, now).None? <==> rec.key !in left)
            && (Room(c, max, left, rec)
                <==> E.Admits(max, E.TotalBytes(seen.items) % U64, |rec.key| + |c.Seal(nonce, rec.value)|))
  {
    hide E.TotalBytes, E.Admits, Room, ShardLink.Holds;
    var items, left := TS.Evict(st.items, rec.key, now), TS.Evict(m, rec.key, now);
    ShardLink.HoldsEvict(c, st.items, m, rec.key, now);
    ShardLink.HoldsSet(c, items, left, rec.key, nonce, rec.value, rec.ttl);
    ShardLink.GuardIsRoom(c, max, st, m, rec, nonce, now);
  }

  /** DEL is a step of Ceiling, unless the log refuses it, and tells whether the map showed the key. */
  method DelServes(shard: Shard, key: Key, now: int, ghost sv: Served, ghost fs: seq<Frame>)
    returns (r: Response, ghost tv: Served, ghost gs: seq<Frame>)
    requires Answers(shard, sv, fs)
    modifies shard.engine, shard.handle`file, shard.handle`nonceCtr
    ensures Answers(shard, tv, gs)
    ensures r.LogError? || r.Removed?
    ensures if r.LogError? then tv == sv
            else && tv == Serve(shard.engine.config, shard.engine.maxBytes, sv, DelOp(key, now))
                 && r.existed == (key in VisibleAt(sv.m, now))
  {
    hide EncodeFrame, FileBytes, AllFit, Recs, ShardLink.Holds, E.TotalBytes, Fits, Logs;
    ghost var mode, ctr, items := shard.handle.FileMode(), shard.handle.nonceCtr, shard.engine.items;
    ghost var f := FrameOf(mode, ctr, Tombstone(key));
    LoggedFrame(shard, Tombstone(key), ctr);
    ShardLink.HoldsEvict(shard.engine.config, items, sv.m, key, now);
    ShardLink.HoldsDelete(shard.engine.config, items, sv.m, key);
    VisibleLookup(sv.m, now, key);
    ghost var file := shard.handle.file;
    r := shard.Del(key, now);
    tv, gs := sv, fs;
    if r.Removed? {
      assert file + [] == file;
      tv, gs := Serve(shard.engine.config, shard.engine.maxBytes, sv, DelOp(key, now)), fs + [f];
      LogsSnoc(mode, file, sv.log, fs, f);
    }
  }

  /**
   The restart of a shard that served ops, without a snapshot and while no logged deadline has
   passed: under the same ceiling it starts if and only if no write was rejected, with the map it had.
   */
  method Restarts(shard: Shard, now: int, rand: Random, hash: S.Hash, ghost ops: seq<Op>, ghost fs: seq<Frame>)
    returns (ok: bool)
    requires shard.Valid() && GoodRandom(rand) && shard.engine.items == map[]
    requires shard.handle.snap.None? && !shard.handle.needsMigrate
    requires var sv := ServeAll(shard.engine.config, shard.engine.maxBytes, ops);
             Logs(shard.handle.FileMode(), shard.handle.file, sv.log, fs) && Lasting(ops, now)
    requires shard.handle.sidecar < U64 && MaxCtr(fs) + 1 < U64
    modifies shard.engine.Repr(), shard.handle
    ensures var sv := ServeAll(shard.engine.config, shard.engine.maxBytes, ops);
            (ok <==> !sv.rejected) && (ok ==> Shows(shard.engine.config, shard.engine.items, sv.m))
  {
    hide ScanLog, ReplayAll, ReplayUnder, Shows, Sized, E.TotalBytes, ServeAll, Lasting, Recs, MaxCtr;
    hide FileBytes, AllFit;
    WholeLog(shard.handle.FileMode(), fs);
    shard.LoadNothing(shard.engine.maxBytes, now);
    ShardLink.NothingShown(shard.engine.config);
    ghost var c, max := shard.engine.config, shard.engine.maxBytes;
    RestartIffNoneRejected(c, max, ops, now);
    UnderIsReplay(c, max, map[], ServeAll(c, max, ops).log, now);
    ghost var es;
    ok, es := shard.Load(now, rand, hash, map[]);
  }

  lemma {:induction false} WholeLog(mode: Mode, fs: seq<Frame>)
    requires mode.Valid() && AllFit(mode, fs)
    ensures var file, n := FileBytes(mode, fs), |mode.Prefix()|;
            && |file| >= n && ScanLog(mode, file[n..]).frames == fs && ScanLog(mode, file[n..]).maxCtr == MaxCtr(fs)
            && (mode.Plain? ==> n == 0 && file[0..] == file) && (mode.Sealed? ==> n == 4)
  {
    hide EncodeFrame, Fits, ScanLog;
    var file, n := FileBytes(mode, fs), |mode.Prefix()|;
    assert file[n..] == LogBytes(mode, fs) + [];
    NextEmpty(mode);
    ScanFrames(mode, fs, []);
  }
}
