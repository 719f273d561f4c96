/**
 The objects of Runner and ShardHandle take the steps of the machines they are reasoned about
 with: a GET, SET, DEL or snapshot is a run of ShardRun steps, a start-up is Open, Persist and Trim,
 and a migration is a finished Migration attempt that lists what it recovered.
 */
module ShardLink {
  import opened Bytes
  import opened Aead
  import opened Wal
  import opened Replay
  import opened ShardRun
  import opened ShardSafety
  import opened ShardHandle
  import opened Runner
  import opened Ceiling
  import S = Snapshot
  import E = Engine
  import M = Migration
  import MigratedShard
  import TS = TimedStore

  /** es takes the machine from s to t. */
  ghost predicate Leads(env: Env, s: State, es: seq<Event>, t: State)
    decreases es
  {
    if es == [] then t == s else Enabled(env, s, es[0]) && Leads(env, Do(env, s, es[0]), es[1..], t)
  }

  /** Entries in stored form: sealed as the engine seals, and of the size that sealing gives. */
  ghost predicate StoredAs(c: TS.Config, raw: seq<E.Entry>, es: seq<E.Entry>) {
    Unsealed(c, raw, es) && forall i :: 0 <= i < |es| ==> |raw[i].value| == StoredLen(c, es[i].value)
  }

  /** The machine's snapshot holds plain values; the file holds the same entries in stored form. */
  ghost predicate SnapStands(env: Env, c: TS.Config, file: Option<seq<byte>>, snap: Option<seq<byte>>) {
    if snap.None? then file.None?
    else file.Some? && exists raw, es, created :: SnapPair(env, c, file.value, snap.value, raw, es, created)
  }

  ghost predicate SnapPair(env: Env, c: TS.Config, file: seq<byte>, snap: seq<byte>,
      raw: seq<E.Entry>, es: seq<E.Entry>, created: nat)
  {
    SnapIs(env, file, raw, created) && SnapIs(env, snap, es, created) && StoredAs(c, raw, es)
  }

  /** The shard is up and stands where the machine stands: file, counters, snapshot and engine. */
  ghost predicate Stands(env: Env, s: State, shard: Shard)
    reads shard, shard.engine, shard.engine.wheel, shard.engine.wheel.slotSizes, shard.handle
  {
    && shard.Valid() && env.Valid() && FileOk(env, s) && s.phase.Idle?
    && !shard.handle.needsMigrate && shard.handle.FileMode() == env.mode && shard.handle.fingerprint == env.fp
    && shard.handle.file == s.wal + s.tail && SnapStands(env, shard.engine.config, shard.handle.snap, s.snap)
    && (env.mode.Sealed? ==> shard.handle.nonceCtr == s.ctr && shard.handle.sidecar == s.sidecar)
    && Holds(shard.engine.config, shard.engine.items, s.items)
  }

  /** The engine holds m in stored form. */
  ghost predicate Holds(c: TS.Config, items: Store, m: Store) { Shows(c, items, m) && Sized(c, items, m) }

  lemma {:induction false} HoldsSet(
      c: TS.Config, items: Store, m: Store, k: Key, nonce: seq<byte>, value: seq<byte>, exp: int)
    requires c.Valid() && |nonce| == NONCE && Holds(c, items, m)
    ensures Holds(c, items[k := Item(c.Seal(nonce, value), exp)], m[k := Item(value, exp)])
  {
    hide Shows, Sized;
    c.UnsealSeal(nonce, value);
    SealedLen(c, nonce, value);
    ShowsSet(c, items, m, k, c.Seal(nonce, value), value, exp);
    SizedSet(c, items, m, k, c.Seal(nonce, value), value, exp);
  }

  lemma HoldsDelete(c: TS.Config, items: Store, m: Store, k: Key)
    requires Holds(c, items, m)
    ensures Holds(c, items - {k}, m - {k})
  {
    hide Shows, Sized;
    ShowsDelete(c, items, m, k);
    SizedDelete(c, items, m, k);
  }

  /** A lookup evicts from both or from neither. */
  lemma {:induction false} HoldsEvict(c: TS.Config, items: Store, m: Store, k: Key, now: int)
    requires Holds(c, items, m)
    ensures Holds(c, TS.Evict(items, k, now), TS.Evict(m, k, now))
    ensures k in items <==> k in m
    ensures k in m ==> (Visible(items[k], now) <==> Visible(m[k], now)) && c.Unseal(items[k].value) == Some(m[k].value)
  {
    if k in m && !Visible(m[k], now) { HoldsDelete(c, items, m, k); }
  }

  // ----- Appending -----

  /** The four steps of an acknowledged append, and the machine after them. */
  function Append(env: Env, s: State, rec: Record): seq<Event>
    requires Fits(env.mode, NextFrame(env, s, rec))
  {
    [Begin(rec), Write(|EncodeFrame(env.mode, NextFrame(env, s, rec))|), Sync, Ack]
  }

  lemma {:induction false} AppendRun(env: Env, s: State, rec: Record) returns (t: State)
    requires env.Valid() && FileOk(env, s) && s.phase.Idle? && s.ctr < U64 - 1 && Fits(env.mode, NextFrame(env, s, rec))
    ensures Leads(env, s, Append(env, s, rec), t) && FileOk(env, t) && t.phase.Idle?
    ensures t.wal + t.tail == s.wal + s.tail + EncodeFrame(env.mode, NextFrame(env, s, rec))
    ensures t.items == Effect(s.items, rec) && t.snap == s.snap && t.sidecar == s.sidecar && t.now == s.now
    ensures t.ctr == if env.mode.Plain? then s.ctr else s.ctr + 1
    ensures t.log == s.log + [NextFrame(env, s, rec)]
  {
    hide EncodeFrame, Fits, FileOk, Effect;
    var f := NextFrame(env, s, rec);
    var enc := EncodeFrame(env.mode, f);
    var a := Do(env, s, Begin(rec));
    FileStep(env, s, Begin(rec));
    NothingHanded(env, s, a);
    var b := Do(env, a, Write(|enc|));
    FileStep(env, a, Write(|enc|));
    assert enc[0..|enc|] == enc;
    AllHanded(env, a, b, enc);
    var c := Do(env, b, Sync);
    FileStep(env, b, Sync);
    t := Do(env, c, Ack);
    FileStep(env, c, Ack);
    var es := Append(env, s, rec);
    assert es[1..] == [Write(|enc|), Sync, Ack] && es[1..][1..] == [Sync, Ack] && es[1..][1..][1..] == [Ack];
    var none: seq<Event> := [];
    assert es[1..][1..][1..][1..] == none;
    LeadsFour(env, s, a, b, c, t, es);
    TailGrows(env, s, a, b, enc);
  }

  lemma {:induction false} LeadsFour(env: Env, s: State, a: State, b: State, c: State, t: State, es: seq<Event>)
    requires |es| == 4
    requires Enabled(env, s, es[0]) && a == Do(env, s, es[0])
    requires Enabled(env, a, es[1]) && b == Do(env, a, es[1])
    requires Enabled(env, b, es[2]) && c == Do(env, b, es[2])
    requires Enabled(env, c, es[3]) && t == Do(env, c, es[3])
    ensures Leads(env, s, es, t)
  {
    hide Enabled, Do;
    var e1, e2, e3 := es[1..], es[2..], es[3..];
    assert e1[1..] == e2 && e2[1..] == e3 && e3[1..] == [];
    assert Leads(env, t, [], t);
    assert Leads(env, c, e3, t);
    assert Leads(env, b, e2, t);
    assert Leads(env, a, e1, t);
  }

  lemma NothingHanded(env: Env, s: State, a: State)
    requires FileOk(env, s) && s.phase.Idle? && a.wal == s.wal && a.tail == s.tail
    ensures Handed(env, a) == 0 && a.tail == Pre(env, a)
  {}

  lemma AllHanded(env: Env, a: State, b: State, enc: seq<byte>)
    requires a.tail == Pre(env, a) && b.wal == a.wal && b.tail == a.tail + enc
    ensures Handed(env, b) == |enc|
  {}

  lemma TailGrows(env: Env, s: State, a: State, b: State, enc: seq<byte>)
    requires a.wal == s.wal && a.tail == s.tail && b.wal == a.wal && b.tail == a.tail + enc
    ensures b.wal + b.tail == s.wal + s.tail + enc
  {}

  /**
   SET, once logged, is rejected exactly when there is no room; otherwise it is the append of its
   record, then the engine.
   */
  method SetRuns(shard: Shard, key: Key, value: seq<byte>, ttl: int, nonce: seq<byte>, now: int, ghost env: Env,
      ghost s: State)
    returns (r: Response, ghost t: State)
    requires Stands(env, s, shard) && now == s.now && s.ctr < U64 - 1
    requires |nonce| == NONCE && 0 < now && (ttl > 0 ==> now + ttl < I63) && |key| + NONCE + |value| + TAG < U64
    modifies shard.engine.Repr(), shard.handle`file, shard.handle`nonceCtr
    ensures r.Stored? || r.LogError? || r.EngineFull?
    ensures var rec := Record(key, value, TS.Deadline(ttl, now));
            !r.LogError? ==> (r.EngineFull? <==> !Room(shard.engine.config, shard.engine.maxBytes,
                                                       TS.Evict(s.items, key, now), rec))
    ensures r.Stored? ==>
              var rec := Record(key, value, TS.Deadline(ttl, now));
              && Fits(env.mode, NextFrame(env, s, rec)) && Leads(env, s, Append(env, s, rec), t)
              && Stands(env, t, shard)
              && t.log == s.log + [NextFrame(env, s, rec)]
  {
    hide EncodeFrame, FileOk, Holds, Leads, E.TotalBytes, Append, Shard.Logged, TS.Put, TS.AfterGet, Fits;
    hide NextFrame, NextCtr, SnapStands, Room, E.Admits;
    var rec := Record(key, value, TS.Deadline(ttl, now));
    t := s;
    ghost var items, file, c := shard.engine.items, shard.handle.file, shard.engine.config;
    LoggedIs(env, s, shard, rec);
    PutOver(c, shard.engine.State(), key, c.Seal(nonce, value), ttl, now);
    HoldsSet(c, items, s.items, key, nonce, value, TS.Deadline(ttl, now));
    GuardIsRoom(c, shard.engine.maxBytes, shard.engine.State(), s.items, rec, nonce, now);
    NextCtrIs(env, s, shard);
    r := shard.Set(key, value, ttl, now, nonce);
    if r.Stored? { t := AppendRun(env, s, rec); }
  }

  lemma {:induction false} GuardIsRoom(
      c: TS.Config, max: nat, st: TS.Shard, m: Store, rec: Record, nonce: seq<byte>, now: int)
    requires c.Valid() && |nonce| == NONCE && Holds(c, st.items, m)
    ensures Room(c, max, TS.Evict(m, rec.key, now), rec)
       <==> E.Admits(max, E.TotalBytes(TS.AfterGet(st, rec.key, now).items) % U64,
                     |rec.key| + |c.Seal(nonce, rec.value)|)
  {
    hide E.TotalBytes, E.Admits, Room, Shows, Sized;
    HoldsEvict(c, st.items, m, rec.key, now);
    SealedLen(c, nonce, rec.value);
    RoomIsGuard(c, max, TS.Evict(st.items, rec.key, now), TS.Evict(m, rec.key, now), rec);
  }

  lemma PutOver(c: TS.Config, st: TS.Shard, key: Key, stored: seq<byte>, ttl: int, now: int)
    requires c.interval > 0 && st.wheel.Valid()
    ensures TS.Put(c, TS.AfterGet(st, key, now), key, stored, ttl, now).items
            == st.items[key := Item(stored, TS.Deadline(ttl, now))]
  {}

  lemma NextCtrIs(env: Env, s: State, shard: Shard)
    requires Stands(env, s, shard) && s.ctr < U64 - 1
    ensures env.mode.Sealed? ==> NextCtr(shard.handle.walVer, shard.handle.nonceCtr) == s.ctr + 1
  {}

  /** What the shard logs for a record is the frame the machine would write next. */
  lemma LoggedIs(env: Env, s: State, shard: Shard, rec: Record)
    requires Stands(env, s, shard)
    ensures shard.Logged(rec, shard.handle.nonceCtr)
         == if Fits(env.mode, NextFrame(env, s, rec)) then EncodeFrame(env.mode, NextFrame(env, s, rec)) else []
  {}

  /** DEL, when it answers: the append of a tombstone, and the reply is what the machine's map showed. */
  method DelRuns(shard: Shard, key: Key, now: int, ghost env: Env, ghost s: State) returns (r: Response, ghost t: State)
    requires Stands(env, s, shard) && now == s.now && s.ctr < U64 - 1
    modifies shard.engine, shard.handle`file, shard.handle`nonceCtr
    ensures r.Removed? || r.LogError?
    ensures r.Removed? ==>
              var rec := Record(key, [], TOMBSTONE);
              && r.existed == (key in VisibleAt(s.items, now))
              && Fits(env.mode, NextFrame(env, s, rec)) && Leads(env, s, Append(env, s, rec), t)
              && Stands(env, t, shard)
  {
    hide EncodeFrame, FileOk, Leads, E.TotalBytes, Append, Holds, SnapStands;
    HoldsEvict(shard.engine.config, shard.engine.items, s.items, key, now);
    VisibleLookup(s.items, now, key);
    var rec := Record(key, [], TOMBSTONE);
    t := s;
    ghost var items, file := shard.engine.items, shard.handle.file;
    LoggedIs(env, s, shard, rec);
    r := shard.Del(key, now);
    if r.Removed? {
      assert file + [] == file;
      t := AppendRun(env, s, rec);
      HoldsDelete(shard.engine.config, items, s.items, key);
    }
  }

  /** GET answers what the machine's map shows; an expired key is evicted. */
  method GetRuns(shard: Shard, key: Key, now: int, ghost env: Env, ghost s: State) returns (r: Response, ghost t: State)
    requires Stands(env, s, shard) && now == s.now
    modifies shard.engine
    ensures r.Value?
    ensures var seen := Lookup(VisibleAt(s.items, now), key);
            r.value == if seen.Some? then Some(seen.value.value) else None
    ensures Leads(env, s, if key in s.items && !Visible(s.items[key], now) then [Evict(key)] else [], t)
            && Stands(env, t, shard)
  {
    hide EncodeFrame, E.TotalBytes, Holds, SnapStands;
    VisibleLookup(s.items, now, key);
    HoldsEvict(shard.engine.config, shard.engine.items, s.items, key, now);
    t := if key in s.items && !Visible(s.items[key], now) then Do(env, s, Evict(key)) else s;
    ghost var items := shard.engine.items;
    r := shard.Get(key, now);
    if key in s.items && !Visible(s.items[key], now) {
      FileStep(env, s, Evict(key));
      HoldsDelete(shard.engine.config, items, s.items, key);
      assert [Evict(key)][1..] == [];
    }
  }

  // ----- Starting up -----

  /** The steps of a start-up: an encrypted shard saves its counter before it trims. */
  function StartUp(env: Env): seq<Event> { if env.mode.Plain? then [Open, Trim] else [Open, Persist, Trim] }

  lemma {:induction false} StartRun(env: Env, s: State) returns (t: State)
    requires env.Valid() && FileOk(env, s) && Opens(env, s)
    ensures Leads(env, s, StartUp(env), t) && FileOk(env, t) && t.phase.Idle?
    ensures var scan := OpenLog(env.mode, s.wal).value;
            && t.items == Load(env, s.snap, Recs(scan.frames), s.now).value && t.snap == s.snap
            && t.wal + t.tail == (if s.wal == [] then env.mode.Prefix() else s.wal[..|env.mode.Prefix()| + scan.offset])
            && t.ctr == (if env.mode.Plain? then 0 else ReopenCtr(scan.maxCtr, s.sidecar))
            && (env.mode.Sealed? ==> t.sidecar == t.ctr)
  {
    hide FileOk, ScanLog, Load, OpenLog;
    var a := Do(env, s, Open);
    FileStep(env, s, Open);
    var b := if env.mode.Plain? then a else Do(env, a, Persist);
    if env.mode.Sealed? { FileStep(env, a, Persist); }
    t := Do(env, b, Trim);
    FileStep(env, b, Trim);
    LeadsStart(env, s, a, b, t);
  }

  lemma {:induction false} LeadsStart(env: Env, s: State, a: State, b: State, t: State)
    requires Enabled(env, s, Open) && a == Do(env, s, Open)
    requires if env.mode.Plain? then b == a else Enabled(env, a, Persist) && b == Do(env, a, Persist)
    requires Enabled(env, b, Trim) && t == Do(env, b, Trim)
    ensures Leads(env, s, StartUp(env), t)
  {
    hide Enabled, Do;
    assert Leads(env, t, [], t);
    assert [Trim][1..] == [];
    assert Leads(env, b, [Trim], t);
    if env.mode.Plain? {
      assert [Open, Trim][1..] == [Trim];
    } else {
      assert [Persist, Trim][1..] == [Trim];
      assert Leads(env, a, [Persist, Trim], t);
      assert [Open, Persist, Trim][1..] == [Persist, Trim];
    }
  }

  /** What a start-up is given: the files the machine has on disk, an empty engine, and the same key. */
  ghost predicate Given(env: Env, s: State, shard: Shard, key: Option<Cipher>, fp: seq<byte>)
    reads shard, shard.engine, shard.engine.wheel, shard.engine.wheel.slotSizes, shard.handle
  {
    var h := shard.handle;
    && shard.Valid() && env.Valid() && FileOk(env, s) && s.phase.Down? && shard.engine.items == map[]
    && h.file == s.wal && SnapStands(env, shard.engine.config, h.snap, s.snap) && h.sidecar == s.sidecar
    && h.walVer == 0 && h.nonceCtr == 0 && h.cipher == None && !h.needsMigrate && h.fingerprint == S.NO_KEY
    && (key.Some? ==> key.value.Lawful())
    && env.mode == (if key.None? then Plain else Sealed(key.value, h.shardID))
    && env.fp == (if key.None? then S.NO_KEY else fp)
  }

  /** Snapshot and log find room under the ceiling, entry by entry and record by record. */
  ghost predicate Roomy(env: Env, s: State, c: TS.Config, max: nat, snap: Option<seq<byte>>) {
    var raw, log := SnapshotEntries(snap, env.fp, env.hash), OpenLog(env.mode, s.wal);
    raw.Some? && log.Some? ==>
      && S.LoadUnder(max, map[], raw.value, s.now).Some?
      && ReplayUnder(c, max, SnapshotMap(env, s), Recs(log.value.frames), s.now).Some?
  }

  /**
   OpenShard and LoadShard: they succeed exactly when the machine opens and the ceiling leaves room,
   and do what its steps do.
   */
  method Starts(shard: Shard, key: Option<Cipher>, fp: seq<byte>, hash: S.Hash, now: int, rand: Random,
                ghost env: Env, ghost s: State) returns (ok: bool, ghost t: State)
    requires Given(env, s, shard, key, fp) && GoodRandom(rand) && now == s.now && hash == env.hash && s.sidecar < U64
    requires OpenLog(env.mode, s.wal).Some? ==> OpenLog(env.mode, s.wal).value.maxCtr + 1 < U64
    // Not a plaintext log under a key, which is a migration.
    requires env.mode.Sealed? && |s.wal| >= 4 ==> s.wal[..4] == MAGIC
    modifies shard.engine.Repr(), shard.handle
    ensures ok <==> Opens(env, s) && Roomy(env, s, shard.engine.config, shard.engine.maxBytes, old(shard.handle.snap))
    ensures shard.engine.maxBytes == 0 ==> (ok <==> Opens(env, s))
    ensures ok ==> Leads(env, s, StartUp(env), t) && Stands(env, t, shard)
  {
    hide EncodeFrame, ScanLog, ReplayAll, Recs, S.ReadSnapshot, S.LoadAll, E.TotalBytes, FileOk, Leads, Shows, StartUp;
    hide Sized, SnapStands, SnapshotMap, S.LoadUnder, ReplayUnder, SnapshotEntries;
    t := s;
    ghost var snap, m := shard.handle.snap, SnapshotMap(env, s);
    SnapAgrees(env, shard.engine.config, snap, s);
    ok := shard.handle.OpenShard(key, fp);
    if !ok { return; }
    EmptyScan(env.mode);
    assert shard.handle.fingerprint == env.fp && shard.handle.FileMode() == env.mode;
    ghost var es;
    ok, es := shard.Load(now, rand, hash, m);
    LoadAgrees(env, s);
    if ok {
      t := StartRun(env, s);
      assert MAGIC[..4] == MAGIC;
    }
  }

  /** The snapshot file loads exactly when the machine's does, to its stored form. */
  lemma {:induction false} SnapAgrees(env: Env, c: TS.Config, file: Option<seq<byte>>, s: State)
    requires SnapStands(env, c, file, s.snap) && env.Valid()
    ensures var raw := SnapshotEntries(file, env.fp, env.hash);
            raw.Some? && Holds(c, S.LoadAll(map[], raw.value, s.now), SnapshotMap(env, s))
    ensures s.snap.Some? ==> S.ReadSnapshot(s.snap.value, env.fp, env.hash).Some?
  {
    hide S.ReadSnapshot, S.Render, StoredAs, Holds, S.LoadAll;
    if s.snap.None? {
      HoldsNothing(c, s.now);
    } else {
      var raw, es, created :| SnapPair(env, c, file.value, s.snap.value, raw, es, created);
      S.RoundTrip(raw, created, env.fp, env.fp, env.hash);
      S.RoundTrip(es, created, env.fp, env.fp, env.hash);
      RenderedExists(raw, created, env.fp, env.hash);
      HoldsLoaded(c, raw, es, s.now);
    }
  }

  lemma HoldsNothing(c: TS.Config, now: int)
    ensures Holds(c, S.LoadAll(map[], [], now), map[])
  {}

  lemma RenderedExists(es: seq<E.Entry>, created: nat, fp: seq<byte>, hash: S.Hash)
    requires S.Writable(es) && |fp| == S.FINGERPRINT
    ensures SnapshotExists(Some(S.Render(es, created, fp, hash)))
  {}

  lemma {:induction false} HoldsLoaded(c: TS.Config, raw: seq<E.Entry>, es: seq<E.Entry>, now: int)
    requires StoredAs(c, raw, es)
    ensures Holds(c, S.LoadAll(map[], raw, now), S.LoadAll(map[], es, now))
  {
    if es != [] {
      var n := |es| - 1;
      assert StoredAs(c, raw[..n], es[..n]);
      HoldsLoaded(c, raw[..n], es[..n], now);
      LoadOne(c, S.LoadAll(map[], raw[..n], now), S.LoadAll(map[], es[..n], now), raw[n], es[n]);
    }
  }

  lemma {:induction false} LoadOne(c: TS.Config, items: Store, m: Store, raw: E.Entry, e: E.Entry)
    requires Holds(c, items, m) && raw.key == e.key && raw.exp == e.exp
    requires c.Unseal(raw.value) == Some(e.value) && |raw.value| == StoredLen(c, e.value)
    ensures Holds(c, items[raw.key := Item(raw.value, raw.exp)], m[e.key := Item(e.value, e.exp)])
  {
    hide Shows, Sized;
    ShowsSet(c, items, m, e.key, raw.value, e.value, e.exp);
    SizedSet(c, items, m, e.key, raw.value, e.value, e.exp);
  }

  lemma EmptyScan(mode: Mode)
    ensures ScanLog(mode, []) == Scan([], 0, 0)
  {}

  ghost function SnapshotMap(env: Env, s: State): Store {
    if s.snap.None? then map[]
    else
      var e := S.ReadSnapshot(s.snap.value, env.fp, env.hash);
      if e.None? then map[] else S.LoadAll(map[], e.value, s.now)
  }

  lemma {:induction false} LoadAgrees(env: Env, s: State)
    requires OpenLog(env.mode, s.wal).Some?
    requires s.snap.Some? ==> S.ReadSnapshot(s.snap.value, env.fp, env.hash).Some?
    ensures var rs := Recs(OpenLog(env.mode, s.wal).value.frames);
            Load(env, s.snap, rs, s.now) == Some(ReplayAll(SnapshotMap(env, s), rs, s.now))
  {
    hide ScanLog, ReplayAll, S.ReadSnapshot, S.LoadAll;
  }

  // ----- Snapshots -----

  /** The steps of Snapshot, of which a crash may leave the first few. */
  function SnapshotSteps(s: State, es: seq<E.Entry>, created: nat): seq<Event> {
    [Rename(es, created), Persist, Truncate(|s.log|)]
  }

  /** Snapshot: the machine's rename of what its map shows, the counter, and a cut at the end of the log. */
  method SnapshotRuns(shard: Shard, now: int, created: nat, forked: bool, ghost env: Env, ghost s: State, hash: S.Hash)
    returns (ghost es: seq<E.Entry>, ghost t: State)
    requires Stands(env, s, shard) && now == s.now && hash == env.hash
    requires var items := shard.engine.items;
             forall k :: k in items ==> Record(k, items[k].value, items[k].exp).Encodable()
    modifies shard.handle`snap, shard.handle`file, shard.handle`sidecar
    ensures Leads(env, s, SnapshotSteps(s, es, created), t) && Stands(env, t, shard)
  {
    hide FileOk, Holds, Leads, E.TotalBytes, VisibleAt, E.MapOf, S.DistinctKeys, StoredAs;
    ghost var c := shard.engine.config;
    ghost var raw := shard.handle.Snapshot(shard.engine, now, created, hash, forked, 3);
    es := Plainly(c, raw, shard.engine.items, s.items, now);
    t := SnapshotRun(env, s, es, created);
    assert SnapPair(env, c, shard.handle.snap.value, t.snap.value, raw, es, created);
  }

  /** The listing with its values unsealed lists what the machine's map shows. */
  lemma {:induction false} Plainly(c: TS.Config, raw: seq<E.Entry>, items: Store, m: Store, now: int)
    returns (es: seq<E.Entry>)
    requires Holds(c, items, m) && S.Writable(raw) && S.DistinctKeys(raw) && E.MapOf(raw) == VisibleAt(items, now)
    ensures StoredAs(c, raw, es) && S.Writable(es) && S.DistinctKeys(es) && E.MapOf(es) == VisibleAt(m, now)
  {
    hide E.MapOf, VisibleAt;
    forall i | 0 <= i < |raw| ensures raw[i].key in m && items[raw[i].key] == Item(raw[i].value, raw[i].exp) {
      EntryIsItem(raw, i, items, now);
    }
    es := seq(|raw|, i requires 0 <= i < |raw| => E.Entry(raw[i].key, m[raw[i].key].value, raw[i].exp));
    MapOfUnsealed(c, raw, es);
    SameShown(c, items, m, E.MapOf(es), now);
  }

  lemma {:induction false} SnapshotRun(env: Env, s: State, es: seq<E.Entry>, created: nat) returns (t: State)
    requires env.Valid() && FileOk(env, s) && s.phase.Idle?
    requires S.Writable(es) && S.DistinctKeys(es) && E.MapOf(es) == VisibleAt(s.items, s.now)
    ensures Leads(env, s, SnapshotSteps(s, es, created), t) && FileOk(env, t) && t.phase.Idle?
    ensures t.snap == Some(S.Render(es, created, env.fp, env.hash)) && t.wal + t.tail == s.wal + s.tail
    ensures t.items == s.items && t.now == s.now && t.ctr == s.ctr && t.log == s.log
    ensures env.mode.Sealed? ==> t.sidecar == s.ctr
  {
    hide FileOk, S.Render, EncodeFrame, FileBytes, VisibleAt, E.MapOf;
    var a := Do(env, s, Rename(es, created));
    FileStep(env, s, Rename(es, created));
    var b := Do(env, a, Persist);
    FileStep(env, a, Persist);
    WholeFile(env, s);
    t := Do(env, b, Truncate(|s.log|));
    FileStep(env, b, Truncate(|s.log|));
    assert s.log[..|s.log|] == s.log;
    LeadsThree(env, s, a, b, t, SnapshotSteps(s, es, created));
  }

  lemma WholeFile(env: Env, s: State)
    requires FileOk(env, s) && s.phase.Idle?
    ensures AllFit(env.mode, s.log) && s.wal + s.tail == FileBytes(env.mode, s.log)
  {}

  lemma {:induction false} LeadsThree(env: Env, s: State, a: State, b: State, t: State, es: seq<Event>)
    requires |es| == 3
    requires Enabled(env, s, es[0]) && a == Do(env, s, es[0])
    requires Enabled(env, a, es[1]) && b == Do(env, a, es[1])
    requires Enabled(env, b, es[2]) && t == Do(env, b, es[2])
    ensures Leads(env, s, es, t)
  {
    hide Enabled, Do;
    var e1, e2 := es[1..], es[2..];
    assert e1[1..] == e2 && e2[1..] == [];
    assert Leads(env, t, [], t);
    assert Leads(env, b, e2, t);
    assert Leads(env, a, e1, t);
  }

  // ----- Migrating -----

  /**
   A start-up that finds a plaintext log under a key is an attempt of Migration: when it succeeds
   it is a finished one that wrote what ForEach listed of the map recovered from that disk, and
   when it fails, for memory or an entry too long to seal, the log is still the plaintext one. A
   shard that migrated stands where a run may start.
   */
  method Migrates(shard: Shard, key: Cipher, fp: seq<byte>, hash: S.Hash, now: int, rand: Random, ghost d: M.Disk,
                  ghost env: Env)
    returns (ok: bool, ghost es: seq<E.Entry>)
    requires env.Valid() && env.mode == Sealed(key, shard.handle.shardID) && env.fp == fp
    requires shard.Valid() && GoodRandom(rand) && key.Lawful() && shard.engine.items == map[]
    requires var h := shard.handle;
             && h.file == d.wal && h.sidecar == d.sidecar && h.snap.None?
             && h.walVer == 0 && h.nonceCtr == 0 && h.cipher == None && !h.needsMigrate
    requires 4 <= |d.wal| < U64 && d.wal[..4] != MAGIC
    requires shard.engine.config.cipher.Some? ==> shard.engine.config.cipher == Some(key)
    modifies shard.engine.Repr(), shard.handle
    ensures var mode, end := Sealed(key, shard.handle.shardID), M.Disk(shard.handle.file, shard.handle.sidecar);
            if ok then
              && M.Migratable(mode, es) && end == M.Attempt(mode, d, M.Try(now, es, M.Finished))
              && M.Lists(es, VisibleAt(M.Recovers(mode, d.wal, now), now))
              && Begun(mode, MigratedShard.StillUp(mode, end, now))
              && Stands(env, MigratedShard.StillUp(mode, end, now), shard)
            else end == M.Attempt(mode, d, M.Try(now, [], M.Untouched))
                 || end == M.Attempt(mode, d, M.Try(now, [], M.Trimmed))
  {
    hide EncodeFrame, ScanLog, ReplayAll, Recs, E.TotalBytes, Shows, M.Numbered, FileBytes, S.DistinctKeys;
    hide E.MapOf, VisibleAt;
    hide Sized, MigratedShard.StillUp, Begun, FileOk, Live;
    ghost var mode, rs := Sealed(key, shard.handle.shardID), Recs(ScanLog(Plain, d.wal).frames);
    ok := shard.handle.OpenShard(Some(key), fp);
    shard.LoadNothing(0, now);
    NothingShown(shard.engine.config);
    ok, es := shard.Load(now, rand, hash, map[]);
    NothingMigrated(mode);
    if ok {
      SameShown(shard.engine.config, shard.engine.items, ReplayAll(map[], rs, now), E.MapOf(es), now);
      MigratedStands(env, M.Disk(shard.handle.file, shard.handle.sidecar), rs, es, now);
    }
  }

  /** The log a migration wrote of a replayed engine is one a run may start from, up and with that engine. */
  lemma {:induction false} MigratedStands(env: Env, end: M.Disk, rs: seq<Record>, es: seq<E.Entry>, now: int)
    requires env.Valid() && M.Migratable(env.mode, es) && S.DistinctKeys(es)
    requires E.MapOf(es) == VisibleAt(ReplayAll(map[], rs, now), now)
    requires end == M.Disk(FileBytes(env.mode, M.Numbered(es)), |es|)
    ensures var s := MigratedShard.StillUp(env.mode, end, now);
            && Begun(env.mode, s) && FileOk(env, s) && s.phase.Idle? && s.items == ReplayAll(map[], rs, now)
            && s.wal + s.tail == end.wal && s.snap.None? && s.ctr == s.sidecar == end.sidecar
  {
    hide M.Numbered, EncodeFrame, Fits, ScanLog, LogBytes, Live, E.MapOf, Recs;
    M.SealedScan(env.mode, es);
    MigratedShard.NumberedIncrease(es);
    NumberedBelow(es);
    ReplayedAhead(rs, now);
    var m := ReplayAll(map[], rs, now);
    assert VisibleAt(m, now) == m;
    forall i | 0 <= i < |es| ensures es[i].exp != TOMBSTONE { M.EntryInMap(es, i); }
    M.NumberedLive(es);
  }

  lemma NumberedBelow(es: seq<E.Entry>)
    ensures forall i :: 0 <= i < |es| ==> M.Numbered(es)[i].ctr < |es|
  {}

  lemma {:induction false} ReplayedAhead(rs: seq<Record>, now: int)
    ensures AllReplayable(ReplayAll(map[], rs, now), now)
  {
    if rs != [] {
      ReplayedAhead(rs[..|rs| - 1], now);
    }
  }

  predicate AllReplayable(m: Store, now: int) {
    forall k :: k in m ==> m[k].exp != TOMBSTONE && (m[k].exp == 0 || now < m[k].exp)
  }

  lemma NothingShown(c: TS.Config)
    ensures Shows(c, map[], map[]) && AllItemsEncode(map[]) && Sized(c, map[], map[])
  {}

  lemma NothingMigrated(mode: Mode)
    requires mode.Sealed?
    ensures M.Migratable(mode, [])
  {}

  /** Two maps an engine shows, one of them of its visible items only, agree on what is visible. */
  lemma {:induction false} SameShown(c: TS.Config, items: Store, m: Store, listed: Store, now: int)
    requires Shows(c, items, m) && Shows(c, VisibleAt(items, now), listed)
    ensures listed == VisibleAt(m, now)
  {
    forall k ensures Lookup(listed, k) == Lookup(VisibleAt(m, now), k) {
      VisibleLookup(items, now, k);
      VisibleLookup(m, now, k);
    }
    SameStore(listed, VisibleAt(m, now));
  }
}
