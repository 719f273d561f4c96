/**
 The in-place migration of a plaintext log to an encrypted one (LoadShard in
 internal/persistence/persistence.go): a new log is written beside the old one and
 renamed over it, so the log path always holds one of the two whole.
 */
module Migration {
  import opened Bytes
  import opened Aead
  import opened Wal
  import opened Replay
  import opened ShardRun
  import opened ShardSafety
  import S = Snapshot
  import E = Engine

  /** The migrated log: one SET per live entry, in listing order, under counters from 0. */
  function Numbered(es: seq<E.Entry>): (fs: seq<Frame>)
    ensures |fs| == |es|
    ensures forall i :: 0 <= i < |es| ==> fs[i] == Frame(i, S.RecordOf(es[i]))
  {
    seq(|es|, i requires 0 <= i < |es| => Frame(i, S.RecordOf(es[i])))
  }

  /** An entry list that ForEach can produce for the live map m. */
  predicate Lists(es: seq<E.Entry>, m: Store) {
    S.DistinctKeys(es) && E.MapOf(es) == m
  }

  predicate Migratable(mode: Mode, es: seq<E.Entry>) {
    mode.Sealed? && AllFit(mode, Numbered(es))
  }

  lemma {:induction false} NumberedMax(es: seq<E.Entry>)
    ensures MaxCtr(Numbered(es)) == if es == [] then 0 else |es| - 1
  {
    if es != [] {
      NumberedMax(es[..|es| - 1]);
      assert Numbered(es)[..|es| - 1] == Numbered(es[..|es| - 1]);
    }
  }

  /** Executing the migrated log from empty gives back the listed map. */
  lemma {:induction false} NumberedLive(es: seq<E.Entry>)
    requires forall i :: 0 <= i < |es| ==> es[i].exp != TOMBSTONE
    ensures Live(Recs(Numbered(es))) == E.MapOf(es)
  {
    if es != [] {
      NumberedLive(es[..|es| - 1]);
      assert Recs(Numbered(es))[..|es| - 1] == Recs(Numbered(es[..|es| - 1]));
    }
  }

  /** Deadlines in the live map are deadlines of the log. */
  lemma {:induction false} LiveDeadlines(rs: seq<Record>, now: int)
    requires NoneExpired(rs, now)
    ensures forall k :: k in Live(rs) ==>
              Live(rs)[k].exp != TOMBSTONE && (Live(rs)[k].exp == 0 || now < Live(rs)[k].exp)
  {
    if rs != [] {
      assert Effective(rs[|rs| - 1], now);
      LiveDeadlines(rs[..|rs| - 1], now);
    }
  }

  lemma {:induction false} EntryInMap(es: seq<E.Entry>, i: nat)
    requires S.DistinctKeys(es) && i < |es|
    ensures Lookup(E.MapOf(es), es[i].key) == Some(Item(es[i].value, es[i].exp))
  {
    if i < |es| - 1 {
      EntryInMap(es[..|es| - 1], i);
      assert es[..|es| - 1][i] == es[i];
    }
  }

  // ----- Crashes -----

  /** The shard's files that outlive a crash; a leftover temporary file is overwritten by the next try. */
  datatype Disk = Disk(wal: seq<byte>, sidecar: nat)

  /**
   How far one start-up under a key got on disk. A new file's magic is not synced, so any prefix
   of it may survive, with the counter saved or not.
   */
  datatype Progress = Untouched | TornMagic(kept: nat, saved: bool) | Trimmed | Renamed | Finished

  /** es is what ForEach lists, in whatever order the map yields it. */
  datatype Try = Try(now: int, es: seq<E.Entry>, progress: Progress)

  /** Too short to hold a magic: OpenShard refuses it and nothing changes any more. */
  predicate Stuck(d: Disk) { 0 < |d.wal| < |MAGIC| }

  /**
   One start-up. A plaintext log is replayed, cut back to its whole records and
   migrated; an encrypted log is opened as it is, which persists the counter.
   */
  function Attempt(mode: Mode, d: Disk, t: Try): Disk
    requires Migratable(mode, t.es)
  {
    if Stuck(d) then d
    else if d.wal == [] then
      // OpenShard starts an encrypted file.
      match t.progress
      case Untouched => d
      case TornMagic(kept, saved) => Disk(Take(MAGIC, kept), if saved then ReopenCtr(0, d.sidecar) else d.sidecar)
      case Finished => Disk(MAGIC, ReopenCtr(0, d.sidecar))
      case _ => Disk(MAGIC, d.sidecar)
    else if d.wal[..|MAGIC|] == MAGIC then
      // The counter is saved before the tail is cut.
      var scan := ScanLog(mode, d.wal[|MAGIC|..]);
      match t.progress
      case Untouched => d
      case TornMagic(_, _) => d
      case Finished => Disk(d.wal[..|MAGIC| + scan.offset], ReopenCtr(scan.maxCtr, d.sidecar))
      case _ => Disk(d.wal, ReopenCtr(scan.maxCtr, d.sidecar))
    else
      match t.progress
      case Untouched => d
      case TornMagic(_, _) => d
      case Trimmed => Disk(d.wal[..ScanLog(Plain, d.wal).offset], d.sidecar)
      case Renamed => Disk(FileBytes(mode, Numbered(t.es)), d.sidecar)
      case Finished => Disk(FileBytes(mode, Numbered(t.es)), |t.es|)
  }

  /** The map a start-up at now recovers from what is on disk. */
  function Recovers(mode: Mode, wal: seq<byte>, now: int): Store {
    if |wal| >= 4 && wal[..4] == MAGIC
    then ReplayAll(map[], Recs(ScanLog(mode, wal[4..]).frames), now)
    else ReplayAll(map[], Recs(ScanLog(Plain, wal).frames), now)
  }

  /** The disk while a plaintext log with history fs is being migrated. */
  ghost predicate Migrating(mode: Mode, d: Disk, fs: seq<Frame>) {
    || PlainLog(d, fs)
    || exists es :: SealedLog(mode, d, fs, es)
  }

  ghost predicate PlainLog(d: Disk, fs: seq<Frame>) {
    && AllFit(Plain, fs) && LogBytes(Plain, fs) <= d.wal && ScanLog(Plain, d.wal).frames == fs
    && ScanLog(Plain, d.wal).offset == |LogBytes(Plain, fs)|
    // Long enough to be opened at all, and not mistaken for an encrypted log.
    && (d.wal == [] || (|d.wal| >= 4 && d.wal[..4] != MAGIC))
  }

  ghost predicate SealedLog(mode: Mode, d: Disk, fs: seq<Frame>, es: seq<E.Entry>) {
    Migratable(mode, es) && Lists(es, Live(Recs(fs))) && d.wal == FileBytes(mode, Numbered(es))
  }

  /** A migrated log opens as the encrypted log it is, whole. */
  lemma SealedScan(mode: Mode, es: seq<E.Entry>)
    requires mode.Valid() && Migratable(mode, es)
    ensures var wal := FileBytes(mode, Numbered(es));
            && |wal| >= 4 && wal[..4] == MAGIC
            && ScanLog(mode, wal[4..]) == Scan(Numbered(es), |wal| - 4, MaxCtr(Numbered(es)))
  {
    hide EncodeFrame, Fits, Numbered;
    var wal := FileBytes(mode, Numbered(es));
    assert wal[4..] == LogBytes(mode, Numbered(es)) + [];
    NextEmpty(mode);
    ScanFrames(mode, Numbered(es), []);
  }

  lemma EmptyBytes()
    ensures LogBytes(Plain, []) == []
  {}

  /** A plaintext log cut back to its whole records is the same plaintext log. */
  lemma CutPlain(d: Disk, fs: seq<Frame>)
    requires PlainLog(d, fs)
    ensures PlainLog(d.(wal := d.wal[..ScanLog(Plain, d.wal).offset]), fs)
  {
    SecondReplay(Plain, d.wal);
    hide LogBytes;
    var cut := d.wal[..ScanLog(Plain, d.wal).offset];
    assert cut == LogBytes(Plain, fs);
    if fs != [] { LogStart(Plain, fs); assert cut[..4] == d.wal[..4]; }
    else { assert cut == [] by { EmptyBytes(); } }
  }

  /** Both forms recover the live map, as long as no logged deadline has passed. */
  lemma MigratingRecovers(mode: Mode, d: Disk, fs: seq<Frame>, now: int)
    requires mode.Valid() && mode.Sealed? && Migrating(mode, d, fs) && NoneExpired(Recs(fs), now)
    ensures Recovers(mode, d.wal, now) == Live(Recs(fs))
  {
    hide Numbered, EncodeFrame, Fits, ScanLog;
    if PlainLog(d, fs) {
      ReplayIsLive(Recs(fs), now);
    } else {
      var es :| SealedLog(mode, d, fs, es);
      SealedScan(mode, es);
      SealedIsLive(fs, es, now);
    }
  }

  lemma SealedIsLive(fs: seq<Frame>, es: seq<E.Entry>, now: int)
    requires Lists(es, Live(Recs(fs))) && NoneExpired(Recs(fs), now)
    ensures ReplayAll(map[], Recs(Numbered(es)), now) == Live(Recs(fs))
  {
    LiveDeadlines(Recs(fs), now);
    forall i | 0 <= i < |es| ensures es[i].exp != TOMBSTONE && Effective(Recs(Numbered(es))[i], now) {
      EntryInMap(es, i);
    }
    NumberedLive(es);
    ReplayIsLive(Recs(Numbered(es)), now);
  }

  /** With no record in the log there is nothing to list and the migrated log is empty. */
  lemma NothingListed(mode: Mode, fs: seq<Frame>, es: seq<E.Entry>)
    requires PlainLog(Disk([], 0), fs) && Migratable(mode, es) && Lists(es, Live(Recs(fs)))
    ensures es == [] && FileBytes(mode, Numbered(es)) == MAGIC
  {
    if es != [] { EntryInMap(es, 0); }
  }

  /** The disk holds the history in one form or the other, or nothing was ever logged and a magic tore. */
  ghost predicate Sound(mode: Mode, d: Disk, fs: seq<Frame>) {
    if Stuck(d) then fs == [] && d.wal < MAGIC else Migrating(mode, d, fs)
  }

  lemma AttemptKeeps(mode: Mode, d: Disk, fs: seq<Frame>, t: Try)
    requires mode.Valid() && Migratable(mode, t.es) && Sound(mode, d, fs)
    requires !Stuck(d) ==> Lists(t.es, Live(Recs(fs)))
    ensures Sound(mode, Attempt(mode, d, t), fs)
    ensures t.progress.Finished? && !Stuck(d) ==>
              exists es :: SealedLog(mode, Attempt(mode, d, t), fs, es) && Attempt(mode, d, t).sidecar >= |es|
  {
    hide Attempt, Lists, PlainLog, SealedLog, Migratable;
    if Stuck(d) {
      StuckAttempt(mode, d, t);
    } else if PlainLog(d, fs) {
      PlainAttempt(mode, d, fs, t);
    } else {
      var es :| SealedLog(mode, d, fs, es);
      SealedAttempt(mode, d, fs, es, t);
    }
  }

  lemma StuckAttempt(mode: Mode, d: Disk, t: Try)
    requires Migratable(mode, t.es) && Stuck(d)
    ensures Attempt(mode, d, t) == d
  {}

  lemma SealedAttempt(mode: Mode, d: Disk, fs: seq<Frame>, es: seq<E.Entry>, t: Try)
    requires mode.Valid() && Migratable(mode, t.es) && SealedLog(mode, d, fs, es)
    ensures SealedLog(mode, Attempt(mode, d, t), fs, es) && !Stuck(Attempt(mode, d, t))
    ensures t.progress.Finished? ==> Attempt(mode, d, t).sidecar >= |es|
  {
    hide Numbered, EncodeFrame, Fits, ScanLog, Lists, LogBytes, Recs, Live, AllFit;
    SealedScan(mode, es);
    NumberedMax(es);
    assert d.wal[..|d.wal|] == d.wal;
  }

  lemma PlainAttempt(mode: Mode, d: Disk, fs: seq<Frame>, t: Try)
    requires mode.Valid() && Migratable(mode, t.es) && PlainLog(d, fs) && Lists(t.es, Live(Recs(fs)))
    ensures Sound(mode, Attempt(mode, d, t), fs)
    ensures t.progress.Finished?
            ==> SealedLog(mode, Attempt(mode, d, t), fs, t.es) && Attempt(mode, d, t).sidecar >= |t.es|
  {
    hide Numbered, EncodeFrame, Fits, ScanLog, LogBytes, E.MapOf, Live;
    var d' := Attempt(mode, d, t);
    CutPlain(d, fs);
    if d.wal == [] {
      NothingListed(mode, fs, t.es);
      NothingLogged(fs);
      if d'.wal == [] { assert PlainLog(d', fs); }
      else if |d'.wal| < 4 { assert Stuck(d'); }
      else { assert d'.wal == MAGIC && SealedLog(mode, d', fs, t.es); }
    } else if t.progress.Renamed? || t.progress.Finished? {
      assert SealedLog(mode, d', fs, t.es);
    }
  }

  lemma NothingLogged(fs: seq<Frame>)
    requires AllFit(Plain, fs) && LogBytes(Plain, fs) == []
    ensures fs == []
  {
    EmptyLog(Plain, fs);
  }

  predicate AllMigratable(mode: Mode, ts: seq<Try>) { forall i :: 0 <= i < |ts| ==> Migratable(mode, ts[i].es) }

  function AfterTries(mode: Mode, d: Disk, ts: seq<Try>): Disk
    requires AllMigratable(mode, ts)
  {
    if ts == [] then d else Attempt(mode, AfterTries(mode, d, ts[..|ts| - 1]), ts[|ts| - 1])
  }

  /**
   What each start-up does of itself: no logged deadline has passed at its time, and what it
   writes is what ForEach lists of the engine it rebuilt from the disk it found.
   */
  predicate TriesOk(mode: Mode, d: Disk, fs: seq<Frame>, ts: seq<Try>) {
    ts == [] ||
    (var init, t := ts[..|ts| - 1], ts[|ts| - 1];
     && TriesOk(mode, d, fs, init) && AllMigratable(mode, ts) && NoneExpired(Recs(fs), t.now)
     && var found := AfterTries(mode, d, init);
        (!Stuck(found) ==> Lists(t.es, VisibleAt(Recovers(mode, found.wal, t.now), t.now))))
  }

  /** A start-up that finds the history lists exactly the live map. */
  lemma ListsLive(mode: Mode, d: Disk, fs: seq<Frame>, t: Try)
    requires mode.Valid() && mode.Sealed? && Migrating(mode, d, fs) && NoneExpired(Recs(fs), t.now)
    requires Lists(t.es, VisibleAt(Recovers(mode, d.wal, t.now), t.now))
    ensures Lists(t.es, Live(Recs(fs)))
  {
    hide Migrating, Recovers, Live, Recs, E.MapOf;
    MigratingRecovers(mode, d, fs, t.now);
    LiveDeadlines(Recs(fs), t.now);
    assert VisibleAt(Live(Recs(fs)), t.now) == Live(Recs(fs));
  }

  lemma {:induction false} TriesKeep(mode: Mode, d: Disk, fs: seq<Frame>, ts: seq<Try>)
    requires mode.Valid() && mode.Sealed? && PlainLog(d, fs) && TriesOk(mode, d, fs, ts)
    ensures AllMigratable(mode, ts) && Sound(mode, AfterTries(mode, d, ts), fs)
  {
    hide Migratable, PlainLog, SealedLog, Recovers, Attempt, Lists, VisibleAt;
    if ts == [] {
      assert Sound(mode, d, fs) by { PlainSound(mode, d, fs); }
    } else {
      var init, t := ts[..|ts| - 1], ts[|ts| - 1];
      TriesKeep(mode, d, fs, init);
      var found := AfterTries(mode, d, init);
      if !Stuck(found) { ListsLive(mode, found, fs, t); }
      AttemptKeeps(mode, found, fs, t);
    }
  }

  lemma PlainSound(mode: Mode, d: Disk, fs: seq<Frame>)
    requires PlainLog(d, fs)
    ensures Sound(mode, d, fs)
  {}

  /**
   Migration is crash-atomic. Starting from a plaintext log with any torn tail, after any
   number of start-ups that each crashed anywhere, the log path holds a whole plaintext
   or a whole encrypted log of the same history, and recovers the same live map. The one
   exception is a log that never held a record: a start-up that finds it empty writes a new
   magic, which may tear.
   */
  lemma MigrationIsAtomic(mode: Mode, d: Disk, fs: seq<Frame>, ts: seq<Try>, now: int)
    requires mode.Valid() && mode.Sealed? && PlainLog(d, fs) && TriesOk(mode, d, fs, ts) && NoneExpired(Recs(fs), now)
    ensures AllMigratable(mode, ts)
    ensures var end := AfterTries(mode, d, ts);
            if Stuck(end) then fs == [] && end.wal < MAGIC
            else Migrating(mode, end, fs) && Recovers(mode, end.wal, now) == Live(Recs(fs))
  {
    hide PlainLog, TriesOk, Migrating, Recovers, Live;
    TriesKeep(mode, d, fs, ts);
    if !Stuck(AfterTries(mode, d, ts)) { MigratingRecovers(mode, AfterTries(mode, d, ts), fs, now); }
  }

  /**
   A start-up that opens the log and runs to the end converges: the log is encrypted, holds the
   live map, and the persisted counter is above every record in it.
   */
  lemma MigrationConverges(mode: Mode, d: Disk, fs: seq<Frame>, ts: seq<Try>, last: Try)
    requires mode.Valid() && mode.Sealed? && PlainLog(d, fs) && TriesOk(mode, d, fs, ts + [last])
    requires last.progress.Finished? && AllMigratable(mode, ts) && !Stuck(AfterTries(mode, d, ts))
    ensures AllMigratable(mode, ts + [last])
    ensures var end := AfterTries(mode, d, ts + [last]);
            exists es :: SealedLog(mode, end, fs, es) && forall i :: 0 <= i < |es| ==> Numbered(es)[i].ctr < end.sidecar
  {
    hide PlainLog, Recovers, Live, Attempt, Lists, VisibleAt, Migratable;
    var all := ts + [last];
    assert all[..|all| - 1] == ts && all[|all| - 1] == last;
    TriesKeep(mode, d, fs, ts);
    ListsLive(mode, AfterTries(mode, d, ts), fs, last);
    AttemptKeeps(mode, AfterTries(mode, d, ts), fs, last);
    var es :| SealedLog(mode, AfterTries(mode, d, all), fs, es) && AfterTries(mode, d, all).sidecar >= |es|;
  }

  /** The exception happens, and lasts: after a torn magic no start-up changes the disk. */
  lemma TornMagicSticks(mode: Mode, kept: nat, saved: bool, t: Try, sidecar: nat)
    requires mode.Sealed? && 0 < kept < 4 && Migratable(mode, t.es)
    ensures var torn := Attempt(mode, Disk([], sidecar), Try(t.now, t.es, TornMagic(kept, saved)));
            Stuck(torn) && Attempt(mode, torn, t) == torn
  {}

  // ----- With a snapshot beside the log -----

  /**
   A snapshot keeps the fingerprint it was written under: after the migration the shard loads
   again if and only if there is none or a later Snapshot has replaced the plaintext one.
   */
  lemma SnapshotBlocksMigratedShard(env: Env, es: seq<E.Entry>, created: nat, fp: seq<byte>, rs: seq<Record>, now: int)
    requires env.Valid() && S.Writable(es) && |fp| == S.FINGERPRINT
    ensures Load(env, None, rs, now).Some?
    ensures Load(env, Some(S.Render(es, created, fp, env.hash)), rs, now).Some? <==> fp == env.fp
  {
    S.RoundTrip(es, created, fp, env.fp, env.hash);
  }
}
