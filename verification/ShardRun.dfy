/**
 One shard over whole runs: open, append (log first, then apply), snapshot, truncate,
 close, and a crash between any two file operations (internal/shard/runner.go and
 internal/persistence/persistence.go). A crash keeps everything synced and any byte
 prefix of what was written since; renames are atomic.
 */
module ShardRun {
  import opened Bytes
  import opened Wal
  import opened Replay
  import S = Snapshot
  import E = Engine

  /** What stays fixed over a run: log format, key fingerprint, the snapshot checksum, and where it starts. */
  datatype Env = Env(mode: Mode, fp: seq<byte>, hash: S.Hash, start: State) {
    ghost predicate Valid() { mode.Valid() && |fp| == S.FINGERPRINT }
  }

  /**
   Where the shard is inside an append or a start-up, or that it is down. A crash inside an
   append leaves a frame possibly half written, which stays in the file until a start-up
   has trimmed it.
   */
  datatype Phase =
    | Idle
    | Writing(frame: Frame)
    | Synced(frame: Frame)
    | Opening(torn: Option<Frame>)
    | Down(torn: Option<Frame>)
  {
    /** The file may end in a torn frame. */
    predicate Broken() { Opening? || Down? }
  }

  /**
   wal is on disk for certain, tail is written but not synced. log is the committed
   history still in the file, written every frame that was ever whole in the file, cut
   whether a truncation ever dropped frames.
   */
  datatype State = State(
    wal: seq<byte>, tail: seq<byte>, snap: Option<seq<byte>>, sidecar: nat,
    phase: Phase, ctr: nat, items: Store, now: int,
    log: seq<Frame>, written: seq<Frame>, cut: bool)

  datatype Event =
    | Open
    | Trim
    | Begin(rec: Record)
    | Write(n: nat)
    | Sync
    | Ack
    | Refuse(rec: Record)
    | Rename(es: seq<E.Entry>, created: nat)
    | Persist
    | Truncate(keep: nat)
    | Close
    | Evict(key: Key)
    | Clock(now: int)
    | Crash(n: nat)

  const Fresh: State := State([], [], None, 0, Down(None), 0, map[], 1, [], [], false)

  function Recs(fs: seq<Frame>): (rs: seq<Record>)
    ensures |rs| == |fs| && forall i :: 0 <= i < |fs| ==> rs[i] == fs[i].rec
  {
    seq(|fs|, i requires 0 <= i < |fs| => fs[i].rec)
  }

  // ----- Opening -----

  /** OpenShard and the scan of LoadShard; None when the shard refuses to start. */
  function OpenLog(mode: Mode, wal: seq<byte>): Option<Scan> {
    if wal == [] then Some(Scan([], 0, 0))
    else if |wal| < |MAGIC| then None
    else if mode.Plain? then (if wal[..|MAGIC|] == MAGIC then None else Some(ScanLog(mode, wal)))
    else if wal[..|MAGIC|] == MAGIC then Some(ScanLog(mode, wal[|MAGIC|..])) else None
  }

  /** The counter a reopened encrypted shard continues with (lines 818-823). */
  function ReopenCtr(maxCtr: nat, sidecar: nat): nat { Max(maxCtr + 1, sidecar) }

  /** Loads the snapshot if there is one, then replays on top of it. */
  function Load(env: Env, snap: Option<seq<byte>>, rs: seq<Record>, now: int): Option<Store> {
    match snap
    case None => Some(ReplayAll(map[], rs, now))
    case Some(b) =>
      match S.ReadSnapshot(b, env.fp, env.hash)
      case None => None
      case Some(es) => Some(ReplayAll(S.LoadAll(map[], es, now), rs, now))
  }

  function Opens(env: Env, s: State): bool {
    s.phase.Down? && OpenLog(env.mode, s.wal).Some?
    && Load(env, s.snap, Recs(OpenLog(env.mode, s.wal).value.frames), s.now).Some?
  }

  /** OpenShard and the replay: the engine and the counter are rebuilt, a new file gets its magic. */
  function DoOpen(env: Env, s: State): State
    requires Opens(env, s)
  {
    var scan := OpenLog(env.mode, s.wal).value;
    s.(tail := if s.wal == [] then env.mode.Prefix() else [],
       phase := Opening(s.phase.torn),
       ctr := if env.mode.Plain? then 0 else ReopenCtr(scan.maxCtr, s.sidecar),
       items := Load(env, s.snap, Recs(scan.frames), s.now).value)
  }

  /** finishReplay: what is not a whole record is cut off, and the shard is up. */
  function DoTrim(env: Env, s: State): State
    requires OpenLog(env.mode, s.wal).Some?
  {
    var scan := OpenLog(env.mode, s.wal).value;
    s.(wal := if s.wal == [] then [] else s.wal[..|env.mode.Prefix()| + scan.offset],
       phase := Idle,
       log := scan.frames,
       written := s.written + (if s.log <= scan.frames then scan.frames[|s.log|..] else []))
  }

  // ----- Steps -----

  function NextFrame(env: Env, s: State, rec: Record): Frame {
    Frame(if env.mode.Plain? then 0 else s.ctr, rec)
  }

  predicate Enabled(env: Env, s: State, e: Event) {
    match e
    case Open => Opens(env, s)
    case Trim =>
      // replayWALEncrypted has persisted the counter by then.
      s.phase.Opening? && OpenLog(env.mode, s.wal).Some? && (env.mode.Sealed? ==> s.sidecar == s.ctr)
    case Begin(rec) => s.phase.Idle? && s.ctr < U64 - 1 && Fits(env.mode, NextFrame(env, s, rec))
    case Write(n) =>
      && s.phase.Writing? && Fits(env.mode, s.phase.frame)
      && Handed(env, s) <= n <= |EncodeFrame(env.mode, s.phase.frame)|
    case Sync =>
      && s.phase.Writing? && Fits(env.mode, s.phase.frame)
      && Handed(env, s) == |EncodeFrame(env.mode, s.phase.frame)|
    case Ack => s.phase.Synced?
    case Refuse(rec) => s.phase.Idle? && s.ctr < U64 - 1 && !Fits(env.mode, NextFrame(env, s, rec))
    case Rename(es, created) =>
      // The snapshot holds what ForEach lists, each key once.
      && s.phase.Idle? && S.Writable(es) && S.DistinctKeys(es)
      && E.MapOf(es) == VisibleAt(s.items, s.now) && |env.fp| == S.FINGERPRINT
    case Persist => s.phase.Idle? || s.phase.Opening?
    case Truncate(keep) =>
      // truncateWALLocked has just persisted the counter.
      s.phase.Idle? && keep <= |s.log| && AllFit(env.mode, s.log) && (env.mode.Sealed? ==> s.sidecar == s.ctr)
    case Close => s.phase.Idle?
    case Evict(k) => !s.phase.Down? && k in s.items && !Visible(s.items[k], s.now)
    case Clock(t) => s.now <= t
    case Crash(n) => !s.phase.Down? && n <= |s.tail|
  }

  /** The magic of a file created by this open, which no sync has covered yet. */
  function Pre(env: Env, s: State): seq<byte> { if s.wal == [] then env.mode.Prefix() else [] }

  /** How many bytes of the current frame the file was handed. */
  function Handed(env: Env, s: State): nat {
    if |Pre(env, s)| <= |s.tail| then |s.tail| - |Pre(env, s)| else 0
  }

  function Do(env: Env, s: State, e: Event): State
    requires Enabled(env, s, e)
  {
    match e
    case Open => DoOpen(env, s)
    case Trim => DoTrim(env, s)
    case Begin(rec) =>
      s.(phase := Writing(NextFrame(env, s, rec)), ctr := if env.mode.Plain? then s.ctr else s.ctr + 1)
    case Write(n) =>
      var enc := EncodeFrame(env.mode, s.phase.frame);
      s.(tail := s.tail + enc[Handed(env, s)..n])
    case Sync =>
      s.(wal := s.wal + s.tail, tail := [], phase := Synced(s.phase.frame),
         log := s.log + [s.phase.frame], written := s.written + [s.phase.frame])
    case Ack => s.(phase := Idle, items := Effect(s.items, s.phase.frame.rec))
    case Refuse(_) => s.(ctr := if env.mode.Plain? then s.ctr else s.ctr + 1)
    case Rename(es, created) => s.(snap := Some(S.Render(es, created, env.fp, env.hash)))
    case Persist => s.(sidecar := if env.mode.Plain? then s.sidecar else s.ctr)
    case Truncate(keep) =>
      s.(wal := Take(s.wal + s.tail, |FileBytes(env.mode, s.log[..keep])|), tail := [],
         log := s.log[..keep], cut := s.cut || keep < |s.log|)
    case Close =>
      s.(phase := Down(None), wal := s.wal + s.tail, tail := [],
         sidecar := if env.mode.Plain? then s.sidecar else s.ctr)
    case Evict(k) => s.(items := s.items - {k})
    case Clock(t) => s.(now := t)
    case Crash(n) =>
      s.(wal := s.wal + s.tail[..n], tail := [], phase := Down(TornBy(s.phase)))
  }

  /** The frame a crash in this phase may leave half written. */
  function TornBy(p: Phase): Option<Frame> {
    match p
    case Writing(f) => Some(f)
    case Opening(torn) => torn
    case Down(torn) => torn
    case _ => None
  }

  function Take(b: seq<byte>, n: nat): seq<byte> { if n <= |b| then b[..n] else b }

  /**
   Where a run may start: a new shard, or one with a whole log and no snapshot, down or up, as a
   migration leaves it. Its counter is persisted above every record, and an engine that is up
   shows the log.
   */
  ghost predicate Begun(mode: Mode, s: State) {
    && (s.phase == Down(None) || s.phase == Idle) && s.tail == [] && s.snap.None? && !s.cut && s.written == s.log
    && AllFit(mode, s.log)
    && (s.wal == FileBytes(mode, s.log) != [] || (s.wal == [] && s.log == [] && s.phase.Down?))
    && (mode.Sealed? ==> && (forall i, j :: 0 <= i < j < |s.log| ==> s.log[i].ctr < s.log[j].ctr)
                         && (forall i :: 0 <= i < |s.log| ==> s.log[i].ctr < s.sidecar))
    && (s.phase.Idle? ==> (mode.Sealed? ==> s.ctr == s.sidecar) && s.items == Live(Recs(s.log)))
  }

  ghost predicate Legal(env: Env, es: seq<Event>)
    decreases |es|, 0
  {
    if es == [] then Begun(env.mode, env.start)
    else Legal(env, es[..|es| - 1]) && Enabled(env, After(env, es[..|es| - 1]), es[|es| - 1])
  }

  ghost function After(env: Env, es: seq<Event>): State
    requires Legal(env, es)
    decreases |es|, 1
  {
    if es == [] then env.start else Do(env, After(env, es[..|es| - 1]), es[|es| - 1])
  }

  // ----- The file holds the history -----

  ghost predicate FileOk(env: Env, s: State) {
    && AllFit(env.mode, s.log)
    && var file := FileBytes(env.mode, s.log);
    match s.phase
    case Idle => s.wal + Pre(env, s) == file && s.tail == Pre(env, s)
    case Synced(f) => s.wal + Pre(env, s) == file && s.tail == Pre(env, s) && |s.log| > 0 && s.log[|s.log| - 1] == f
    case Writing(f) =>
      && s.wal + Pre(env, s) == file && Fits(env.mode, f)
      && |Pre(env, s)| <= |s.tail| && Handed(env, s) <= |EncodeFrame(env.mode, f)|
      && s.tail == Pre(env, s) + EncodeFrame(env.mode, f)[..Handed(env, s)]
    case Opening(torn) => CrashedFile(env, s.wal, file, torn) && s.tail == Pre(env, s) && OpenLog(env.mode, s.wal).Some?
    case Down(torn) => CrashedFile(env, s.wal, file, torn)
  }

  /** What a crash leaves of a file: all of it, and a prefix of the frame being written or of a new file's magic. */
  ghost predicate CrashedFile(env: Env, wal: seq<byte>, file: seq<byte>, torn: Option<Frame>) {
    && (torn.Some? ==> Fits(env.mode, torn.value))
    && (if torn.Some? then wal <= file + EncodeFrame(env.mode, torn.value) else wal <= file)
    && (file <= wal || (wal < env.mode.Prefix() && file == env.mode.Prefix()))
  }

  lemma FrameNotEmpty(mode: Mode, f: Frame)
    requires mode.Valid() && Fits(mode, f)
    ensures |EncodeFrame(mode, f)| > 0
  {
    if mode.Sealed? { SealedFrameLayout(mode, f); } else { RecordAtEncode(f.rec, []); }
  }

  lemma EmptyLog(mode: Mode, fs: seq<Frame>)
    requires mode.Valid() && AllFit(mode, fs)
    ensures fs != [] ==> LogBytes(mode, fs) != []
  {
    if fs != [] { FrameNotEmpty(mode, fs[|fs| - 1]); }
  }

  lemma LogSnoc(mode: Mode, fs: seq<Frame>, f: Frame)
    requires AllFit(mode, fs) && Fits(mode, f)
    ensures AllFit(mode, fs + [f])
    ensures FileBytes(mode, fs + [f]) == FileBytes(mode, fs) + EncodeFrame(mode, f)
  {
    hide EncodeFrame, Fits;
    var all := fs + [f];
    assert all[..|all| - 1] == fs;
  }

  /** The history a file with this tail yields: what was committed, plus the torn frame if it is whole. */
  function WithTail(mode: Mode, log: seq<Frame>, torn: Option<Frame>, tail: seq<byte>): seq<Frame>
    requires torn.Some? ==> Fits(mode, torn.value)
  {
    if torn.Some? && tail == EncodeFrame(mode, torn.value) then log + [torn.value] else log
  }

  lemma ScanWithTail(mode: Mode, log: seq<Frame>, torn: Option<Frame>, tail: seq<byte>)
    requires mode.Valid() && AllFit(mode, log) && (torn.Some? ==> Fits(mode, torn.value))
    requires tail <= if torn.Some? then EncodeFrame(mode, torn.value) else []
    ensures var r := WithTail(mode, log, torn, tail);
            && AllFit(mode, r)
            && LogBytes(mode, r) <= LogBytes(mode, log) + tail
            && ScanLog(mode, LogBytes(mode, log) + tail) == Scan(r, |LogBytes(mode, r)|, MaxCtr(r))
  {
    hide EncodeFrame, Fits, ScanLog, Next;
    if torn.None? {
      NextEmpty(mode);
      ScanFrames(mode, log, tail);
    } else {
      var f := torn.value;
      FrameNotEmpty(mode, f);
      if tail == EncodeFrame(mode, f) {
        LogSnoc(mode, log, f);
        assert LogBytes(mode, log) + tail == LogBytes(mode, log + [f]) + [];
        NextEmpty(mode);
        ScanFrames(mode, log + [f], []);
      } else {
        assert tail == EncodeFrame(mode, f)[..|tail|];
        NextTorn(mode, f, |tail|);
        ScanFrames(mode, log, tail);
      }
    }
  }

  ghost predicate HasTail(env: Env, s: State) {
    s.phase.Broken() && AllFit(env.mode, s.log) && (s.phase.torn.Some? ==> Fits(env.mode, s.phase.torn.value))
  }

  function Recovered(env: Env, s: State): seq<Frame>
    requires HasTail(env, s)
  {
    var file := FileBytes(env.mode, s.log);
    if file <= s.wal then WithTail(env.mode, s.log, s.phase.torn, s.wal[|file|..]) else s.log
  }

  /** Scanning whatever a crash left reads exactly the recovered history. */
  lemma DownScan(env: Env, s: State)
    requires env.Valid() && s.phase.Broken() && FileOk(env, s) && OpenLog(env.mode, s.wal).Some?
    ensures HasTail(env, s)
    ensures var r := Recovered(env, s);
            && AllFit(env.mode, r)
            && OpenLog(env.mode, s.wal).value == Scan(r, |LogBytes(env.mode, r)|, MaxCtr(r))
            && (s.wal == [] ==> r == [])
            && (s.wal != [] ==> s.wal[..|env.mode.Prefix()| + |LogBytes(env.mode, r)|] == FileBytes(env.mode, r))
  {
    hide EncodeFrame, Fits, ScanLog, WithTail;
    if s.wal == [] {
      EmptyFile(env, s);
    } else {
      var pre, file := env.mode.Prefix(), FileBytes(env.mode, s.log);
      assert file <= s.wal;
      FileSplit(env, s);
      ScanWithTail(env.mode, s.log, s.phase.torn, s.wal[|file|..]);
      KeptLog(pre, s.wal[|pre|..], LogBytes(env.mode, Recovered(env, s)));
    }
  }

  lemma FileSplit(env: Env, s: State)
    requires AllFit(env.mode, s.log) && FileBytes(env.mode, s.log) <= s.wal
    ensures var pre, file := env.mode.Prefix(), FileBytes(env.mode, s.log);
            && s.wal[|pre|..] == LogBytes(env.mode, s.log) + s.wal[|file|..]
            && s.wal == pre + s.wal[|pre|..]
  {
    hide EncodeFrame, Fits, LogBytes;
    var pre, file := env.mode.Prefix(), FileBytes(env.mode, s.log);
    assert s.wal == file + s.wal[|file|..];
  }

  lemma EmptyFile(env: Env, s: State)
    requires env.Valid() && s.phase.Broken() && FileOk(env, s) && s.wal == []
    ensures HasTail(env, s) && Recovered(env, s) == [] && MaxCtr([]) == 0
  {
    hide EncodeFrame, Fits, WithTail;
    var pre, file := env.mode.Prefix(), FileBytes(env.mode, s.log);
    assert file == pre;
    assert file[|pre|..] == LogBytes(env.mode, s.log);
    EmptyLog(env.mode, s.log);
    NoTail(env, s);
  }

  lemma KeptLog(pre: seq<byte>, rest: seq<byte>, kept: seq<byte>)
    requires kept <= rest
    ensures (pre + rest)[|pre|..] == rest && (pre + rest)[..|pre| + |kept|] == pre + kept
  {}

  lemma NoTail(env: Env, s: State)
    requires env.Valid() && HasTail(env, s) && s.wal == []
    ensures Recovered(env, s) == s.log
  {
    hide EncodeFrame;
    if s.phase.torn.Some? { FrameNotEmpty(env.mode, s.phase.torn.value); }
  }

  lemma OpenFile(env: Env, s: State)
    requires env.Valid() && FileOk(env, s) && Enabled(env, s, Open)
    ensures FileOk(env, Do(env, s, Open)) && HasTail(env, s)
    ensures Do(env, s, Open).log == s.log && Do(env, s, Open).wal == s.wal
    ensures Recovered(env, Do(env, s, Open)) == Recovered(env, s)
  {
    hide EncodeFrame, Fits, ScanLog, Load, WithTail;
    DownScan(env, s);
  }

  lemma TrimFile(env: Env, s: State)
    requires env.Valid() && FileOk(env, s) && Enabled(env, s, Trim)
    ensures FileOk(env, Do(env, s, Trim)) && HasTail(env, s)
    ensures Do(env, s, Trim).log == Recovered(env, s)
  {
    hide EncodeFrame, Fits, ScanLog, Load, WithTail, Recovered, OpenLog, LogBytes, FileBytes, CrashedFile, AllFit;
    DownScan(env, s);
    NoRecords(env.mode);
    var t := Do(env, s, Trim);
    if s.wal == [] {
      assert t.wal + env.mode.Prefix() == env.mode.Prefix();
    } else {
      assert t.wal == FileBytes(env.mode, Recovered(env, s)) && t.wal + [] == t.wal;
      StartsWithPrefix(env.mode, Recovered(env, s));
    }
  }

  lemma StartsWithPrefix(mode: Mode, fs: seq<Frame>)
    requires AllFit(mode, fs)
    ensures |FileBytes(mode, fs)| >= |mode.Prefix()|
  {}

  lemma NoRecords(mode: Mode)
    ensures FileBytes(mode, []) == mode.Prefix()
  {}

  lemma WriteFile(env: Env, s: State, n: nat)
    requires env.Valid() && FileOk(env, s) && Enabled(env, s, Write(n))
    ensures FileOk(env, Do(env, s, Write(n)))
  {
    hide EncodeFrame, Fits, FileBytes;
    var enc := EncodeFrame(env.mode, s.phase.frame);
    assert enc[..Handed(env, s)] + enc[Handed(env, s)..n] == enc[..n];
    assert Do(env, s, Write(n)).tail == Pre(env, s) + enc[..n];
  }

  lemma QuietFile(env: Env, s: State, e: Event)
    requires env.Valid() && FileOk(env, s) && Enabled(env, s, e)
    requires e.Begin? || e.Ack? || e.Refuse? || e.Rename? || e.Persist? || e.Evict? || e.Clock? || e.Close?
    ensures FileOk(env, Do(env, s, e))
  {
    hide EncodeFrame, Fits, FileBytes, S.Render, S.Writable, S.DistinctKeys;
  }

  lemma TruncateFile(env: Env, s: State, keep: nat)
    requires env.Valid() && FileOk(env, s) && Enabled(env, s, Truncate(keep))
    ensures FileOk(env, Do(env, s, Truncate(keep)))
  {
    hide EncodeFrame, Fits;
    LogPrefix(env.mode, s.log, keep);
    assert s.wal + s.tail == FileBytes(env.mode, s.log);
  }

  lemma SyncFile(env: Env, s: State)
    requires env.Valid() && FileOk(env, s) && Enabled(env, s, Sync)
    ensures FileOk(env, Do(env, s, Sync))
  {
    hide EncodeFrame, Fits;
    var enc := EncodeFrame(env.mode, s.phase.frame);
    assert enc[..|enc|] == enc;
    LogSnoc(env.mode, s.log, s.phase.frame);
    FrameNotEmpty(env.mode, s.phase.frame);
    assert s.wal + s.tail == FileBytes(env.mode, s.log) + enc;
  }

  lemma {:induction false} LogPrefix(mode: Mode, fs: seq<Frame>, keep: nat)
    requires AllFit(mode, fs) && keep <= |fs|
    ensures FileBytes(mode, fs[..keep]) <= FileBytes(mode, fs)
  {
    hide EncodeFrame, Fits;
    if keep == |fs| {
      assert fs[..keep] == fs;
    } else {
      LogPrefix(mode, fs[..|fs| - 1], keep);
      assert fs[..|fs| - 1][..keep] == fs[..keep];
      LogSnoc(mode, fs[..|fs| - 1], fs[|fs| - 1]);
      assert fs[..|fs| - 1] + [fs[|fs| - 1]] == fs;
    }
  }

  lemma CrashFile(env: Env, s: State, n: nat)
    requires env.Valid() && FileOk(env, s) && Enabled(env, s, Crash(n))
    ensures FileOk(env, Do(env, s, Crash(n)))
  {
    hide EncodeFrame, Fits, FileBytes, OpenLog, AllFit;
    var file, pre := FileBytes(env.mode, s.log), Pre(env, s);
    var body := s.tail[|pre|..];
    assert s.tail == pre + body;
    if s.phase.Writing? {
      CrashUp(s.wal, pre, body, EncodeFrame(env.mode, s.phase.frame), n);
    } else if s.phase.Opening? {
      if s.wal == [] { CrashNew(env, s, n); } else { assert s.wal + s.tail[..n] == s.wal; }
    } else {
      CrashUp(s.wal, pre, body, [], n);
      assert file + [] == file;
    }
  }

  /** A crash while the file is whole up to the frame being written. */
  lemma CrashUp(wal: seq<byte>, pre: seq<byte>, body: seq<byte>, enc: seq<byte>, n: nat)
    requires body <= enc && n <= |pre + body| && (wal != [] ==> pre == [])
    ensures var kept, file := wal + (pre + body)[..n], wal + pre;
            kept <= file + enc && (file <= kept || (kept < pre && file == pre))
  {
    KeptPrefix(wal, pre, body, n);
    assert wal + pre + body <= wal + pre + enc;
  }

  /** A crash while a new file gets its magic. */
  lemma CrashNew(env: Env, s: State, n: nat)
    requires env.Valid() && FileOk(env, s) && s.phase.Opening? && s.wal == [] && n <= |s.tail|
    ensures FileBytes(env.mode, s.log) == env.mode.Prefix() == s.tail
    ensures [] + s.tail[..n] == s.tail[..n]
  {
    hide EncodeFrame, Fits, OpenLog;
    EmptyFile(env, s);
    var file := FileBytes(env.mode, s.log);
    assert file <= s.wal || file == env.mode.Prefix();
    if file <= s.wal { assert file == []; }
  }

  /** A crash keeps a prefix of what was written, and all of the synced part. */
  lemma KeptPrefix(wal: seq<byte>, pre: seq<byte>, body: seq<byte>, n: nat)
    requires n <= |pre + body|
    ensures var kept := wal + (pre + body)[..n];
            && kept <= (wal + pre) + body
            && (n >= |pre| ==> wal + pre <= kept)
            && (wal == [] && n < |pre| ==> kept < pre)
  {
    var kept := wal + (pre + body)[..n];
    assert (wal + pre) + body == wal + (pre + body);
    if n < |pre| { assert (pre + body)[..n] == pre[..n]; }
    else { assert (pre + body)[..n] == pre + body[..n - |pre|]; }
  }

  lemma FileStep(env: Env, s: State, e: Event)
    requires env.Valid() && FileOk(env, s) && Enabled(env, s, e)
    ensures FileOk(env, Do(env, s, e))
  {
    hide FileOk, Enabled, Do;
    match e
    case Open => OpenFile(env, s);
    case Trim => TrimFile(env, s);
    case Write(n) => WriteFile(env, s, n);
    case Sync => SyncFile(env, s);
    case Truncate(keep) => TruncateFile(env, s, keep);
    case Crash(n) => CrashFile(env, s, n);
    case _ => QuietFile(env, s, e);
  }
}
