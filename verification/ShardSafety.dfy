/** What every run of a shard keeps: acknowledged writes, recovered maps and nonce counters. */
module ShardSafety {
  import opened Bytes
  import opened Wal
  import opened Replay
  import opened ShardRun
  import S = Snapshot
  import E = Engine

  // ----- Nonce counters -----

  predicate Below(fs: seq<Frame>, b: nat) { forall i :: 0 <= i < |fs| ==> fs[i].ctr < b }

  predicate Increasing(fs: seq<Frame>) { forall i, j :: 0 <= i < j < |fs| ==> fs[i].ctr < fs[j].ctr }

  /** The first counter that no frame ever written carries. */
  function Bound(s: State): nat {
    match s.phase
    case Writing(f) => f.ctr
    case Idle => s.ctr
    case Synced(_) => s.ctr
    case _ => if s.phase.torn.Some? then s.phase.torn.value.ctr else ReopenCtr(MaxCtr(s.log), s.sidecar)
  }

  ghost predicate CountersOk(env: Env, s: State) {
    && Increasing(s.written) && Increasing(s.log)
    && Below(s.written, Bound(s)) && Below(s.log, Bound(s))
    // What a crash at this point would still be able to tell from the file and the sidecar.
    && Below(s.written, ReopenCtr(MaxCtr(s.log), s.sidecar))
    && (s.phase.Writing? ==> s.ctr == s.phase.frame.ctr + 1)
    && (s.phase.Opening? && OpenLog(env.mode, s.wal).Some? ==>
          s.ctr == ReopenCtr(OpenLog(env.mode, s.wal).value.maxCtr, s.sidecar))
  }

  lemma {:induction false} BelowMax(fs: seq<Frame>)
    ensures Below(fs, MaxCtr(fs) + 1)
  {
    if fs != [] { BelowMax(fs[..|fs| - 1]); }
  }

  lemma MaxSnoc(fs: seq<Frame>, f: Frame)
    ensures MaxCtr(fs + [f]) == Max(MaxCtr(fs), f.ctr)
  {
    assert (fs + [f])[..|fs|] == fs;
  }

  lemma SyncCounters(env: Env, s: State)
    requires CountersOk(env, s) && Enabled(env, s, Sync)
    ensures CountersOk(env, Do(env, s, Sync))
  {
    hide EncodeFrame, Fits, Increasing, MaxCtr;
    MaxSnoc(s.log, s.phase.frame);
    Grow(s.log, s.phase.frame);
    Grow(s.written, s.phase.frame);
  }

  /** Trimming: the counter recovered at Open is above everything, the recovered frame included. */
  lemma TrimCounters(env: Env, s: State)
    requires env.Valid() && env.mode.Sealed? && FileOk(env, s) && CountersOk(env, s) && Enabled(env, s, Trim)
    ensures CountersOk(env, Do(env, s, Trim))
  {
    hide EncodeFrame, Fits, ScanLog, Load, WithTail, FileOk, Increasing, MaxCtr, Below, Recovered;
    DownScan(env, s);
    RecoveredShape(env, s);
    var r, t := Recovered(env, s), Do(env, s, Trim);
    BelowMax(r);
    if r != s.log {
      var f := s.phase.torn.value;
      assert r[|s.log|..] == [f];
      MaxSnoc(s.log, f);
      Grow(s.written, f);
      Grow(s.log, f);
      Raise(t.written, f.ctr + 1, t.ctr);
    } else {
      assert r[|s.log|..] == [];
      assert t.written == s.written;
      Raise(s.written, ReopenCtr(MaxCtr(s.log), s.sidecar), t.ctr);
    }
    Raise(r, MaxCtr(r) + 1, t.ctr);
  }

  lemma Raise(fs: seq<Frame>, b: nat, c: nat)
    requires Below(fs, b) && b <= c
    ensures Below(fs, c)
  {}

  lemma RecoveredShape(env: Env, s: State)
    requires HasTail(env, s)
    ensures var r := Recovered(env, s);
            s.log <= r && (r == s.log || (s.phase.torn.Some? && r == s.log + [s.phase.torn.value]))
  {
    hide EncodeFrame, Fits;
  }

  lemma Grow(fs: seq<Frame>, f: Frame)
    requires Increasing(fs) && Below(fs, f.ctr)
    ensures Increasing(fs + [f]) && Below(fs + [f], f.ctr + 1)
  {}

  /** Between Open and Trim nothing on disk moves but the sidecar, and only upwards. */
  lemma OpenCounters(env: Env, s: State)
    requires env.Valid() && env.mode.Sealed? && CountersOk(env, s) && Enabled(env, s, Open)
    ensures CountersOk(env, Do(env, s, Open))
  {
    hide EncodeFrame, Fits, ScanLog, Load, Increasing, MaxCtr, Below;
  }

  lemma PersistCounters(env: Env, s: State)
    requires env.Valid() && env.mode.Sealed? && FileOk(env, s) && CountersOk(env, s) && Enabled(env, s, Persist)
    ensures CountersOk(env, Do(env, s, Persist))
  {
    hide EncodeFrame, Fits, ScanLog, Load, FileOk, Increasing, MaxCtr, Below, Recovered;
    var t := Do(env, s, Persist);
    BelowMax(s.log);
    if s.phase.Opening? {
      OpensInOpening(env, s);
      var b := ReopenCtr(MaxCtr(s.log), s.sidecar);
      Raise(s.written, b, ReopenCtr(MaxCtr(t.log), t.sidecar));
      if s.phase.torn.None? { Raise(s.log, b, ReopenCtr(MaxCtr(t.log), t.sidecar)); }
    } else {
      Raise(s.written, s.ctr, ReopenCtr(MaxCtr(t.log), t.sidecar));
    }
  }

  lemma OpensInOpening(env: Env, s: State)
    requires FileOk(env, s) && s.phase.Opening?
    ensures OpenLog(env.mode, s.wal).Some?
  {}

  /** A crash or a close keeps what the file and the sidecar tell. */
  lemma DownCounters(env: Env, s: State, e: Event)
    requires env.Valid() && env.mode.Sealed? && CountersOk(env, s) && Enabled(env, s, e) && (e.Crash? || e.Close?)
    ensures CountersOk(env, Do(env, s, e))
  {
    hide EncodeFrame, Fits, ScanLog, Increasing, MaxCtr, Below;
    BelowMax(s.log);
    var t := Do(env, s, e);
    Raise(s.log, MaxCtr(s.log) + 1, ReopenCtr(MaxCtr(t.log), t.sidecar));
    if e.Close? { Raise(s.written, s.ctr, ReopenCtr(MaxCtr(t.log), t.sidecar)); }
  }

  lemma CountersStep(env: Env, s: State, e: Event)
    requires env.Valid() && env.mode.Sealed? && FileOk(env, s) && CountersOk(env, s) && Enabled(env, s, e)
    ensures CountersOk(env, Do(env, s, e))
  {
    hide EncodeFrame, Fits, FileOk, FileBytes, S.Render, Effect, Increasing, MaxCtr, DoOpen, DoTrim, Opens, AllFit;
    hide S.Writable, S.DistinctKeys, E.MapOf, VisibleAt, OpenLog;
    match e
    case Open => OpenCounters(env, s);
    case Trim => TrimCounters(env, s);
    case Sync => SyncCounters(env, s);
    case Persist => PersistCounters(env, s);
    case Close => DownCounters(env, s, e);
    case Crash(_) => DownCounters(env, s, e);
    case Truncate(keep) => CutCounters(s.log, keep, s.ctr);
    case _ =>
  }

  lemma CutCounters(fs: seq<Frame>, keep: nat, bound: nat)
    requires keep <= |fs| && Increasing(fs) && Below(fs, bound)
    ensures Increasing(fs[..keep]) && Below(fs[..keep], bound)
  {}

  // ----- The engine and the snapshot come from the history -----

  ghost predicate SnapOk(env: Env, s: State) {
    s.snap.Some? ==>
      exists es, created :: SnapIs(env, s.snap.value, es, created) && (!s.cut ==> Justified(E.MapOf(es), Recs(s.log)))
  }

  ghost predicate SnapIs(env: Env, b: seq<byte>, es: seq<E.Entry>, created: nat) {
    |env.fp| == S.FINGERPRINT && S.Writable(es) && S.DistinctKeys(es) && b == S.Render(es, created, env.fp, env.hash)
  }

  /** The frames the engine was rebuilt from: during a start-up, those the file scans as. */
  function Source(env: Env, s: State): seq<Frame> {
    if s.phase.Opening? && OpenLog(env.mode, s.wal).Some? then OpenLog(env.mode, s.wal).value.frames else s.log
  }

  ghost predicate ItemsOk(env: Env, s: State) {
    !s.cut && !s.phase.Down? ==> Justified(s.items, Recs(Source(env, s)))
  }

  lemma JustifiedMore(m: Store, fs: seq<Frame>, gs: seq<Frame>)
    requires Justified(m, Recs(fs)) && fs <= gs
    ensures Justified(m, Recs(gs))
  {
    assert Recs(fs) <= Recs(gs);
    JustifiedLonger(m, Recs(fs), Recs(gs));
  }

  lemma JustifiedSub(m: Store, m': Store, rs: seq<Record>)
    requires Justified(m, rs) && forall k :: k in m' ==> k in m && m'[k] == m[k]
    ensures Justified(m', rs)
  {}

  lemma JustifiedEffect(m: Store, rs: seq<Record>, r: Record)
    requires Justified(m, rs) && |rs| > 0 && rs[|rs| - 1] == r
    ensures Justified(Effect(m, r), rs)
  {
    forall k | k in Effect(m, r)
      ensures exists i :: 0 <= i < |rs| && rs[i] == Record(k, Effect(m, r)[k].value, Effect(m, r)[k].exp) &&
                rs[i].ttl != TOMBSTONE
    {
      if k == r.key { assert rs[|rs| - 1].ttl != TOMBSTONE; }
    }
  }

  lemma JustifiedReplay(rs: seq<Record>, now: int)
    ensures Justified(ReplayAll(map[], rs, now), rs)
  {
    var m := ReplayAll(map[], rs, now);
    forall k | k in m
      ensures exists i :: 0 <= i < |rs| && rs[i] == Record(k, m[k].value, m[k].exp) && rs[i].ttl != TOMBSTONE
    {
      LastWriter(map[], rs, k, now);
      var i := LastEffective(rs, k, now);
      assert Lookup(m, k) == Some(m[k]);
      assert rs[i] == Record(k, m[k].value, m[k].exp);
    }
  }

  lemma {:induction false} JustifiedLive(rs: seq<Record>)
    ensures Justified(Live(rs), rs)
  {
    if rs != [] {
      var init := rs[..|rs| - 1];
      JustifiedLive(init);
      JustifiedLonger(Live(init), init, rs);
      JustifiedEffect(Live(init), rs, rs[|rs| - 1]);
    }
  }

  lemma JustifiedLonger(m: Store, rs: seq<Record>, more: seq<Record>)
    requires Justified(m, rs) && rs <= more
    ensures Justified(m, more)
  {
    forall k | k in m
      ensures exists i :: 0 <= i < |more| && more[i] == Record(k, m[k].value, m[k].exp) && more[i].ttl != TOMBSTONE
    {
      var i :| 0 <= i < |rs| && rs[i] == Record(k, m[k].value, m[k].exp) && rs[i].ttl != TOMBSTONE;
      assert more[i] == rs[i];
    }
  }

  /**
   Loading a shard, with whatever snapshot its runs left behind, gives the replay of the
   whole history from empty.
   */
  lemma LoadIsReplay(env: Env, s: State, log: seq<Frame>, now: int)
    requires env.Valid() && SnapOk(env, s) && !s.cut && s.log <= log
    ensures Load(env, s.snap, Recs(log), now) == Some(ReplayAll(map[], Recs(log), now))
  {
    if s.snap.Some? {
      var es, created :| SnapIs(env, s.snap.value, es, created) && Justified(E.MapOf(es), Recs(s.log));
      S.RoundTrip(es, created, env.fp, env.fp, env.hash);
      S.LoadRestores(es, now);
      JustifiedMore(E.MapOf(es), s.log, log);
      SnapshotUnderWholeLog(E.MapOf(es), Recs(log), now);
    }
  }

  lemma SnapGrows(env: Env, s: State, t: State)
    requires SnapOk(env, s) && t.snap == s.snap && s.log <= t.log && (!t.cut ==> !s.cut)
    ensures SnapOk(env, t)
  {
    hide SnapIs, Justified;
    if s.snap.Some? {
      var es, created :| SnapIs(env, s.snap.value, es, created) && (!s.cut ==> Justified(E.MapOf(es), Recs(s.log)));
      if !s.cut { JustifiedMore(E.MapOf(es), s.log, t.log); }
    }
  }

  lemma SnapCut(env: Env, s: State, t: State)
    requires SnapOk(env, s) && t.snap == s.snap && t.cut
    ensures SnapOk(env, t)
  {
    hide SnapIs, Justified;
    if s.snap.Some? {
      var es, created :| SnapIs(env, s.snap.value, es, created) && (!s.cut ==> Justified(E.MapOf(es), Recs(s.log)));
    }
  }

  lemma OpenItems(env: Env, s: State)
    requires env.Valid() && FileOk(env, s) && SnapOk(env, s) && Enabled(env, s, Open)
    ensures var t := Do(env, s, Open);
            && SnapOk(env, t) && ItemsOk(env, t) && HasTail(env, s)
            && Source(env, t) == OpenLog(env.mode, s.wal).value.frames == Recovered(env, s)
            && (!s.cut ==> t.items == ReplayAll(map[], Recs(Recovered(env, s)), s.now))
  {
    hide EncodeFrame, Fits, ScanLog, Load, WithTail, Recovered, FileOk, SnapOk, Justified;
    OpenFile(env, s);
    RecoveredShape(env, s);
    var t := Do(env, s, Open);
    DownScan(env, s);
    SnapGrows(env, s, t);
    if !s.cut {
      LoadIsReplay(env, s, Recovered(env, s), s.now);
      JustifiedReplay(Recs(Recovered(env, s)), s.now);
    }
  }

  lemma TrimItems(env: Env, s: State)
    requires env.Valid() && FileOk(env, s) && SnapOk(env, s) && ItemsOk(env, s) && Enabled(env, s, Trim)
    ensures var t := Do(env, s, Trim);
            SnapOk(env, t) && ItemsOk(env, t) && HasTail(env, s) && t.log == Source(env, s) == Recovered(env, s)
            && s.log <= t.log
  {
    hide EncodeFrame, Fits, ScanLog, Load, WithTail, Recovered, FileOk, SnapOk, Justified;
    TrimFile(env, s);
    RecoveredShape(env, s);
    DownScan(env, s);
    SnapGrows(env, s, Do(env, s, Trim));
  }

  lemma RenameItems(env: Env, s: State, es: seq<E.Entry>, created: nat)
    requires env.Valid() && ItemsOk(env, s) && Enabled(env, s, Rename(es, created))
    ensures SnapOk(env, Do(env, s, Rename(es, created)))
  {
    hide Justified, S.Render;
    var t := Do(env, s, Rename(es, created));
    assert SnapIs(env, t.snap.value, es, created);
    if !s.cut { JustifiedSub(s.items, E.MapOf(es), Recs(s.log)); }
  }

  lemma ItemsStep(env: Env, s: State, e: Event)
    requires env.Valid() && FileOk(env, s) && SnapOk(env, s) && ItemsOk(env, s) && Enabled(env, s, e)
    ensures SnapOk(env, Do(env, s, e)) && ItemsOk(env, Do(env, s, e))
  {
    hide EncodeFrame, Fits, FileBytes, LogBytes, S.Render, Justified, SnapOk, OpenLog, DoOpen, DoTrim, Opens, FileOk;
    hide S.Writable, S.DistinctKeys, AllFit;
    var t := Do(env, s, e);
    match e
    case Open => OpenItems(env, s);
    case Trim => TrimItems(env, s);
    case Rename(es, created) => RenameItems(env, s, es, created);
    case Ack =>
      assert |s.log| > 0 && s.log[|s.log| - 1] == s.phase.frame by { SyncedLast(env, s); }
      if !s.cut { JustifiedEffect(s.items, Recs(s.log), s.phase.frame.rec); }
      SnapGrows(env, s, t);
    case Sync =>
      if !s.cut { JustifiedMore(s.items, s.log, t.log); }
      SnapGrows(env, s, t);
    case Evict(k) =>
      if !s.cut { JustifiedSub(s.items, t.items, Recs(Source(env, s))); }
      SnapGrows(env, s, t);
    case Truncate(keep) =>
      if keep == |s.log| { assert t.log == s.log; SnapGrows(env, s, t); } else { SnapCut(env, s, t); }
    case _ => SnapGrows(env, s, t);
  }

  lemma SyncedLast(env: Env, s: State)
    requires FileOk(env, s) && s.phase.Synced?
    ensures |s.log| > 0 && s.log[|s.log| - 1] == s.phase.frame
  {}

  // ----- Whole runs -----

  ghost predicate Inv(env: Env, s: State) {
    FileOk(env, s) && SnapOk(env, s) && ItemsOk(env, s) && (env.mode.Sealed? ==> CountersOk(env, s))
  }

  lemma {:induction false} RunInv(env: Env, es: seq<Event>)
    requires env.Valid() && Legal(env, es)
    ensures Inv(env, After(env, es))
  {
    hide FileOk, SnapOk, ItemsOk, CountersOk, Enabled, Do;
    if es == [] {
      StartInv(env);
    } else {
      RunInv(env, es[..|es| - 1]);
      var s, e := After(env, es[..|es| - 1]), es[|es| - 1];
      FileStep(env, s, e);
      ItemsStep(env, s, e);
      if env.mode.Sealed? { CountersStep(env, s, e); }
    }
  }

  lemma StartInv(env: Env)
    requires env.Valid() && Begun(env.mode, env.start)
    ensures Inv(env, env.start)
  {
    hide EncodeFrame, Fits, Justified, MaxCtr, Live, ScanLog;
    BelowMax(env.start.log);
    JustifiedLive(Recs(env.start.log));
  }

  lemma InvParts(env: Env, s: State)
    requires Inv(env, s)
    ensures FileOk(env, s) && SnapOk(env, s) && ItemsOk(env, s)
    ensures env.mode.Sealed? ==> CountersOk(env, s)
  {
    hide FileOk, SnapOk, ItemsOk, CountersOk;
  }

  /** No step other than a truncation ever takes a committed frame back. */
  lemma StepKeepsLog(env: Env, s: State, e: Event)
    requires env.Valid() && FileOk(env, s) && Enabled(env, s, e) && !e.Truncate?
    ensures s.log <= Do(env, s, e).log
  {
    hide EncodeFrame, Fits, FileOk, Load, ScanLog, Recovered, S.Render;
    if e.Open? { OpenFile(env, s); }
    if e.Trim? {
      TrimFile(env, s);
      RecoveredShape(env, s);
    }
  }

  /** An acknowledged write stays committed through every continuation without truncation. */
  lemma {:induction false} AcknowledgedSurvives(env: Env, es: seq<Event>, more: seq<Event>)
    requires env.Valid() && Legal(env, es + more)
    requires forall i :: 0 <= i < |more| ==> !more[i].Truncate?
    ensures Legal(env, es)
    ensures After(env, es).log <= After(env, es + more).log
  {
    hide FileOk, SnapOk, ItemsOk, CountersOk, Enabled, Do;
    if more == [] {
      assert es + more == es;
    } else {
      var init := more[..|more| - 1];
      assert (es + more)[..|es + more| - 1] == es + init;
      AcknowledgedSurvives(env, es, init);
      RunInv(env, es + init);
      InvParts(env, After(env, es + init));
      StepKeepsLog(env, After(env, es + init), more[|more| - 1]);
    }
  }

  /** An acknowledgement is only given for a frame that is already committed. */
  lemma AckIsCommitted(env: Env, es: seq<Event>)
    requires env.Valid() && Legal(env, es) && Enabled(env, After(env, es), Ack)
    ensures var s := After(env, es); |s.log| > 0 && s.log[|s.log| - 1] == s.phase.frame
  {
    hide Enabled, Do;
    RunInv(env, es);
    hide SnapOk, ItemsOk, CountersOk;
    assert Enabled(env, After(env, es), Ack) ==> After(env, es).phase.Synced? by { AckPhase(env, After(env, es)); }
  }

  lemma AckPhase(env: Env, s: State)
    ensures Enabled(env, s, Ack) ==> s.phase.Synced?
  {}

  /**
   Nonce counters over whole runs of an encrypted shard, truncations included: no two
   frames ever whole in the file share a counter, counters in the file strictly
   increase, and the live counter exceeds all of them.
   */
  lemma CountersNeverRepeat(env: Env, es: seq<Event>)
    requires env.Valid() && env.mode.Sealed? && Legal(env, es)
    ensures var s := After(env, es);
            && (forall i, j :: 0 <= i < j < |s.written| ==> s.written[i].ctr < s.written[j].ctr)
            && (forall i, j :: 0 <= i < j < |s.log| ==> s.log[i].ctr < s.log[j].ctr)
            && (!s.phase.Down? ==> forall i :: 0 <= i < |s.written| ==> s.written[i].ctr < s.ctr)
  {
    RunInv(env, es);
    hide FileOk, SnapOk, ItemsOk, OpenLog, MaxCtr;
    if After(env, es).phase.Opening? { OpeningCounter(env, After(env, es)); }
  }

  lemma OpeningCounter(env: Env, s: State)
    requires env.Valid() && env.mode.Sealed? && FileOk(env, s) && CountersOk(env, s) && s.phase.Opening?
    ensures Below(s.written, s.ctr)
  {
    hide EncodeFrame, Fits, ScanLog, FileOk, Increasing, MaxCtr, Below, Recovered;
    OpensInOpening(env, s);
    DownScan(env, s);
    RecoveredShape(env, s);
    if Recovered(env, s) != s.log { MaxSnoc(s.log, s.phase.torn.value); }
    Raise(s.written, ReopenCtr(MaxCtr(s.log), s.sidecar), s.ctr);
  }

  /**
   Persisting the counter before the cut is what this rests on: reopening after frames
   were cut continues above every written counter if and only if the sidecar does or the
   last written frame is still in the file.
   */
  lemma SidecarNeeded(written: seq<Frame>, keep: nat, sidecar: nat)
    requires Increasing(written) && keep <= |written| && |written| > 0
    ensures Below(written, ReopenCtr(MaxCtr(written[..keep]), sidecar))
       <==> sidecar > written[|written| - 1].ctr || keep == |written| || written[|written| - 1].ctr == 0
  {
    var last := written[|written| - 1];
    var kept := written[..keep];
    if keep == |written| { assert kept == written; BelowMax(written); }
    else if last.ctr > 0 { MaxBelow(kept, last.ctr); }
  }

  lemma {:induction false} MaxBelow(fs: seq<Frame>, b: nat)
    requires Below(fs, b) && b > 0
    ensures MaxCtr(fs) < b
  {
    if fs != [] { MaxBelow(fs[..|fs| - 1], b); }
  }

  // ----- When a shard refuses to start -----

  /** The length of the first key the file's bytes belong to. */
  predicate FirstKeyReadsAsMagic(s: State) {
    var fs := if s.log != [] then s.log
              else if s.phase.Down? && s.phase.torn.Some? then [s.phase.torn.value] else [];
    fs != [] && |fs[0].rec.key| == 0x01575354
  }

  lemma MagicIsALength()
    ensures Le(0x01575354, 4) == MAGIC
  {
    assert Le(0x0157, 2) == [0x57, 0x01];
    assert Le(0x015753, 3) == [0x53] + Le(0x0157, 2);
  }

  lemma LengthIsMagic(n: nat)
    requires n < U32
    ensures Le(n, 4) == MAGIC <==> n == 0x01575354
  {
    Widths();
    MagicIsALength();
    UnLeLe(n, 4);
    UnLeLe(0x01575354, 4);
  }

  lemma {:induction false} LogStart(mode: Mode, fs: seq<Frame>)
    requires mode.Plain? && AllFit(mode, fs) && fs != []
    ensures |LogBytes(mode, fs)| >= 4 && LogBytes(mode, fs)[..4] == Le(|fs[0].rec.key|, 4)
  {
    hide EncodeFrame, Fits;
    if |fs| == 1 {
      assert fs[..0] == [];
      FrameStart(mode, fs[0]);
      assert LogBytes(mode, fs) == EncodeFrame(mode, fs[0]);
    } else {
      LogStart(mode, fs[..|fs| - 1]);
    }
  }

  lemma FrameStart(mode: Mode, f: Frame)
    requires mode.Plain? && Fits(mode, f)
    ensures |EncodeFrame(mode, f)| >= 4 && EncodeFrame(mode, f)[..4] == Le(|f.rec.key|, 4)
  {
    hide Le;
    RecordAtEncode(f.rec, []);
  }

  /** A snapshot some run left behind never stands in the way: only the log can refuse. */
  lemma OnlyTheLogRefuses(env: Env, s: State)
    requires env.Valid() && SnapOk(env, s) && s.phase.Down?
    ensures Opens(env, s) <==> OpenLog(env.mode, s.wal).Some?
  {
    hide ScanLog, S.ReadSnapshot, S.Render, Justified;
    if s.snap.Some? {
      var es, created :| SnapIs(env, s.snap.value, es, created);
      S.RoundTrip(es, created, env.fp, env.fp, env.hash);
    }
  }

  /**
   After any run, a plaintext shard refuses to reopen if and only if the crash left 1 to 3
   bytes, or the first key is exactly as long as the encrypted log's magic number reads.
   */
  lemma PlainOpenRefusedExactly(env: Env, es: seq<Event>)
    requires env.Valid() && env.mode.Plain? && Legal(env, es) && After(env, es).phase.Down?
    ensures var s := After(env, es);
            !Opens(env, s) <==> 0 < |s.wal| && (|s.wal| < 4 || FirstKeyReadsAsMagic(s))
  {
    RunInv(env, es);
    var s := After(env, es);
    hide Enabled, Do, SnapOk, ItemsOk, ScanLog, EncodeFrame, LogBytes, Opens;
    OnlyTheLogRefuses(env, s);
    if |s.wal| >= 4 { PlainStart(env, s); }
  }

  lemma PlainStart(env: Env, s: State)
    requires env.Valid() && env.mode.Plain? && s.phase.Down? && FileOk(env, s) && |s.wal| >= 4
    ensures s.wal[..4] == MAGIC <==> FirstKeyReadsAsMagic(s)
  {
    var file := LogBytes(env.mode, s.log);
    assert FileBytes(env.mode, s.log) == file;
    if s.log != [] {
      LogStart(env.mode, s.log);
      assert s.wal[..4] == file[..4];
      LengthIsMagic(|s.log[0].rec.key|);
    } else {
      var f := s.phase.torn.value;
      FrameStart(env.mode, f);
      assert s.wal[..4] == EncodeFrame(env.mode, f)[..4];
      LengthIsMagic(|f.rec.key|);
    }
  }

  /** An encrypted shard refuses to reopen if and only if the crash left 1 to 3 bytes of its magic. */
  lemma SealedOpenRefusedExactly(env: Env, es: seq<Event>)
    requires env.Valid() && env.mode.Sealed? && Legal(env, es) && After(env, es).phase.Down?
    ensures var s := After(env, es); !Opens(env, s) <==> 0 < |s.wal| < 4
  {
    RunInv(env, es);
    var s := After(env, es);
    hide Enabled, Do, SnapOk, ItemsOk, CountersOk, ScanLog, EncodeFrame, LogBytes, Opens;
    OnlyTheLogRefuses(env, s);
    var file := FileBytes(env.mode, s.log);
    if |s.wal| >= 4 { assert file[..4] == MAGIC; assert s.wal[..4] == file[..4]; }
  }

  // ----- Runs that end refused -----

  lemma {:induction false} LegalSnoc(env: Env, es: seq<Event>, e: Event)
    requires Legal(env, es) && Enabled(env, After(env, es), e)
    ensures Legal(env, es + [e]) && After(env, es + [e]) == Do(env, After(env, es), e)
  {
    hide Enabled, Do;
    assert (es + [e])[..|es|] == es;
  }

  /** A new encrypted shard that crashes with part of its magic written never starts again. */
  lemma TornMagicRefuses(env: Env, n: nat)
    requires env.Valid() && env.start == Fresh && env.mode.Sealed? && 0 < n < 4
    ensures Legal(env, [Open, Crash(n)]) && !Opens(env, After(env, [Open, Crash(n)]))
  {
    hide ScanLog;
    LegalSnoc(env, [], Open);
    assert [] + [Open] == [Open] && [Open] + [Crash(n)] == [Open, Crash(n)];
    assert After(env, [Open]).wal == [] && After(env, [Open]).tail == MAGIC && After(env, [Open]).phase.Opening?;
    LegalSnoc(env, [Open], Crash(n));
    assert After(env, [Open, Crash(n)]).wal == MAGIC[..n];
  }

  /** A plaintext shard whose very first write is torn inside its first length field never starts again. */
  lemma TornLengthRefuses(env: Env, rec: Record, n: nat)
    requires env.Valid() && env.start == Fresh && env.mode.Plain? && rec.Encodable() && 0 < n < 4
    ensures var es := [Open, Trim, Begin(rec), Write(n), Crash(n)]; Legal(env, es) && !Opens(env, After(env, es))
  {
    var f := Frame(0, rec);
    hide EncodeFrame, Enabled, Do, Opens;
    PlainUp(env);
    var es, s := [Open, Trim, Begin(rec)], Fresh.(phase := Writing(f));
    assert [Open, Trim] + [Begin(rec)] == es;
    PlainTear(env, f, n);
    LegalSnoc(env, [Open, Trim], Begin(rec));
    assert es + [Write(n)] == [Open, Trim, Begin(rec), Write(n)];
    LegalSnoc(env, es, Write(n));
    assert [Open, Trim, Begin(rec), Write(n)] + [Crash(n)] == [Open, Trim, Begin(rec), Write(n), Crash(n)];
    LegalSnoc(env, [Open, Trim, Begin(rec), Write(n)], Crash(n));
  }

  lemma PlainUp(env: Env)
    requires env.Valid() && env.start == Fresh && env.mode.Plain?
    ensures Legal(env, [Open, Trim]) && After(env, [Open, Trim]) == Fresh.(phase := Idle)
  {
    hide ScanLog;
    LegalSnoc(env, [], Open);
    assert [] + [Open] == [Open] && [Open] + [Trim] == [Open, Trim];
    LegalSnoc(env, [Open], Trim);
  }

  lemma PlainTear(env: Env, f: Frame, n: nat)
    requires env.Valid() && env.mode.Plain? && Fits(env.mode, f) && 0 < n < 4
    ensures var a, b := Fresh.(phase := Idle), Fresh.(phase := Writing(f));
            && Enabled(env, a, Begin(f.rec)) && Do(env, a, Begin(f.rec)) == b
            && Enabled(env, b, Write(n)) && Enabled(env, Do(env, b, Write(n)), Crash(n))
            && !Opens(env, Do(env, Do(env, b, Write(n)), Crash(n)))
  {
    PlainSize(env.mode, f);
    hide EncodeFrame, Fits;
    var b := Fresh.(phase := Writing(f));
    var enc := EncodeFrame(env.mode, f);
    assert Do(env, b, Write(n)).tail == enc[..n];
  }

  lemma PlainSize(mode: Mode, f: Frame)
    requires mode.Plain? && Fits(mode, f)
    ensures |EncodeFrame(mode, f)| >= 16
  {}
}
