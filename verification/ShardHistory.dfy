/**
 What a caller can hold a shard to: the answers of the running engine, the acknowledged writes,
 and the map a restart rebuilds, over every run and every crash.
 */
module ShardHistory {
  import opened Bytes
  import opened Wal
  import opened Replay
  import opened ShardRun
  import opened ShardSafety
  import S = Snapshot
  import E = Engine

  // ----- Reading a run -----

  /** The records acknowledged in the run, in order. */
  ghost function Acks(env: Env, es: seq<Event>): seq<Record>
    requires Legal(env, es)
  {
    if es == [] then []
    else
      var init, s := es[..|es| - 1], After(env, es[..|es| - 1]);
      Acks(env, init) + if es[|es| - 1].Ack? then [s.phase.frame.rec] else []
  }

  /** The record a crash in this phase interrupts: logged in part or whole, never acknowledged. */
  function Interrupted(p: Phase): seq<Record> {
    if p.Writing? || p.Synced? then [p.frame.rec] else []
  }

  /** The records in flight at the run's crashes, in order. */
  ghost function InFlight(env: Env, es: seq<Event>): seq<Record>
    requires Legal(env, es)
  {
    if es == [] then []
    else
      var init, s := es[..|es| - 1], After(env, es[..|es| - 1]);
      InFlight(env, init) + if es[|es| - 1].Crash? then Interrupted(s.phase) else []
  }

  /** No deadline in the log had passed whenever the run opened the shard. */
  ghost predicate OnTime(env: Env, es: seq<Event>)
    requires Legal(env, es)
  {
    es == [] || (OnTime(env, es[..|es| - 1]) && (es[|es| - 1].Open? ==> OpensOnTime(env, After(env, es[..|es| - 1]))))
  }

  predicate OpensOnTime(env: Env, s: State) {
    OpenLog(env.mode, s.wal).Some? ==> NoneExpired(Recs(OpenLog(env.mode, s.wal).value.frames), s.now)
  }

  /** The frames the engine has applied: all committed ones but the one waiting to be. */
  function Applied(env: Env, s: State): seq<Frame> {
    if s.phase.Synced? && s.log != [] then s.log[..|s.log| - 1] else Source(env, s)
  }

  // ----- The engine shows the history -----

  /** What the engine shows is what the applied writes leave. */
  ghost predicate EngineShows(env: Env, s: State) {
    !s.cut && !s.phase.Down? ==> VisibleAt(s.items, s.now) == VisibleAt(Live(Recs(Applied(env, s))), s.now)
  }

  lemma ShowsStep(env: Env, s: State, e: Event)
    requires env.Valid() && FileOk(env, s) && SnapOk(env, s) && ItemsOk(env, s) && EngineShows(env, s)
             && Enabled(env, s, e)
    requires e.Open? ==> OpensOnTime(env, s)
    ensures EngineShows(env, Do(env, s, e))
  {
    hide FileOk, SnapOk, ItemsOk, EngineShows, Do, Enabled;
    match e
    case Open => ShowsOpen(env, s);
    case Trim => ShowsTrim(env, s);
    case Ack => ShowsAck(env, s);
    case _ => ShowsQuiet(env, s, e);
  }

  lemma ShowsTrim(env: Env, s: State)
    requires env.Valid() && FileOk(env, s) && SnapOk(env, s) && ItemsOk(env, s) && EngineShows(env, s)
             && Enabled(env, s, Trim)
    ensures EngineShows(env, Do(env, s, Trim))
  {
    hide FileOk, SnapOk, ItemsOk, OpenLog, VisibleAt, Live, DoTrim;
    TrimItems(env, s);
    TrimSame(env, s);
  }

  lemma ShowsAck(env: Env, s: State)
    requires env.Valid() && FileOk(env, s) && EngineShows(env, s) && Enabled(env, s, Ack)
    ensures EngineShows(env, Do(env, s, Ack))
  {
    hide FileOk, OpenLog, VisibleAt, Live, Effect;
    SyncedLast(env, s);
    assert s.log == s.log[..|s.log| - 1] + [s.phase.frame];
    LiveSnoc(s.log[..|s.log| - 1], s.phase.frame);
    if !s.cut { VisibleEffect(s.items, Live(Recs(Applied(env, s))), s.phase.frame.rec, s.now); }
  }

  lemma ShowsQuiet(env: Env, s: State, e: Event)
    requires env.Valid() && EngineShows(env, s) && Enabled(env, s, e) && !e.Open? && !e.Trim? && !e.Ack?
    ensures EngineShows(env, Do(env, s, e))
  {
    hide EncodeFrame, Fits, FileBytes, LogBytes, S.Render, OpenLog, Opens, FileOk;
    hide S.Writable, S.DistinctKeys, AllFit, E.MapOf, VisibleAt, Live, Effect;
    var t := Do(env, s, e);
    match e
    case Sync => assert t.log[..|t.log| - 1] == s.log;
    case Evict(k) => VisibleEvict(s.items, k, s.now);
    case Clock(later) =>
      VisibleLater(s.items, s.now, later);
      VisibleLater(Live(Recs(Applied(env, s))), s.now, later);
    case Truncate(keep) => if keep == |s.log| { assert t.log == s.log; }
    case _ =>
  }

  lemma ShowsOpen(env: Env, s: State)
    requires env.Valid() && FileOk(env, s) && SnapOk(env, s) && Enabled(env, s, Open) && OpensOnTime(env, s)
    ensures EngineShows(env, Do(env, s, Open))
  {
    hide EncodeFrame, Fits, ScanLog, Load, WithTail, Recovered, FileOk, SnapOk, Justified, VisibleAt, Live;
    OpenItems(env, s);
    ReplayIsLive(Recs(Recovered(env, s)), s.now);
  }

  lemma TrimSame(env: Env, s: State)
    requires Enabled(env, s, Trim)
    ensures var t := Do(env, s, Trim); t.items == s.items && t.now == s.now && t.cut == s.cut && t.phase.Idle?
  {}

  lemma LiveSnoc(fs: seq<Frame>, f: Frame)
    ensures Live(Recs(fs + [f])) == Effect(Live(Recs(fs)), f.rec)
  {
    assert Recs(fs + [f])[..|fs|] == Recs(fs);
  }

  /**
   The running engine. In every run that never opened the shard past a logged deadline, an engine
   that is up shows exactly what the applied writes leave, whatever was evicted, snapshotted,
   crashed and reopened on the way.
   */
  lemma {:induction false} EngineIsHistory(env: Env, es: seq<Event>)
    requires env.Valid() && Legal(env, es) && OnTime(env, es)
    ensures EngineShows(env, After(env, es))
  {
    hide Enabled, Do, EngineShows;
    if es == [] {
      StartShows(env);
    } else {
      var init := es[..|es| - 1];
      EngineIsHistory(env, init);
      RunInv(env, init);
      InvParts(env, After(env, init));
      ShowsStep(env, After(env, init), es[|es| - 1]);
    }
  }

  lemma StartShows(env: Env)
    requires Begun(env.mode, env.start)
    ensures EngineShows(env, env.start)
  {
    hide LogBytes, Justified;
  }

  // ----- The log is the acknowledged writes -----

  /**
   rs is the history the run leaves: the records it started from, then each acknowledged one in
   its place, and at a crash the record in flight, always if it was synced, perhaps if it was being
   written. Nothing is acknowledged and lost, and nothing in flight moves past a later write.
   */
  ghost predicate Kept(env: Env, es: seq<Event>, rs: seq<Record>)
    requires Legal(env, es)
    decreases |es|, 0
  {
    if es == [] then rs == Recs(env.start.log)
    else
      var init, e := es[..|es| - 1], es[|es| - 1];
      var p := After(env, init).phase;
      if e.Ack? || (e.Crash? && p.Synced?) then EndsKept(env, init, rs, p.frame.rec)
      else if e.Crash? && p.Writing? then EndsKept(env, init, rs, p.frame.rec) || Kept(env, init, rs)
      else Kept(env, init, rs)
  }

  ghost predicate EndsKept(env: Env, es: seq<Event>, rs: seq<Record>, last: Record)
    requires Legal(env, es)
    decreases |es|, 1
  {
    rs != [] && rs[|rs| - 1] == last && Kept(env, es, rs[..|rs| - 1])
  }

  lemma KeptSnoc(env: Env, es: seq<Event>, rs: seq<Record>, r: Record)
    requires Legal(env, es) && Kept(env, es, rs)
    ensures EndsKept(env, es, rs + [r], r)
  {
    hide Kept, Legal;
    assert (rs + [r])[..|rs|] == rs;
  }

  /** The history begins with what the run started from. */
  lemma {:induction false} KeptStart(env: Env, es: seq<Event>, rs: seq<Record>)
    requires Legal(env, es) && Kept(env, es, rs)
    ensures Recs(env.start.log) <= rs
  {
    hide Enabled, Do, Begun;
    if es != [] {
      var init := es[..|es| - 1];
      if Kept(env, init, rs) { KeptStart(env, init, rs); } else { KeptStart(env, init, rs[..|rs| - 1]); }
    }
  }

  /** With nothing in flight at any crash, the history is exactly the acknowledged writes. */
  lemma {:induction false} KeptNone(env: Env, es: seq<Event>, rs: seq<Record>)
    requires Legal(env, es) && Kept(env, es, rs) && InFlight(env, es) == []
    ensures rs == Recs(env.start.log) + Acks(env, es)
  {
    hide Enabled, Do, Begun;
    if es != [] {
      var init, e := es[..|es| - 1], es[|es| - 1];
      if e.Ack? {
        KeptNone(env, init, rs[..|rs| - 1]);
        assert rs == rs[..|rs| - 1] + [rs[|rs| - 1]];
      } else {
        KeptNone(env, init, rs);
      }
    }
  }

  /** Every record of the history was there at the start, was acknowledged, or was in flight at a crash. */
  lemma {:induction false} KeptOrigin(env: Env, es: seq<Event>, rs: seq<Record>, r: Record)
    requires Legal(env, es) && Kept(env, es, rs)
    ensures r in rs ==> r in Recs(env.start.log) || r in Acks(env, es) || r in InFlight(env, es)
    ensures r in Acks(env, es) || r in Recs(env.start.log) ==> r in rs
  {
    hide Enabled, Do, Begun, Recs;
    if es != [] {
      var init, e := es[..|es| - 1], es[|es| - 1];
      LastOrInit(rs, r);
      var shorter := e.Ack? || !Kept(env, init, rs);
      KeptOrigin(env, init, if shorter then rs[..|rs| - 1] else rs, r);
    }
  }

  /** The event acknowledges a write of k, or is a crash that meets one. */
  ghost predicate Touches(env: Env, es: seq<Event>, e: Event, k: Key)
    requires Legal(env, es)
  {
    var p := After(env, es).phase;
    (e.Ack? || e.Crash?) && (p.Writing? || p.Synced?) && p.frame.rec.key == k
  }

  /**
   The last acknowledged write of a key decides it: whatever the run did afterwards to other keys,
   crashes included, every history it may leave shows that write.
   */
  lemma {:induction false} LatestWins(env: Env, es: seq<Event>, more: seq<Event>, rs: seq<Record>)
    requires Legal(env, es + [Ack] + more) && Legal(env, es) && Enabled(env, After(env, es), Ack)
    requires Kept(env, es + [Ack] + more, rs)
    requires forall j :: 0 <= j < |more| ==> Legal(env, es + [Ack] + more[..j])
    requires var k := After(env, es).phase.frame.rec.key;
             forall j :: 0 <= j < |more| ==> !Touches(env, es + [Ack] + more[..j], more[j], k)
    ensures var r := After(env, es).phase.frame.rec;
            Lookup(Live(rs), r.key) == if r.ttl == TOMBSTONE then None else Some(Item(r.value, r.ttl))
  {
    hide Enabled, Do, Begun, Kept, Live, Legal, After;
    AckPhase(env, After(env, es));
    var acked, all := es + [Ack], es + [Ack] + more;
    if more == [] {
      assert all == acked;
      AckDecides(env, es, rs);
    } else {
      var n := |more| - 1;
      var init := more[..n];
      assert all == acked + init + [more[n]];
      var before := KeptBefore(env, acked + init, more[n], rs, After(env, es).phase.frame.rec.key);
      forall j | 0 <= j < n ensures more[..j] == init[..j] {}
      LatestWins(env, es, init, before);
    }
  }

  lemma {:induction false} AckDecides(env: Env, es: seq<Event>, rs: seq<Record>)
    requires Legal(env, es + [Ack]) && Legal(env, es) && Enabled(env, After(env, es), Ack) && Kept(env, es + [Ack], rs)
    ensures var r := After(env, es).phase.frame.rec;
            Lookup(Live(rs), r.key) == if r.ttl == TOMBSTONE then None else Some(Item(r.value, r.ttl))
  {
    hide Enabled, Do, Begun;
    AckPhase(env, After(env, es));
    assert (es + [Ack])[..|es|] == es;
  }

  /** An event that does not touch a key leaves its value in the history as it was. */
  lemma {:induction false} KeptBefore(env: Env, es: seq<Event>, e: Event, rs: seq<Record>, k: Key)
    returns (before: seq<Record>)
    requires Legal(env, es + [e]) && Legal(env, es) && Kept(env, es + [e], rs) && !Touches(env, es, e, k)
    ensures Kept(env, es, before) && Lookup(Live(before), k) == Lookup(Live(rs), k)
  {
    hide Enabled, Do, Begun;
    assert (es + [e])[..|es|] == es;
    if e.Ack? { AckPhase(env, After(env, es)); }
    before := if Kept(env, es, rs) then rs else rs[..|rs| - 1];
  }

  lemma LastOrInit(s: seq<Record>, r: Record)
    ensures s != [] ==> (r in s <==> r in s[..|s| - 1] || r == s[|s| - 1])
  {
    if s != [] { assert s == s[..|s| - 1] + [s[|s| - 1]]; }
  }

  /** The committed history without the frame that waits for its acknowledgement. */
  function Settled(s: State): seq<Frame> {
    if s.phase.Synced? && s.log != [] then s.log[..|s.log| - 1] else s.log
  }

  /** The settled history is one the run may leave, and so is that history with a torn frame made whole. */
  ghost predicate HistoryOk(env: Env, es: seq<Event>)
    requires Legal(env, es)
  {
    var s := After(env, es);
    !s.cut ==> && Kept(env, es, Recs(Settled(s)))
               && (s.phase.Broken() && s.phase.torn.Some? ==> Kept(env, es, Recs(s.log) + [s.phase.torn.value.rec]))
  }

  lemma RecsSnoc(fs: seq<Frame>, f: Frame)
    ensures Recs(fs + [f]) == Recs(fs) + [f.rec]
  {}

  /** What a step other than an acknowledgement or a crash does to the history: at most it settles a torn frame. */
  lemma {:induction false} QuietStep(env: Env, s: State, e: Event)
    requires env.Valid() && FileOk(env, s) && Enabled(env, s, e) && !e.Ack? && !e.Crash?
    ensures var t := Do(env, s, e);
            t.cut || (&& !s.cut
                      && (t.phase.Broken() && t.phase.torn.Some? ==>
                            s.phase.Broken() && s.phase.torn == t.phase.torn && t.log == s.log)
                      && (|| Settled(t) == Settled(s)
                          || (&& s.phase.Broken() && s.phase.torn.Some?
                              && Recs(Settled(t)) == Recs(s.log) + [s.phase.torn.value.rec])))
  {
    hide EncodeFrame, Fits, FileBytes, LogBytes, S.Render, OpenLog, DoOpen, DoTrim, Opens, FileOk, Recs;
    hide S.Writable, S.DistinctKeys, AllFit, E.MapOf, VisibleAt, Live, Effect;
    match e
    case Open => OpenSame(env, s);
    case Trim => TrimSettles(env, s);
    case Sync => assert Do(env, s, e).log[..|s.log|] == s.log;
    case Truncate(keep) => if keep == |s.log| { assert s.log[..keep] == s.log; }
    case _ =>
  }

  lemma OpenSame(env: Env, s: State)
    requires Enabled(env, s, Open)
    ensures var t := Do(env, s, Open);
            s.phase.Down? && t.log == s.log && t.cut == s.cut && t.phase == Opening(s.phase.torn)
  {}

  lemma {:induction false} TrimSettles(env: Env, s: State)
    requires env.Valid() && FileOk(env, s) && Enabled(env, s, Trim)
    ensures var t := Do(env, s, Trim);
            && t.cut == s.cut && t.phase.Idle?
            && (|| t.log == s.log
                || (&& s.phase.Broken() && s.phase.torn.Some?
                    && Recs(t.log) == Recs(s.log) + [s.phase.torn.value.rec]))
  {
    hide EncodeFrame, Fits, ScanLog, Recovered, FileOk, Recs, OpenLog;
    TrimFile(env, s);
    TrimSame(env, s);
    RecoveredShape(env, s);
    if s.phase.torn.Some? { RecsSnoc(s.log, s.phase.torn.value); }
  }

  lemma {:induction false} RunHistory(env: Env, es: seq<Event>)
    requires env.Valid() && Legal(env, es)
    ensures HistoryOk(env, es)
  {
    hide Enabled, Do, Begun, FileOk, Recs;
    if es != [] {
      var init, e := es[..|es| - 1], es[|es| - 1];
      RunHistory(env, init);
      RunInv(env, init);
      InvParts(env, After(env, init));
      if e.Ack? || e.Crash? { LoudHistory(env, init, e); } else { QuietStep(env, After(env, init), e); }
    } else {
      StartPhase(env);
    }
  }

  /** An acknowledgement and a crash, by the phase they meet. */
  lemma {:induction false} LoudHistory(env: Env, es: seq<Event>, e: Event)
    requires env.Valid() && Legal(env, es) && HistoryOk(env, es) && FileOk(env, After(env, es))
    requires (e.Ack? || e.Crash?) && Enabled(env, After(env, es), e)
    ensures var s := After(env, es);
            var t := Do(env, s, e);
            && t.cut == s.cut
            && (!s.cut ==>
                  if e.Ack? || s.phase.Synced? then
                    && EndsKept(env, es, Recs(Settled(t)), s.phase.frame.rec)
                    && (t.phase.Broken() ==> t.phase.torn.None?)
                  else if s.phase.Writing? then
                    && Kept(env, es, Recs(Settled(t))) && t.phase == Down(Some(s.phase.frame))
                    && EndsKept(env, es, Recs(t.log) + [s.phase.frame.rec], s.phase.frame.rec)
                  else
                    && Settled(t) == Settled(s) && t.log == s.log && t.phase.Broken()
                    && (t.phase.torn.Some? ==> s.phase.Broken() && s.phase.torn == t.phase.torn))
  {
    hide Kept, EndsKept, FileOk, Legal, After, Recs, Effect, EncodeFrame, Fits;
    var s := After(env, es);
    if s.phase.Synced? {
      SyncedLast(env, s);
      assert s.log == s.log[..|s.log| - 1] + [s.phase.frame];
      RecsSnoc(s.log[..|s.log| - 1], s.phase.frame);
    }
    if !s.cut && (s.phase.Synced? || s.phase.Writing?) { KeptSnoc(env, es, Recs(Settled(s)), s.phase.frame.rec); }
  }

  lemma StartPhase(env: Env)
    requires Begun(env.mode, env.start)
    ensures Settled(env.start) == env.start.log && (env.start.phase.Broken() ==> env.start.phase.torn.None?)
  {}

  // ----- The theorems -----

  /** What a start-up rebuilds: the engine right after Open. */
  function Rebuilt(env: Env, s: State): Store
    requires Opens(env, s)
  {
    Do(env, s, Open).items
  }

  /**
   Crash safety over whole runs, any number of crashes, start-ups cut short included. The history
   a start-up recovers holds every acknowledged write in its place, and besides them only records
   that were in flight at a crash, each before everything written after that crash; the map it
   rebuilds is the replay of that history, whatever snapshots were taken.
   */
  lemma {:induction false} CrashSafety(env: Env, es: seq<Event>)
    requires env.Valid() && Legal(env, es) && Opens(env, After(env, es)) && !After(env, es).cut
    ensures var s := After(env, es);
            var rs := Recs(OpenLog(env.mode, s.wal).value.frames);
            && Rebuilt(env, s) == ReplayAll(map[], rs, s.now)
            && Kept(env, es, rs)
  {
    hide ScanLog, EncodeFrame, FileOk, SnapOk, ItemsOk, CountersOk, Kept, Recs, ReplayAll, Recovered;
    var s := After(env, es);
    RunInv(env, es);
    RunHistory(env, es);
    OpenItems(env, s);
    RecoveredShape(env, s);
    if s.phase.torn.Some? { RecsSnoc(s.log, s.phase.torn.value); }
  }

  /** Without a write in flight at a crash, the engine shows the acknowledged writes and a restart rebuilds them. */
  lemma {:induction false} NothingInFlight(env: Env, es: seq<Event>)
    requires env.Valid() && Legal(env, es) && InFlight(env, es) == [] && !After(env, es).cut
    ensures var s, h := After(env, es), Recs(env.start.log) + Acks(env, es);
            && Recs(Settled(s)) == h
            && (OnTime(env, es) && !s.phase.Broken() ==> VisibleAt(s.items, s.now) == VisibleAt(Live(h), s.now))
  {
    hide Kept, Live, VisibleAt, Acks, InFlight, OnTime, After, Legal, Recs;
    RunHistory(env, es);
    KeptNone(env, es, Recs(Settled(After(env, es))));
    if OnTime(env, es) { EngineIsHistory(env, es); }
  }

  /**
   Any crash of a run, seen by a caller, whatever happened before it. Before the crash the engine
   showed the map of a history the run may leave; the next start-up rebuilds that map, or that map
   after the one write in flight, nothing else. A write already synced is always in it.
   */
  lemma {:induction false} EachCrash(env: Env, es: seq<Event>, n: nat)
    requires env.Valid() && Legal(env, es) && OnTime(env, es) && !After(env, es).cut
    requires !After(env, es).phase.Broken() && Enabled(env, After(env, es), Crash(n))
    requires Opens(env, Do(env, After(env, es), Crash(n))) && OpensOnTime(env, Do(env, After(env, es), Crash(n)))
    ensures var s, h := After(env, es), Recs(Settled(After(env, es)));
            var got := Rebuilt(env, Do(env, s, Crash(n)));
            && Kept(env, es, h) && VisibleAt(s.items, s.now) == VisibleAt(Live(h), s.now)
            && (if s.phase.Idle? then got == Live(h)
                else if s.phase.Synced? then got == Live(h + [s.phase.frame.rec])
                else got == Live(h) || got == Live(h + [s.phase.frame.rec]))
  {
    hide Live, VisibleAt, Kept, OnTime, After, Legal, ScanLog, EncodeFrame, FileOk, SnapOk, ItemsOk;
    hide CountersOk, Recovered, ReplayAll, Recs;
    var s := After(env, es);
    RunHistory(env, es);
    EngineIsHistory(env, es);
    RunInv(env, es);
    CrashedItems(env, s, n);
    var t := Do(env, s, Crash(n));
    RecoveredShape(env, t);
    if s.phase.Synced? {
      SyncedLast(env, s);
      assert s.log == s.log[..|s.log| - 1] + [s.phase.frame];
      RecsSnoc(s.log[..|s.log| - 1], s.phase.frame);
    } else if s.phase.Writing? {
      RecsSnoc(s.log, s.phase.frame);
    }
  }

  lemma {:induction false} CrashedItems(env: Env, s: State, n: nat)
    requires env.Valid() && FileOk(env, s) && SnapOk(env, s) && Enabled(env, s, Crash(n)) && !s.cut
    requires Opens(env, Do(env, s, Crash(n))) && OpensOnTime(env, Do(env, s, Crash(n)))
    ensures var t := Do(env, s, Crash(n)); HasTail(env, t) && Rebuilt(env, t) == Live(Recs(Recovered(env, t)))
  {
    hide Live, ScanLog, EncodeFrame, FileOk, SnapOk, Recovered, ReplayAll, Load;
    var t := Do(env, s, Crash(n));
    FileStep(env, s, Crash(n));
    SnapGrows(env, s, t);
    OpenItems(env, t);
    ReplayIsLive(Recs(Recovered(env, t)), t.now);
  }
}
