/**
 A shard after its migration: the state a finished migration leaves is one a run may start from,
 so crash safety and the nonce counters carry on from the plaintext history.
 */
module MigratedShard {
  import opened Bytes
  import opened Wal
  import opened Replay
  import opened ShardRun
  import opened ShardSafety
  import opened ShardHistory
  import opened Migration
  import E = Engine
  import S = Snapshot

  /** The shard whose disk this is, before its next start-up. */
  function AtRest(mode: Mode, d: Disk, now: int): State {
    var fs := if |d.wal| >= 4 then ScanLog(mode, d.wal[4..]).frames else [];
    State(d.wal, [], None, d.sidecar, Down(None), 0, map[], now, fs, fs, false)
  }

  /** The same shard, still up after the start-up that migrated it. */
  function StillUp(mode: Mode, d: Disk, now: int): State {
    var s := AtRest(mode, d, now);
    s.(phase := Idle, ctr := d.sidecar, items := Live(Recs(s.log)))
  }

  /** What a finished migration leaves can be continued, and stands for the plaintext history. */
  lemma {:induction false} MigrationBegins(mode: Mode, d: Disk, fs: seq<Frame>, ts: seq<Try>, last: Try, now: int)
    requires mode.Valid() && mode.Sealed? && PlainLog(d, fs) && TriesOk(mode, d, fs, ts + [last])
    requires last.progress.Finished? && AllMigratable(mode, ts) && !Stuck(AfterTries(mode, d, ts))
    ensures AllMigratable(mode, ts + [last])
    ensures var end := AfterTries(mode, d, ts + [last]);
            && Begun(mode, AtRest(mode, end, now)) && Begun(mode, StillUp(mode, end, now))
            && Live(Recs(AtRest(mode, end, now).log)) == Live(Recs(fs))
  {
    hide PlainLog, TriesOk, Attempt, AfterTries, Live, Recs, ScanLog, Lists, Numbered, FileBytes, E.MapOf;
    MigrationConverges(mode, d, fs, ts, last);
    var end := AfterTries(mode, d, ts + [last]);
    var es :| SealedLog(mode, end, fs, es) && forall i :: 0 <= i < |es| ==> Numbered(es)[i].ctr < end.sidecar;
    SealedScan(mode, es);
    NumberedIncrease(es);
    assert Live(Recs(Numbered(es))) == Live(Recs(fs)) by { ListedLive(fs, es); }
  }

  lemma NumberedIncrease(es: seq<E.Entry>)
    ensures |Numbered(es)| == |es|
    ensures forall i, j :: 0 <= i < j < |es| ==> Numbered(es)[i].ctr < Numbered(es)[j].ctr
  {}

  lemma ListedLive(fs: seq<Frame>, es: seq<E.Entry>)
    requires Lists(es, Live(Recs(fs)))
    ensures Live(Recs(Numbered(es))) == Live(Recs(fs))
  {
    hide Numbered, E.MapOf;
    LiveKeepsNoTombstone(Recs(fs));
    forall i | 0 <= i < |es| ensures es[i].exp != TOMBSTONE { EntryInMap(es, i); }
    NumberedLive(es);
  }

  lemma {:induction false} LiveKeepsNoTombstone(rs: seq<Record>)
    ensures forall k :: k in Live(rs) ==> Live(rs)[k].exp != TOMBSTONE
  {
    if rs != [] { LiveKeepsNoTombstone(rs[..|rs| - 1]); }
  }

  lemma {:induction false} LiveExtends(a: seq<Record>, b: seq<Record>, more: seq<Record>)
    requires Live(a) == Live(b)
    ensures Live(a + more) == Live(b + more)
  {
    if more == [] {
      assert a + more == a && b + more == b;
    } else {
      var n := |more| - 1;
      LiveExtends(a, b, more[..n]);
      assert (a + more)[..|a| + n] == a + more[..n] && (b + more)[..|b| + n] == b + more[..n];
    }
  }

  /**
   Crash safety across the migration: after it, any run with any crashes, and any start-up at
   which no deadline has passed rebuilds the map of the plaintext history followed by what the
   run kept, acknowledged writes in their place.
   */
  lemma {:induction false} SafeAfterMigration(
      env: Env, d: Disk, fs: seq<Frame>, ts: seq<Try>, last: Try, now: int, run: seq<Event>)
    requires env.Valid() && env.mode.Sealed? && PlainLog(d, fs) && TriesOk(env.mode, d, fs, ts + [last])
    requires last.progress.Finished? && AllMigratable(env.mode, ts) && !Stuck(AfterTries(env.mode, d, ts))
    requires AllMigratable(env.mode, ts + [last])
    requires var end := AfterTries(env.mode, d, ts + [last]);
             env.start == AtRest(env.mode, end, now) || env.start == StillUp(env.mode, end, now)
    requires Legal(env, run) && Opens(env, After(env, run)) && !After(env, run).cut && OpensOnTime(env, After(env, run))
    ensures exists added: seq<Record> ::
              && Kept(env, run, Recs(env.start.log) + added)
              && Rebuilt(env, After(env, run)) == Live(Recs(fs) + added)
  {
    hide PlainLog, TriesOk, AfterTries, Live, Recs, ScanLog, Kept, Legal, After, ReplayAll, Begun;
    MigrationBegins(env.mode, d, fs, ts, last, now);
    CrashSafety(env, run);
    var s := After(env, run);
    var first, rs := Recs(env.start.log), Recs(OpenLog(env.mode, s.wal).value.frames);
    KeptStart(env, run, rs);
    var added := rs[|first|..];
    assert rs == first + added;
    ReplayIsLive(rs, s.now);
    LiveExtends(first, Recs(fs), added);
    assert Kept(env, run, first + added);
  }
}
