/**
 Replay under a memory ceiling (applyRecord in internal/persistence/persistence.go, Set in
 internal/storage/engine.go). Replay meets the guard that live writes meet, and stops at the first
 record it refuses; a write rejected while live is already in the log (Execute in
 internal/shard/runner.go).
 */
module Ceiling {
  import opened Bytes
  import opened Aead
  import opened Wal
  import opened Replay
  import opened TimedStore
  import opened Engine

  // ----- What an engine showing a map weighs -----

  /** Bytes a value takes once stored: sealing adds a nonce and a tag. */
  function StoredLen(c: Config, value: seq<byte>): nat {
    |value| + if c.cipher.Some? then NONCE + TAG else 0
  }

  /** A map with the sizes of m as stored. */
  function Stand(c: Config, m: Store): (s: Store)
    ensures s.Keys == m.Keys
  {
    map k | k in m :: Item(seq(StoredLen(c, m[k].value), _ => 0), m[k].exp)
  }

  /** The stored form of m, size by size. */
  predicate Sized(c: Config, items: Store, m: Store) {
    items.Keys == m.Keys && forall k :: k in m ==> |items[k].value| == StoredLen(c, m[k].value)
  }

  predicate SameSizes(a: Store, b: Store) {
    a.Keys == b.Keys && forall k :: k in a ==> |a[k].value| == |b[k].value|
  }

  lemma {:induction false} SameTotal(a: Store, b: Store)
    requires SameSizes(a, b)
    ensures TotalBytes(a) == TotalBytes(b)
    decreases |a|
  {
    hide TotalBytes;
    if a == map[] {
      assert b == map[];
    } else {
      var k :| k in a;
      SizeWithout(a, k);
      SameTotal(a - {k}, b - {k});
      TotalWithout(a, k);
      TotalWithout(b, k);
    }
  }

  /** The guard, for an engine that shows m. */
  ghost predicate Room(c: Config, max: nat, m: Store, r: Record) {
    Admits(max, TotalBytes(Stand(c, m)) % U64, |r.key| + StoredLen(c, r.value))
  }

  /** Any engine that holds m in stored form takes the decision Room takes. */
  lemma RoomIsGuard(c: Config, max: nat, items: Store, m: Store, r: Record)
    requires Sized(c, items, m)
    ensures Room(c, max, m, r) <==> Admits(max, TotalBytes(items) % U64, |r.key| + StoredLen(c, r.value))
  {
    hide TotalBytes, Admits;
    SameTotal(items, Stand(c, m));
  }

  // ----- Replay as a partial function -----

  predicate Stores(r: Record, now: int) { r.ttl != TOMBSTONE && Effective(r, now) }

  /** One record: deletions and skipped records always go through, a SET only where there is room. */
  ghost function UnderOne(c: Config, max: nat, m: Store, r: Record, now: int): Option<Store> {
    if Stores(r, now) && !Room(c, max, m, r) then None else Some(ReplayOne(m, r, now))
  }

  ghost function ReplayUnder(c: Config, max: nat, m: Store, rs: seq<Record>, now: int): Option<Store> {
    if rs == [] then Some(m)
    else
      var before := ReplayUnder(c, max, m, rs[..|rs| - 1], now);
      if before.None? then None else UnderOne(c, max, before.value, rs[|rs| - 1], now)
  }

  /** Where replay gets through, it is the replay without a ceiling. */
  lemma {:induction false} UnderIsReplay(c: Config, max: nat, m: Store, rs: seq<Record>, now: int)
    ensures var x := ReplayUnder(c, max, m, rs, now); x.Some? ==> x.value == ReplayAll(m, rs, now)
  {
    hide Room;
    if rs != [] { UnderIsReplay(c, max, m, rs[..|rs| - 1], now); }
  }

  /** Record i is not stored, or finds room beside what the records before it left. */
  ghost predicate RoomAt(c: Config, max: nat, m: Store, rs: seq<Record>, i: nat, now: int)
    requires i < |rs|
  {
    Stores(rs[i], now) ==> Room(c, max, ReplayAll(m, rs[..i], now), rs[i])
  }

  /**
   When a replay gets through: if and only if every record finds room, the bytes of an item it
   replaces counted as still there.
   */
  lemma {:induction false} UnderIff(c: Config, max: nat, m: Store, rs: seq<Record>, now: int)
    ensures ReplayUnder(c, max, m, rs, now).Some? <==> forall i :: 0 <= i < |rs| ==> RoomAt(c, max, m, rs, i, now)
  {
    hide Room, RoomAt;
    if rs != [] {
      var n := |rs| - 1;
      var init := rs[..n];
      UnderIff(c, max, m, init, now);
      UnderIsReplay(c, max, m, init, now);
      forall i | 0 <= i < n ensures RoomAt(c, max, m, init, i, now) <==> RoomAt(c, max, m, rs, i, now) {
        RoomAtPrefix(c, max, m, rs, n, i, now);
      }
      RoomAtLast(c, max, m, rs, now);
    }
  }

  lemma RoomAtPrefix(c: Config, max: nat, m: Store, rs: seq<Record>, n: nat, i: nat, now: int)
    requires i < n <= |rs|
    ensures RoomAt(c, max, m, rs[..n], i, now) <==> RoomAt(c, max, m, rs, i, now)
  {
    hide Room, ReplayAll;
    assert rs[..n][..i] == rs[..i];
  }

  lemma RoomAtLast(c: Config, max: nat, m: Store, rs: seq<Record>, now: int)
    requires rs != []
    ensures var n := |rs| - 1;
            RoomAt(c, max, m, rs, n, now)
            <==> (Stores(rs[n], now) ==> Room(c, max, ReplayAll(m, rs[..n], now), rs[n]))
  {
    hide Room, ReplayAll;
  }

  lemma {:induction false} NoCeiling(c: Config, m: Store, rs: seq<Record>, now: int)
    ensures ReplayUnder(c, 0, m, rs, now).Some?
  {
    if rs != [] { NoCeiling(c, m, rs[..|rs| - 1], now); }
  }

  /** A refused record stops the replay whatever follows it. */
  lemma {:induction false} RefusedForGood(c: Config, max: nat, m: Store, rs: seq<Record>, more: seq<Record>, now: int)
    requires ReplayUnder(c, max, m, rs, now).None?
    ensures ReplayUnder(c, max, m, rs + more, now).None?
  {
    if more == [] {
      assert rs + more == rs;
    } else {
      RefusedForGood(c, max, m, rs, more[..|more| - 1], now);
      assert (rs + more)[..|rs + more| - 1] == rs + more[..|more| - 1];
    }
  }

  lemma UnderSnoc(c: Config, max: nat, m: Store, rs: seq<Record>, r: Record, now: int)
    ensures ReplayUnder(c, max, m, rs + [r], now) ==
            var before := ReplayUnder(c, max, m, rs, now);
            if before.None? then None else UnderOne(c, max, before.value, r, now)
  {
    assert (rs + [r])[..|rs|] == rs;
  }

  // ----- A live engine with a ceiling, and its restart -----

  /** A command and the time it reached the shard. */
  datatype Op = SetOp(rec: Record, at: int) | DelOp(key: Key, at: int)

  /** The engine's map and the log behind it, and whether a write was ever rejected. */
  datatype Served = Served(m: Store, log: seq<Record>, rejected: bool)

  function Tombstone(k: Key): Record { Record(k, [], TOMBSTONE) }

  /** Execute: log first, then the engine, then the tombstone for a rejected write of a key not visible. */
  ghost function Serve(c: Config, max: nat, s: Served, op: Op): Served {
    match op
    case DelOp(k, _) => s.(m := s.m - {k}, log := s.log + [Tombstone(k)])
    case SetOp(r, at) =>
      var m := Evict(s.m, r.key, at);
      if Room(c, max, m, r) then Served(Effect(m, r), s.log + [r], s.rejected)
      else Served(m, s.log + [r] + (if r.key in m then [] else [Tombstone(r.key)]), true)
  }

  ghost function ServeAll(c: Config, max: nat, ops: seq<Op>): Served {
    if ops == [] then Served(map[], [], false)
    else Serve(c, max, ServeAll(c, max, ops[..|ops| - 1]), ops[|ops| - 1])
  }

  /** Served by now, and writes that are not deletions and whose deadlines still lie ahead. */
  predicate Lasting(ops: seq<Op>, now: int) {
    forall i :: 0 <= i < |ops| ==> ops[i].at <= now && (ops[i].SetOp? ==> Stores(ops[i].rec, now))
  }

  predicate AllAhead(m: Store, now: int) { forall k :: k in m ==> m[k].exp == 0 || now < m[k].exp }

  lemma ServeStep(c: Config, max: nat, s: Served, op: Op, now: int)
    requires AllAhead(s.m, now) && op.at <= now && (op.SetOp? ==> Stores(op.rec, now))
    requires ReplayUnder(c, max, map[], s.log, now) == if s.rejected then None else Some(s.m)
    ensures var t := Serve(c, max, s, op);
            AllAhead(t.m, now) && ReplayUnder(c, max, map[], t.log, now) == if t.rejected then None else Some(t.m)
  {
    hide Room, ReplayUnder;
    match op
    case DelOp(k, _) => UnderSnoc(c, max, map[], s.log, Tombstone(k), now);
    case SetOp(r, at) =>
      assert Evict(s.m, r.key, at) == s.m;
      UnderSnoc(c, max, map[], s.log, r, now);
      if !Room(c, max, s.m, r) {
        if r.key in s.m { assert s.log + [r] + [] == s.log + [r]; }
        else { RefusedForGood(c, max, map[], s.log + [r], [Tombstone(r.key)], now); }
      }
  }

  /**
   A restart under the same ceiling, while no logged deadline has passed: over every history of
   writes and deletions at any times before it, the log replays if and only if no write was ever
   rejected for memory, and then to the engine's map. One rejection and the shard no longer
   starts, compensated or not.
   */
  lemma {:induction false} RestartIffNoneRejected(c: Config, max: nat, ops: seq<Op>, now: int)
    requires Lasting(ops, now)
    ensures var s := ServeAll(c, max, ops);
            && ReplayUnder(c, max, map[], s.log, now) == (if s.rejected then None else Some(s.m))
            && AllAhead(s.m, now)
  {
    hide ReplayUnder, Serve;
    if ops == [] {
      NothingServed(c, max, now);
    } else {
      RestartIffNoneRejected(c, max, ops[..|ops| - 1], now);
      ServeStep(c, max, ServeAll(c, max, ops[..|ops| - 1]), ops[|ops| - 1], now);
    }
  }

  lemma NothingServed(c: Config, max: nat, now: int)
    ensures ReplayUnder(c, max, map[], [], now) == Some(map[])
  {}

  /** A ceiling of 3 bytes and two SETs of two bytes each: the second is rejected, and the restart fails. */
  lemma RejectedWriteBlocksRestart(c: Config, a: byte, b: byte, now: int)
    requires c.cipher.None? && a != b
    ensures var s := ServeAll(c, 3, [SetOp(Record([a], [0], 0), now), SetOp(Record([b], [0], 0), now)]);
            s.rejected && s.m == map[[a] := Item([0], 0)] && ReplayUnder(c, 3, map[], s.log, now).None?
  {
    var one, two := SetOp(Record([a], [0], 0), now), SetOp(Record([b], [0], 0), now);
    hide ReplayUnder, Room;
    RestartIffNoneRejected(c, 3, [one, two], now);
    ThreeBytes(c, a, b);
    ServedOne(c, 3, one.rec, now);
    assert [one, two][..1] == [one];
  }

  lemma ServedOne(c: Config, max: nat, r: Record, now: int)
    requires Room(c, max, map[], r) && r.ttl == 0
    ensures ServeAll(c, max, [SetOp(r, now)]) == Served(map[r.key := Item(r.value, 0)], [r], false)
  {
    hide Room;
    assert [SetOp(r, now)][..0] == [] && [] + [r] == [r];
    assert Evict(map[], r.key, now) == map[];
  }

  /** Under three bytes there is room for one entry of two, and then for no other. */
  lemma ThreeBytes(c: Config, a: byte, b: byte)
    requires c.cipher.None?
    ensures Room(c, 3, map[], Record([a], [0], 0))
    ensures !Room(c, 3, map[[a] := Item([0], 0)], Record([b], [0], 0))
  {
    hide TotalBytes;
    NothingStored();
    assert Stand(c, map[]) == map[];
    var one := Item(seq(1, _ => 0), 0);
    TotalWith(map[], [a], one);
    assert Stand(c, map[[a] := Item([0], 0)]) == map[][[a] := one];
  }

  /**
   A snapshot under a ceiling: the whole log is replayed over it, and the guard does not credit the
   bytes an update frees, so a shard may fail to start although nothing was rejected.
   */
  lemma SnapshotOverfills(c: Config, a: byte, now: int)
    requires c.cipher.None?
    ensures var r := Record([a], [0], 0);
            var s := ServeAll(c, 3, [SetOp(r, now)]);
            && !s.rejected && ReplayUnder(c, 3, map[], s.log, now) == Some(s.m)
            && ReplayUnder(c, 3, s.m, s.log, now).None?
  {
    var r := Record([a], [0], 0);
    hide Room, ReplayUnder, ServeAll;
    ThreeBytes(c, a, a);
    ServedOne(c, 3, r, now);
    UnderOneRecord(c, 3, map[], r, now);
    UnderOneRecord(c, 3, map[[a] := Item([0], 0)], r, now);
  }

  lemma UnderOneRecord(c: Config, max: nat, m: Store, r: Record, now: int)
    ensures ReplayUnder(c, max, m, [r], now) == UnderOne(c, max, m, r, now)
  {
    hide Room;
    assert [r][..0] == [];
  }

  // ----- A rejected write, read back without the ceiling -----

  /**
   The log after a rejected SET against the engine, which kept what it showed. With the tombstone
   they show the same if and only if the key was not visible, which is exactly when Execute writes
   it; without it, if and only if the rejected item shows what the key showed.
   */
  lemma RejectedWrite(rs: seq<Record>, r: Record, now: int)
    requires r.ttl != TOMBSTONE
    ensures VisibleAt(Live(rs + [r, Tombstone(r.key)]), now) == VisibleAt(Live(rs), now)
       <==> r.key !in VisibleAt(Live(rs), now)
    ensures VisibleAt(Live(rs + [r]), now) == VisibleAt(Live(rs), now)
       <==> Lookup(VisibleAt(Live(rs), now), r.key)
            == if Visible(Item(r.value, r.ttl), now) then Some(Item(r.value, r.ttl)) else None
  {
    var gone := Tombstone(r.key);
    assert (rs + [r])[..|rs|] == rs;
    assert (rs + [r, gone])[..|rs| + 1] == rs + [r];
    var m := Live(rs);
    assert Live(rs + [r]) == m[r.key := Item(r.value, r.ttl)];
    assert Live(rs + [r, gone]) == m - {r.key};
    VisibleLookup(m, now, r.key);
    VisibleLookup(Live(rs + [r]), now, r.key);
    assert r.key !in VisibleAt(m - {r.key}, now);
    if Lookup(VisibleAt(m, now), r.key) == Lookup(VisibleAt(Live(rs + [r]), now), r.key) {
      forall k ensures Lookup(VisibleAt(m, now), k) == Lookup(VisibleAt(Live(rs + [r]), now), k) {
        VisibleLookup(m, now, k);
        VisibleLookup(Live(rs + [r]), now, k);
      }
      SameStore(VisibleAt(m, now), VisibleAt(Live(rs + [r]), now));
    }
  }
}
