/**
 What replaying a log does to the in-memory map, and how the recovered map relates
 to the map the live engine held (applyRecord in internal/persistence/persistence.go,
 Execute in internal/shard/runner.go).
 */
module Replay {
  import opened Bytes
  import opened Wal

  type Key = seq<byte>

  /** exp is a deadline in Unix nanoseconds; 0 stands for the zero time, no deadline. */
  datatype Item = Item(value: seq<byte>, exp: int)

  type Store = map<Key, Item>

  /** Not yet past its deadline: the engine tests now.After(exp), which is strict. */
  predicate Visible(it: Item, now: int) { it.exp == 0 || now <= it.exp }

  function VisibleAt(m: Store, now: int): Store {
    map k | k in m && Visible(m[k], now) :: m[k]
  }

  function Lookup(m: Store, k: Key): Option<Item> { if k in m then Some(m[k]) else None }

  /** The effect of one operation on the live engine. */
  function Effect(m: Store, r: Record): Store {
    if r.ttl == TOMBSTONE then m - {r.key} else m[r.key := Item(r.value, r.ttl)]
  }

  /** The live map after executing rs from empty. */
  function Live(rs: seq<Record>): Store {
    if rs == [] then map[] else Effect(Live(rs[..|rs| - 1]), rs[|rs| - 1])
  }

  /** applyRecord skips a SET whose deadline is not in the future (time.Until <= 0). */
  predicate Effective(r: Record, now: int) { r.ttl == TOMBSTONE || r.ttl == 0 || now < r.ttl }

  function ReplayOne(m: Store, r: Record, now: int): Store {
    if Effective(r, now) then Effect(m, r) else m
  }

  function ReplayAll(m: Store, rs: seq<Record>, now: int): Store {
    if rs == [] then m else ReplayOne(ReplayAll(m, rs[..|rs| - 1], now), rs[|rs| - 1], now)
  }

  // ----- The last effective record decides -----

  /** Index of the last record for k that a replay at now applies, or -1. */
  function LastEffective(rs: seq<Record>, k: Key, now: int): (i: int)
    ensures -1 <= i < |rs|
    ensures i >= 0 ==> rs[i].key == k && Effective(rs[i], now)
    ensures forall j :: i < j < |rs| ==> !(rs[j].key == k && Effective(rs[j], now))
  {
    if rs == [] then -1
    else if rs[|rs| - 1].key == k && Effective(rs[|rs| - 1], now) then |rs| - 1
    else LastEffective(rs[..|rs| - 1], k, now)
  }

  function ItemOf(r: Record): Option<Item> {
    if r.ttl == TOMBSTONE then None else Some(Item(r.value, r.ttl))
  }

  lemma {:induction false} LastWriter(m: Store, rs: seq<Record>, k: Key, now: int)
    ensures var i := LastEffective(rs, k, now);
            Lookup(ReplayAll(m, rs, now), k) == if i < 0 then Lookup(m, k) else ItemOf(rs[i])
  {
    if rs != [] { LastWriter(m, rs[..|rs| - 1], k, now); }
  }

  /** Earlier than every deadline a record can carry, so nothing has expired. */
  const DAWN: int := -I63 - 1

  predicate AllEncodable(rs: seq<Record>) { forall i :: 0 <= i < |rs| ==> rs[i].Encodable() }

  predicate NoneExpired(rs: seq<Record>, now: int) {
    forall i :: 0 <= i < |rs| ==> Effective(rs[i], now)
  }

  /** With no deadline passed, replay rebuilds the live map itself. */
  lemma {:induction false} ReplayIsLive(rs: seq<Record>, now: int)
    requires NoneExpired(rs, now)
    ensures ReplayAll(map[], rs, now) == Live(rs)
  {
    if rs != [] {
      assert Effective(rs[|rs| - 1], now);
      ReplayIsLive(rs[..|rs| - 1], now);
    }
  }

  lemma SameStore(a: Store, b: Store)
    requires forall k :: Lookup(a, k) == Lookup(b, k)
    ensures a == b
  {
    forall k ensures k in a <==> k in b { assert Lookup(a, k) == Lookup(b, k); }
    forall k | k in a ensures a[k] == b[k] { assert Lookup(a, k) == Lookup(b, k); }
  }

  lemma VisibleLookup(m: Store, now: int, k: Key)
    ensures Lookup(VisibleAt(m, now), k)
         == (match Lookup(m, k) case None => None case Some(it) => if Visible(it, now) then Some(it) else None)
  {}

  // ----- What is visible as time passes -----

  /** What is visible later is decided by what is visible now. */
  lemma VisibleLater(m: Store, now: int, later: int)
    requires now <= later
    ensures VisibleAt(VisibleAt(m, now), later) == VisibleAt(m, later)
  {}

  lemma VisibleEffect(a: Store, b: Store, r: Record, now: int)
    requires VisibleAt(a, now) == VisibleAt(b, now)
    ensures VisibleAt(Effect(a, r), now) == VisibleAt(Effect(b, r), now)
  {
    forall k ensures Lookup(VisibleAt(Effect(a, r), now), k) == Lookup(VisibleAt(Effect(b, r), now), k) {
      assert Lookup(VisibleAt(a, now), k) == Lookup(VisibleAt(b, now), k);
      VisibleLookup(a, now, k);
      VisibleLookup(b, now, k);
      VisibleLookup(Effect(a, r), now, k);
      VisibleLookup(Effect(b, r), now, k);
    }
    SameStore(VisibleAt(Effect(a, r), now), VisibleAt(Effect(b, r), now));
  }

  lemma VisibleEvict(m: Store, k: Key, now: int)
    requires k in m && !Visible(m[k], now)
    ensures VisibleAt(m - {k}, now) == VisibleAt(m, now)
  {}

  // ----- Recovered against live -----

  /**
   Key k survives a restart at now: its last record is one replay applies, or its
   last record has already expired and no older value comes back in its place.
   */
  predicate KeyRecovers(rs: seq<Record>, k: Key, now: int) {
    var last := LastEffective(rs, k, DAWN);
    var used := LastEffective(rs, k, now);
    last == used || (last >= 0 && rs[last].ttl < now && (used < 0 || rs[used].ttl == TOMBSTONE))
  }

  lemma RecoversKey(rs: seq<Record>, k: Key, now: int)
    requires AllEncodable(rs)
    ensures Lookup(VisibleAt(ReplayAll(map[], rs, now), now), k) == Lookup(VisibleAt(Live(rs), now), k)
       <==> KeyRecovers(rs, k, now)
  {
    var last, used := LastEffective(rs, k, DAWN), LastEffective(rs, k, now);
    assert NoneExpired(rs, DAWN);
    ReplayIsLive(rs, DAWN);
    LastWriter(map[], rs, k, DAWN);
    LastWriter(map[], rs, k, now);
    VisibleLookup(ReplayAll(map[], rs, now), now, k);
    VisibleLookup(Live(rs), now, k);
    assert used >= 0 ==> Effective(rs[used], DAWN);
    if last != used {
      assert !Effective(rs[last], now);
    }
  }

  /**
   The recovered map shows exactly what the live map showed if and only if every
   logged key recovers. The one failure is a SET that expired over an older value
   (or expires at this very instant): replay skips it and leaves the older value.
   */
  lemma RecoveryExact(rs: seq<Record>, now: int)
    requires AllEncodable(rs)
    ensures VisibleAt(ReplayAll(map[], rs, now), now) == VisibleAt(Live(rs), now)
       <==> forall i :: 0 <= i < |rs| ==> KeyRecovers(rs, rs[i].key, now)
  {
    var a, b := VisibleAt(ReplayAll(map[], rs, now), now), VisibleAt(Live(rs), now);
    forall k ensures Lookup(a, k) == Lookup(b, k) <==> KeyRecovers(rs, k, now) {
      RecoversKey(rs, k, now);
    }
    if forall i :: 0 <= i < |rs| ==> KeyRecovers(rs, rs[i].key, now) {
      forall k ensures Lookup(a, k) == Lookup(b, k) {
        var last := LastEffective(rs, k, DAWN);
        if last >= 0 { assert KeyRecovers(rs, rs[last].key, now); }
      }
      SameStore(a, b);
    }
  }

  /** SET a 1; SET a 2 with a deadline; restart after it: the key is gone live, and 1 after recovery. */
  lemma ExpiredOverwriteResurrects(a: Key, older: seq<byte>, newer: seq<byte>, deadline: int, now: int)
    requires 0 < deadline < now
    ensures var rs := [Record(a, older, 0), Record(a, newer, deadline)];
            && a !in VisibleAt(Live(rs), now)
            && Lookup(VisibleAt(ReplayAll(map[], rs, now), now), a) == Some(Item(older, 0))
  {
    var rs := [Record(a, older, 0), Record(a, newer, deadline)];
    assert rs[..1] == [rs[0]] && rs[..1][..0] == [];
    assert Live(rs[..1]) == map[a := Item(older, 0)];
    assert Live(rs) == map[a := Item(newer, deadline)];
    assert ReplayAll(map[], rs[..1], now) == map[a := Item(older, 0)];
  }

  /** A SET whose deadline is this very instant: reads still show it, and a restart has lost it. */
  lemma DeadlineInstantLost(a: Key, value: seq<byte>, now: int)
    requires 0 < now
    ensures var rs := [Record(a, value, now)];
            && Lookup(VisibleAt(Live(rs), now), a) == Some(Item(value, now))
            && a !in VisibleAt(ReplayAll(map[], rs, now), now)
  {
    var rs := [Record(a, value, now)];
    assert rs[..0] == [] && Live(rs) == map[a := Item(value, now)];
  }

  // ----- Overlapping a snapshot -----

  /**
   Overlapping replay is idempotent: over a snapshot taken after p records, replaying
   from any q <= p on gives the map of the whole log.
   */
  lemma OverlapIdempotent(rs: seq<Record>, p: nat, q: nat, now: int)
    requires q <= p <= |rs| && NoneExpired(rs, now)
    ensures ReplayAll(Live(rs[..p]), rs[q..], now) == Live(rs)
  {
    var got := ReplayAll(Live(rs[..p]), rs[q..], now);
    forall k ensures Lookup(got, k) == Lookup(Live(rs), k) {
      ReplayIsLive(rs, now);
      ReplayIsLive(rs[..p], now);
      LastWriter(map[], rs, k, now);
      LastWriter(map[], rs[..p], k, now);
      LastWriter(Live(rs[..p]), rs[q..], k, now);
      LastInSuffix(rs, q, k, now);
      LastInPrefix(rs, p, k, now);
    }
    SameStore(got, Live(rs));
  }

  lemma LastInSuffix(rs: seq<Record>, q: nat, k: Key, now: int)
    requires q <= |rs|
    ensures var i := LastEffective(rs, k, now);
            LastEffective(rs[q..], k, now) == if i >= q then i - q else -1
  {
    var i, j := LastEffective(rs, k, now), LastEffective(rs[q..], k, now);
    if i >= q { assert rs[q..][i - q] == rs[i]; }
    if j >= 0 { assert rs[q..][j] == rs[q + j]; }
  }

  lemma LastInPrefix(rs: seq<Record>, p: nat, k: Key, now: int)
    requires p <= |rs|
    ensures var i := LastEffective(rs, k, now);
            i < p ==> LastEffective(rs[..p], k, now) == i
  {
    var i, j := LastEffective(rs, k, now), LastEffective(rs[..p], k, now);
    if i < p {
      if i >= 0 { assert rs[..p][i] == rs[i]; }
      if j >= 0 { assert rs[..p][j] == rs[j]; }
    }
  }

  /** Every entry of m was written by some record of rs, deadline included. */
  predicate Justified(m: Store, rs: seq<Record>) {
    forall k :: k in m ==>
      exists i :: 0 <= i < |rs| && rs[i] == Record(k, m[k].value, m[k].exp) && rs[i].ttl != TOMBSTONE
  }

  /** Snapshot reading keeps the entries whose deadline is still ahead. */
  function Unexpired(m: Store, now: int): Store {
    map k | k in m && (m[k].exp == 0 || now < m[k].exp) :: m[k]
  }

  /**
   When nothing is cut from the log, as Snapshot leaves it, loading any snapshot the
   log justifies first changes nothing, expired deadlines or not.
   */
  lemma SnapshotUnderWholeLog(m: Store, rs: seq<Record>, now: int)
    requires Justified(m, rs)
    ensures ReplayAll(Unexpired(m, now), rs, now) == ReplayAll(map[], rs, now)
  {
    var got, want := ReplayAll(Unexpired(m, now), rs, now), ReplayAll(map[], rs, now);
    forall k ensures Lookup(got, k) == Lookup(want, k) {
      LastWriter(Unexpired(m, now), rs, k, now);
      LastWriter(map[], rs, k, now);
      if LastEffective(rs, k, now) < 0 && k in Unexpired(m, now) {
        var i :| 0 <= i < |rs| && rs[i] == Record(k, m[k].value, m[k].exp);
        assert Effective(rs[i], now);
        assert false;
      }
    }
    SameStore(got, want);
  }

  // ----- Cutting the tail instead -----

  /** The log kept r of the p records under the snapshot: key k keeps its value. */
  predicate TailCutKeeps(rs: seq<Record>, r: nat, k: Key, now: int)
    requires r <= |rs|
  {
    var kept := LastEffective(rs[..r], k, now);
    kept < 0 || ItemOf(rs[kept]) == ItemOf(rs[LastEffective(rs, k, now)])
  }

  /**
   TruncateWALTo keeps the bytes before its offset, so cutting inside the log replays
   the oldest records over the newer snapshot. The result is the live map if and only
   if, for every key the kept records write, their last effect on it is the final one.
   Keeping nothing and keeping everything both satisfy this.
   */
  lemma TailCutExact(rs: seq<Record>, r: nat, now: int)
    requires r <= |rs| && NoneExpired(rs, now)
    ensures ReplayAll(Live(rs), rs[..r], now) == Live(rs)
       <==> forall i :: 0 <= i < r ==> TailCutKeeps(rs, r, rs[i].key, now)
    ensures r == 0 || r == |rs| ==> ReplayAll(Live(rs), rs[..r], now) == Live(rs)
  {
    var got := ReplayAll(Live(rs), rs[..r], now);
    forall k ensures Lookup(got, k) == Lookup(Live(rs), k) <==> TailCutKeeps(rs, r, k, now) {
      ReplayIsLive(rs, now);
      LastWriter(map[], rs, k, now);
      LastWriter(Live(rs), rs[..r], k, now);
      var kept := LastEffective(rs[..r], k, now);
      if kept >= 0 { assert rs[..r][kept] == rs[kept]; }
    }
    if forall i :: 0 <= i < r ==> TailCutKeeps(rs, r, rs[i].key, now) {
      forall k ensures Lookup(got, k) == Lookup(Live(rs), k) {
        var kept := LastEffective(rs[..r], k, now);
        if kept >= 0 { assert rs[..r][kept] == rs[kept]; assert TailCutKeeps(rs, r, rs[kept].key, now); }
      }
      SameStore(got, Live(rs));
    }
    if r == |rs| { assert rs[..r] == rs; }
  }

  /** SET a 1; SET a 2; snapshot; cut after the first record: recovery shows 1 again. */
  lemma TailCutLosesWrite(a: Key, older: seq<byte>, newer: seq<byte>, now: int)
    requires older != newer
    ensures var rs := [Record(a, older, 0), Record(a, newer, 0)];
            && Lookup(Live(rs), a) == Some(Item(newer, 0))
            && Lookup(ReplayAll(Live(rs), rs[..1], now), a) == Some(Item(older, 0))
  {
    var rs := [Record(a, older, 0), Record(a, newer, 0)];
    assert rs[..1] == [rs[0]] && rs[..1][..0] == [];
    assert ReplayAll(Live(rs), rs[..1][..0], now) == Live(rs);
  }
}
