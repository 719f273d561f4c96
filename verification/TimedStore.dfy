/**
 The sharded, lazily evicting engine and the single timed map it stands for
 (internal/storage/engine.go, internal/shard/runner.go, internal/router/router.go,
 internal/command/handlers.go). Shard holds what one engine holds: the item map and
 the wheel with its possibly stale entries.
 */
module TimedStore {
  import opened Bytes
  import opened Aead
  import opened Replay
  import W = Wheel

  datatype Shard = Shard(items: Store, wheel: W.Wheel<Key>)

  /** Settings shared by the shards: at-rest cipher (None is pass-through) and wheel interval. */
  datatype Config = Config(cipher: Option<Cipher>, interval: nat) {
    ghost predicate Valid() { interval > 0 && (cipher.Some? ==> cipher.value.Lawful()) }

    function Seal(nonce: seq<byte>, value: seq<byte>): seq<byte> {
      match cipher case None => value case Some(c) => c.Encrypt(nonce, value)
    }

    function Unseal(stored: seq<byte>): Option<seq<byte>> {
      match cipher case None => Some(stored) case Some(c) => c.Decrypt(stored)
    }

    lemma UnsealSeal(nonce: seq<byte>, value: seq<byte>)
      requires Valid() && |nonce| == NONCE
      ensures Unseal(Seal(nonce, value)) == Some(value)
    {
      if cipher.Some? { cipher.value.DecryptEncrypt(nonce, value); }
    }
  }

  // ----- One shard -----

  /** deleteIfExpired. */
  function Evict(items: Store, k: Key, now: int): Store {
    if k in items && !Visible(items[k], now) then items - {k} else items
  }

  function EvictAll(items: Store, ks: seq<Key>, now: int): Store {
    if ks == [] then items else Evict(EvictAll(items, ks[..|ks| - 1], now), ks[|ks| - 1], now)
  }

  function Deadline(ttl: int, now: int): int { if ttl > 0 then now + ttl else 0 }

  /** Engine.Set, SetFromBuffer and SetRaw below the memory ceiling. */
  function Put(c: Config, s: Shard, k: Key, stored: seq<byte>, ttl: int, now: int): (s': Shard)
    requires c.interval > 0 && s.wheel.Valid()
    ensures s'.wheel.Valid() && |s'.wheel.slots| == |s.wheel.slots|
  {
    Shard(s.items[k := Item(stored, Deadline(ttl, now))],
          if ttl > 0 then s.wheel.Register(k, W.Steps(ttl, c.interval, |s.wheel.slots|)) else s.wheel)
  }

  /** Engine.Get: an expired item is evicted and reported absent. */
  function Answer(c: Config, s: Shard, k: Key, now: int): Option<seq<byte>> {
    if k in s.items && Visible(s.items[k], now) then c.Unseal(s.items[k].value) else None
  }

  function AfterGet(s: Shard, k: Key, now: int): Shard { s.(items := Evict(s.items, k, now)) }

  /** Engine.Delete. */
  function Deleted(s: Shard, k: Key, now: int): bool { k in s.items && Visible(s.items[k], now) }

  function AfterDelete(s: Shard, k: Key): Shard { s.(items := s.items - {k}) }

  /** One wheel tick: the batch leaves the wheel and each of its keys is evicted if expired. */
  function AfterTick(s: Shard, now: int): (s': Shard)
    requires s.wheel.Valid()
    ensures s'.wheel.Valid() && |s'.wheel.slots| == |s.wheel.slots|
  {
    Shard(EvictAll(s.items, s.wheel.slots[s.wheel.cur], now), s.wheel.Advance())
  }

  // ----- Routing -----

  function Mix(h: bv32, b: byte): bv32 { (h ^ (b as bv32)) * 16777619 }

  /** hashKey: 32-bit FNV-1a. */
  function Fnv(key: Key): bv32 {
    if key == [] then 2166136261 else Mix(Fnv(key[..|key| - 1]), key[|key| - 1])
  }

  method HashKey(key: Key) returns (h: bv32)
    ensures h == Fnv(key)
  {
    hide Mix;
    h := 2166136261;
    var i := 0;
    while i < |key|
      invariant 0 <= i <= |key| && h == Fnv(key[..i])
    {
      h := Mix(h, key[i]);
      i := i + 1;
      assert key[..i][..i - 1] == key[..i - 1];
    }
    assert key[..i] == key;
  }

  function Route(key: Key, numShards: nat): (i: nat)
    requires numShards > 0
    ensures i < numShards
  {
    (Fnv(key) as nat) % numShards
  }

  // ----- Commands -----

  /** nonce is the randomness a sealed SET draws. */
  datatype Cmd =
    | Get(key: Key)
    | Set(key: Key, value: seq<byte>, ttl: int, nonce: seq<byte>)
    | Del(keys: seq<Key>)

  datatype Reply = Bulk(value: Option<seq<byte>>) | Ok | Int(n: nat)

  datatype Event = Run(cmd: Cmd, now: int) | Tick(shard: nat, now: int)

  type Shards = seq<Shard>

  ghost predicate Valid(c: Config, ss: Shards) {
    c.Valid() && |ss| > 0 && forall i :: 0 <= i < |ss| ==> ss[i].wheel.Valid()
  }

  /** Deleting keys one after the other, counting the hits. */
  function DelAll(ss: Shards, ks: seq<Key>, now: int): (r: (Shards, nat))
    requires |ss| > 0
    ensures |r.0| == |ss|
    ensures forall i :: 0 <= i < |ss| ==> r.0[i].wheel == ss[i].wheel
  {
    if ks == [] then (ss, 0)
    else
      var (ss1, n) := DelAll(ss, ks[..|ks| - 1], now);
      var k := ks[|ks| - 1];
      var i := Route(k, |ss|);
      (ss1[i := AfterDelete(ss1[i], k)], if Deleted(ss1[i], k, now) then n + 1 else n)
  }

  function Exec(c: Config, ss: Shards, cmd: Cmd, now: int): (r: (Shards, Reply))
    requires c.interval > 0 && |ss| > 0 && forall i :: 0 <= i < |ss| ==> ss[i].wheel.Valid()
    ensures |r.0| == |ss| && forall i :: 0 <= i < |ss| ==> r.0[i].wheel.Valid()
  {
    match cmd
    case Get(k) =>
      var i := Route(k, |ss|);
      (ss[i := AfterGet(ss[i], k, now)], Bulk(Answer(c, ss[i], k, now)))
    case Set(k, v, ttl, nonce) =>
      // Execute reads the key before it writes it.
      var i := Route(k, |ss|);
      (ss[i := Put(c, AfterGet(ss[i], k, now), k, c.Seal(nonce, v), ttl, now)], Ok)
    case Del(ks) =>
      var (ss', n) := DelAll(ss, ks, now);
      (ss', Int(n))
  }

  // ----- The single timed map -----

  /** A plain map from key to value and deadline, with no eviction at all. */
  function RefAnswer(m: Store, k: Key, now: int): Option<seq<byte>> {
    if k in m && Visible(m[k], now) then Some(m[k].value) else None
  }

  function RefExec(m: Store, cmd: Cmd, now: int): (Store, Reply) {
    match cmd
    case Get(k) => (m, Bulk(RefAnswer(m, k, now)))
    case Set(k, v, ttl, _) => (m[k := Item(v, Deadline(ttl, now))], Ok)
    case Del(ks) =>
      (m - (set k | k in ks), Int(|set k | k in ks && k in m && Visible(m[k], now)|))
  }

  /** The item the shards hold for k. */
  function Held(ss: Shards, k: Key): Option<Item>
    requires |ss| > 0
  {
    Lookup(ss[Route(k, |ss|)].items, k)
  }

  /** Key by key, the shards hold the map's item, sealed, or have dropped one already expired. */
  predicate Stands(c: Config, held: Option<Item>, spec: Option<Item>, now: int) {
    match held
    case Some(it) => spec.Some? && c.Unseal(it.value) == Some(spec.value.value) && it.exp == spec.value.exp
    case None => spec.Some? ==> !Visible(spec.value, now)
  }

  ghost predicate Refines(c: Config, ss: Shards, m: Store, now: int) {
    Valid(c, ss) && forall k :: Stands(c, Held(ss, k), Lookup(m, k), now)
  }

  lemma RefinesLater(c: Config, ss: Shards, m: Store, now: int, later: int)
    requires Refines(c, ss, m, now) && now <= later
    ensures Refines(c, ss, m, later)
  {
    forall k ensures Stands(c, Held(ss, k), Lookup(m, k), later) {
      assert Stands(c, Held(ss, k), Lookup(m, k), now);
    }
  }

  /** Changing one shard in a way that changes no key but k. */
  lemma RefinesAt(c: Config, ss: Shards, s: Shard, m: Store, m': Store, k: Key, now: int)
    requires Refines(c, ss, m, now) && s.wheel.Valid()
    requires forall k' :: k' != k ==> Lookup(s.items, k') == Lookup(ss[Route(k, |ss|)].items, k')
    requires forall k' :: k' != k ==> Lookup(m', k') == Lookup(m, k')
    requires Stands(c, Lookup(s.items, k), Lookup(m', k), now)
    ensures Refines(c, ss[Route(k, |ss|) := s], m', now)
  {
    var ss' := ss[Route(k, |ss|) := s];
    forall k' ensures Stands(c, Held(ss', k'), Lookup(m', k'), now) {
      assert Stands(c, Held(ss, k'), Lookup(m, k'), now);
    }
  }

  lemma {:induction false} EvictAllKeeps(items: Store, ks: seq<Key>, now: int, k: Key)
    ensures var items' := EvictAll(items, ks, now);
            || Lookup(items', k) == Lookup(items, k)
            || (Lookup(items', k) == None && k in items && !Visible(items[k], now))
  {
    if ks != [] { EvictAllKeeps(items, ks[..|ks| - 1], now, k); }
  }

  /** A tick of any shard, with whatever its slot holds, drops only expired items. */
  lemma TickRefines(c: Config, ss: Shards, m: Store, i: nat, now: int)
    requires Refines(c, ss, m, now) && i < |ss|
    ensures Refines(c, ss[i := AfterTick(ss[i], now)], m, now)
  {
    var ss' := ss[i := AfterTick(ss[i], now)];
    forall k ensures Stands(c, Held(ss', k), Lookup(m, k), now) {
      assert Stands(c, Held(ss, k), Lookup(m, k), now);
      EvictAllKeeps(ss[i].items, ss[i].wheel.slots[ss[i].wheel.cur], now, k);
    }
  }

  lemma HeldVisible(c: Config, ss: Shards, m: Store, k: Key, now: int)
    requires Refines(c, ss, m, now)
    ensures var s := ss[Route(k, |ss|)];
            && Deleted(s, k, now) == (k in m && Visible(m[k], now))
            && Answer(c, s, k, now) == RefAnswer(m, k, now)
  {
    assert Stands(c, Held(ss, k), Lookup(m, k), now);
  }

  lemma DeleteRefines(c: Config, ss: Shards, m: Store, k: Key, now: int)
    requires Refines(c, ss, m, now)
    ensures Refines(c, ss[Route(k, |ss|) := AfterDelete(ss[Route(k, |ss|)], k)], m - {k}, now)
  {
    RefinesAt(c, ss, AfterDelete(ss[Route(k, |ss|)], k), m, m - {k}, k, now);
  }

  function SetOf(ks: seq<Key>): set<Key> { set k | k in ks }

  function VisibleKeys(m: Store, ks: seq<Key>, now: int): set<Key> {
    set k | k in ks && k in m && Visible(m[k], now)
  }

  /** DEL counts each distinct visible key once, however often it is named. */
  lemma {:induction false} DelRefines(c: Config, ss: Shards, m: Store, ks: seq<Key>, now: int)
    requires Refines(c, ss, m, now)
    ensures Refines(c, DelAll(ss, ks, now).0, m - SetOf(ks), now)
    ensures DelAll(ss, ks, now).1 == |VisibleKeys(m, ks, now)|
  {
    hide Stands, Route, SetOf, VisibleKeys;
    if ks == [] {
      NoneNamed(m, now);
    } else {
      var init, k := ks[..|ks| - 1], ks[|ks| - 1];
      DelRefines(c, ss, m, init, now);
      var (ss1, n) := DelAll(ss, init, now);
      var m1 := m - SetOf(init);
      HeldVisible(c, ss1, m1, k, now);
      OneMoreNamed(m, ks, now);
      DeleteRefines(c, ss1, m1, k, now);
    }
  }

  lemma NoneNamed(m: Store, now: int)
    ensures m - SetOf([]) == m && |VisibleKeys(m, [], now)| == 0
  {
    assert VisibleKeys(m, [], now) == {};
  }

  /** A key named again is already gone from the map and adds nothing to the count. */
  lemma OneMoreNamed(m: Store, ks: seq<Key>, now: int)
    requires ks != []
    ensures var init, k := ks[..|ks| - 1], ks[|ks| - 1];
            var m1 := m - SetOf(init);
            && m - SetOf(ks) == m1 - {k}
            && |VisibleKeys(m, ks, now)| ==
               |VisibleKeys(m, init, now)| + if k in m1 && Visible(m1[k], now) then 1 else 0
  {
    var init, k := ks[..|ks| - 1], ks[|ks| - 1];
    var m1 := m - SetOf(init);
    assert SetOf(ks) == SetOf(init) + {k};
    if k in m1 && Visible(m1[k], now) {
      assert VisibleKeys(m, ks, now) == VisibleKeys(m, init, now) + {k};
    } else {
      assert VisibleKeys(m, ks, now) == VisibleKeys(m, init, now);
    }
  }

  lemma ExecRefines(c: Config, ss: Shards, m: Store, cmd: Cmd, now: int)
    requires Refines(c, ss, m, now)
    requires cmd.Set? ==> |cmd.nonce| == NONCE
    ensures Refines(c, Exec(c, ss, cmd, now).0, RefExec(m, cmd, now).0, now)
    ensures Exec(c, ss, cmd, now).1 == RefExec(m, cmd, now).1
  {
    match cmd
    case Get(k) =>
      HeldVisible(c, ss, m, k, now);
      assert Stands(c, Held(ss, k), Lookup(m, k), now);
      RefinesAt(c, ss, AfterGet(ss[Route(k, |ss|)], k, now), m, m, k, now);
    case Set(k, v, ttl, nonce) =>
      c.UnsealSeal(nonce, v);
      var s := ss[Route(k, |ss|)];
      RefinesAt(c, ss, Put(c, AfterGet(s, k, now), k, c.Seal(nonce, v), ttl, now),
                m, m[k := Item(v, Deadline(ttl, now))], k, now);
    case Del(ks) =>
      DelRefines(c, ss, m, ks, now);
      assert SetOf(ks) == set k | k in ks;
      assert VisibleKeys(m, ks, now) == set k | k in ks && k in m && Visible(m[k], now);
  }

  // ----- Whole histories -----

  function StepShards(c: Config, ss: Shards, e: Event): (r: (Shards, seq<Reply>))
    requires c.interval > 0 && |ss| > 0 && forall i :: 0 <= i < |ss| ==> ss[i].wheel.Valid()
    ensures |r.0| == |ss| && forall i :: 0 <= i < |ss| ==> r.0[i].wheel.Valid()
  {
    match e
    case Run(cmd, now) => var (ss', a) := Exec(c, ss, cmd, now); (ss', [a])
    case Tick(i, now) => if i < |ss| then (ss[i := AfterTick(ss[i], now)], []) else (ss, [])
  }

  function RunShards(c: Config, ss: Shards, es: seq<Event>): (r: (Shards, seq<Reply>))
    requires c.interval > 0 && |ss| > 0 && forall i :: 0 <= i < |ss| ==> ss[i].wheel.Valid()
    ensures |r.0| == |ss| && forall i :: 0 <= i < |ss| ==> r.0[i].wheel.Valid()
  {
    if es == [] then (ss, [])
    else
      var (ss1, as1) := RunShards(c, ss, es[..|es| - 1]);
      var (ss2, as2) := StepShards(c, ss1, es[|es| - 1]);
      (ss2, as1 + as2)
  }

  /** The reference ignores ticks altogether. */
  function RunRef(m: Store, es: seq<Event>): (Store, seq<Reply>) {
    if es == [] then (m, [])
    else
      var (m1, as1) := RunRef(m, es[..|es| - 1]);
      match es[|es| - 1]
      case Run(cmd, now) => var (m2, a) := RefExec(m1, cmd, now); (m2, as1 + [a])
      case Tick(_, _) => (m1, as1)
  }

  predicate WellTimed(es: seq<Event>) {
    && (forall i, j :: 0 <= i < j < |es| ==> es[i].now <= es[j].now)
    && (forall i :: 0 <= i < |es| ==> es[i].Run? && es[i].cmd.Set? ==> |es[i].cmd.nonce| == NONCE)
  }

  function Clock(es: seq<Event>): int { if es == [] then 0 else es[|es| - 1].now }

  lemma {:induction false} RunRefines(c: Config, ss: Shards, es: seq<Event>)
    requires Refines(c, ss, map[], 0) && WellTimed(es)
    ensures Refines(c, RunShards(c, ss, es).0, RunRef(map[], es).0, Clock(es))
    ensures RunShards(c, ss, es).1 == RunRef(map[], es).1
  {
    hide Stands, Exec, RefExec, AfterTick;
    if es != [] {
      var init, e := es[..|es| - 1], es[|es| - 1];
      RunRefines(c, ss, init);
      var ss1, m1 := RunShards(c, ss, init).0, RunRef(map[], init).0;
      if init == [] { RefinesAnyTime(c, ss, e.now); } else { RefinesLater(c, ss1, m1, Clock(init), e.now); }
      match e
      case Run(cmd, now) => ExecRefines(c, ss1, m1, cmd, now);
      case Tick(i, now) => if i < |ss| { TickRefines(c, ss1, m1, i, now); }
    }
  }

  /** Over the empty map the clock does not matter. */
  lemma RefinesAnyTime(c: Config, ss: Shards, now: int)
    requires Refines(c, ss, map[], 0)
    ensures Refines(c, ss, map[], now)
  {
    forall k ensures Stands(c, Held(ss, k), Lookup(map[], k), now) {
      assert Stands(c, Held(ss, k), Lookup(map[], k), 0);
    }
  }

  /**
   Behind the hash router, any number of empty shards with any wheels, lazy eviction
   and any schedule of ticks answers every history of GET, SET and DEL on a clock that
   does not run backwards exactly as one timed map without eviction does.
   */
  lemma ShardsRefineOneTimedMap(c: Config, ss: Shards, es: seq<Event>)
    requires Valid(c, ss) && WellTimed(es)
    requires forall i :: 0 <= i < |ss| ==> ss[i].items == map[]
    ensures RunShards(c, ss, es).1 == RunRef(map[], es).1
  {
    RunRefines(c, ss, es);
  }

  /** A SET moves the deadline: a later tick that fires a stale entry leaves the key alone. */
  lemma RefreshedKeyStays(c: Config, s: Shard, k: Key, stored: seq<byte>, ttl: int, now: int, later: int)
    requires c.Valid() && s.wheel.Valid() && now <= later
    requires ttl <= 0 || later <= now + ttl
    ensures var s' := AfterTick(Put(c, s, k, stored, ttl, now), later);
            k in s'.items && s'.items[k] == Item(stored, Deadline(ttl, now))
  {
    var p := Put(c, s, k, stored, ttl, now);
    EvictAllKeeps(p.items, p.wheel.slots[p.wheel.cur], later, k);
  }
}
