/**
 The memory ceiling over whole histories (internal/storage/engine.go): with entries of the sizes
 the log can hold, an engine never stores more than its ceiling, and only a ceiling within one
 entry of 2^64 can be passed.
 */
module Capacity {
  import opened Bytes
  import opened Aead
  import opened Replay
  import opened TimedStore
  import opened Engine
  import W = Wheel

  /** The calls that change an engine, each with its time. */
  datatype Call =
    | SetCall(key: Key, value: seq<byte>, nonce: seq<byte>, ttl: int, now: int)
    | SetRawCall(key: Key, stored: seq<byte>, ttl: int, now: int)
    | SetFromBufferCall(buf: seq<byte>, keyLen: int, nonce: seq<byte>, ttl: int, now: int)
    | GetCall(key: Key, now: int)
    | DeleteCall(key: Key, now: int)
    | TickCall(now: int)

  /** Keys and values shorter than 2^32 bytes, as in a log record; a sealed value is longer by nonce and tag. */
  predicate Small(call: Call) {
    match call
    case SetCall(key, value, nonce, _, _) => |key| < U32 && |value| < U32 && |nonce| == NONCE
    case SetRawCall(key, stored, _, _) => |key| < U32 && |stored| < NONCE + U32 + TAG
    case SetFromBufferCall(buf, _, nonce, _, _) => |buf| < U32 + U32 && |nonce| == NONCE
    case _ => true
  }

  // ----- Calls on values -----

  ghost function Stored(c: Config, max: nat, s: Shard, key: Key, stored: seq<byte>, ttl: int, now: int): (t: Shard)
    requires c.interval > 0 && s.wheel.Valid()
    ensures t.wheel.Valid()
  {
    if Admits(max, TotalBytes(s.items) % U64, |key| + |stored|) then Put(c, s, key, stored, ttl, now) else s
  }

  ghost function Called(c: Config, max: nat, s: Shard, call: Call): (t: Shard)
    requires c.interval > 0 && s.wheel.Valid()
    ensures t.wheel.Valid()
  {
    match call
    case SetCall(key, value, nonce, ttl, now) => Stored(c, max, s, key, c.Seal(nonce, value), ttl, now)
    case SetRawCall(key, stored, ttl, now) => Stored(c, max, s, key, stored, ttl, now)
    case SetFromBufferCall(buf, keyLen, nonce, ttl, now) =>
      if 0 <= keyLen <= |buf| then Stored(c, max, s, buf[..keyLen], c.Seal(nonce, buf[keyLen..]), ttl, now) else s
    case GetCall(key, now) => AfterGet(s, key, now)
    case DeleteCall(key, _) => AfterDelete(s, key)
    case TickCall(now) => AfterTick(s, now)
  }

  ghost function CallAll(c: Config, max: nat, slots: nat, calls: seq<Call>): (s: Shard)
    requires c.interval > 0 && 1 <= slots <= W.MAX_SLOTS
    ensures s.wheel.Valid()
  {
    if calls == [] then Shard(map[], W.Wheel(seq(slots, _ => []), 0, 0, 0))
    else Called(c, max, CallAll(c, max, slots, calls[..|calls| - 1]), calls[|calls| - 1])
  }

  /** The engine's methods do what the calls say. */
  method Perform(engine: Engine, call: Call)
    requires engine.Valid() && Small(call)
    modifies engine.Repr()
    ensures engine.Valid()
    ensures engine.State() == Called(engine.config, engine.maxBytes, old(engine.State()), call)
  {
    hide TotalBytes, Admits, Put, AfterTick, AfterGet, AfterDelete;
    match call {
      case SetCall(key, value, nonce, ttl, now) => var _ := engine.Set(key, value, ttl, now, nonce);
      case SetRawCall(key, stored, ttl, now) => var _ := engine.SetRaw(key, stored, ttl, now);
      case SetFromBufferCall(buf, keyLen, nonce, ttl, now) =>
        var _ := engine.SetFromBuffer(buf, keyLen, ttl, now, nonce);
      case GetCall(key, now) => var _ := engine.Get(key, now);
      case DeleteCall(key, now) => var _ := engine.Delete(key, now);
      case TickCall(now) => engine.Tick(now);
    }
  }

  // ----- The ceiling holds -----

  /** An entry of the log's sizes, sealed or not, is below this. */
  const ROOM: nat := 0x4_0000_0000

  lemma StoredKept(c: Config, max: nat, s: Shard, key: Key, stored: seq<byte>, ttl: int, now: int)
    requires c.interval > 0 && s.wheel.Valid() && 0 < max <= U64 - ROOM && |key| + |stored| < ROOM
    requires TotalBytes(s.items) <= max
    ensures TotalBytes(Stored(c, max, s, key, stored, ttl, now).items) <= max
  {
    hide TotalBytes, Admits;
    if Admits(max, TotalBytes(s.items) % U64, |key| + |stored|) {
      CeilingKept(s.items, key, Item(stored, Deadline(ttl, now)), max);
    }
  }

  lemma FewerBytes(m: Store, k: Key)
    ensures TotalBytes(m - {k}) <= TotalBytes(m)
  {
    hide TotalBytes;
    if k in m { TotalWithout(m, k); } else { assert m - {k} == m; }
  }

  lemma {:induction false} EvictedBytes(m: Store, ks: seq<Key>, now: int)
    ensures TotalBytes(EvictAll(m, ks, now)) <= TotalBytes(m)
  {
    hide TotalBytes;
    if ks != [] {
      EvictedBytes(m, ks[..|ks| - 1], now);
      FewerBytes(EvictAll(m, ks[..|ks| - 1], now), ks[|ks| - 1]);
    }
  }

  lemma SealedSize(c: Config, nonce: seq<byte>, value: seq<byte>)
    requires c.Valid() && |nonce| == NONCE
    ensures |c.Seal(nonce, value)| <= NONCE + |value| + TAG
  {
    if c.cipher.Some? { c.cipher.value.DecryptEncrypt(nonce, value); }
  }

  lemma CallKept(c: Config, max: nat, s: Shard, call: Call)
    requires c.Valid() && s.wheel.Valid() && Small(call) && 0 < max <= U64 - ROOM && TotalBytes(s.items) <= max
    ensures TotalBytes(Called(c, max, s, call).items) <= max
  {
    hide TotalBytes, Stored;
    match call
    case SetCall(key, value, nonce, ttl, now) =>
      SealedSize(c, nonce, value);
      StoredKept(c, max, s, key, c.Seal(nonce, value), ttl, now);
    case SetRawCall(key, stored, ttl, now) => StoredKept(c, max, s, key, stored, ttl, now);
    case SetFromBufferCall(buf, keyLen, nonce, ttl, now) =>
      if 0 <= keyLen <= |buf| {
        SealedSize(c, nonce, buf[keyLen..]);
        StoredKept(c, max, s, buf[..keyLen], c.Seal(nonce, buf[keyLen..]), ttl, now);
      }
    case GetCall(key, _) => FewerBytes(s.items, key);
    case DeleteCall(key, _) => FewerBytes(s.items, key);
    case TickCall(now) => EvictedBytes(s.items, s.wheel.slots[s.wheel.cur], now);
  }

  /**
   Over every history of calls with keys and values below 2^32 bytes, and any ceiling that leaves
   2^34 bytes to 2^64, the bytes stored never pass the ceiling.
   */
  lemma {:induction false} CeilingHolds(c: Config, max: nat, slots: nat, calls: seq<Call>)
    requires c.Valid() && 1 <= slots <= W.MAX_SLOTS && 0 < max <= U64 - ROOM
    requires forall i :: 0 <= i < |calls| ==> Small(calls[i])
    ensures TotalBytes(CallAll(c, max, slots, calls).items) <= max
  {
    hide TotalBytes, Called, Small;
    if calls == [] {
      assert TotalBytes(map[]) == 0 by { NothingStored(); }
    } else {
      CeilingHolds(c, max, slots, calls[..|calls| - 1]);
      CallKept(c, max, CallAll(c, max, slots, calls[..|calls| - 1]), calls[|calls| - 1]);
    }
  }

  // ----- Near 2^64 it does not -----

  /** n entries, each of 2^32 - 1 bytes: keys of 0, 1, 2, ... zero bytes. */
  function Filled(n: nat): Store
    requires n <= U32
  {
    if n == 0 then map[] else Filled(n - 1)[Zeros(n - 1) := Item(Zeros(U32 - n), 0)]
  }

  /** Keys of zero bytes, all shorter than n, and values the log can hold. */
  predicate ZeroKeys(m: Store, n: nat) {
    forall k :: k in m ==> |k| < n && |m[k].value| < U32 && (k != [] ==> k[0] == 0)
  }

  function Zeros(n: nat): (s: seq<byte>)
    ensures |s| == n && (n > 0 ==> s[0] == 0)
  {
    seq(n, _ => 0)
  }

  lemma {:induction false} FilledBytes(n: nat)
    requires n <= U32
    ensures TotalBytes(Filled(n)) == n * (U32 - 1) && ZeroKeys(Filled(n), n)
  {
    if n == 0 {
      NothingStored();
    } else {
      FilledBytes(n - 1);
      OneMore(Filled(n - 1), n - 1);
    }
  }

  lemma OneMore(m: Store, n: nat)
    requires n < U32 && ZeroKeys(m, n)
    ensures var t := m[Zeros(n) := Item(Zeros(U32 - 1 - n), 0)];
            TotalBytes(t) == TotalBytes(m) + U32 - 1 && ZeroKeys(t, n + 1)
  {
    hide TotalBytes, Zeros;
    TotalWith(m, Zeros(n), Item(Zeros(U32 - 1 - n), 0));
  }

  /**
   A ceiling of 2^64 - 2^32 reached exactly, and one more entry of 2^32 bytes, key and value below
   2^32: the guard's sum wraps to 0, the entry is admitted, and 2^64 bytes are stored.
   */
  lemma FullStoreWraps(value: seq<byte>)
    requires |value| == U32 - 1
    ensures var m, it, max := Filled(U32), Item(value, 0), U64 - U32;
            && TotalBytes(m) == max && (forall k :: k in m ==> |k| < U32 && |m[k].value| < U32)
            && Admits(max, TotalBytes(m) % U64, EntrySize([1], it)) && TotalBytes(m[[1] := it]) == U64
  {
    hide TotalBytes, Filled;
    FilledBytes(U32);
    var one: Key := [1];
    assert one[0] == 1;
    assert one !in Filled(U32);
    TotalWith(Filled(U32), one, Item(value, 0));
    WrapOnce(U64 - U32, U32);
  }
}
