/**
 The storage engine as the object it is (internal/storage/engine.go): an item map, a
 wheel, and byte and key counters kept in wrapping 64-bit arithmetic. Each method is
 tied to the shard functions of TimedStore, and Valid() carries the exact accounting.
 */
module Engine {
  import opened Bytes
  import opened Aead
  import opened Replay
  import opened TimedStore
  import opened Wheel

  // ----- Wrapping uint64 arithmetic -----

  function AddU64(a: nat, b: nat): (r: nat) ensures r < U64 { (a + b) % U64 }

  function SubU64(a: nat, b: nat): (r: nat)
    requires b < U64
    ensures r < U64
  {
    (a + U64 - b) % U64
  }

  /** ^x on a uint64. */
  function NotU64(a: nat): (r: nat)
    requires a < U64
    ensures r < U64
  {
    U64 - 1 - a
  }

  /** Wrapping updates track the true total modulo 2^64, in each form the code writes them. */
  lemma GrowTracks(total: nat, d: nat)
    ensures AddU64(total % U64, d) == (total + d) % U64
  {}

  lemma ReleaseTracks(total: nat, d: nat)
    requires d <= total
    ensures AddU64(total % U64, NotU64(SubU64(d % U64, 1))) == (total - d) % U64
  {
    var r := d % U64;
    assert NotU64(SubU64(r, 1)) == if r == 0 then 0 else U64 - r;
    assert (total - d) % U64 == (total % U64 + U64 - r) % U64;
  }

  lemma OnesComplementOfZero()
    ensures NotU64(0) == NotU64(SubU64(1 % U64, 1))
  {}

  lemma UpdateTracks(total: nat, oldLen: nat, newLen: nat)
    requires oldLen <= total && newLen < U64
    ensures var o := oldLen % U64;
            var want := (total - oldLen + newLen) % U64;
            && (newLen > o ==> AddU64(total % U64, SubU64(newLen, o)) == want)
            && (o > newLen ==> AddU64(total % U64, NotU64(o - newLen - 1)) == want)
            && (o == newLen ==> total % U64 == want)
  {
    var o, t := oldLen % U64, total % U64;
    UpdatedTotal(total, oldLen, newLen);
    if newLen > o {
      assert SubU64(newLen, o) == newLen - o;
      ShiftU64(t + newLen - o, 1);
    } else if o > newLen {
      assert NotU64(o - newLen - 1) == U64 - o + newLen;
    } else {
      ShiftU64(t, 1);
    }
  }

  lemma UpdatedTotal(total: nat, oldLen: nat, newLen: nat)
    requires oldLen <= total
    ensures (total - oldLen + newLen) % U64 == (total % U64 + U64 - oldLen % U64 + newLen) % U64
  {
    var x, q := total % U64 + U64 - oldLen % U64 + newLen, total / U64 - oldLen / U64 - 1;
    ShiftU64(x, q);
    assert total - oldLen + newLen == x + q * U64;
  }

  lemma ShiftU64(x: int, q: int)
    ensures (x + q * U64) % U64 == x % U64
  {}

  // ----- The true size of a map -----

  function EntrySize(k: Key, it: Item): nat { |k| + |it.value| }

  ghost function TotalBytes(m: Store): nat {
    if m == map[] then 0
    else
      var k :| k in m;
      EntrySize(k, m[k]) + TotalBytes(m - {k})
  }

  lemma {:induction false} TotalWithout(m: Store, k: Key)
    requires k in m
    ensures TotalBytes(m) == EntrySize(k, m[k]) + TotalBytes(m - {k})
    decreases m
  {
    var j :| j in m && TotalBytes(m) == EntrySize(j, m[j]) + TotalBytes(m - {j});
    if j != k {
      TotalWithout(m - {j}, k);
      TotalWithout(m - {k}, j);
      assert m - {j} - {k} == m - {k} - {j};
    }
  }

  lemma TotalWith(m: Store, k: Key, it: Item)
    ensures TotalBytes(m[k := it]) == TotalBytes(m) + EntrySize(k, it) - (if k in m then EntrySize(k, m[k]) else 0)
    ensures |m[k := it]| == if k in m then |m| else |m| + 1
  {
    hide TotalBytes;
    var m' := m[k := it];
    TotalWithout(m', k);
    assert m' - {k} == m - {k};
    if k in m {
      TotalWithout(m, k);
      assert m'.Keys == m.Keys;
    } else {
      assert m - {k} == m;
      assert m'.Keys == m.Keys + {k};
    }
  }

  lemma SizeWithout(m: Store, k: Key)
    requires k in m
    ensures |m - {k}| == |m| - 1
  {
    assert (m - {k}).Keys == m.Keys - {k};
  }

  // ----- The memory ceiling -----

  lemma WrapOnce(a: nat, b: nat)
    requires a < U64 && b < U64
    ensures AddU64(a % U64, b) == if a + b < U64 then a + b else a + b - U64
  {}

  lemma NoWrap(a: nat, b: nat)
    requires a + b < U64
    ensures AddU64(a % U64, b) == a + b
  {}

  /** The guard of the three setters: the sum is taken in 64 bits. */
  predicate Admits(maxBytes: nat, used: nat, entry: nat) {
    maxBytes == 0 || AddU64(used, entry) <= maxBytes
  }

  /**
   With a ceiling set, writing an admitted entry keeps the true total below it, as long
   as the 64-bit sum in the guard does not wrap; the old size of an updated key only helps.
   */
  lemma CeilingKept(m: Store, k: Key, it: Item, maxBytes: nat)
    requires 0 < maxBytes < U64 && TotalBytes(m) <= maxBytes
    requires TotalBytes(m) + EntrySize(k, it) < U64
    requires Admits(maxBytes, TotalBytes(m) % U64, EntrySize(k, it))
    ensures TotalBytes(m[k := it]) <= maxBytes
  {
    hide TotalBytes;
    TotalWith(m, k, it);
    NoWrap(TotalBytes(m), EntrySize(k, it));
  }

  function OldSize(m: Store, k: Key): nat { if k in m then EntrySize(k, m[k]) else 0 }

  /**
   When the guard lets an entry past the ceiling: if and only if its sum wraps and the entry,
   after the bytes an update frees, is over it. For a new key a wrapping sum always is.
   */
  lemma CeilingPassedIffWraps(m: Store, k: Key, it: Item, maxBytes: nat)
    requires 0 < maxBytes < U64 && TotalBytes(m) <= maxBytes && EntrySize(k, it) < U64
    requires Admits(maxBytes, TotalBytes(m) % U64, EntrySize(k, it))
    ensures TotalBytes(m[k := it]) > maxBytes
       <==> (&& TotalBytes(m) + EntrySize(k, it) >= U64
             && TotalBytes(m) + EntrySize(k, it) - OldSize(m, k) > maxBytes)
    ensures k !in m && TotalBytes(m) + EntrySize(k, it) >= U64 ==> TotalBytes(m[k := it]) > maxBytes
  {
    hide TotalBytes, AddU64;
    TotalWith(m, k, it);
    WrapOnce(TotalBytes(m), EntrySize(k, it));
  }

  lemma NothingStored()
    ensures TotalBytes(map[]) == 0
  {}

  datatype Entry = Entry(key: Key, value: seq<byte>, exp: int)

  /** The map a list of entries spells out, later entries overriding. */
  function MapOf(es: seq<Entry>): Store {
    if es == [] then map[] else
      var e := es[|es| - 1];
      MapOf(es[..|es| - 1])[e.key := Item(e.value, e.exp)]
  }

  lemma VisibleNone(now: int)
    ensures VisibleAt(map[], now) == map[]
  {}

  lemma VisibleSnoc(m: Store, k: Key, it: Item, now: int)
    requires k !in m
    ensures VisibleAt(m[k := it], now) == if Visible(it, now) then VisibleAt(m, now)[k := it] else VisibleAt(m, now)
  {}

  class Engine {
    var items: Store
    var allocatedBytes: nat
    var keyCount: nat
    const maxBytes: nat
    const config: Config
    const wheel: Chronometer

    ghost function Repr(): set<object> { {this, wheel, wheel.slots, wheel.slotSizes} }

    ghost predicate Valid()
      reads this, wheel, wheel.slotSizes
    {
      && wheel.Valid() && config.Valid() && config.interval == wheel.interval && maxBytes < U64
      // Exact accounting.
      && allocatedBytes == TotalBytes(items) % U64
      && keyCount == |items| % U64
    }

    /** With a ceiling set, the true total is at most the ceiling. */
    ghost predicate UnderCeiling()
      reads this
    {
      maxBytes == 0 || TotalBytes(items) <= maxBytes
    }

    ghost function State(): Shard
      requires Valid()
      reads this, wheel, wheel.slots, wheel.slotSizes
    {
      Shard(items, wheel.State())
    }

    constructor (config: Config, numSlots: nat, maxBytes: nat)
      requires config.Valid() && 1 <= numSlots <= MAX_SLOTS && maxBytes < U64
      ensures Valid() && fresh(Repr())
      ensures this.config == config && this.maxBytes == maxBytes
      ensures State() == Shard(map[], Wheel(seq(numSlots, _ => []), 0, 0, 0))
    {
      this.config, this.maxBytes := config, maxBytes;
      items, allocatedBytes, keyCount := map[], 0, 0;
      wheel := new Chronometer(config.interval, numSlots);
    }

    /** The map write and the counter updates common to the three setters. */
    method Install(key: Key, stored: seq<byte>, ttl: int, now: int)
      requires Valid() && |key| + |stored| < U64
      modifies Repr()
      ensures Valid()
      ensures State() == Put(config, old(State()), key, stored, ttl, now)
    {
      hide TotalBytes;
      var exp := 0;
      if ttl > 0 { exp := now + ttl; }
      Charge(key, stored, exp);
      items := items[key := Item(stored, exp)];
      if ttl > 0 { wheel.Register(key, ttl); }
    }

    /** The counters take in an entry about to be stored. */
    method Charge(key: Key, stored: seq<byte>, ghost exp: int)
      requires Valid() && |key| + |stored| < U64
      modifies this`allocatedBytes, this`keyCount
      ensures allocatedBytes == TotalBytes(items[key := Item(stored, exp)]) % U64
      ensures keyCount == |items[key := Item(stored, exp)]| % U64
    {
      hide AddU64, SubU64, NotU64, TotalBytes;
      ghost var total := TotalBytes(items);
      TotalWith(items, key, Item(stored, exp));
      ghost var after := items[key := Item(stored, exp)];
      assert key in items ==> after.Keys == items.Keys;
      assert |after| == |after.Keys| && |items| == |items.Keys|;
      assert key !in items ==> after.Keys == items.Keys + {key};
      if key in items {
        var oldLen, newSize := |key| + |items[key].value|, |key| + |stored|;
        var oldSize := oldLen % U64;
        TotalWithout(items, key);
        UpdateTracks(total, oldLen, newSize);
        if newSize > oldSize {
          allocatedBytes := AddU64(allocatedBytes, SubU64(newSize, oldSize));
        } else if oldSize > newSize {
          allocatedBytes := AddU64(allocatedBytes, NotU64(oldSize - newSize - 1));
        }
      } else {
        GrowTracks(total, |key| + |stored|);
        GrowTracks(|items|, 1);
        allocatedBytes := AddU64(allocatedBytes, |key| + |stored|);
        keyCount := AddU64(keyCount, 1);
      }
    }

    lemma CeilingStep(key: Key, stored: seq<byte>, ttl: int, now: int)
      requires Valid() && Admits(maxBytes, allocatedBytes, |key| + |stored|)
      ensures UnderCeiling() && 0 < maxBytes && maxBytes + |key| + |stored| < U64 ==>
                TotalBytes(items[key := Item(stored, Deadline(ttl, now))]) <= maxBytes
    {
      hide TotalBytes, Admits;
      if UnderCeiling() && 0 < maxBytes && maxBytes + |key| + |stored| < U64 {
        CeilingKept(items, key, Item(stored, Deadline(ttl, now)), maxBytes);
      }
    }

    method Set(key: Key, value: seq<byte>, ttl: int, now: int, nonce: seq<byte>) returns (ok: bool)
      requires Valid() && |nonce| == NONCE && |key| + NONCE + |value| + TAG < U64
      modifies Repr()
      ensures Valid()
      ensures ok == Admits(maxBytes, old(allocatedBytes), |key| + |config.Seal(nonce, value)|)
      ensures State() == if ok then Put(config, old(State()), key, config.Seal(nonce, value), ttl, now)
                         else old(State())
      ensures old(UnderCeiling()) && maxBytes + |key| + |config.Seal(nonce, value)| < U64 ==> UnderCeiling()
    {
      var neededSize := |value|;
      if config.cipher.Some? { neededSize := NONCE + |value| + TAG; config.cipher.value.DecryptEncrypt(nonce, value); }
      if maxBytes > 0 && AddU64(allocatedBytes, |key| + neededSize) > maxBytes { return false; }
      var stored := config.Seal(nonce, value);
      CeilingStep(key, stored, ttl, now);
      Install(key, stored, ttl, now);
      ok := true;
    }

    /** Stores a value that is already sealed. */
    method SetRaw(key: Key, stored: seq<byte>, ttl: int, now: int) returns (ok: bool)
      requires Valid() && |key| + |stored| < U64
      modifies Repr()
      ensures Valid()
      ensures ok == Admits(maxBytes, old(allocatedBytes), |key| + |stored|)
      ensures State() == if ok then Put(config, old(State()), key, stored, ttl, now) else old(State())
      ensures old(UnderCeiling()) && maxBytes + |key| + |stored| < U64 ==> UnderCeiling()
    {
      if maxBytes > 0 && AddU64(allocatedBytes, |key| + |stored|) > maxBytes { return false; }
      CeilingStep(key, stored, ttl, now);
      Install(key, stored, ttl, now);
      ok := true;
    }

    /** Stores key and value from one buffer; an impossible split is refused. */
    method SetFromBuffer(buf: seq<byte>, keyLen: int, ttl: int, now: int, nonce: seq<byte>) returns (ok: bool)
      requires Valid() && |nonce| == NONCE && NONCE + |buf| + TAG < U64
      modifies Repr()
      ensures Valid()
      ensures ok ==> 0 <= keyLen <= |buf|
      ensures 0 <= keyLen <= |buf| ==>
                ok == Admits(maxBytes, old(allocatedBytes), keyLen + |config.Seal(nonce, buf[keyLen..])|)
      ensures State() == if ok then
                           Put(config, old(State()), buf[..keyLen], config.Seal(nonce, buf[keyLen..]), ttl, now)
                         else old(State())
      ensures old(UnderCeiling()) && maxBytes + NONCE + |buf| + TAG < U64 ==> UnderCeiling()
    {
      if keyLen < 0 || keyLen > |buf| { return false; }
      if config.cipher.Some? {
        config.cipher.value.DecryptEncrypt(nonce, buf[keyLen..]);
        ok := Set(buf[..keyLen], buf[keyLen..], ttl, now, nonce);
        return;
      }
      if maxBytes > 0 && AddU64(allocatedBytes, |buf|) > maxBytes { return false; }
      CeilingStep(buf[..keyLen], buf[keyLen..], ttl, now);
      Install(buf[..keyLen], buf[keyLen..], ttl, now);
      ok := true;
    }

    /** Takes key out of the map and releases its bytes: add ^(released - 1). */
    method Release(key: Key)
      requires Valid() && key in items
      modifies this
      ensures Valid()
      ensures items == old(items) - {key} && State() == old(State()).(items := items)
      ensures TotalBytes(items) <= old(TotalBytes(items))
    {
      hide AddU64, SubU64, NotU64, TotalBytes;
      TotalWithout(items, key);
      SizeWithout(items, key);
      ReleaseTracks(TotalBytes(items), |key| + |items[key].value|);
      ReleaseTracks(|items|, 1);
      OnesComplementOfZero();
      var released := (|key| + |items[key].value|) % U64;
      allocatedBytes := AddU64(allocatedBytes, NotU64(SubU64(released, 1)));
      keyCount := AddU64(keyCount, NotU64(0));
      items := items - {key};
    }

    method Delete(key: Key, now: int) returns (was: bool)
      requires Valid()
      modifies this
      ensures Valid()
      ensures was == Deleted(old(State()), key, now)
      ensures State() == AfterDelete(old(State()), key)
      ensures old(UnderCeiling()) ==> UnderCeiling()
    {
      if key !in items { assert items - {key} == items; return false; }
      var expired := items[key].exp != 0 && now > items[key].exp;
      Release(key);
      was := !expired;
    }

    method DeleteIfExpired(key: Key, now: int) returns (gone: bool)
      requires Valid()
      modifies this
      ensures Valid()
      ensures State() == AfterGet(old(State()), key, now)
      ensures gone == (items != old(items))
      ensures old(UnderCeiling()) ==> UnderCeiling()
    {
      if key !in items || items[key].exp == 0 || !(now > items[key].exp) { return false; }
      Release(key);
      gone := true;
    }

    method Get(key: Key, now: int) returns (value: Option<seq<byte>>)
      requires Valid()
      modifies this
      ensures Valid()
      ensures value == Answer(config, old(State()), key, now)
      ensures State() == AfterGet(old(State()), key, now)
      ensures old(UnderCeiling()) ==> UnderCeiling()
    {
      if key !in items { return None; }
      var item := items[key];
      if item.exp != 0 && now > item.exp {
        var _ := DeleteIfExpired(key, now);
        return None;
      }
      value := config.Unseal(item.value);
    }

    /** One tick of the wheel: the batch is collected first, then evicted key by key. */
    method Tick(now: int)
      requires Valid()
      modifies Repr()
      ensures Valid()
      ensures State() == AfterTick(old(State()), now)
      ensures old(UnderCeiling()) ==> UnderCeiling()
    {
      ghost var was := State();
      var batch := wheel.Advance();
      var i := 0;
      while i < |batch|
        invariant 0 <= i <= |batch| && Valid()
        invariant items == EvictAll(was.items, batch[..i], now)
        invariant wheel.State() == was.wheel.Advance()
        invariant old(UnderCeiling()) ==> UnderCeiling()
        modifies this
      {
        var _ := DeleteIfExpired(batch[i], now);
        i := i + 1;
        assert batch[..i][..i - 1] == batch[..i - 1];
      }
      assert batch[..i] == batch;
    }

    /** ForEach: the live entries, each key once, in some order. */
    method ForEach(now: int) returns (es: seq<Entry>)
      requires Valid()
      ensures MapOf(es) == VisibleAt(items, now)
      ensures forall i, j :: 0 <= i < j < |es| ==> es[i].key != es[j].key
    {
      hide VisibleAt;
      es := [];
      var rest := items.Keys;
      assert items - rest == map[];
      VisibleNone(now);
      while rest != {}
        invariant rest <= items.Keys
        invariant forall i :: 0 <= i < |es| ==> es[i].key in items && es[i].key !in rest
        invariant forall i, j :: 0 <= i < j < |es| ==> es[i].key != es[j].key
        invariant MapOf(es) == VisibleAt(items - rest, now)
        decreases rest
      {
        var k :| k in rest;
        ghost var done := items - rest;
        rest := rest - {k};
        assert items - rest == done[k := items[k]];
        VisibleSnoc(done, k, items[k], now);
        if !(items[k].exp != 0 && now > items[k].exp) {
          var e := Entry(k, items[k].value, items[k].exp);
          assert (es + [e])[..|es|] == es;
          es := es + [e];
        }
      }
      assert items - rest == items;
    }
  }
}
