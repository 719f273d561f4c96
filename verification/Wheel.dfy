/**
 The timing wheel that schedules active eviction (internal/storage/chronometer.go):
 the schedule as a state machine over whole runs, and the in-place structure that
 implements one step of it.
 */
module Wheel {
  import opened Bytes

  const MAX_SLOTS: nat := 1000
  const SLOT_CAPACITY: nat := 512

  datatype Wheel<T> = Wheel(slots: seq<seq<T>>, cur: nat, overflows: nat, fired: nat) {
    predicate Valid() {
      && 1 <= |slots| <= MAX_SLOTS && cur < |slots|
      && forall i :: 0 <= i < |slots| ==> |slots[i]| <= SLOT_CAPACITY
    }

    function Register(x: T, steps: nat): (w: Wheel<T>)
      requires Valid() && steps < |slots|
      ensures w.Valid()
    {
      var t := (cur + steps) % |slots|;
      if |slots[t]| < SLOT_CAPACITY
      then Wheel(slots[t := slots[t] + [x]], cur, overflows, fired)
      else Wheel(slots, cur, overflows + 1, fired)
    }

    lemma RegisterIs(x: T, steps: nat, t: nat, w: Wheel<T>)
      requires Valid() && steps < |slots| && t == (cur + steps) % |slots| && w.cur == cur && w.fired == fired
      requires if |slots[t]| < SLOT_CAPACITY
               then w.overflows == overflows && w.slots == slots[t := slots[t] + [x]]
               else w.overflows == overflows + 1 && w.slots == slots
      ensures w == Register(x, steps)
    {}

    /** advance: the current slot is handed to deletion and emptied, and the wheel turns. */
    function Advance(): (w: Wheel<T>)
      requires Valid()
      ensures w.Valid()
    {
      Wheel(slots[cur := []], (cur + 1) % |slots|, overflows, fired + |slots[cur]|)
    }
  }

  /** How far ahead a TTL is filed: whole intervals, capped at the horizon. */
  function Steps(ttl: nat, interval: nat, numSlots: nat): (s: nat)
    requires interval > 0 && numSlots > 0
    ensures s < numSlots
  {
    if ttl / interval > numSlots - 1 then numSlots - 1 else ttl / interval
  }

  // ----- Whole runs -----

  /** A filed registration: its number and the count of the advance that must hand it over. */
  datatype Reg<K> = Reg(key: K, id: nat, due: nat)

  datatype Event<K> = Filed(key: K, steps: nat) | Tick

  /** batches[t] is what the (t+1)-th advance handed to deletion. */
  datatype Run<K> = Run(wheel: Wheel<Reg<K>>, batches: seq<seq<Reg<K>>>, accepted: seq<Reg<K>>, calls: nat)

  function Fresh<K>(numSlots: nat): Run<K>
    requires 1 <= numSlots <= MAX_SLOTS
  {
    Run(Wheel(seq(numSlots, _ => []), 0, 0, 0), [], [], 0)
  }

  function Step<K>(r: Run<K>, e: Event<K>): (r': Run<K>)
    requires r.wheel.Valid()
    requires e.Filed? ==> e.steps < |r.wheel.slots|
    ensures r'.wheel.Valid() && |r'.wheel.slots| == |r.wheel.slots|
  {
    match e
    case Tick => Run(r.wheel.Advance(), r.batches + [r.wheel.slots[r.wheel.cur]], r.accepted, r.calls)
    case Filed(k, steps) =>
      var x := Reg(k, |r.accepted|, |r.batches| + steps + 1);
      var w := r.wheel.Register(x, steps);
      Run(w, r.batches, if w.overflows == r.wheel.overflows then r.accepted + [x] else r.accepted, r.calls + 1)
  }

  predicate InHorizon<K>(es: seq<Event<K>>, numSlots: nat) {
    forall i :: 0 <= i < |es| ==> es[i].Filed? ==> es[i].steps < numSlots
  }

  function RunAll<K>(numSlots: nat, es: seq<Event<K>>): (r: Run<K>)
    requires 1 <= numSlots <= MAX_SLOTS && InHorizon(es, numSlots)
    ensures r.wheel.Valid() && |r.wheel.slots| == numSlots
  {
    if es == [] then Fresh(numSlots) else Step(RunAll(numSlots, es[..|es| - 1]), es[|es| - 1])
  }

  /** x modulo n, for the x below 2n that slot arithmetic meets. */
  function Wrap(x: nat, n: nat): nat
    requires x < 2 * n
  {
    if x < n then x else x - n
  }

  lemma WrapIsMod(x: nat, n: nat)
    requires x < 2 * n
    ensures x % n == Wrap(x, n)
  {
    var q := x / n;
    assert q == 0 || q == 1;
  }

  /** A pending registration sits in the slot of the advance that is due to fire it. */
  ghost predicate Placed<K>(r: Run<K>, j: nat, x: Reg<K>)
    requires r.wheel.Valid() && j < |r.wheel.slots|
  {
    && |r.batches| < x.due <= |r.batches| + |r.wheel.slots|
    && j == Home(r, x.due)
    && x.id < |r.accepted| && r.accepted[x.id] == x
  }

  /** The slot the wheel will stand at when it makes its due-th advance. */
  function Home<K>(r: Run<K>, due: nat): nat
    requires r.wheel.Valid() && |r.batches| < due <= |r.batches| + |r.wheel.slots|
  {
    Wrap(r.wheel.cur + due - 1 - |r.batches|, |r.wheel.slots|)
  }

  ghost predicate SlotsOk<K>(r: Run<K>)
    requires r.wheel.Valid()
  {
    forall j, x :: 0 <= j < |r.wheel.slots| && x in r.wheel.slots[j] ==> Placed(r, j, x)
  }

  ghost predicate BatchesOk<K>(r: Run<K>) {
    forall t, x :: 0 <= t < |r.batches| && x in r.batches[t] ==>
      x.due == t + 1 && x.id < |r.accepted| && r.accepted[x.id] == x
  }

  ghost predicate AcceptedOk<K>(r: Run<K>)
    requires r.wheel.Valid()
  {
    forall i :: 0 <= i < |r.accepted| ==>
      var x := r.accepted[i];
      && x.id == i && x.due >= 1
      && if x.due <= |r.batches| then x in r.batches[x.due - 1]
         else x.due <= |r.batches| + |r.wheel.slots| && x in r.wheel.slots[Home(r, x.due)]
  }

  ghost predicate Inv<K>(r: Run<K>) {
    r.wheel.Valid() && SlotsOk(r) && BatchesOk(r) && AcceptedOk(r)
  }

  /** Filing, with the slot index free of the modulus. */
  lemma FiledStep<K>(r: Run<K>, k: K, steps: nat)
    requires r.wheel.Valid() && steps < |r.wheel.slots|
    ensures var r' := Step(r, Filed(k, steps));
            var slot := Wrap(r.wheel.cur + steps, |r.wheel.slots|);
            var x := Reg(k, |r.accepted|, |r.batches| + steps + 1);
            && r'.batches == r.batches && r'.wheel.cur == r.wheel.cur
            && (|| (r'.wheel.slots == r.wheel.slots && r'.accepted == r.accepted)
                || (r'.wheel.slots == r.wheel.slots[slot := r.wheel.slots[slot] + [x]]
                   && r'.accepted == r.accepted + [x]))
  {
    WrapIsMod(r.wheel.cur + steps, |r.wheel.slots|);
  }

  lemma FiledInv<K>(r: Run<K>, k: K, steps: nat)
    requires Inv(r) && steps < |r.wheel.slots|
    ensures Inv(Step(r, Filed(k, steps)))
  {
    var n, t := |r.wheel.slots|, |r.batches|;
    hide Step;
    var r' := Step(r, Filed(k, steps));
    FiledStep(r, k, steps);
    var slot := Wrap(r.wheel.cur + steps, n);
    if r'.accepted != r.accepted {
      var x := Reg(k, |r.accepted|, t + steps + 1);
      assert r'.accepted == r.accepted + [x];
      forall j, y | 0 <= j < n && y in r'.wheel.slots[j] ensures Placed(r', j, y) {
        if !(j == slot && y == x) { assert y in r.wheel.slots[j]; assert Placed(r, j, y); }
      }
      assert x in r'.wheel.slots[slot];
      assert AcceptedOk(r') by {
        forall i | 0 <= i < |r.accepted| && r.accepted[i].due > t
          ensures r.accepted[i] in r'.wheel.slots[Home(r, r.accepted[i].due)]
        {
          assert r.accepted[i] in r.wheel.slots[Home(r, r.accepted[i].due)];
        }
      }
    } else {
      assert r'.wheel.slots == r.wheel.slots;
      forall j, y | 0 <= j < n && y in r'.wheel.slots[j] ensures Placed(r', j, y) { assert Placed(r, j, y); }
    }
  }

  lemma TickInv<K>(r: Run<K>)
    requires Inv(r)
    ensures Inv(Step(r, Event<K>.Tick))
  {
    var n, t := |r.wheel.slots|, |r.batches|;
    var r' := Step(r, Event<K>.Tick);
    WrapIsMod(r.wheel.cur + 1, n);
    forall j, y | 0 <= j < n && y in r'.wheel.slots[j] ensures Placed(r', j, y) {
      assert j != r.wheel.cur && y in r.wheel.slots[j];
      assert Placed(r, j, y);
    }
    forall y | y in r'.batches[t] ensures y.due == t + 1 && y.id < |r.accepted| && r.accepted[y.id] == y {
      assert Placed(r, r.wheel.cur, y);
    }
    forall i | 0 <= i < |r.accepted|
      ensures var x := r.accepted[i];
              if x.due <= t + 1 then x in r'.batches[x.due - 1]
              else x.due <= t + 1 + n && x in r'.wheel.slots[Home(r', x.due)]
    {
      var x := r.accepted[i];
      if x.due > t { assert x in r.wheel.slots[Home(r, x.due)]; }
    }
  }

  lemma {:induction false} RunInv<K>(numSlots: nat, es: seq<Event<K>>)
    requires 1 <= numSlots <= MAX_SLOTS && InHorizon(es, numSlots)
    ensures Inv(RunAll(numSlots, es))
    ensures |RunAll(numSlots, es).wheel.slots| == numSlots
  {
    if es != [] {
      RunInv(numSlots, es[..|es| - 1]);
      var r := RunAll(numSlots, es[..|es| - 1]);
      match es[|es| - 1]
      case Filed(k, steps) => FiledInv(r, k, steps);
      case Tick => TickInv(r);
    }
  }

  /** An accepted registration is in the batch of its due advance, in no other, and waits until then. */
  lemma OnDueOnly<K>(r: Run<K>, x: Reg<K>)
    requires Inv(r) && x.id < |r.accepted| && r.accepted[x.id] == x
    ensures forall t :: 0 <= t < |r.batches| ==> (x in r.batches[t] <==> t == x.due - 1)
    ensures x.due > |r.batches| ==> exists j :: 0 <= j < |r.wheel.slots| && x in r.wheel.slots[j]
  {
    if x.due > |r.batches| { assert x in r.wheel.slots[Home(r, x.due)]; }
    else { assert x in r.batches[x.due - 1]; }
  }

  /**
   Filing a key s steps ahead hands it to deletion on exactly the (s+1)-th advance
   from then, in every continuation of the run, and on no other; until then it waits
   in the wheel. It is filed unless its slot is full.
   */
  lemma FiresExactly<K>(numSlots: nat, before: seq<Event<K>>, k: K, steps: nat, after: seq<Event<K>>)
    requires 1 <= numSlots <= MAX_SLOTS && steps < numSlots
    requires InHorizon(before, numSlots) && InHorizon(after, numSlots)
    requires var w := RunAll(numSlots, before).wheel; |w.slots[(w.cur + steps) % numSlots]| < SLOT_CAPACITY
    ensures InHorizon(before + [Filed(k, steps)] + after, numSlots)
    ensures var r0, r := RunAll(numSlots, before), RunAll(numSlots, before + [Filed(k, steps)] + after);
            var x := Reg(k, |r0.accepted|, |r0.batches| + steps + 1);
            && (forall t :: 0 <= t < |r.batches| ==> (x in r.batches[t] <==> t == |r0.batches| + steps))
            && (|r.batches| <= |r0.batches| + steps ==> exists j :: 0 <= j < numSlots && x in r.wheel.slots[j])
  {
    hide Inv, Step;
    var mid := before + [Filed(k, steps)];
    var r0, r := RunAll(numSlots, before), RunAll(numSlots, mid + after);
    assert mid[..|mid| - 1] == before;
    FiledAccepted(r0, k, steps);
    AcceptedGrows(numSlots, mid, after);
    RunInv(numSlots, mid + after);
    assert RunAll(numSlots, mid).accepted <= r.accepted;
    OnDueOnly(r, Reg(k, |r0.accepted|, |r0.batches| + steps + 1));
  }

  lemma FiledAccepted<K>(r: Run<K>, k: K, steps: nat)
    requires r.wheel.Valid() && steps < |r.wheel.slots|
    requires |r.wheel.slots[(r.wheel.cur + steps) % |r.wheel.slots|]| < SLOT_CAPACITY
    ensures Step(r, Filed(k, steps)).accepted == r.accepted + [Reg(k, |r.accepted|, |r.batches| + steps + 1)]
  {}

  lemma {:induction false} AcceptedGrows<K>(numSlots: nat, es: seq<Event<K>>, more: seq<Event<K>>)
    requires 1 <= numSlots <= MAX_SLOTS && InHorizon(es, numSlots) && InHorizon(more, numSlots)
    ensures InHorizon(es + more, numSlots)
    ensures RunAll(numSlots, es).accepted <= RunAll(numSlots, es + more).accepted
  {
    if more == [] {
      assert es + more == es;
    } else {
      var init := more[..|more| - 1];
      AcceptedGrows(numSlots, es, init);
      assert (es + more)[..|es + more| - 1] == es + init;
    }
  }

  // ----- Conservation -----

  function Pending<T>(slots: seq<seq<T>>): nat {
    if slots == [] then 0 else Pending(slots[..|slots| - 1]) + |slots[|slots| - 1]|
  }

  lemma {:induction false} PendingUpdate<T>(slots: seq<seq<T>>, i: nat, s: seq<T>)
    requires i < |slots|
    ensures Pending(slots[i := s]) == Pending(slots) - |slots[i]| + |s|
  {
    var init := slots[..|slots| - 1];
    if i == |slots| - 1 {
      assert slots[i := s][..|slots| - 1] == init;
    } else {
      PendingUpdate(init, i, s);
      assert slots[i := s][..|slots| - 1] == init[i := s];
    }
  }

  lemma {:induction false} PendingFresh<T>(n: nat)
    ensures Pending<T>(seq(n, _ => [])) == 0
  {
    if n > 0 {
      PendingFresh<T>(n - 1);
      var s: seq<seq<T>> := seq(n, _ => []);
      assert s[..n - 1] == seq(n - 1, _ => []);
    }
  }

  predicate Balanced<K>(r: Run<K>) {
    r.calls == r.wheel.fired + Pending(r.wheel.slots) + r.wheel.overflows
  }

  lemma StepBalanced<K>(r: Run<K>, e: Event<K>)
    requires r.wheel.Valid() && Balanced(r)
    requires e.Filed? ==> e.steps < |r.wheel.slots|
    ensures Balanced(Step(r, e))
  {
    var w := r.wheel;
    match e
    case Tick => PendingUpdate(w.slots, w.cur, []);
    case Filed(k, steps) =>
      var t := (w.cur + steps) % |w.slots|;
      PendingUpdate(w.slots, t, w.slots[t] + [Reg(k, |r.accepted|, |r.batches| + steps + 1)]);
  }

  /** In every run, registrations are the fired, the still pending and the overflowed. */
  lemma {:induction false} Conservation<K>(numSlots: nat, es: seq<Event<K>>)
    requires 1 <= numSlots <= MAX_SLOTS && InHorizon(es, numSlots)
    ensures var r := RunAll(numSlots, es);
            r.calls == r.wheel.fired + Pending(r.wheel.slots) + r.wheel.overflows
  {
    hide Step;
    if es == [] {
      PendingFresh<Reg<K>>(numSlots);
    } else {
      Conservation(numSlots, es[..|es| - 1]);
      StepBalanced(RunAll(numSlots, es[..|es| - 1]), es[|es| - 1]);
    }
  }

  // ----- Wall-clock time -----

  /** The i-th advance happens at start + i * interval. */
  function TickTime(start: int, interval: nat, i: nat): int { start + i * interval }

  /**
   With evenly spaced ticks, a key filed at time t with TTL ttl inside the horizon is
   handed over at most one interval after its deadline, and strictly after it (so that
   deleteIfExpired evicts it) if and only if the TTL's remainder is smaller than the
   time left to the next tick. A TTL of whole intervals always is.
   */
  lemma FireTime(start: int, interval: nat, done: nat, t: int, ttl: nat, numSlots: nat)
    requires interval > 0 && numSlots > 0 && ttl / interval < numSlots
    requires TickTime(start, interval, done) <= t < TickTime(start, interval, done + 1)
    ensures var fire := TickTime(start, interval, done + Steps(ttl, interval, numSlots) + 1);
            && fire - (t + ttl) <= interval
            && (fire > t + ttl <==> ttl % interval < TickTime(start, interval, done + 1) - t)
            && (ttl % interval == 0 ==> fire > t + ttl)
  {
    var s := ttl / interval;
    assert Steps(ttl, interval, numSlots) == s;
    assert ttl == s * interval + ttl % interval;
    assert (done + s + 1) * interval == done * interval + s * interval + interval;
    assert (done + 1) * interval == done * interval + interval;
  }

  // ----- The in-place wheel -----

  type Key = seq<byte>

  class Chronometer {
    const numSlots: nat
    const interval: nat
    const slots: array2<Key>
    const slotSizes: array<nat>
    var curSlot: nat
    var overflows: nat
    var expiredCount: nat

    ghost predicate Valid()
      reads this, slotSizes
    {
      && 1 <= numSlots <= MAX_SLOTS && interval > 0 && curSlot < numSlots
      && slots.Length0 == numSlots && slots.Length1 == SLOT_CAPACITY && slotSizes.Length == numSlots
      && forall i :: 0 <= i < numSlots ==> slotSizes[i] <= SLOT_CAPACITY
    }

    ghost function Slot(i: nat): (s: seq<Key>)
      requires Valid() && i < numSlots
      reads this, slots, slotSizes
      ensures |s| == slotSizes[i]
      ensures forall j :: 0 <= j < |s| ==> s[j] == slots[i, j]
    {
      seq(slotSizes[i], j requires 0 <= j < SLOT_CAPACITY && i < slots.Length0
          && slots.Length1 == SLOT_CAPACITY reads slots => slots[i, j])
    }

    ghost function State(): (w: Wheel<Key>)
      requires Valid()
      reads this, slots, slotSizes
      ensures |w.slots| == numSlots && w.Valid()
      ensures forall i :: 0 <= i < numSlots ==> w.slots[i] == Slot(i)
      ensures w.cur == curSlot && w.overflows == overflows && w.fired == expiredCount
    {
      Wheel(seq(numSlots, i requires 0 <= i < numSlots && Valid() reads this, slots, slotSizes => Slot(i)),
            curSlot, overflows, expiredCount)
    }

    constructor (interval: nat, numSlots: nat)
      requires interval > 0 && 1 <= numSlots <= MAX_SLOTS
      ensures Valid() && fresh(slots) && fresh(slotSizes)
      ensures this.numSlots == numSlots && this.interval == interval
      ensures State() == Wheel(seq(numSlots, _ => []), 0, 0, 0)
    {
      this.numSlots, this.interval := numSlots, interval;
      slots := new Key[numSlots, SLOT_CAPACITY]((_, _) => []);
      slotSizes := new nat[numSlots](_ => 0);
      curSlot, overflows, expiredCount := 0, 0, 0;
      new;
      assert State().slots == seq(numSlots, _ => []);
    }

    method Register(key: Key, ttl: nat)
      requires Valid()
      modifies this`overflows, slots, slotSizes
      ensures Valid()
      ensures State() == old(State()).Register(key, Steps(ttl, interval, numSlots))
    {
      var maxSteps := numSlots - 1;
      var steps := ttl / interval;
      if steps > maxSteps { steps := maxSteps; }
      var target := (curSlot + steps) % numSlots;
      var size := slotSizes[target];
      ghost var was := State();
      if size < SLOT_CAPACITY {
        File(target, size, key);
      } else {
        overflows := overflows + 1;
        forall i | 0 <= i < numSlots ensures State().slots[i] == was.slots[i] { assert State().slots[i] == Slot(i); }
      }
      was.RegisterIs(key, steps, target, State());
    }

    method File(target: nat, size: nat, key: Key)
      requires Valid() && target < numSlots && size == slotSizes[target] < SLOT_CAPACITY
      modifies slots, slotSizes
      ensures Valid()
      ensures State() == old(State()).(slots := old(State()).slots[target := old(State()).slots[target] + [key]])
    {
      ghost var was := State();
      slots[target, size] := key;
      slotSizes[target] := size + 1;
      ghost var now := State();
      assert now.slots[target] == was.slots[target] + [key];
      forall i | 0 <= i < numSlots && i != target ensures now.slots[i] == was.slots[i] {
        assert now.slots[i] == Slot(i);
      }
      assert now.slots == was.slots[target := was.slots[target] + [key]];
    }

    /** Empties the current slot and turns the wheel; the batch is then evicted by the caller. */
    method Advance() returns (batch: seq<Key>)
      requires Valid()
      modifies this`curSlot, this`expiredCount, slotSizes
      ensures Valid()
      ensures batch == old(State()).slots[old(curSlot)]
      ensures State() == old(State()).Advance()
    {
      var slot := curSlot;
      var size := slotSizes[slot];
      ghost var was := State();
      batch := [];
      while |batch| < size
        invariant |batch| <= size && batch == was.slots[slot][..|batch|]
      {
        batch := batch + [slots[slot, |batch|]];
      }
      slotSizes[slot] := 0;
      expiredCount := expiredCount + size;
      curSlot := (slot + 1) % numSlots;
      ghost var now, want := State(), was.Advance();
      forall i | 0 <= i < numSlots ensures now.slots[i] == want.slots[i] {
        if i != slot { assert now.slots[i] == Slot(i) == was.slots[i]; }
      }
    }
  }
}
