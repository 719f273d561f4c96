/** The permission bitset (internal/rbac/rbac.go): 64-bit words, grown on demand, deny-all when empty. */
module Bitset {
  import opened Bytes

  type u16 = n: nat | n < U16

  /** Bit k of a word, and the word with that bit forced on or off (|= and &^= with 1 << k). */
  predicate On(w: nat, k: nat) {
    if k == 0 then w % 2 == 1 else On(w / 2, k - 1)
  }

  function TurnOn(w: nat, k: nat): nat {
    if k == 0 then w / 2 * 2 + 1 else 2 * TurnOn(w / 2, k - 1) + w % 2
  }

  function TurnOff(w: nat, k: nat): nat {
    if k == 0 then w / 2 * 2 else 2 * TurnOff(w / 2, k - 1) + w % 2
  }

  lemma {:induction false} OnTurnOn(w: nat, j: nat, k: nat)
    ensures On(TurnOn(w, k), j) <==> j == k || On(w, j)
  {
    if k > 0 && j > 0 { OnTurnOn(w / 2, j - 1, k - 1); }
  }

  lemma {:induction false} OnTurnOff(w: nat, j: nat, k: nat)
    ensures On(TurnOff(w, k), j) <==> j != k && On(w, j)
  {
    if k > 0 && j > 0 { OnTurnOff(w / 2, j - 1, k - 1); }
  }

  lemma {:induction false} OnZero(k: nat)
    ensures !On(0, k)
  {
    if k > 0 { OnZero(k - 1); }
  }

  function Pow2(n: nat): nat { if n == 0 then 1 else 2 * Pow2(n - 1) }

  /** A word stays a word. */
  lemma {:induction false} WordStays(w: nat, k: nat, n: nat)
    requires k < n && w < Pow2(n)
    ensures TurnOn(w, k) < Pow2(n) && TurnOff(w, k) < Pow2(n)
  {
    if k > 0 { WordStays(w / 2, k - 1, n - 1); }
  }

  lemma {:induction false} Pow2Bytes(n: nat)
    ensures Pow2(8 * n) == Pow256(n)
  {
    if n > 0 {
      Pow2Bytes(n - 1);
      assert Pow2(8 * n) == 2 * Pow2(8 * n - 1) && Pow2(8 * n - 1) == 2 * Pow2(8 * n - 2);
      assert Pow2(8 * n - 2) == 4 * Pow2(8 * n - 4) && Pow2(8 * n - 4) == 4 * Pow2(8 * n - 6);
      assert Pow2(8 * n - 6) == 4 * Pow2(8 * n - 8);
    }
  }

  function Word(w: u64, k: nat, on: bool): u64
    requires k < 64
  {
    Pow2Bytes(8);
    Widths();
    WordStays(w, k, 64);
    if on then TurnOn(w, k) else TurnOff(w, k)
  }

  /** Has: an id beyond the words is denied. */
  predicate Has(words: seq<u64>, id: u16) {
    id / 64 < |words| && On(words[id / 64], id % 64)
  }

  lemma Place(i: nat, j: nat)
    ensures i == j <==> i / 64 == j / 64 && i % 64 == j % 64
  {}

  class Bits {
    var words: seq<u64>

    /** NewBitset(nil): one empty word. */
    constructor ()
      ensures words == [0] && forall id: u16 :: !Has(words, id)
    {
      words := [0];
      new;
      hide On;
      forall id: u16 ensures !Has(words, id) { OnZero(id % 64); }
    }

    /** Set: grow to the word, then turn the bit on. */
    method Set(id: u16)
      modifies this
      ensures forall j: u16 :: Has(words, j) <==> j == id || Has(old(words), j)
    {
      hide On, TurnOn, TurnOff;
      var word := id / 64;
      if word >= |words| {
        words := words + seq(word - |words| + 1, _ => 0);
      }
      words := words[word := Word(words[word], id % 64, true)];
      forall j: u16 ensures Has(words, j) <==> j == id || Has(old(words), j) {
        Place(j, id);
        OnZero(j % 64);
        if j / 64 == word {
          OnTurnOn(if word < |old(words)| then old(words)[word] else 0, j % 64, id % 64);
        }
      }
    }

    /** Clear: out of range is a no-op, and the slice never grows. */
    method Clear(id: u16)
      modifies this
      ensures |words| == |old(words)|
      ensures forall j: u16 :: Has(words, j) <==> j != id && Has(old(words), j)
    {
      hide On, TurnOn, TurnOff;
      var word := id / 64;
      if word >= |words| { return; }
      words := words[word := Word(words[word], id % 64, false)];
      forall j: u16 ensures Has(words, j) <==> j != id && Has(old(words), j) {
        Place(j, id);
        if j / 64 == word { OnTurnOff(old(words)[word], j % 64, id % 64); }
      }
    }
  }
}
