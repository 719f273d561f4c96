/** Byte strings and the fixed-width integers that the on-disk and wire formats are built from. */
module Bytes {

  type byte = b: int | 0 <= b < 256

  datatype Option<+T> = None | Some(value: T)

  const U16: nat := 0x1_0000
  const U32: nat := 0x1_0000_0000
  const U64: nat := 0x1_0000_0000_0000_0000
  const I63: int := 0x8000_0000_0000_0000

  type u64 = n: nat | n < U64

  function Max(a: nat, b: nat): nat { if a < b then b else a }

  function Pow256(w: nat): nat { if w == 0 then 1 else 256 * Pow256(w - 1) }

  /** Little-endian encoding of the low w bytes of n (binary.LittleEndian.PutUint*). */
  function Le(n: nat, w: nat): (s: seq<byte>)
    ensures |s| == w
  {
    if w == 0 then [] else [n % 256] + Le(n / 256, w - 1)
  }

  function UnLe(s: seq<byte>): nat {
    if s == [] then 0 else s[0] + 256 * UnLe(s[1..])
  }

  lemma {:induction false} UnLeLe(n: nat, w: nat)
    requires n < Pow256(w)
    ensures UnLe(Le(n, w)) == n
  {
    if w > 0 {
      UnLeLe(n / 256, w - 1);
      assert Le(n, w)[1..] == Le(n / 256, w - 1);
    }
  }

  lemma {:induction false} LeUnLe(s: seq<byte>)
    ensures Le(UnLe(s), |s|) == s
  {
    if s != [] {
      LeUnLe(s[1..]);
      assert UnLe(s) % 256 == s[0] && UnLe(s) / 256 == UnLe(s[1..]);
    }
  }

  lemma {:induction false} UnLeBound(s: seq<byte>)
    ensures UnLe(s) < Pow256(|s|)
  {
    if s != [] { UnLeBound(s[1..]); }
  }

  /** Big-endian, as wire lengths and TLS sequence numbers are written. */
  function Be(n: nat, w: nat): (s: seq<byte>)
    ensures |s| == w
  {
    if w == 0 then [] else Be(n / 256, w - 1) + [n % 256]
  }

  function UnBe(s: seq<byte>): nat {
    if s == [] then 0 else 256 * UnBe(s[..|s| - 1]) + s[|s| - 1]
  }

  lemma {:induction false} UnBeBe(n: nat, w: nat)
    requires n < Pow256(w)
    ensures UnBe(Be(n, w)) == n
  {
    if w > 0 {
      UnBeBe(n / 256, w - 1);
      assert Be(n, w)[..w - 1] == Be(n / 256, w - 1);
    }
  }

  lemma {:induction false} BeUnBe(s: seq<byte>)
    ensures Be(UnBe(s), |s|) == s && UnBe(s) < Pow256(|s|)
  {
    if s != [] {
      BeUnBe(s[..|s| - 1]);
      assert UnBe(s) / 256 == UnBe(s[..|s| - 1]) && UnBe(s) % 256 == s[|s| - 1];
    }
  }

  lemma Widths()
    ensures Pow256(2) == U16 && Pow256(4) == U32 && Pow256(8) == U64
  {
    assert Pow256(1) == 256;
    assert Pow256(3) == 256 * Pow256(2);
    assert Pow256(5) == 256 * Pow256(4);
    assert Pow256(6) == 256 * Pow256(5);
    assert Pow256(7) == 256 * Pow256(6);
  }

  /** uint64(x) of a signed 64-bit value, and back. */
  function ToU64(x: int): (n: nat)
    requires -I63 <= x < I63
    ensures n < U64
  {
    if x < 0 then x + U64 else x
  }

  function ToI64(n: nat): (x: int)
    requires n < U64
    ensures -I63 <= x < I63
    ensures ToU64(x) == n
  {
    if n < I63 then n else n - U64
  }
}
