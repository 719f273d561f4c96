/**
 The sealing primitives, left uninterpreted. Every theorem about sealed data
 quantifies over all values of these types that obey the one law the program
 relies on: opening what was sealed gives the plaintext back.
 */
module Aead {
  import opened Bytes

  const NONCE: nat := 12
  const TAG: nat := 16

  /** One AEAD instance, i.e. ChaCha20-Poly1305 under a fixed key and no associated data. */
  datatype Cipher = Cipher(
    seal: (seq<byte>, seq<byte>) -> seq<byte>,
    open: (seq<byte>, seq<byte>) -> Option<seq<byte>>)
  {
    ghost predicate Lawful() {
      forall n: seq<byte>, p: seq<byte> {:trigger seal(n, p)} ::
        |n| == NONCE ==> |seal(n, p)| == |p| + TAG && open(n, seal(n, p)) == Some(p)
    }

    /** EncryptInPlace: nonce, then ciphertext and tag. The nonce is drawn at random by the caller. */
    function Encrypt(nonce: seq<byte>, plain: seq<byte>): seq<byte> {
      nonce + seal(nonce, plain)
    }

    /** DecryptInPlace. */
    function Decrypt(box: seq<byte>): Option<seq<byte>> {
      if |box| < NONCE + TAG then None else open(box[..NONCE], box[NONCE..])
    }

    lemma DecryptEncrypt(nonce: seq<byte>, plain: seq<byte>)
      requires Lawful() && |nonce| == NONCE
      ensures Decrypt(Encrypt(nonce, plain)) == Some(plain)
      ensures |Encrypt(nonce, plain)| == NONCE + |plain| + TAG
    {
      var box := Encrypt(nonce, plain);
      assert box[..NONCE] == nonce && box[NONCE..] == seal(nonce, plain);
    }
  }

  /** A lawful cipher exists: append a tag of zeros, and cut it off again. */
  function Transparent(): Cipher {
    Cipher((_: seq<byte>, p: seq<byte>) => p + seq(TAG, _ => 0),
           (_: seq<byte>, b: seq<byte>) => if |b| < TAG then None else Some(b[..|b| - TAG]))
  }

  lemma TransparentIsLawful()
    ensures Transparent().Lawful()
  {
    var c := Transparent();
    forall n: seq<byte>, p: seq<byte> | |n| == NONCE
      ensures |c.seal(n, p)| == |p| + TAG && c.open(n, c.seal(n, p)) == Some(p)
    {
      assert (p + seq(TAG, _ => 0))[..|p|] == p;
    }
  }
}
