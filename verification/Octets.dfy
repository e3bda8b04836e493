/** Bytes and big-endian numbers. */
module Octets {
  type Byte = b: int | 0 <= b < 0x100

  function Pow256(k: nat): (p: nat)
    ensures p >= 1
  {
    if k == 0 then 1 else 0x100 * Pow256(k - 1)
  }

  function BigEndian(b: seq<Byte>): nat {
    if b == [] then 0 else BigEndian(b[..|b| - 1]) * 0x100 + b[|b| - 1]
  }

  /** The k-byte form of n; higher bytes of n are dropped. */
  function BigEndianBytes(n: nat, k: nat): (b: seq<Byte>)
    ensures |b| == k
  {
    if k == 0 then [] else BigEndianBytes(n / 0x100, k - 1) + [n % 0x100]
  }

  lemma {:induction false} BigEndianOfBytes(n: nat, k: nat)
    requires n < Pow256(k)
    ensures BigEndian(BigEndianBytes(n, k)) == n
  {
    if k > 0 {
      BigEndianOfBytes(n / 0x100, k - 1);
      assert BigEndianBytes(n, k)[..k - 1] == BigEndianBytes(n / 0x100, k - 1);
    }
  }

  lemma {:induction false} BytesOfBigEndian(b: seq<Byte>)
    ensures BigEndian(b) < Pow256(|b|)
    ensures BigEndianBytes(BigEndian(b), |b|) == b
  {
    if b != [] {
      var init := b[..|b| - 1];
      BytesOfBigEndian(init);
      assert BigEndian(b) / 0x100 == BigEndian(init);
      assert BigEndian(b) % 0x100 == b[|b| - 1];
      assert b == init + [b[|b| - 1]];
    }
  }

  /** The first byte is the most significant one. */
  lemma {:induction false} BigEndianHead(b: seq<Byte>)
    requires b != []
    ensures BigEndian(b) == b[0] * Pow256(|b| - 1) + BigEndian(b[1..])
  {
    if |b| == 1 {
      assert b[..0] == [] && b[1..] == [];
    } else {
      var init, n := b[..|b| - 1], |b|;
      BigEndianHead(init);
      assert init[1..] == b[1..][..n - 2];
      assert b[1..][n - 2] == b[n - 1];
      calc {
        BigEndian(b);
        BigEndian(init) * 0x100 + b[n - 1];
        (b[0] * Pow256(n - 2) + BigEndian(init[1..])) * 0x100 + b[n - 1];
        b[0] * (Pow256(n - 2) * 0x100) + (BigEndian(init[1..]) * 0x100 + b[n - 1]);
      }
    }
  }
}
