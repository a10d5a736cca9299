/** Bytes and the fixed-width little-endian integers of `struct.pack`. */
module Bytes {

  type byte = x: int | 0 <= x < 256

  function Pow256(k: nat): (p: nat)
    ensures p >= 1
  {
    if k == 0 then 1 else 256 * Pow256(k - 1)
  }

  /** `struct.pack("<I", n)` is `Pack(n, 4)`, `struct.pack("<Q", n)` is `Pack(n, 8)`. */
  function Pack(n: nat, width: nat): (b: seq<byte>)
    ensures |b| == width
    decreases width
  {
    if width == 0 then [] else [n % 256] + Pack(n / 256, width - 1)
  }

  /** The integer a little-endian machine reads from those bytes. */
  function Unpack(b: seq<byte>): nat {
    if b == [] then 0 else b[0] + 256 * Unpack(b[1..])
  }

  lemma {:induction false} UnpackPack(n: nat, width: nat)
    requires n < Pow256(width)
    ensures Unpack(Pack(n, width)) == n
    decreases width
  {
    if width > 0 {
      UnpackPack(n / 256, width - 1);
      assert Pack(n, width)[1..] == Pack(n / 256, width - 1);
    }
  }

  /** The least significant byte comes first. */
  lemma {:induction false} PackIsLittleEndian(n: nat, width: nat, i: nat)
    requires i < width
    ensures Pack(n, width)[i] as int == n / Pow256(i) % 256
    decreases i
  {
    if i > 0 {
      PackIsLittleEndian(n / 256, width - 1, i - 1);
      DivTwice(n, Pow256(i - 1));
    }
  }

  lemma DivTwice(n: nat, p: nat)
    requires p >= 1
    ensures n / (256 * p) == n / 256 / p
  {
    var q, r := n / 256, n % 256;
    var k := q / p;
    assert k * p <= q < k * p + p;
    assert n == 256 * q + r;
    DivIs(n, 256 * p, k);
  }

  lemma DivIs(n: nat, d: nat, k: nat)
    requires d >= 1 && k * d <= n < k * d + d
    ensures n / d == k
  {
    var q := n / d;
    assert n == q * d + n % d;
    var e := q - k;
    assert e * d == q * d - k * d;
    Multiples(e, d);
  }

  lemma Multiples(e: int, d: nat)
    ensures e >= 1 ==> e * d >= d
    ensures e <= -1 ==> e * d + d <= 0
  {
  }

  /** Every byte string is what packing gives for the number it stands for. */
  lemma {:induction false} PackUnpack(b: seq<byte>)
    ensures Unpack(b) < Pow256(|b|) && Pack(Unpack(b), |b|) == b
    decreases |b|
  {
    if b != [] {
      PackUnpack(b[1..]);
      LowAndHigh(b[0], Unpack(b[1..]));
      assert b == [b[0]] + b[1..];
    }
  }

  lemma LowAndHigh(low: byte, high: nat)
    ensures (low + 256 * high) % 256 == low && (low + 256 * high) / 256 == high
  {
  }

  const U32_LIMIT := 0x1_0000_0000
  const U64_LIMIT := 0x1_0000_0000_0000_0000
  const LONG_LIMIT := 0x8000_0000_0000_0000

  lemma WordSizes()
    ensures Pow256(4) == U32_LIMIT
    ensures Pow256(8) == U64_LIMIT
  {
    assert Pow256(2) == 0x1_0000;
    assert Pow256(3) == 0x100_0000;
    assert Pow256(5) == 0x100_0000_0000;
    assert Pow256(6) == 0x1_0000_0000_0000;
    assert Pow256(7) == 0x100_0000_0000_0000;
  }

  lemma ReadU32(n: nat)
    requires n < U32_LIMIT
    ensures Unpack(Pack(n, 4)) == n
  {
    WordSizes();
    UnpackPack(n, 4);
  }

  lemma ReadU64(n: nat)
    requires n < U64_LIMIT
    ensures Unpack(Pack(n, 8)) == n
  {
    WordSizes();
    UnpackPack(n, 8);
  }

  lemma FieldBytes(b: seq<byte>)
    ensures |b| == 4 ==> Unpack(b) < U32_LIMIT && Pack(Unpack(b), 4) == b
    ensures |b| == 8 ==> Unpack(b) < U64_LIMIT && Pack(Unpack(b), 8) == b
  {
    WordSizes();
    PackUnpack(b);
  }
}
