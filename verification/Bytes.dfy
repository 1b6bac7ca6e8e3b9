/** Bytes, byte strings and the integer-to-byte conversions the source relies on. */
module Bytes {
  type Byte = bv8

  /** Byte slices, and Go strings, which are byte sequences too. */
  type Bytes = seq<Byte>

  function Exp2(k: nat): nat {
    if k == 0 then 1 else 2 * Exp2(k - 1)
  }

  /** The conversion byte(i): the bits of i, highest first, pushed into a byte. */
  function ByteOf(i: nat): Byte {
    if i == 0 then 0 else PushBit(ByteOf(i / 2), i % 2 == 1)
  }

  function PushBit(b: Byte, bit: bool): Byte {
    (b << 1) | (if bit then 1 else 0)
  }

  function Mask(k: nat): Byte {
    if k == 0 then 0 else PushBit(Mask(k - 1), true)
  }

  lemma MaskBound(k: nat)
    requires k <= 7
    ensures Mask(k) <= 127
  {
    assert Mask(2) == 3;
    assert Mask(4) == 15;
    assert Mask(6) == 63;
  }

  lemma PushBitInjective(a: Byte, b: Byte, p: bool, q: bool)
    requires a <= 127 && b <= 127 && PushBit(a, p) == PushBit(b, q)
    ensures a == b && p == q
  {
  }

  lemma PushBitBound(a: Byte, m: Byte, p: bool)
    requires a <= m <= 127
    ensures PushBit(a, p) <= PushBit(m, true)
    ensures PushBit(0, false) == 0
  {
  }

  lemma {:induction false} ByteOfInjective(i: nat, j: nat, k: nat)
    requires k <= 8 && i < Exp2(k) && j < Exp2(k)
    ensures ByteOf(i) <= Mask(k)
    ensures ByteOf(i) == ByteOf(j) ==> i == j
    decreases k
  {
    hide PushBit;
    if k > 0 {
      ByteOfInjective(i / 2, j / 2, k - 1);
      ByteOfInjective(j / 2, i / 2, k - 1);
      MaskBound(k - 1);
      PushBitBound(ByteOf(i / 2), Mask(k - 1), i % 2 == 1);
      if ByteOf(i) == ByteOf(j) {
        PushBitInjective(ByteOf(i / 2), ByteOf(j / 2), i % 2 == 1, j % 2 == 1);
      }
    }
  }

  lemma ByteOfZero()
    ensures ByteOf(0) == 0
  {
  }

  lemma ByteOfDistinct(i: nat, j: nat)
    requires i < 256 && j < 256
    ensures ByteOf(i) == ByteOf(j) ==> i == j
  {
    hide ByteOf;
    assert Exp2(4) == 16;
    assert Exp2(8) == 256;
    ByteOfInjective(i, j, 8);
  }

  /** byte(i + 1) is byte(i) + 1 modulo 256, so byte() is truncation. */
  lemma {:induction false} ByteOfNext(i: nat)
    ensures ByteOf(0) == 0 && ByteOf(i + 1) == ByteOf(i) + 1
    decreases i
  {
    var h := ByteOf(i / 2);
    if i % 2 == 0 {
      assert (i + 1) / 2 == i / 2 && (i + 1) % 2 == 1;
      assert i == 0 || ByteOf(i) == PushBit(h, false);
      NextBit(h);
    } else {
      assert (i + 1) / 2 == i / 2 + 1 && (i + 1) % 2 == 0;
      ByteOfNext(i / 2);
      NextBit(h);
    }
    hide PushBit;
  }

  lemma NextBit(h: Byte)
    ensures PushBit(h, true) == PushBit(h, false) + 1 && PushBit(h + 1, false) == PushBit(h, true) + 1
    ensures PushBit(0, false) == 0
  {
  }

  // ----- big-endian 32-bit lengths -----

  /** uint32(n), most significant byte first. */
  function Be32(n: nat): (b: Bytes)
    ensures |b| == 4
  {
    [ByteOf(n / 256 / 256 / 256 % 256), ByteOf(n / 256 / 256 % 256), ByteOf(n / 256 % 256), ByteOf(n % 256)]
  }

  lemma Be32Injective(m: nat, n: nat)
    requires m < 0x1_0000_0000 && n < 0x1_0000_0000 && Be32(m) == Be32(n)
    ensures m == n
  {
    hide ByteOf;
    var bm, bn := Be32(m), Be32(n);
    assert bm[0] == bn[0] && bm[1] == bn[1] && bm[2] == bn[2] && bm[3] == bn[3];
    var m1, m2, m3 := m / 256, m / 256 / 256, m / 256 / 256 / 256;
    var n1, n2, n3 := n / 256, n / 256 / 256, n / 256 / 256 / 256;
    ByteOfDistinct(m3 % 256, n3 % 256);
    ByteOfDistinct(m2 % 256, n2 % 256);
    ByteOfDistinct(m1 % 256, n1 % 256);
    ByteOfDistinct(m % 256, n % 256);
    hide Be32;
    assert m3 < 256 && n3 < 256;
    assert m2 == n2;
    assert m1 == n1;
  }

  // ----- big-endian 64-bit words -----

  /** uint64(n), most significant byte first. */
  function Be64(n: nat): (b: Bytes)
    ensures |b| == 8
  {
    Digits(n, 8)
  }

  /** The k lowest base-256 digits, highest first. */
  function Digits(n: nat, k: nat): (b: Bytes)
    ensures |b| == k
  {
    if k == 0 then [] else Digits(n / 256, k - 1) + [ByteOf(n % 256)]
  }

  lemma Be64Layout(n: nat)
    ensures var b := Be64(n);
            && b[7] == ByteOf(n % 256) && b[6] == ByteOf(n / 256 % 256) && b[5] == ByteOf(n / 256 / 256 % 256)
            && b[4] == ByteOf(n / 256 / 256 / 256 % 256) && b[3] == ByteOf(n / 256 / 256 / 256 / 256 % 256)
            && b[..3] == Digits(n / 256 / 256 / 256 / 256 / 256, 3)
  {
    hide ByteOf;
    assert Be64(n)[..7] == Digits(n / 256, 7);
    assert Digits(n / 256, 7)[..6] == Digits(n / 256 / 256, 6);
    assert Digits(n / 256 / 256, 6)[..5] == Digits(n / 256 / 256 / 256, 5);
    assert Digits(n / 256 / 256 / 256, 5)[..4] == Digits(n / 256 / 256 / 256 / 256, 4);
    assert Digits(n / 256 / 256 / 256 / 256, 4)[..3] == Digits(n / 256 / 256 / 256 / 256 / 256, 3);
  }
}
