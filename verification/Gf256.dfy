/** GF(256) arithmetic as the recovery package computes it: xor addition, carry-less
    shift-and-add multiplication, Fermat inversion, and the field laws they satisfy. */
module Gf256 {
  import opened Bytes

  function Add(a: Byte, b: Byte): Byte {
    a ^ b
  }

  /** Multiplication by x: shift left, fold bit 8 back with the low bits of 0x11b. */
  function Double(a: Byte): Byte {
    Add(Shift(a), Carry(a))
  }

  function Shift(a: Byte): Byte {
    a << 1
  }

  function Carry(a: Byte): Byte {
    if a & 0x80 != 0 then 0x1b else 0
  }

  function Pick(b: Byte, a: Byte): Byte {
    if b & 1 != 0 then a else 0
  }

  function Half(b: Byte): Byte {
    b >> 1
  }

  /** What the multiplication loop still has to add when n rounds are left. */
  function MulN(a: Byte, b: Byte, n: nat): Byte
    decreases n
  {
    if n == 0 then 0 else Add(Pick(b, a), MulN(Double(a), Half(b), n - 1))
  }

  function Mul(a: Byte, b: Byte): Byte {
    MulN(a, b, 8)
  }

  method GfMul(x: Byte, y: Byte) returns (p: Byte)
    ensures p == Mul(x, y)
  {
    p := 0;
    var a, b := x, y;
    AddZero(MulN(x, y, 8));
    for i := 0 to 8
      invariant Add(p, MulN(a, b, 8 - i)) == Mul(x, y)
    {
      hide *;
      LoopStep(p, a, b, 8 - i);
      p, a, b := GfMulRound(p, a, b);
    }
    AddZero(p);
    MulNNone(a, b);
    hide *;
  }

  method GfMulRound(p0: Byte, a0: Byte, b0: Byte) returns (p: Byte, a: Byte, b: Byte)
    ensures p == Add(p0, Pick(b0, a0)) && a == Double(a0) && b == Half(b0)
  {
    AddZero(p0);
    AddZero(Shift(a0));
    hide Add;
    p, a, b := p0, a0, b0;
    if b & 1 != 0 {
      p := Add(p, a);
    }
    var hi := a & 0x80;
    a := a << 1;
    if hi != 0 {
      a := Add(a, 0x1b);
    }
    b := b >> 1;
  }

  lemma MulNNone(a: Byte, b: Byte)
    ensures MulN(a, b, 0) == 0
  {
  }

  lemma LoopStep(p: Byte, a: Byte, b: Byte, n: nat)
    requires n > 0
    ensures Add(p, MulN(a, b, n)) == Add(Add(p, Pick(b, a)), MulN(Double(a), Half(b), n - 1))
  {
    hide *;
    AddAssoc(p, Pick(b, a), MulN(Double(a), Half(b), n - 1));
    MulNUnfold(a, b, n);
  }

  lemma MulNUnfold(a: Byte, b: Byte, n: nat)
    requires n > 0
    ensures MulN(a, b, n) == Add(Pick(b, a), MulN(Double(a), Half(b), n - 1))
  {
    hide Add, Pick, Double, Half;
  }

  // ----- addition -----

  lemma AddZero(a: Byte)
    ensures Add(0, a) == a == Add(a, 0)
  {
  }

  lemma AddSelf(a: Byte)
    ensures Add(a, a) == 0
  {
  }

  lemma AddAssoc(a: Byte, b: Byte, c: Byte)
    ensures Add(a, Add(b, c)) == Add(Add(a, b), c)
  {
  }

  lemma AddComm(a: Byte, b: Byte)
    ensures Add(a, b) == Add(b, a)
  {
  }

  lemma AddSwap(a: Byte, b: Byte, c: Byte, d: Byte)
    ensures Add(Add(a, b), Add(c, d)) == Add(Add(a, c), Add(b, d))
  {
    hide *;
    AddAssoc(Add(a, b), c, d);
    AddAssoc(a, b, c);
    AddComm(b, c);
    AddAssoc(a, c, b);
    AddAssoc(Add(a, c), b, d);
  }

  // ----- every step of the loop is linear -----

  lemma DoubleAdd(a: Byte, b: Byte)
    ensures Double(Add(a, b)) == Add(Double(a), Double(b))
  {
    ShiftAdd(a, b);
    CarryAdd(a, b);
    hide Shift, Carry, Add;
    AddSwap(Shift(a), Shift(b), Carry(a), Carry(b));
  }

  lemma ShiftAdd(a: Byte, b: Byte)
    ensures Shift(Add(a, b)) == Add(Shift(a), Shift(b))
  {
  }

  lemma CarryAdd(a: Byte, b: Byte)
    ensures Carry(Add(a, b)) == Add(Carry(a), Carry(b))
  {
  }

  lemma PickAdd(b: Byte, b': Byte, a: Byte, a': Byte)
    ensures Pick(b, Add(a, a')) == Add(Pick(b, a), Pick(b, a'))
    ensures Pick(Add(b, b'), a) == Add(Pick(b, a), Pick(b', a))
  {
  }

  lemma PickDouble(b: Byte, a: Byte)
    ensures Pick(b, Double(a)) == Double(Pick(b, a))
  {
  }

  lemma HalfAdd(a: Byte, b: Byte)
    ensures Half(Add(a, b)) == Add(Half(a), Half(b))
  {
  }

  lemma {:induction false} MulNAddLeft(a: Byte, a': Byte, b: Byte, n: nat)
    ensures MulN(Add(a, a'), b, n) == Add(MulN(a, b, n), MulN(a', b, n))
    decreases n
  {
    if n == 0 {
    } else {
      hide *;
      MulNUnfold(a, b, n); MulNUnfold(a', b, n); MulNUnfold(Add(a, a'), b, n);
      DoubleAdd(a, a');
      PickAdd(b, 0, a, a');
      MulNAddLeft(Double(a), Double(a'), Half(b), n - 1);
      AddSwap(Pick(b, a), Pick(b, a'), MulN(Double(a), Half(b), n - 1), MulN(Double(a'), Half(b), n - 1));
    }
  }

  lemma {:induction false} MulNAddRight(a: Byte, b: Byte, b': Byte, n: nat)
    ensures MulN(a, Add(b, b'), n) == Add(MulN(a, b, n), MulN(a, b', n))
    decreases n
  {
    if n == 0 {
    } else {
      hide *;
      MulNUnfold(a, b, n); MulNUnfold(a, b', n); MulNUnfold(a, Add(b, b'), n);
      HalfAdd(b, b');
      PickAdd(b, b', a, 0);
      MulNAddRight(Double(a), Half(b), Half(b'), n - 1);
      AddSwap(Pick(b, a), Pick(b', a), MulN(Double(a), Half(b), n - 1), MulN(Double(a), Half(b'), n - 1));
    }
  }

  lemma {:induction false} MulNDouble(a: Byte, b: Byte, n: nat)
    ensures MulN(Double(a), b, n) == Double(MulN(a, b, n))
    decreases n
  {
    if n == 0 {
      assert Double(0) == 0;
    } else {
      hide *;
      MulNUnfold(a, b, n); MulNUnfold(Double(a), b, n);
      MulNDouble(Double(a), Half(b), n - 1);
      PickDouble(b, a);
      DoubleAdd(Pick(b, a), MulN(Double(a), Half(b), n - 1));
    }
  }

  lemma {:induction false} MulNZero(b: Byte, n: nat)
    ensures MulN(0, b, n) == 0
    decreases n
  {
    if n > 0 {
      assert Double(0) == 0;
      MulNZero(Half(b), n - 1);
    }
  }

  lemma {:induction false} MulAdd(a: Byte, b: Byte, c: Byte)
    ensures Mul(Add(a, b), c) == Add(Mul(a, c), Mul(b, c))
    ensures Mul(c, Add(a, b)) == Add(Mul(c, a), Mul(c, b))
  {
    hide MulN, Add;
    MulNAddLeft(a, b, c, 8);
    MulNAddRight(c, a, b, 8);
  }

  lemma {:induction false} MulZero(a: Byte)
    ensures Mul(0, a) == 0 == Mul(a, 0)
  {
    hide MulN, Add;
    MulNZero(a, 8);
    MulNAddRight(a, 0, 0, 8);
    AddZero(0);
    AddSelf(MulN(a, 0, 8));
  }

  lemma DoubleMul(a: Byte, b: Byte)
    ensures Mul(Double(a), b) == Double(Mul(a, b))
  {
    hide MulN, Double;
    MulNDouble(a, b, 8);
  }

  lemma PickMul(b: Byte, a: Byte, c: Byte)
    ensures Mul(Pick(b, a), c) == Pick(b, Mul(a, c))
  {
    MulZero(c);
    hide Mul;
  }

  /** Multiplying a partial product by c multiplies every summand by c. */
  lemma {:induction false} MulNSwap(a: Byte, b: Byte, c: Byte, n: nat)
    ensures Mul(MulN(a, b, n), c) == MulN(Mul(a, c), b, n)
    decreases n
  {
    hide *;
    if n == 0 {
      MulNNone(a, b); MulNNone(Mul(a, c), b);
      MulZero(c);
    } else {
      MulNUnfold(a, b, n); MulNUnfold(Mul(a, c), b, n);
      MulAdd(Pick(b, a), MulN(Double(a), Half(b), n - 1), c);
      PickMul(b, a, c);
      MulNSwap(Double(a), Half(b), c, n - 1);
      DoubleMul(a, c);
    }
  }

  // ----- the field laws -----

  /** Bits i and up of b, rebuilt from bit i and the bits above it. */
  lemma PickShift(b: Byte)
    ensures Add(Pick(b, 128), 0) == b << 7
    ensures Add(Pick(b, 64), Half(b) << 7) == b << 6
    ensures Add(Pick(b, 32), Half(b) << 6) == b << 5
    ensures Add(Pick(b, 16), Half(b) << 5) == b << 4
    ensures Add(Pick(b, 8), Half(b) << 4) == b << 3
    ensures Add(Pick(b, 4), Half(b) << 3) == b << 2
    ensures Add(Pick(b, 2), Half(b) << 2) == b << 1
    ensures Add(Pick(b, 1), Half(b) << 1) == b
  {
  }

  lemma DoublePowers()
    ensures Double(1) == 2 && Double(2) == 4 && Double(4) == 8 && Double(8) == 16
    ensures Double(16) == 32 && Double(32) == 64 && Double(64) == 128
  {
  }

  lemma OneMul(a: Byte)
    ensures Mul(1, a) == a
  {
    var a1 := Half(a);
    var a2 := Half(a1);
    var a3 := Half(a2);
    var a4 := Half(a3);
    var a5 := Half(a4);
    var a6 := Half(a5);
    var a7 := Half(a6);
    hide MulN, Half, Double, Pick, Add;
    DoublePowers();
    MulNUnfold(128, a7, 1); PickShift(a7); MulNNone(Double(128), Half(a7));
    MulNUnfold(64, a6, 2); PickShift(a6);
    MulNUnfold(32, a5, 3); PickShift(a5);
    MulNUnfold(16, a4, 4); PickShift(a4);
    MulNUnfold(8, a3, 5); PickShift(a3);
    MulNUnfold(4, a2, 6); PickShift(a2);
    MulNUnfold(2, a1, 7); PickShift(a1);
    MulNUnfold(1, a, 8); PickShift(a);
  }

  lemma MulRightSwap(a: Byte, b: Byte, c: Byte)
    ensures Mul(Mul(a, b), c) == Mul(Mul(a, c), b)
  {
    hide MulN;
    MulNSwap(a, b, c, 8);
  }

  lemma {:induction false} MulComm(a: Byte, b: Byte)
    ensures Mul(a, b) == Mul(b, a)
  {
    hide *;
    MulRightSwap(1, a, b);
    OneMul(a);
    OneMul(b);
  }

  lemma {:induction false} MulOne(a: Byte)
    ensures Mul(1, a) == a == Mul(a, 1)
  {
    hide *;
    OneMul(a);
    MulComm(1, a);
  }

  lemma {:induction false} MulAssoc(a: Byte, b: Byte, c: Byte)
    ensures Mul(Mul(a, b), c) == Mul(a, Mul(b, c))
  {
    hide *;
    MulComm(a, b);
    MulRightSwap(b, a, c);
    MulComm(Mul(b, c), a);
  }

  // ----- inversion -----

  function Square(a: Byte): Byte {
    Mul(a, a)
  }

  lemma SquareAdd(a: Byte, b: Byte)
    ensures Square(Add(a, b)) == Add(Square(a), Square(b))
  {
    hide Mul, Add;
    MulAdd(a, b, Add(a, b));
    MulAdd(a, b, a);
    MulAdd(a, b, b);
    MulComm(a, b);
    Cancel(Mul(a, a), Mul(a, b), Mul(b, b));
  }

  lemma Cancel(a: Byte, b: Byte, c: Byte)
    ensures Add(Add(a, b), Add(b, c)) == Add(a, c)
  {
  }

  /** Only 0 and 1 are their own squares: the modulus has a single irreducible factor. */
  lemma FixedBySquare(e: Byte)
    requires Square(e) == e
    ensures e == 0 || e == 1
  {
    hide MulN;
    MulExpand(e, e);
  }

  function Frobenius(a: Byte, k: nat): Byte {
    if k == 0 then a else Square(Frobenius(a, k - 1))
  }

  lemma {:induction false} FrobeniusLinear(a: Byte, b: Byte, k: nat)
    ensures Frobenius(Add(a, b), k) == Add(Frobenius(a, k), Frobenius(b, k))
    ensures Frobenius(Mul(a, b), k) == Mul(Frobenius(a, k), Frobenius(b, k))
    decreases k
  {
    hide Mul, Add, Square;
    if k > 0 {
      FrobeniusLinear(a, b, k - 1);
      SquareAdd(Frobenius(a, k - 1), Frobenius(b, k - 1));
      SquareMul(Frobenius(a, k - 1), Frobenius(b, k - 1));
    }
  }

  lemma SquareMul(a: Byte, b: Byte)
    ensures Square(Mul(a, b)) == Mul(Square(a), Square(b))
  {
    hide Mul;
    MulAssoc(a, b, Mul(a, b));
    MulAssoc(b, a, b);
    MulComm(a, b);
    MulAssoc(a, b, b);
    MulAssoc(a, a, Mul(b, b));
  }

  lemma TwoIsFixed()
    ensures Frobenius(2, 8) == 2
    ensures Frobenius(1, 8) == 1
  {
    SquaresOfTwo();
    hide Mul, Square;
    assert Frobenius(2, 2) == 0x10;
    assert Frobenius(2, 4) == 0x5e;
    assert Frobenius(2, 6) == 0x4d;
    assert Frobenius(1, 2) == 1;
    assert Frobenius(1, 4) == 1;
    assert Frobenius(1, 6) == 1;
  }

  lemma SquaresOfTwo()
    ensures Square(2) == 4 && Square(4) == 0x10 && Square(0x10) == 0x1b && Square(0x1b) == 0x5e
    ensures Square(0x5e) == 0xe4 && Square(0xe4) == 0x4d && Square(0x4d) == 0xfa && Square(0xfa) == 2
    ensures Square(1) == 1
  {
    hide MulN;
    OneMul(1);
    MulExpand(2, 2); MulExpand(4, 4); MulExpand(0x10, 0x10); MulExpand(0x1b, 0x1b);
    MulExpand(0x5e, 0x5e); MulExpand(0xe4, 0xe4); MulExpand(0x4d, 0x4d); MulExpand(0xfa, 0xfa);
  }

  /** The eight rounds written out. */
  lemma MulExpand(a: Byte, b: Byte)
    ensures Mul(a, b) ==
      var a1 := Double(a); var a2 := Double(a1); var a3 := Double(a2); var a4 := Double(a3);
      var a5 := Double(a4); var a6 := Double(a5); var a7 := Double(a6);
      var b1 := Half(b); var b2 := Half(b1); var b3 := Half(b2); var b4 := Half(b3);
      var b5 := Half(b4); var b6 := Half(b5); var b7 := Half(b6);
      Add(Pick(b, a), Add(Pick(b1, a1), Add(Pick(b2, a2), Add(Pick(b3, a3), Add(Pick(b4, a4),
        Add(Pick(b5, a5), Add(Pick(b6, a6), Add(Pick(b7, a7), 0))))))))
  {
    hide MulN, Add, Pick, Double, Half;
    var a1 := Double(a); var a2 := Double(a1); var a3 := Double(a2); var a4 := Double(a3);
    var a5 := Double(a4); var a6 := Double(a5); var a7 := Double(a6);
    var b1 := Half(b); var b2 := Half(b1); var b3 := Half(b2); var b4 := Half(b3);
    var b5 := Half(b4); var b6 := Half(b5); var b7 := Half(b6);
    MulNUnfold(a, b, 8); MulNUnfold(a1, b1, 7); MulNUnfold(a2, b2, 6); MulNUnfold(a3, b3, 5);
    MulNUnfold(a4, b4, 4); MulNUnfold(a5, b5, 3); MulNUnfold(a6, b6, 2); MulNUnfold(a7, b7, 1);
    MulNNone(Double(a7), Half(b7));
  }

  lemma TwoMul(a: Byte)
    ensures Mul(2, a) == Double(a)
  {
    DoublePowers();
    hide *;
    DoubleMul(1, a);
    OneMul(a);
  }

  /** A map that is linear and commutes with doubling is fixed by its value at 1. */
  lemma {:induction false} FrobeniusMulN(a: Byte, b: Byte, n: nat)
    ensures Frobenius(MulN(a, b, n), 8) == MulN(Frobenius(a, 8), b, n)
    decreases n
  {
    hide *;
    if n == 0 {
      MulNNone(a, b); MulNNone(Frobenius(a, 8), b);
      FrobeniusPick(0, 0);
    } else {
      MulNUnfold(a, b, n); MulNUnfold(Frobenius(a, 8), b, n);
      FrobeniusLinear(Pick(b, a), MulN(Double(a), Half(b), n - 1), 8);
      FrobeniusMulN(Double(a), Half(b), n - 1);
      TwoMul(a); TwoMul(Frobenius(a, 8)); TwoIsFixed(); FrobeniusLinear(2, a, 8);
      FrobeniusPick(b, a);
    }
  }

  lemma FrobeniusPick(b: Byte, a: Byte)
    ensures Frobenius(Pick(b, a), 8) == Pick(b, Frobenius(a, 8))
    ensures Frobenius(0, 8) == 0
  {
    hide Frobenius, Add;
    FrobeniusLinear(0, 0, 8);
    AddZero(0);
    AddSelf(Frobenius(0, 8));
  }

  /** a^256 == a. */
  lemma FrobeniusFixes(a: Byte)
    ensures Frobenius(a, 8) == a
  {
    OneMul(a);
    hide MulN, Frobenius;
    FrobeniusMulN(1, a, 8);
    TwoIsFixed();
  }

  function Pow(a: Byte, e: nat): Byte
    decreases e
  {
    if e == 0 then 1 else Mul(a, Pow(a, e - 1))
  }

  lemma {:induction false} PowAdd(a: Byte, m: nat, n: nat)
    ensures Pow(a, m + n) == Mul(Pow(a, m), Pow(a, n))
    decreases m
  {
    hide Mul;
    if m == 0 {
      MulOne(Pow(a, n));
    } else {
      PowAdd(a, m - 1, n);
      MulAssoc(a, Pow(a, m - 1), Pow(a, n));
    }
  }

  lemma {:induction false} PowSquare(a: Byte, e: nat)
    ensures Pow(Mul(a, a), e) == Pow(a, 2 * e)
    decreases e
  {
    hide Mul;
    if e > 0 {
      PowSquare(a, e - 1);
      assert Pow(a, 2 * e) == Mul(a, Mul(a, Pow(a, 2 * e - 2)));
      MulAssoc(a, a, Pow(a, 2 * e - 2));
    }
  }

  lemma {:induction false} PowFrobenius(a: Byte, k: nat, e: nat)
    requires e == Exp2(k)
    ensures Pow(a, e) == Frobenius(a, k)
    decreases k
  {
    hide Mul;
    if k == 0 {
      assert Pow(a, 1) == Mul(a, Pow(a, 0));
      MulOne(a);
    } else {
      PowFrobenius(a, k - 1, e / 2);
      PowAdd(a, e / 2, e / 2);
    }
  }

  /** a^255 == 1 away from 0: a^255 equals its own square, and it cannot be 0. */
  lemma Fermat(a: Byte)
    requires a != 0
    ensures Pow(a, 255) == 1
  {
    hide Mul, Frobenius;
    var e := Pow(a, 255);
    assert Exp2(8) == 256;
    PowFrobenius(a, 8, 256);
    FrobeniusFixes(a);
    assert Mul(a, e) == a;
    hide Pow;
    PowAdd(a, 255, 255);
    PowAdd(a, 256, 254);
    PowStep(a, 255);
    assert Square(e) == e;
    FixedBySquare(e);
    MulZero(a);
  }

  lemma PowStep(a: Byte, e: nat)
    requires e > 0
    ensures Pow(a, e) == Mul(a, Pow(a, e - 1))
  {
    hide Mul;
  }

  function Inv(a: Byte): Byte {
    if a == 0 then 0 else Pow(a, 254)
  }

  method GfInv(x: Byte) returns (result: Byte)
    ensures result == Inv(x)
  {
    hide Mul, Pow;
    if x == 0 {
      return 0;
    }
    result := 1;
    var a, exp := x, 254;
    OneMul(Pow(a, 254));
    while exp > 0
      invariant 0 <= exp
      invariant Mul(result, Pow(a, exp)) == Pow(x, 254)
    {
      PowSquare(a, exp / 2);
      if exp % 2 != 0 {
        PowStep(a, exp);
        MulAssoc(result, a, Pow(a, exp - 1));
        result := GfMul(result, a);
      }
      a := GfMul(a, a);
      exp := exp / 2;
    }
    PowNone(a);
    MulOne(result);
  }

  lemma PowNone(a: Byte)
    ensures Pow(a, 0) == 1
  {
  }

  lemma InvMul(a: Byte)
    requires a != 0
    ensures Mul(a, Inv(a)) == 1
  {
    hide Mul, Pow;
    PowStep(a, 255);
    Fermat(a);
  }

  /** x is a root of x^8 + x^4 + x^3 + x + 1, the modulus the source names. */
  lemma ModulusRoot()
    ensures Add(Add(Add(Add(Pow(2, 8), Pow(2, 4)), Pow(2, 3)), 2), 1) == 0
  {
    hide Mul, Pow;
    SquaresOfTwo();
    assert Exp2(2) == 4 && Exp2(3) == 8;
    PowFrobenius(2, 1, 2); PowFrobenius(2, 2, 4); PowFrobenius(2, 3, 8);
    PowStep(2, 3);
    TwoMul(4);
    DoublePowers();
  }
}
