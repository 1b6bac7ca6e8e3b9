/** Polynomials over GF(256) as coefficient sequences, low coefficient first: Horner
    evaluation, division by a linear factor, and interpolation. */
module Polynomials {
  import opened Bytes
  import opened Gf256

  type Poly = seq<Byte>

  function Eval(p: Poly, x: Byte): Byte {
    if p == [] then 0 else Add(Mul(Eval(p[1..], x), x), p[0])
  }

  method GfPolyEval(coeffs: array<Byte>, x: Byte) returns (result: Byte)
    ensures result == Eval(coeffs[..], x)
  {
    hide Add, Mul;
    result := 0;
    for i := coeffs.Length downto 0
      invariant result == Eval(coeffs[i..], x)
    {
      assert coeffs[i..][1..] == coeffs[i + 1..];
      var shifted := GfMul(result, x);
      result := Add(shifted, coeffs[i]);
    }
    assert coeffs[0..] == coeffs[..];
  }

  lemma EvalZero(p: Poly)
    ensures Eval(p, 0) == if p == [] then 0 else p[0]
  {
    if p != [] {
      MulZero(Eval(p[1..], 0));
      AddZero(p[0]);
      hide Add, Mul;
    }
  }

  lemma EvalUnfold(c: Byte, p: Poly, x: Byte)
    ensures Eval([c] + p, x) == Add(Mul(Eval(p, x), x), c)
  {
    hide Add, Mul;
    assert ([c] + p)[1..] == p;
  }

  /** Coefficients of (p(x) - p(r)) / (x - r). */
  function Quotient(p: Poly, r: Byte): (q: Poly)
    ensures |q| == if p == [] then 0 else |p| - 1
  {
    if |p| <= 1 then [] else [Eval(p[1..], r)] + Quotient(p[1..], r)
  }

  lemma {:induction false} QuotientEval(p: Poly, r: Byte, x: Byte)
    requires p != []
    ensures Eval(p, x) == Add(Eval(p, r), Mul(Add(x, r), Eval(Quotient(p, r), x)))
    decreases |p|
  {
    hide Add, Mul;
    var t := p[1..];
    assert p == [p[0]] + t;
    EvalUnfold(p[0], t, x);
    EvalUnfold(p[0], t, r);
    if t == [] {
      hide Eval;
      EvalNone(x); EvalNone(r);
      MulZero(Add(x, r)); MulZero(x); MulZero(r);
      AddZero(Eval(p, r));
    } else {
      var q := Quotient(t, r);
      EvalUnfold(Eval(t, r), q, x);
      QuotientEval(t, r, x);
      hide Eval;
      DivideStep(p[0], x, r, Eval(t, x), Eval(t, r), Eval(q, x));
    }
  }

  lemma EvalNone(x: Byte)
    ensures Eval([], x) == 0
  {
  }

  /** With t(x) = t(r) + (x - r) q(x): c + x t(x) = (c + r t(r)) + (x - r)(t(r) + x q(x)). */
  lemma DivideStep(c: Byte, x: Byte, r: Byte, tx: Byte, tr: Byte, q: Byte)
    requires tx == Add(tr, Mul(Add(x, r), q))
    ensures Add(Mul(tx, x), c) == Add(Add(Mul(tr, r), c), Mul(Add(x, r), Add(Mul(q, x), tr)))
  {
    hide *;
    var d := Add(x, r);
    var dqx := Mul(Mul(d, q), x);
    MulAdd(tr, Mul(d, q), x);
    MulAssoc(d, q, x);
    MulAdd(Mul(q, x), tr, d);
    MulComm(d, tr);
    MulAdd(x, r, tr);
    AddComm(Mul(d, Mul(q, x)), Mul(d, tr));
    // (tr x + dqx) + c  ==  (tr r + c) + ((tr x + tr r) + dqx)
    Regroup(Mul(tr, x), Mul(tr, r), dqx, c);
  }

  lemma Regroup(a: Byte, b: Byte, d: Byte, c: Byte)
    ensures Add(Add(a, d), c) == Add(Add(b, c), Add(Add(a, b), d))
  {
    hide *;
    AddAssoc(a, d, c);
    AddComm(a, b);
    AddAssoc(b, a, d);
    AddSwap(b, c, b, Add(a, d));
    AddSelf(b);
    AddZero(Add(c, Add(a, d)));
    AddComm(c, Add(a, d));
    AddAssoc(a, d, c);
  }

  /** The polynomial with value y at r and quotient q by (x - r). */
  function FromQuotient(y: Byte, r: Byte, q: Poly): (p: Poly)
    ensures |p| == |q| + 1
    decreases |q|
  {
    if q == [] then [y] else [Add(y, Mul(q[0], r))] + FromQuotient(q[0], r, q[1..])
  }

  lemma {:induction false} FromQuotientInverts(y: Byte, r: Byte, q: Poly)
    ensures Eval(FromQuotient(y, r, q), r) == y
    ensures Quotient(FromQuotient(y, r, q), r) == q
    decreases |q|
  {
    hide Add, Mul, Eval;
    var p := FromQuotient(y, r, q);
    if q == [] {
      EvalNone(r); MulZero(r); AddZero(y);
      EvalUnfold(y, [], r);
      assert [y] + [] == p;
    } else {
      var t := FromQuotient(q[0], r, q[1..]);
      var m := Mul(q[0], r);
      FromQuotientInverts(q[0], r, q[1..]);
      EvalUnfold(Add(y, m), t, r);
      AddComm(y, m); AddAssoc(m, m, y); AddSelf(m); AddZero(y);
      assert p[1..] == t;
    }
  }

  lemma {:induction false} QuotientDetermines(p: Poly, r: Byte)
    requires p != []
    ensures p == FromQuotient(Eval(p, r), r, Quotient(p, r))
    decreases |p|
  {
    hide Add, Mul;
    var t := p[1..];
    assert p == [p[0]] + t;
    EvalUnfold(p[0], t, r);
    if t == [] {
      EvalNone(r); MulZero(r); AddZero(p[0]);
    } else {
      QuotientDetermines(t, r);
      var m := Mul(Eval(t, r), r);
      hide Eval;
      AddComm(m, p[0]); AddAssoc(p[0], m, m); AddSelf(m); AddZero(p[0]);
    }
  }

  // ----- interpolation -----

  ghost predicate Distinct(xs: seq<Byte>) {
    forall i, j :: 0 <= i < j < |xs| ==> xs[i] != xs[j]
  }

  ghost predicate Through(p: Poly, xs: seq<Byte>, ys: seq<Byte>)
    requires |xs| == |ys|
  {
    forall i :: 0 <= i < |xs| ==> Eval(p, xs[i]) == ys[i]
  }

  /** Values the quotient by (x - r) must take for a polynomial with value y at r. */
  function Slopes(xs: seq<Byte>, ys: seq<Byte>, r: Byte, y: Byte): (zs: seq<Byte>)
    requires |xs| == |ys|
    ensures |zs| == |xs|
  {
    seq(|xs|, i requires 0 <= i < |xs| => Mul(Add(ys[i], y), Inv(Add(xs[i], r))))
  }

  function Interpolant(xs: seq<Byte>, ys: seq<Byte>): (p: Poly)
    requires |xs| == |ys|
    ensures |p| == |xs|
  {
    if xs == [] then [] else
      var r, y := xs[|xs| - 1], ys[|ys| - 1];
      var xs', ys' := xs[..|xs| - 1], ys[..|ys| - 1];
      FromQuotient(y, r, Interpolant(xs', Slopes(xs', ys', r, y)))
  }

  lemma {:induction false} InterpolantPasses(xs: seq<Byte>, ys: seq<Byte>)
    requires |xs| == |ys| && Distinct(xs)
    ensures Through(Interpolant(xs, ys), xs, ys)
    decreases |xs|
  {
    hide Add, Mul, Inv, Eval;
    if xs != [] {
      var r, y := xs[|xs| - 1], ys[|ys| - 1];
      var xs', ys' := xs[..|xs| - 1], ys[..|ys| - 1];
      var zs := Slopes(xs', ys', r, y);
      var q := Interpolant(xs', zs);
      var p := FromQuotient(y, r, q);
      InterpolantPasses(xs', zs);
      FromQuotientInverts(y, r, q);
      forall i | 0 <= i < |xs|
        ensures Eval(p, xs[i]) == ys[i]
      {
        if i < |xs| - 1 {
          QuotientEval(p, r, xs[i]);
          assert xs'[i] == xs[i] && zs[i] == Mul(Add(ys[i], y), Inv(Add(xs[i], r)));
          SlopeGives(xs[i], r, ys[i], y);
        }
      }
    }
  }

  lemma AddDistinct(a: Byte, b: Byte)
    ensures Add(a, b) == 0 <==> a == b
  {
  }

  lemma AddCancel(a: Byte, b: Byte)
    ensures Add(b, Add(a, b)) == a
  {
    hide *;
    AddComm(a, b); AddAssoc(b, b, a); AddSelf(b); AddZero(a);
  }

  lemma DivMul(d: Byte, e: Byte)
    requires d != 0
    ensures Mul(d, Mul(e, Inv(d))) == e
  {
    hide *;
    MulComm(e, Inv(d)); MulAssoc(d, Inv(d), e); InvMul(d); MulOne(e);
  }

  lemma SlopeGives(x: Byte, r: Byte, yx: Byte, y: Byte)
    requires x != r
    ensures Add(y, Mul(Add(x, r), Mul(Add(yx, y), Inv(Add(x, r))))) == yx
  {
    hide *;
    AddDistinct(x, r);
    DivMul(Add(x, r), Add(yx, y));
    AddCancel(yx, y);
  }

  /** A polynomial with as many coefficients as points is fixed by its values there. */
  lemma {:induction false} InterpolantUnique(p: Poly, xs: seq<Byte>, ys: seq<Byte>)
    requires |p| == |xs| == |ys| && Distinct(xs)
    requires Through(p, xs, ys)
    ensures p == Interpolant(xs, ys)
    decreases |xs|
  {
    hide Add, Mul, Inv, Eval;
    if xs != [] {
      var r, y := xs[|xs| - 1], ys[|ys| - 1];
      var xs', ys' := xs[..|xs| - 1], ys[..|ys| - 1];
      var zs := Slopes(xs', ys', r, y);
      var q := Quotient(p, r);
      forall i | 0 <= i < |xs'|
        ensures Eval(q, xs'[i]) == zs[i]
      {
        QuotientEval(p, r, xs[i]);
        SlopeIs(xs[i], r, Eval(q, xs[i]), y);
      }
      InterpolantUnique(q, xs', zs);
      QuotientDetermines(p, r);
    }
  }

  lemma SlopeIs(x: Byte, r: Byte, z: Byte, y: Byte)
    requires x != r
    ensures Mul(Add(Add(y, Mul(Add(x, r), z)), y), Inv(Add(x, r))) == z
  {
    hide *;
    var d := Add(x, r);
    AddDistinct(x, r);
    AddComm(y, Mul(d, z)); AddAssoc(Mul(d, z), y, y); AddSelf(y); AddZero(Mul(d, z));
    MulComm(d, z); MulAssoc(z, d, Inv(d)); InvMul(d); MulOne(z);
  }

  lemma {:induction false} EvalPadded(p: Poly, zeros: Poly, x: Byte)
    requires forall i :: 0 <= i < |zeros| ==> zeros[i] == 0
    ensures Eval(p + zeros, x) == Eval(p, x)
    decreases |p| + |zeros|
  {
    hide Add, Mul;
    if p == [] {
      if zeros == [] {
      } else {
        EvalPadded([], zeros[1..], x);
        assert [] + zeros[1..] == zeros[1..] && [] + zeros == zeros == [0] + zeros[1..];
        MulZero(x); AddZero(0);
      }
    } else {
      assert (p + zeros)[1..] == p[1..] + zeros;
      EvalPadded(p[1..], zeros, x);
    }
  }
}
