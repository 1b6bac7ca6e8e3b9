/** Lagrange interpolation at 0: the weighted sum the recovery package computes equals the
    constant coefficient of every polynomial short enough for the points it is given. */
module Lagrange {
  import opened Bytes
  import opened Gf256
  import opened Polynomials

  /** Product of the first n entries of f whose positions are not skipped. */
  function Product(f: seq<Byte>, skip: set<nat>, n: nat): Byte
    requires n <= |f|
  {
    if n == 0 then 1
    else if n - 1 in skip then Product(f, skip, n - 1)
    else Mul(Product(f, skip, n - 1), f[n - 1])
  }

  function Differences(xs: seq<Byte>, x: Byte): (ds: seq<Byte>)
    ensures |ds| == |xs|
    ensures forall j :: 0 <= j < |xs| ==> ds[j] == Add(x, xs[j])
  {
    seq(|xs|, j requires 0 <= j < |xs| => Add(x, xs[j]))
  }

  function Weight(xs: seq<Byte>, skip: set<nat>, i: nat): Byte
    requires i < |xs|
  {
    Mul(Product(xs, skip + {i}, |xs|), Inv(Product(Differences(xs, xs[i]), skip + {i}, |xs|)))
  }

  /** The Lagrange sum at 0 over the points whose positions are not skipped. */
  function WeightedSum(xs: seq<Byte>, ys: seq<Byte>, skip: set<nat>, n: nat): Byte
    requires n <= |xs| == |ys|
  {
    if n == 0 then 0
    else if n - 1 in skip then WeightedSum(xs, ys, skip, n - 1)
    else Add(WeightedSum(xs, ys, skip, n - 1), Mul(ys[n - 1], Weight(xs, skip, n - 1)))
  }

  function AtZero(xs: seq<Byte>, ys: seq<Byte>): Byte
    requires |xs| == |ys|
  {
    WeightedSum(xs, ys, {}, |xs|)
  }

  method GfLagrange(xs: array<Byte>, ys: array<Byte>) returns (result: Byte)
    requires xs.Length == ys.Length
    ensures result == AtZero(xs[..], ys[..])
  {
    hide Add, Mul, Inv, Product;
    result := 0;
    for i := 0 to xs.Length
      invariant result == WeightedSum(xs[..], ys[..], {}, i)
    {
      var num, den := NumeratorDenominator(xs, i);
      var inverse := GfInv(den);
      var weight := GfMul(num, inverse);
      var term := GfMul(ys[i], weight);
      result := Add(result, term);
    }
  }

  /** The inner loop of the Lagrange sum: both products over the other points. */
  method NumeratorDenominator(xs: array<Byte>, i: nat) returns (num: Byte, den: Byte)
    requires i < xs.Length
    ensures num == Product(xs[..], {} + {i}, xs.Length)
    ensures den == Product(Differences(xs[..], xs[i]), {} + {i}, xs.Length)
  {
    hide Add, Mul;
    num, den := 1, 1;
    for j := 0 to xs.Length
      invariant num == Product(xs[..], {} + {i}, j)
      invariant den == Product(Differences(xs[..], xs[i]), {} + {i}, j)
    {
      if i != j {
        num := GfMul(num, xs[j]);
        den := GfMul(den, Add(xs[i], xs[j]));
      }
    }
  }

  // ----- the sum is linear in the values -----

  lemma {:induction false} SumAdd(xs: seq<Byte>, ys: seq<Byte>, zs: seq<Byte>, us: seq<Byte>, skip: set<nat>, n: nat)
    requires n <= |xs| == |ys| == |zs| == |us|
    requires forall i :: 0 <= i < |xs| ==> us[i] == Add(ys[i], zs[i])
    ensures WeightedSum(xs, us, skip, n) == Add(WeightedSum(xs, ys, skip, n), WeightedSum(xs, zs, skip, n))
    decreases n
  {
    hide Add, Mul, Weight;
    if n == 0 {
      AddZero(0);
    } else {
      SumAdd(xs, ys, zs, us, skip, n - 1);
      var w := Weight(xs, skip, n - 1);
      MulAdd(ys[n - 1], zs[n - 1], w);
      AddSwap(WeightedSum(xs, ys, skip, n - 1), WeightedSum(xs, zs, skip, n - 1), Mul(ys[n - 1], w), Mul(zs[n - 1], w));
    }
  }

  lemma {:induction false} SumScale(xs: seq<Byte>, ys: seq<Byte>, us: seq<Byte>, c: Byte, skip: set<nat>, n: nat)
    requires n <= |xs| == |ys| == |us|
    requires forall i :: 0 <= i < |xs| ==> us[i] == Mul(c, ys[i])
    ensures WeightedSum(xs, us, skip, n) == Mul(c, WeightedSum(xs, ys, skip, n))
    decreases n
  {
    hide Add, Mul, Weight;
    if n == 0 {
      MulZero(c);
    } else {
      SumScale(xs, ys, us, c, skip, n - 1);
      var w := Weight(xs, skip, n - 1);
      MulAssoc(c, ys[n - 1], w);
      MulAdd(WeightedSum(xs, ys, skip, n - 1), Mul(ys[n - 1], w), c);
    }
  }

  // ----- taking one point out -----

  lemma {:induction false} ProductTakeOut(f: seq<Byte>, skip: set<nat>, m: nat, n: nat)
    requires n <= |f| && m < |f| && m !in skip
    ensures Product(f, skip, n) == if m < n then Mul(f[m], Product(f, skip + {m}, n)) else Product(f, skip + {m}, n)
    decreases n
  {
    hide Mul;
    if n > 0 {
      ProductTakeOut(f, skip, m, n - 1);
      if n - 1 == m {
        MulComm(Product(f, skip, n - 1), f[m]);
      } else if n - 1 !in skip && m < n {
        MulAssoc(f[m], Product(f, skip + {m}, n - 1), f[n - 1]);
      }
    }
  }

  lemma {:induction false} ProductNonZero(f: seq<Byte>, skip: set<nat>, n: nat)
    requires n <= |f|
    requires forall j: nat :: j < n && j !in skip ==> f[j] != 0
    ensures Product(f, skip, n) != 0
    decreases n
  {
    hide Mul;
    if n > 0 {
      ProductNonZero(f, skip, n - 1);
      if n - 1 !in skip {
        MulNonZero(Product(f, skip, n - 1), f[n - 1]);
      }
    }
  }

  lemma MulNonZero(a: Byte, b: Byte)
    requires a != 0 && b != 0
    ensures Mul(a, b) != 0
  {
    hide *;
    if Mul(a, b) == 0 {
      MulComm(a, b); MulAssoc(b, a, Inv(a)); InvMul(a); MulOne(b); MulZero(Inv(a));
      MulAssoc(a, b, Inv(a)); MulComm(a, Inv(a)); MulComm(b, a);
    }
  }

  lemma InvOfMul(a: Byte, b: Byte)
    requires a != 0 && b != 0
    ensures Inv(Mul(a, b)) == Mul(Inv(a), Inv(b))
  {
    hide *;
    MulNonZero(a, b);
    var i, j := Inv(Mul(a, b)), Mul(Inv(a), Inv(b));
    // (ab) j == 1
    MulRightSwap(a, b, j);
    MulAssoc(a, Inv(a), Inv(b)); InvMul(a); MulOne(Inv(b));
    MulComm(Inv(b), b); InvMul(b);
    // i == i ((ab) j) == j
    InvMul(Mul(a, b)); MulOne(i); MulOne(j);
    MulComm(Mul(a, b), i);
    MulAssoc(i, Mul(a, b), j);
  }

  lemma WeightTakeOut(xs: seq<Byte>, skip: set<nat>, i: nat, m: nat, z: Byte)
    requires i < |xs| && m < |xs| && i != m && i !in skip && m !in skip && Distinct(xs)
    ensures Mul(Mul(Add(xs[i], xs[m]), z), Weight(xs, skip, i)) == Mul(xs[m], Mul(z, Weight(xs, skip + {m}, i)))
  {
    hide Add, Mul, Inv, Product;
    var n := |xs|;
    var ds := Differences(xs, xs[i]);
    assert skip + {i} + {m} == skip + {m} + {i};
    ProductTakeOut(xs, skip + {i}, m, n);
    ProductTakeOut(ds, skip + {i}, m, n);
    var p, d := Product(xs, skip + {m} + {i}, n), Product(ds, skip + {m} + {i}, n);
    forall j: nat | j < n
      ensures ds[j] == 0 ==> j == i
    {
      AddDistinct(xs[i], xs[j]);
    }
    ProductNonZero(ds, skip + {m} + {i}, n);
    WeightAlgebra(ds[m], z, xs[m], p, d);
  }

  /** (d z) ((x p) / (d e)) == x (z (p / e)). */
  lemma WeightAlgebra(d: Byte, z: Byte, x: Byte, p: Byte, e: Byte)
    requires d != 0 && e != 0
    ensures Mul(Mul(d, z), Mul(Mul(x, p), Inv(Mul(d, e)))) == Mul(x, Mul(z, Mul(p, Inv(e))))
  {
    hide *;
    InvOfMul(d, e);
    var d', e' := Inv(d), Inv(e);
    InvMul(d);
    MulSwap(x, p, d', e');           // (x p)(d' e') == (x d')(p e')
    MulComm(x, d');
    MulAssoc(d', x, Mul(p, e'));     // == d' (x (p e'))
    var r := Mul(x, Mul(p, e'));
    MulSwap(d, z, d', r);            // (d z)(d' r) == (d d')(z r)
    MulOne(Mul(z, r));
    MulAssoc(z, x, Mul(p, e')); MulComm(z, x); MulAssoc(x, z, Mul(p, e'));
  }

  lemma MulSwap(a: Byte, b: Byte, c: Byte, d: Byte)
    ensures Mul(Mul(a, b), Mul(c, d)) == Mul(Mul(a, c), Mul(b, d))
  {
    hide *;
    MulAssoc(Mul(a, b), c, d);
    MulRightSwap(a, b, c);
    MulAssoc(Mul(a, c), b, d);
  }

  /** Values vanishing at point m: that point drops out and leaves a factor of its abscissa. */
  lemma {:induction false} SumTakeOut(xs: seq<Byte>, ys: seq<Byte>, zs: seq<Byte>, skip: set<nat>, m: nat, n: nat)
    requires n <= |xs| == |ys| == |zs| && m < |xs| && m !in skip && Distinct(xs)
    requires forall i :: 0 <= i < |xs| ==> ys[i] == Mul(Add(xs[i], xs[m]), zs[i])
    ensures WeightedSum(xs, ys, skip, n) == Mul(xs[m], WeightedSum(xs, zs, skip + {m}, n))
    decreases n
  {
    hide Add, Mul, Weight;
    if n == 0 {
      MulZero(xs[m]);
    } else {
      SumTakeOut(xs, ys, zs, skip, m, n - 1);
      var i := n - 1;
      if i == m {
        AddSelf(xs[m]); MulZero(zs[m]); MulZero(Weight(xs, skip, m)); AddZero(WeightedSum(xs, ys, skip, n - 1));
      } else if i !in skip {
        WeightTakeOut(xs, skip, i, m, zs[i]);
        MulAdd(WeightedSum(xs, zs, skip + {m}, n - 1), Mul(zs[i], Weight(xs, skip + {m}, i)), xs[m]);
      }
    }
  }

  // ----- the weights add up to one -----

  function Constant(c: Byte, n: nat): (ys: seq<Byte>)
    ensures |ys| == n && forall i :: 0 <= i < n ==> ys[i] == c
  {
    seq(n, _ => c)
  }

  ghost function Active(n: nat, skip: set<nat>): set<nat> {
    set i: nat | i < n && i !in skip
  }

  lemma ActiveTakeOut(n: nat, skip: set<nat>, m: nat)
    requires m < n && m !in skip
    ensures Active(n, skip) == Active(n, skip + {m}) + {m}
    ensures |Active(n, skip)| == |Active(n, skip + {m})| + 1
  {
    assert Active(n, skip) == Active(n, skip + {m}) + {m};
  }

  lemma {:induction false} ProductAllSkipped(f: seq<Byte>, skip: set<nat>, n: nat)
    requires n <= |f| && forall j: nat :: j < n ==> j in skip
    ensures Product(f, skip, n) == 1
    decreases n
  {
    if n > 0 {
      ProductAllSkipped(f, skip, n - 1);
    }
  }

  lemma {:induction false} SumSinglePoint(xs: seq<Byte>, skip: set<nat>, m: nat, n: nat)
    requires n <= |xs| && m < |xs| && Active(|xs|, skip) == {m}
    ensures WeightedSum(xs, Constant(1, |xs|), skip, n) == if m < n then 1 else 0
    decreases n
  {
    hide Add, Mul, Inv, Product;
    if n > 0 {
      SumSinglePoint(xs, skip, m, n - 1);
      assert n - 1 !in skip ==> n - 1 in Active(|xs|, skip);
      if n - 1 == m {
        assert m in Active(|xs|, skip);
        forall j: nat | j < |xs| ensures j in skip + {m} {
          assert j !in skip ==> j in Active(|xs|, skip);
        }
        ProductAllSkipped(xs, skip + {m}, |xs|);
        ProductAllSkipped(Differences(xs, xs[m]), skip + {m}, |xs|);
        InvMul(1); MulOne(Inv(1)); MulOne(1); AddZero(1);
      }
    }
  }

  lemma {:induction false} WeightsSumToOne(xs: seq<Byte>, skip: set<nat>)
    requires Distinct(xs) && Active(|xs|, skip) != {}
    ensures WeightedSum(xs, Constant(1, |xs|), skip, |xs|) == 1
    decreases |Active(|xs|, skip)|
  {
    hide Add, Mul, Inv, WeightedSum;
    var n := |xs|;
    var a :| a in Active(n, skip);
    if Active(n, skip) == {a} {
      SumSinglePoint(xs, skip, a, n);
    } else {
      assert Active(n, skip) != {a} && a in Active(n, skip) ==> Active(n, skip) - {a} != {} by {
        assert Active(n, skip) == (Active(n, skip) - {a}) + {a};
      }
      var b :| b in Active(n, skip) - {a};
      ActiveTakeOut(n, skip, a);
      ActiveTakeOut(n, skip, b);
      assert b in Active(n, skip + {a}) && a in Active(n, skip + {b});
      WeightsSumToOne(xs, skip + {a});
      WeightsSumToOne(xs, skip + {b});
      var ones := Constant(1, n);
      var da, db := Differences(xs, xs[a]), Differences(xs, xs[b]);
      DifferencesTakeOut(xs, da, skip, a);
      DifferencesTakeOut(xs, db, skip, b);
      var c := Add(xs[a], xs[b]);
      var cs := Constant(c, n);
      forall i | 0 <= i < n
        ensures cs[i] == Add(da[i], db[i]) == Mul(c, ones[i])
      {
        AddSwap(xs[a], xs[i], xs[b], xs[i]); AddSelf(xs[i]); AddZero(c);
        MulOne(c);
      }
      SumAdd(xs, da, db, cs, skip, n);
      SumScale(xs, ones, cs, c, skip, n);
      AddDistinct(xs[a], xs[b]);
      MulOne(c);
      MulOne(xs[a]); MulOne(xs[b]);
      MulCancel(c, WeightedSum(xs, ones, skip, n), 1);
    }
  }

  lemma DifferencesTakeOut(xs: seq<Byte>, da: seq<Byte>, skip: set<nat>, a: nat)
    requires a < |xs| && a !in skip && Distinct(xs) && da == Differences(xs, xs[a])
    ensures WeightedSum(xs, da, skip, |xs|) == Mul(xs[a], WeightedSum(xs, Constant(1, |xs|), skip + {a}, |xs|))
  {
    hide Add, Mul, WeightedSum;
    var ones := Constant(1, |xs|);
    forall i | 0 <= i < |xs|
      ensures da[i] == Mul(Add(xs[i], xs[a]), ones[i])
    {
      AddComm(xs[i], xs[a]);
      MulOne(Add(xs[i], xs[a]));
    }
    SumTakeOut(xs, da, ones, skip, a, |xs|);
  }

  lemma MulCancel(c: Byte, a: Byte, b: Byte)
    requires c != 0 && Mul(c, a) == Mul(c, b)
    ensures a == b
  {
    hide *;
    MulAssoc(Inv(c), c, a); MulAssoc(Inv(c), c, b);
    MulComm(Inv(c), c); InvMul(c);
    MulOne(a); MulOne(b);
  }

  // ----- interpolation recovers the value at 0 -----

  function Values(p: Poly, xs: seq<Byte>): (ys: seq<Byte>)
    ensures |ys| == |xs| && forall i :: 0 <= i < |xs| ==> ys[i] == Eval(p, xs[i])
  {
    seq(|xs|, i requires 0 <= i < |xs| => Eval(p, xs[i]))
  }

  lemma {:induction false} SumOfZeros(xs: seq<Byte>, ys: seq<Byte>, skip: set<nat>, n: nat)
    requires n <= |xs| == |ys| && forall i :: 0 <= i < |xs| ==> ys[i] == 0
    ensures WeightedSum(xs, ys, skip, n) == 0
    decreases n
  {
    hide Add, Mul, Weight;
    if n > 0 {
      SumOfZeros(xs, ys, skip, n - 1);
      MulZero(Weight(xs, skip, n - 1));
      AddZero(0);
    }
  }

  lemma {:induction false} SumIsValueAtZero(xs: seq<Byte>, p: Poly, skip: set<nat>)
    requires Distinct(xs) && |p| <= |Active(|xs|, skip)|
    ensures WeightedSum(xs, Values(p, xs), skip, |xs|) == Eval(p, 0)
    decreases |p|
  {
    hide Add, Mul, WeightedSum, Eval;
    var n := |xs|;
    var ys := Values(p, xs);
    if p == [] {
      forall i | 0 <= i < n ensures ys[i] == 0 { EvalNone(xs[i]); }
      SumOfZeros(xs, ys, skip, n);
      EvalNone(0);
    } else {
      assert Active(n, skip) != {};
      var m :| m in Active(n, skip);
      ActiveTakeOut(n, skip, m);
      var r := xs[m];
      var q := Quotient(p, r);
      var zs := Values(q, xs);
      SumIsValueAtZero(xs, q, skip + {m});
      var c := Eval(p, r);
      var cs := Constant(c, n);
      var ds := seq(n, i requires 0 <= i < n => Mul(Add(xs[i], r), zs[i]));
      forall i | 0 <= i < n
        ensures ys[i] == Add(cs[i], ds[i])
        ensures cs[i] == Mul(c, Constant(1, n)[i])
      {
        QuotientEval(p, r, xs[i]);
        MulOne(c);
      }
      SumAdd(xs, cs, ds, ys, skip, n);
      SumScale(xs, Constant(1, n), cs, c, skip, n);
      WeightsSumToOne(xs, skip);
      SumTakeOut(xs, ds, zs, skip, m, n);
      MulOne(c);
      QuotientEval(p, r, 0);
      AddZero(r);
    }
  }

  /** For distinct points and a polynomial with no more coefficients than points, the
      Lagrange sum over the polynomial's values is its constant coefficient. */
  lemma {:induction false} InterpolationAtZero(xs: seq<Byte>, p: Poly)
    requires Distinct(xs) && 1 <= |p| <= |xs|
    ensures AtZero(xs, Values(p, xs)) == p[0]
  {
    hide WeightedSum, Eval;
    AllActive(|xs|);
    SumIsValueAtZero(xs, p, {});
    EvalZero(p);
  }

  lemma {:induction false} AllActive(n: nat)
    ensures |Active(n, {})| == n
  {
    if n == 0 {
      assert Active(n, {}) == {};
    } else {
      AllActive(n - 1);
      assert Active(n, {}) == Active(n - 1, {}) + {n - 1};
    }
  }

  // ----- repeated points -----

  /** The polynomial with leading coefficient 1 and exactly the given roots. */
  function FromRoots(rs: seq<Byte>): (p: Poly)
    ensures |p| == |rs| + 1
    decreases |rs|
  {
    if rs == [] then [1] else FromQuotient(0, rs[0], FromRoots(rs[1..]))
  }

  lemma {:induction false} RootsVanish(rs: seq<Byte>, x: Byte)
    ensures Eval(FromRoots(rs), x) == 0 <==> x in rs
    decreases |rs|
  {
    hide Add, Mul, Eval;
    if rs == [] {
      EvalUnfold(1, [], x);
      assert [1] + [] == FromRoots(rs);
      EvalNone(x); MulZero(x); AddZero(1);
    } else {
      var q := FromRoots(rs[1..]);
      RootsVanish(rs[1..], x);
      FromQuotientInverts(0, rs[0], q);
      QuotientEval(FromRoots(rs), rs[0], x);
      AddDistinct(x, rs[0]);
      AddZero(Mul(Add(x, rs[0]), Eval(q, x)));
      if Eval(q, x) == 0 || x == rs[0] {
        MulZero(Eval(q, x)); MulZero(Add(x, rs[0]));
      } else {
        MulNonZero(Add(x, rs[0]), Eval(q, x));
      }
    }
  }

  predicate Repeated(xs: seq<Byte>, i: nat)
    requires i < |xs|
  {
    exists j :: 0 <= j < |xs| && j != i && xs[j] == xs[i]
  }

  /** The abscissae that occur once among the first n positions. */
  function Unrepeated(xs: seq<Byte>, n: nat): (rs: seq<Byte>)
    requires n <= |xs|
  {
    if n == 0 then [] else Unrepeated(xs, n - 1) + (if Repeated(xs, n - 1) then [] else [xs[n - 1]])
  }

  ghost predicate OccursOnce(xs: seq<Byte>, n: nat, x: Byte)
    requires n <= |xs|
  {
    exists i: nat :: i < n && xs[i] == x && !Repeated(xs, i)
  }

  lemma OccursStep(xs: seq<Byte>, n: nat, x: Byte)
    requires 0 < n <= |xs|
    ensures OccursOnce(xs, n, x) <==> OccursOnce(xs, n - 1, x) || (xs[n - 1] == x && !Repeated(xs, n - 1))
  {
    hide Repeated;
    if OccursOnce(xs, n - 1, x) {
      var i: nat :| i < n - 1 && xs[i] == x && !Repeated(xs, i);
      assert i < n;
    }
  }

  lemma {:induction false} UnrepeatedMembers(xs: seq<Byte>, n: nat, x: Byte)
    requires n <= |xs|
    ensures x in Unrepeated(xs, n) <==> OccursOnce(xs, n, x)
    decreases n
  {
    if n > 0 {
      hide Repeated, OccursOnce;
      UnrepeatedMembers(xs, n - 1, x);
      OccursStep(xs, n, x);
    }
  }

  lemma RepeatedBy(xs: seq<Byte>, i: nat, j: nat)
    requires i < |xs| && j < |xs| && i != j && xs[i] == xs[j]
    ensures Repeated(xs, i)
  {
  }

  lemma {:induction false} UnrepeatedDistinct(xs: seq<Byte>, n: nat)
    requires n <= |xs|
    ensures Distinct(Unrepeated(xs, n))
    decreases n
  {
    hide Repeated;
    if n > 0 {
      UnrepeatedDistinct(xs, n - 1);
      UnrepeatedMembers(xs, n - 1, xs[n - 1]);
      if xs[n - 1] in Unrepeated(xs, n - 1) {
        var i: nat :| i < n - 1 && xs[i] == xs[n - 1] && !Repeated(xs, i);
        RepeatedBy(xs, n - 1, i);
      }
    }
  }

  /** A repeated point has no weight: one of its differences is 0, and gfInv(0) is 0. */
  lemma {:induction false} RepeatedHasNoWeight(xs: seq<Byte>, i: nat)
    requires i < |xs| && Repeated(xs, i)
    ensures Weight(xs, {}, i) == 0
  {
    hide Add, Mul, Product;
    var j :| 0 <= j < |xs| && j != i && xs[j] == xs[i];
    var ds := Differences(xs, xs[i]);
    AddSelf(xs[i]);
    ProductTakeOut(ds, {} + {i}, j, |xs|);
    MulZero(Product(ds, {} + {i} + {j}, |xs|));
    MulZero(Product(xs, {} + {i}, |xs|));
  }

  lemma {:induction false} SumWithoutWeight(xs: seq<Byte>, ys: seq<Byte>, n: nat)
    requires n <= |xs| == |ys|
    requires forall i: nat :: i < |xs| && !Repeated(xs, i) ==> ys[i] == 0
    ensures WeightedSum(xs, ys, {}, n) == 0
    decreases n
  {
    hide Add, Mul, Weight, Repeated;
    if n > 0 {
      SumWithoutWeight(xs, ys, n - 1);
      if Repeated(xs, n - 1) {
        RepeatedHasNoWeight(xs, n - 1);
        MulZero(ys[n - 1]);
      } else {
        MulZero(Weight(xs, {}, n - 1));
      }
      AddZero(0);
    }
  }

  /** The polynomial with exactly the unrepeated abscissae as roots sums to 0, which is not its
      constant coefficient. */
  lemma {:induction false} RepeatedPointsMislead(xs: seq<Byte>)
    requires 0 !in xs
    ensures var p := FromRoots(Unrepeated(xs, |xs|)); AtZero(xs, Values(p, xs)) == 0 != p[0]
  {
    hide WeightedSum, Eval, Repeated;
    var rs := Unrepeated(xs, |xs|);
    var p := FromRoots(rs);
    UnrepeatedMembers(xs, |xs|, 0);
    RootsVanish(rs, 0);
    EvalZero(p);
    forall i: nat | i < |xs| && !Repeated(xs, i)
      ensures Values(p, xs)[i] == 0
    {
      UnrepeatedMembers(xs, |xs|, xs[i]);
      RootsVanish(rs, xs[i]);
    }
    SumWithoutWeight(xs, Values(p, xs), |xs|);
  }

  function Support(xs: seq<Byte>): set<Byte> {
    set x | x in xs
  }

  lemma {:induction false} SupportSize(xs: seq<Byte>)
    ensures |Support(xs)| <= |xs|
    ensures Distinct(xs) ==> |Support(xs)| == |xs|
    decreases |xs|
  {
    if xs != [] {
      var before, x := xs[..|xs| - 1], xs[|xs| - 1];
      SupportSize(before);
      assert Support(xs) == Support(before) + {x};
      if Distinct(xs) {
        assert x !in before;
      }
    }
  }

  /** A repeat leaves fewer unrepeated abscissae than there are different ones. */
  lemma {:induction false} FewerUnrepeated(xs: seq<Byte>)
    requires !Distinct(xs)
    ensures |Unrepeated(xs, |xs|)| < |Support(xs)|
  {
    var rs := Unrepeated(xs, |xs|);
    UnrepeatedDistinct(xs, |xs|);
    SupportSize(rs);
    var i: nat, j: nat :| i < j < |xs| && xs[i] == xs[j];
    RepeatsAreSkipped(xs, i, j);
    hide Unrepeated, Repeated, Distinct;
    SubsetSize(Support(rs), Support(xs) - {xs[i]});
  }

  lemma RepeatsAreSkipped(xs: seq<Byte>, i: nat, j: nat)
    requires i < j < |xs| && xs[i] == xs[j]
    ensures Support(Unrepeated(xs, |xs|)) <= Support(xs) - {xs[i]}
  {
    hide Unrepeated, Repeated;
    forall k: nat | k < |xs| && xs[k] == xs[i]
      ensures Repeated(xs, k)
    {
      RepeatedBy(xs, k, if k == i then j else i);
    }
    forall x | x in Unrepeated(xs, |xs|)
      ensures x in xs && x != xs[i]
    {
      UnrepeatedMembers(xs, |xs|, x);
    }
  }

  lemma SubsetSize(a: set<Byte>, b: set<Byte>)
    requires a <= b
    ensures |a| <= |b|
  {
    assert b == a + (b - a);
  }

  /** The sum gives back the constant coefficient of every polynomial that has no more
      coefficients than there are different abscissae. */
  ghost predicate Recovers(xs: seq<Byte>) {
    forall p: Poly :: 1 <= |p| <= |Support(xs)| ==> AtZero(xs, Values(p, xs)) == p[0]
  }

  /** Interpolation at 0 is right for all polynomials exactly when no abscissa is repeated. */
  lemma {:induction false} InterpolationAtZeroIff(xs: seq<Byte>)
    requires 0 !in xs
    ensures Recovers(xs) <==> Distinct(xs)
  {
    hide AtZero, Values;
    if Distinct(xs) {
      SupportSize(xs);
      forall p: Poly | 1 <= |p| <= |Support(xs)|
        ensures AtZero(xs, Values(p, xs)) == p[0]
      {
        InterpolationAtZero(xs, p);
      }
    } else {
      RepeatedPointsMislead(xs);
      FewerUnrepeated(xs);
    }
  }

  // ----- any points, one length -----

  function Powers(xs: seq<Byte>, k: nat): (ys: seq<Byte>)
    ensures |ys| == |xs| && forall i :: 0 <= i < |xs| ==> ys[i] == Pow(xs[i], k)
  {
    seq(|xs|, i requires 0 <= i < |xs| => Pow(xs[i], k))
  }

  /** What the sum makes of the k-th powers of the abscissae. */
  function Moment(xs: seq<Byte>, k: nat): Byte {
    AtZero(xs, Powers(xs, k))
  }

  /** The values of x^k p(x). */
  function Shifted(p: Poly, xs: seq<Byte>, k: nat): (ys: seq<Byte>)
    ensures |ys| == |xs| && forall i :: 0 <= i < |xs| ==> ys[i] == Mul(Pow(xs[i], k), Eval(p, xs[i]))
  {
    seq(|xs|, i requires 0 <= i < |xs| => Mul(Pow(xs[i], k), Eval(p, xs[i])))
  }

  lemma {:induction false} ShiftStep(xs: seq<Byte>, c: Byte, p: Poly, k: nat)
    ensures AtZero(xs, Shifted([c] + p, xs, k)) == Add(Mul(c, Moment(xs, k)), AtZero(xs, Shifted(p, xs, k + 1)))
  {
    hide Add, Mul, Pow, Eval, WeightedSum;
    var ys, zs, us := seq(|xs|, i requires 0 <= i < |xs| => Mul(c, Powers(xs, k)[i])), Shifted(p, xs, k + 1), Shifted([c] + p, xs, k);
    forall i | 0 <= i < |xs|
      ensures us[i] == Add(ys[i], zs[i])
    {
      EvalUnfold(c, p, xs[i]);
      PowStep(xs[i], k + 1);
      ShiftAlgebra(xs[i], Pow(xs[i], k), Eval(p, xs[i]), c);
    }
    SumAdd(xs, ys, zs, us, {}, |xs|);
    SumScale(xs, Powers(xs, k), ys, c, {}, |xs|);
  }

  /** w (e x + c) == c w + (x w) e. */
  lemma ShiftAlgebra(x: Byte, w: Byte, e: Byte, c: Byte)
    ensures Mul(w, Add(Mul(e, x), c)) == Add(Mul(c, w), Mul(Mul(x, w), e))
  {
    hide *;
    MulAdd(Mul(e, x), c, w);
    MulComm(w, c);
    MulComm(e, x); MulAssoc(w, x, e); MulComm(w, x);
    AddComm(Mul(w, Mul(e, x)), Mul(c, w));
  }

  lemma {:induction false} ZeroMoments(xs: seq<Byte>, p: Poly, k: nat)
    requires forall j: nat :: k <= j < k + |p| ==> Moment(xs, j) == 0
    ensures AtZero(xs, Shifted(p, xs, k)) == 0
    decreases |p|
  {
    hide Add, Mul, Pow, Eval, WeightedSum, Moment;
    if p == [] {
      forall i | 0 <= i < |xs| ensures Shifted(p, xs, k)[i] == 0 {
        EvalNone(xs[i]);
        MulZero(Pow(xs[i], k));
      }
      SumOfZeros(xs, Shifted(p, xs, k), {}, |xs|);
    } else {
      ZeroMoments(xs, p[1..], k + 1);
      assert p == [p[0]] + p[1..];
      ShiftStep(xs, p[0], p[1..], k);
      MulZero(p[0]);
      AddZero(0);
    }
  }

  /** The abscissae reproduce the value at 0 of 1, x, x^2 and so on below x^n. */
  predicate GoodMoments(xs: seq<Byte>, n: nat) {
    forall k: nat :: k < n ==> Moment(xs, k) == if k == 0 then 1 else 0
  }

  ghost predicate RecoversAt(xs: seq<Byte>, n: nat)
    requires n >= 1
  {
    forall p: Poly :: |p| == n ==> AtZero(xs, Values(p, xs)) == p[0]
  }

  lemma {:induction false} MonomialEval(k: nat, x: Byte)
    ensures Eval(Constant(0, k) + [1], x) == Pow(x, k)
    decreases k
  {
    hide Add, Mul;
    var p := Constant(0, k) + [1];
    if k == 0 {
      assert p == [1] + [];
      EvalUnfold(1, [], x);
      EvalNone(x); MulZero(x); AddZero(1);
    } else {
      MonomialEval(k - 1, x);
      assert p == [0] + (Constant(0, k - 1) + [1]);
      EvalUnfold(0, Constant(0, k - 1) + [1], x);
      AddZero(Mul(Pow(x, k - 1), x));
      MulComm(x, Pow(x, k - 1));
      hide Eval;
    }
  }

  /** Whatever the points, repeated or not, all polynomials with n coefficients are recovered exactly
      when the first n powers are. */
  lemma {:induction false} RecoversAtIff(xs: seq<Byte>, n: nat)
    requires n >= 1
    ensures RecoversAt(xs, n) <==> GoodMoments(xs, n)
  {
    if RecoversAt(xs, n) {
      forall k: nat | k < n
        ensures Moment(xs, k) == if k == 0 then 1 else 0
      {
        MonomialRecovered(xs, n, k);
      }
    }
    if GoodMoments(xs, n) {
      forall p: Poly | |p| == n
        ensures AtZero(xs, Values(p, xs)) == p[0]
      {
        MomentsRecover(xs, p);
      }
    }
  }

  lemma MonomialRecovered(xs: seq<Byte>, n: nat, k: nat)
    requires k < n && RecoversAt(xs, n)
    ensures Moment(xs, k) == if k == 0 then 1 else 0
  {
    hide Eval, Pow, WeightedSum;
    var zeros := Constant(0, n - 1 - k);
    var p := (Constant(0, k) + [1]) + zeros;
    forall i | 0 <= i < |xs|
      ensures Values(p, xs)[i] == Powers(xs, k)[i]
    {
      MonomialEval(k, xs[i]);
      EvalPadded(Constant(0, k) + [1], zeros, xs[i]);
    }
    assert Values(p, xs) == Powers(xs, k);
  }

  lemma MomentsRecover(xs: seq<Byte>, p: Poly)
    requires p != [] && GoodMoments(xs, |p|)
    ensures AtZero(xs, Values(p, xs)) == p[0]
  {
    hide Add, Mul, Pow, Eval, WeightedSum, Moment;
    forall i | 0 <= i < |xs|
      ensures Values(p, xs)[i] == Shifted(p, xs, 0)[i]
    {
      PowNone(xs[i]);
      MulOne(Eval(p, xs[i]));
    }
    assert Values(p, xs) == Shifted(p, xs, 0);
    assert p == [p[0]] + p[1..];
    ShiftStep(xs, p[0], p[1..], 0);
    ZeroMoments(xs, p[1..], 1);
    MulOne(p[0]);
    AddZero(p[0]);
  }
}
