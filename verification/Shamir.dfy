/** M-of-N guardian recovery: splitting a secret into shares and combining shares. */
module Shamir {
  import opened Results
  import opened Bytes
  import opened Gf256
  import opened Polynomials
  import opened Lagrange

  datatype Share = Share(index: Byte, value: seq<Byte>)

  /** Random coefficients drawn by Split: threshold - 1 of them for every secret byte. */
  ghost predicate IsCoins(coins: seq<seq<Byte>>, secret: seq<Byte>, threshold: int) {
    |coins| == |secret| && (threshold >= 2 ==> forall b :: 0 <= b < |secret| ==> |coins[b]| == threshold - 1)
  }

  /** The polynomial hidden behind secret byte b. */
  function Hiding(secret: seq<Byte>, coins: seq<seq<Byte>>, b: nat): Poly
    requires b < |secret| == |coins|
  {
    [secret[b]] + coins[b]
  }

  /** The share of the guardian at abscissa x. */
  function ShareAt(secret: seq<Byte>, coins: seq<seq<Byte>>, x: Byte): Share
    requires |secret| == |coins|
  {
    Share(x, seq(|secret|, b requires 0 <= b < |secret| => Eval(Hiding(secret, coins, b), x)))
  }

  method Split(secret: seq<Byte>, threshold: int, n: int, coins: seq<seq<Byte>>) returns (r: Result<seq<Share>>)
    requires IsCoins(coins, secret, threshold)
    ensures r.Err? <==> secret == [] || threshold < 2 || threshold > n || n > 255
    ensures r.Ok? ==> |r.value| == n
    ensures r.Ok? ==> forall i :: 0 <= i < n ==> r.value[i] == ShareAt(secret, coins, ByteOf(i + 1))
  {
    hide Eval;
    if |secret| == 0 {
      return Err("recovery: secret must not be empty");
    }
    if threshold < 2 || threshold > n || n > 255 {
      return Err("recovery: invalid parameters");
    }
    var values := new Byte[n, |secret|];
    var coefficients := new Byte[threshold];
    for b := 0 to |secret|
      invariant forall i, c :: 0 <= i < n && 0 <= c < b ==>
          values[i, c] == Eval(Hiding(secret, coins, c), ByteOf(i + 1))
    {
      coefficients[0] := secret[b];
      forall k | 1 <= k < threshold { coefficients[k] := coins[b][k - 1]; }
      assert coefficients[..] == Hiding(secret, coins, b);
      FillColumn(values, b, coefficients);
    }
    var shares := [];
    for i := 0 to n
      invariant |shares| == i
      invariant forall j :: 0 <= j < i ==> shares[j] == ShareAt(secret, coins, ByteOf(j + 1))
    {
      var value := seq(|secret|, c requires 0 <= c < |secret| reads values => values[i, c]);
      assert value == ShareAt(secret, coins, ByteOf(i + 1)).value;
      shares := shares + [Share(ByteOf(i + 1), value)];
    }
    r := Ok(shares);
  }

  /** Evaluates the polynomial at every guardian's index, into column b of the share values. */
  method FillColumn(values: array2<Byte>, b: nat, coefficients: array<Byte>)
    requires b < values.Length1 && values.Length0 <= 255
    modifies values
    ensures forall i, c :: 0 <= i < values.Length0 && 0 <= c < values.Length1 ==>
        values[i, c] == if c == b then Eval(coefficients[..], ByteOf(i + 1)) else old(values[i, c])
  {
    hide Eval;
    for i := 0 to values.Length0
      invariant forall j, c :: 0 <= j < values.Length0 && 0 <= c < values.Length1 ==>
          values[j, c] == if c == b && j < i then Eval(coefficients[..], ByteOf(j + 1)) else old(values[j, c])
    {
      var y := GfPolyEval(coefficients, ByteOf(i + 1));
      values[i, b] := y;
    }
  }

  // ----- combining -----

  function Abscissae(shares: seq<Share>): (xs: seq<Byte>)
    ensures |xs| == |shares|
  {
    seq(|shares|, i requires 0 <= i < |shares| => shares[i].index)
  }

  predicate EqualLengths(shares: seq<Share>, length: nat) {
    forall i :: 0 <= i < |shares| ==> |shares[i].value| == length
  }

  function Column(shares: seq<Share>, length: nat, b: nat): (ys: seq<Byte>)
    requires EqualLengths(shares, length) && b < length
    ensures |ys| == |shares|
  {
    seq(|shares|, i requires 0 <= i < |shares| => shares[i].value[b])
  }

  method Combine(shares: seq<Share>) returns (r: Result<seq<Byte>>)
    ensures r.Ok? <==> |shares| >= 2 && EqualLengths(shares, |shares[0].value|)
    ensures r.Ok? ==> |r.value| == |shares[0].value|
    ensures r.Ok? ==> forall b :: 0 <= b < |r.value| ==>
        r.value[b] == AtZero(Abscissae(shares), Column(shares, |shares[0].value|, b))
  {
    hide AtZero;
    if |shares| < 2 {
      return Err("recovery: need at least 2 shares");
    }
    var length := |shares[0].value|;
    for k := 1 to |shares|
      invariant EqualLengths(shares[..k], length)
    {
      if |shares[k].value| != length {
        return Err("recovery: shares have inconsistent lengths");
      }
      assert shares[..k + 1] == shares[..k] + [shares[k]];
    }
    assert shares[..|shares|] == shares;
    var secret := new Byte[length];
    for b := 0 to length
      invariant forall c :: 0 <= c < b ==> secret[c] == AtZero(Abscissae(shares), Column(shares, length, c))
    {
      var xs := new Byte[|shares|];
      var ys := new Byte[|shares|];
      for i := 0 to |shares|
        invariant forall j :: 0 <= j < i ==> xs[j] == shares[j].index && ys[j] == shares[j].value[b]
        invariant forall c :: 0 <= c < b ==> secret[c] == AtZero(Abscissae(shares), Column(shares, length, c))
      {
        xs[i] := shares[i].index;
        ys[i] := shares[i].value[b];
      }
      assert xs[..] == Abscissae(shares) && ys[..] == Column(shares, length, b);
      secret[b] := GfLagrange(xs, ys);
    }
    r := Ok(secret[..]);
  }

  // ----- any threshold shares recover the secret -----

  lemma {:induction false} CombineRecovers(secret: seq<Byte>, threshold: int, coins: seq<seq<Byte>>, shares: seq<Share>)
    requires IsCoins(coins, secret, threshold)
    requires 2 <= threshold <= |shares|
    requires Distinct(Abscissae(shares))
    requires forall i :: 0 <= i < |shares| ==> shares[i] == ShareAt(secret, coins, shares[i].index)
    ensures EqualLengths(shares, |secret|)
    ensures forall b :: 0 <= b < |secret| ==> AtZero(Abscissae(shares), Column(shares, |secret|, b)) == secret[b]
  {
    hide AtZero, Eval;
    var xs := Abscissae(shares);
    forall b | 0 <= b < |secret|
      ensures AtZero(xs, Column(shares, |secret|, b)) == secret[b]
    {
      var p := Hiding(secret, coins, b);
      assert Column(shares, |secret|, b) == Values(p, xs);
      InterpolationAtZero(xs, p);
    }
  }

  /** Every secret split with that threshold comes back from its shares at these indices. */
  ghost predicate AlwaysRecovers(xs: seq<Byte>, threshold: int) {
    forall secret: seq<Byte>, coins: seq<seq<Byte>> :: IsCoins(coins, secret, threshold) ==> Recovered(xs, secret, coins)
  }

  ghost predicate Recovered(xs: seq<Byte>, secret: seq<Byte>, coins: seq<seq<Byte>>)
    requires |coins| == |secret|
  {
    var shares := SharesAt(secret, coins, xs);
    forall b :: 0 <= b < |secret| ==> AtZero(xs, Column(shares, |secret|, b)) == secret[b]
  }

  function SharesAt(secret: seq<Byte>, coins: seq<seq<Byte>>, xs: seq<Byte>): (shares: seq<Share>)
    requires |secret| == |coins|
    ensures Abscissae(shares) == xs && EqualLengths(shares, |secret|)
  {
    seq(|xs|, i requires 0 <= i < |xs| => ShareAt(secret, coins, xs[i]))
  }

  /** Combine accepts a share given twice. It then gives back every secret, at every threshold the
      different shares reach, exactly when no share was given twice. */
  lemma {:induction false} CombineRecoversIff(xs: seq<Byte>)
    requires 0 !in xs && |Support(xs)| >= 2
    ensures (forall threshold :: 2 <= threshold <= |Support(xs)| ==> AlwaysRecovers(xs, threshold)) <==> Distinct(xs)
    ensures AlwaysRecovers(xs, |Support(xs)|) <==> Distinct(xs)
  {
    hide AtZero, Eval, IsCoins;
    SupportSize(xs);
    if Distinct(xs) {
      forall threshold | 2 <= threshold <= |Support(xs)|
        ensures AlwaysRecovers(xs, threshold)
      {
        forall secret: seq<Byte>, coins: seq<seq<Byte>> | IsCoins(coins, secret, threshold)
          ensures |coins| == |secret| && Recovered(xs, secret, coins)
        {
          CoinsPerByte(coins, secret, threshold);
          CombineRecovers(secret, threshold, coins, SharesAt(secret, coins, xs));
        }
      }
    } else {
      FewerUnrepeated(xs);
      var secret, coins := RepeatedShareMisleads(xs, |Support(xs)|);
      CoinsPerByte(coins, secret, |Support(xs)|);
      assert !Recovered(xs, secret, coins);
      assert !AlwaysRecovers(xs, |Support(xs)|);
    }
  }

  /** For one threshold: every secret comes back exactly when the indices, repeated or not, pass a
      check on their first powers. */
  lemma {:induction false} AlwaysRecoversIff(xs: seq<Byte>, threshold: int)
    requires threshold >= 2
    ensures AlwaysRecovers(xs, threshold) <==> GoodMoments(xs, threshold)
  {
    hide AtZero, Eval, GoodMoments;
    RecoversAtIff(xs, threshold);
    if RecoversAt(xs, threshold) {
      forall secret: seq<Byte>, coins: seq<seq<Byte>> | IsCoins(coins, secret, threshold)
        ensures Recovered(xs, secret, coins)
      {
        forall b | 0 <= b < |secret|
          ensures AtZero(xs, Column(SharesAt(secret, coins, xs), |secret|, b)) == secret[b]
        {
          assert Column(SharesAt(secret, coins, xs), |secret|, b) == Values(Hiding(secret, coins, b), xs);
        }
      }
    }
    if AlwaysRecovers(xs, threshold) {
      forall p: Poly | |p| == threshold
        ensures AtZero(xs, Values(p, xs)) == p[0]
      {
        var secret, coins := [p[0]], [p[1..]];
        assert Recovered(xs, secret, coins);
        assert Hiding(secret, coins, 0) == p;
        assert Column(SharesAt(secret, coins, xs), 1, 0) == Values(p, xs);
      }
    }
  }

  lemma CoinsPerByte(coins: seq<seq<Byte>>, secret: seq<Byte>, threshold: int)
    requires IsCoins(coins, secret, threshold)
    ensures |coins| == |secret|
  {
  }

  /** When the indices given once are fewer than the threshold, some non-zero secret byte comes
      back as 0. */
  lemma {:induction false} RepeatedShareMisleads(xs: seq<Byte>, threshold: int) returns (secret: seq<Byte>, coins: seq<seq<Byte>>)
    requires 0 !in xs && 2 <= threshold && |Unrepeated(xs, |xs|)| < threshold
    ensures IsCoins(coins, secret, threshold) && |secret| == 1 && secret[0] != 0
    ensures AtZero(xs, Column(SharesAt(secret, coins, xs), 1, 0)) == 0
  {
    hide AtZero, Eval, FromRoots, Unrepeated;
    RepeatedPointsMislead(xs);
    var p := FromRoots(Unrepeated(xs, |xs|));
    assert |p| == |Unrepeated(xs, |xs|)| + 1;
    var zeros := Constant(0, threshold - |p|);
    secret, coins := [p[0]], [p[1..] + zeros];
    assert |coins[0]| == threshold - 1;
    assert Hiding(secret, coins, 0) == p + zeros;
    forall i | 0 <= i < |xs|
      ensures Column(SharesAt(secret, coins, xs), 1, 0)[i] == Values(p, xs)[i]
    {
      EvalPadded(p, zeros, xs[i]);
    }
    assert Column(SharesAt(secret, coins, xs), 1, 0) == Values(p, xs);
  }

  /** Whatever coefficients Split draws, any threshold or more of the shares it returns,
      taken in any order, combine to the secret. */
  method RecoverFromGuardians(secret: seq<Byte>, threshold: int, n: int, coins: seq<seq<Byte>>, guardians: seq<nat>)
    returns (r: Result<seq<Byte>>)
    requires secret != [] && 2 <= threshold <= n <= 255 && IsCoins(coins, secret, threshold)
    requires threshold <= |guardians|
    requires forall i :: 0 <= i < |guardians| ==> guardians[i] < n
    requires forall i, j :: 0 <= i < j < |guardians| ==> guardians[i] != guardians[j]
    ensures r == Ok(secret)
  {
    hide AtZero, Eval, ByteOf;
    var split := Split(secret, threshold, n, coins);
    var all := split.value;
    var shares := seq(|guardians|, i requires 0 <= i < |guardians| => all[guardians[i]]);
    forall i, j | 0 <= i < j < |shares|
      ensures shares[i].index != shares[j].index
    {
      ByteOfDistinct(guardians[i] + 1, guardians[j] + 1);
    }
    CombineRecovers(secret, threshold, coins, shares);
    r := Combine(shares);
    assert r.value == secret;
  }

  // ----- fewer shares determine nothing -----

  /** The coins that make `secret` produce the given shares at the given abscissae. */
  ghost predicate Explains(coins: seq<seq<Byte>>, secret: seq<Byte>, threshold: int, shares: seq<Share>) {
    && IsCoins(coins, secret, threshold)
    && forall i :: 0 <= i < |shares| ==> ShareAt(secret, coins, shares[i].index) == shares[i]
  }

  /** With fewer than threshold shares on the table, every other secret of the same length has
      coefficients that yield exactly those shares; with threshold - 1 shares, exactly one
      choice of coefficients per secret. */
  lemma {:induction false} FewSharesHideSecret(secret: seq<Byte>, coins: seq<seq<Byte>>, threshold: int, shares: seq<Share>, other: seq<Byte>)
    requires threshold >= 2 && |shares| < threshold
    requires Explains(coins, secret, threshold, shares)
    requires Distinct(Abscissae(shares)) && forall i :: 0 <= i < |shares| ==> shares[i].index != 0
    requires |other| == |secret|
    ensures exists coins' :: Explains(coins', other, threshold, shares)
    ensures |shares| == threshold - 1 ==>
      forall u, v :: Explains(u, other, threshold, shares) && Explains(v, other, threshold, shares) ==> u == v
  {
    hide Eval;
    var xs := Abscissae(shares);
    var coins' := seq(|secret|, b requires 0 <= b < |secret| => ExplainingTail(shares, |secret|, threshold, other[b], b));
    forall i | 0 <= i < |shares|
      ensures ShareAt(other, coins', shares[i].index) == shares[i]
    {
      forall b | 0 <= b < |secret|
        ensures Eval(Hiding(other, coins', b), shares[i].index) == shares[i].value[b]
      {
        TailExplains(shares, |secret|, threshold, other[b], b, i);
      }
      assert ShareAt(other, coins', shares[i].index).value == shares[i].value;
    }
    assert Explains(coins', other, threshold, shares);
    if |shares| == threshold - 1 {
      forall u, v | Explains(u, other, threshold, shares) && Explains(v, other, threshold, shares)
        ensures u == v
      {
        forall b | 0 <= b < |other| ensures u[b] == v[b] {
          ExplanationUnique(u, other, threshold, shares, b);
          ExplanationUnique(v, other, threshold, shares, b);
        }
      }
    }
  }

  /** The two splits hand these guardians identical shares. */
  ghost predicate SameShares(secret: seq<Byte>, coins: seq<seq<Byte>>, other: seq<Byte>, coins': seq<seq<Byte>>, guardians: seq<nat>)
    requires |coins| == |secret| && |coins'| == |other|
  {
    forall i :: 0 <= i < |guardians| ==>
      ShareAt(other, coins', ByteOf(guardians[i] + 1)) == ShareAt(secret, coins, ByteOf(guardians[i] + 1))
  }

  /** So for the shares Split hands out: fewer than threshold guardians hold nothing that tells
      their secret from any other of the same length. */
  lemma {:induction false} FewGuardiansLearnNothing(secret: seq<Byte>, coins: seq<seq<Byte>>, threshold: int, guardians: seq<nat>, other: seq<Byte>)
    requires threshold >= 2 && |guardians| < threshold && IsCoins(coins, secret, threshold) && |other| == |secret|
    requires forall i :: 0 <= i < |guardians| ==> guardians[i] < 255
    requires forall i, j :: 0 <= i < j < |guardians| ==> guardians[i] != guardians[j]
    ensures exists coins' :: IsCoins(coins', other, threshold) && SameShares(secret, coins, other, coins', guardians)
  {
    hide Eval, ByteOf;
    var shares := seq(|guardians|, i requires 0 <= i < |guardians| => ShareAt(secret, coins, ByteOf(guardians[i] + 1)));
    forall i | 0 <= i < |guardians|
      ensures shares[i].index != 0
    {
      ByteOfZero();
      ByteOfDistinct(guardians[i] + 1, 0);
    }
    forall i, j | 0 <= i < j < |guardians|
      ensures shares[i].index != shares[j].index
    {
      ByteOfDistinct(guardians[i] + 1, guardians[j] + 1);
    }
    FewSharesHideSecret(secret, coins, threshold, shares, other);
    var coins' :| Explains(coins', other, threshold, shares);
    forall i | 0 <= i < |guardians|
      ensures ShareAt(other, coins', ByteOf(guardians[i] + 1)) == ShareAt(secret, coins, ByteOf(guardians[i] + 1))
    {
      assert shares[i].index == ByteOf(guardians[i] + 1);
    }
  }

  /** Points (0, s) and (index, byte b) for every share. */
  function Points(shares: seq<Share>, length: nat, s: Byte, b: nat): (r: (seq<Byte>, seq<Byte>))
    requires EqualLengths(shares, length) && b < length
    ensures |r.0| == |r.1| == |shares| + 1
  {
    ([0] + Abscissae(shares), [s] + Column(shares, length, b))
  }

  function ExplainingTail(shares: seq<Share>, length: nat, threshold: int, s: Byte, b: nat): (tail: seq<Byte>)
    requires EqualLengths(shares, length) && b < length && |shares| < threshold
    ensures |tail| == threshold - 1
  {
    var (xs, ys) := Points(shares, length, s, b);
    Interpolant(xs, ys)[1..] + Constant(0, threshold - 1 - |shares|)
  }

  lemma PointsDistinct(shares: seq<Share>, length: nat, s: Byte, b: nat)
    requires EqualLengths(shares, length) && b < length
    requires Distinct(Abscissae(shares)) && forall i :: 0 <= i < |shares| ==> shares[i].index != 0
    ensures Distinct(Points(shares, length, s, b).0)
  {
    var xs := Abscissae(shares);
    assert forall i :: 0 <= i < |xs| ==> xs[i] == shares[i].index;
  }

  lemma TailExplains(shares: seq<Share>, length: nat, threshold: int, s: Byte, b: nat, i: nat)
    requires EqualLengths(shares, length) && b < length && i < |shares| < threshold
    requires Distinct(Abscissae(shares)) && forall i :: 0 <= i < |shares| ==> shares[i].index != 0
    ensures Eval([s] + ExplainingTail(shares, length, threshold, s, b), shares[i].index) == shares[i].value[b]
  {
    hide Eval, Interpolant;
    var (xs, ys) := Points(shares, length, s, b);
    PointsDistinct(shares, length, s, b);
    InterpolantPasses(xs, ys);
    var p := Interpolant(xs, ys);
    EvalZero(p);
    assert Eval(p, xs[0]) == ys[0];
    var zeros := Constant(0, threshold - 1 - |shares|);
    assert [s] + (p[1..] + zeros) == p + zeros;
    EvalPadded(p, zeros, shares[i].index);
    assert xs[i + 1] == shares[i].index && ys[i + 1] == shares[i].value[b];
  }

  lemma ExplanationUnique(u: seq<seq<Byte>>, other: seq<Byte>, threshold: int, shares: seq<Share>, b: nat)
    requires threshold >= 2 && |shares| == threshold - 1 && b < |other|
    requires Explains(u, other, threshold, shares)
    requires Distinct(Abscissae(shares)) && forall i :: 0 <= i < |shares| ==> shares[i].index != 0
    ensures EqualLengths(shares, |other|)
    ensures var (xs, ys) := Points(shares, |other|, other[b], b); u[b] == Interpolant(xs, ys)[1..]
  {
    hide Eval, Interpolant;
    forall i | 0 <= i < |shares|
      ensures |shares[i].value| == |other|
      ensures shares[i].value[b] == Eval(Hiding(other, u, b), shares[i].index)
    {
      assert ShareAt(other, u, shares[i].index) == shares[i];
    }
    var (xs, ys) := Points(shares, |other|, other[b], b);
    PointsDistinct(shares, |other|, other[b], b);
    var p := Hiding(other, u, b);
    EvalZero(p);
    assert Through(p, xs, ys);
    InterpolantUnique(p, xs, ys);
    assert p[1..] == u[b];
  }
}
