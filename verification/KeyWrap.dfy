/** AES Key Wrap (RFC 3394) as the DIDComm package writes it. The block cipher is a parameter:
    any keyed permutation of 16-byte blocks. */
module KeyWrap {
  import opened Results
  import opened Bytes

  datatype BlockCipher = BlockCipher(encrypt: (Bytes, Bytes) -> Bytes, decrypt: (Bytes, Bytes) -> Bytes)

  /** For every key the two directions map 16-byte blocks to 16-byte blocks and undo each other. */
  ghost predicate IsPermutation(aes: BlockCipher) {
    forall key, block | |block| == 16 ::
      && |aes.encrypt(key, block)| == 16 && aes.decrypt(key, aes.encrypt(key, block)) == block
      && |aes.decrypt(key, block)| == 16 && aes.encrypt(key, aes.decrypt(key, block)) == block
  }

  /** Key sizes aes.NewCipher accepts. */
  predicate IsAesKey(key: Bytes) {
    |key| == 16 || |key| == 24 || |key| == 32
  }

  const DEFAULT_IV: Bytes := [0xA6, 0xA6, 0xA6, 0xA6, 0xA6, 0xA6, 0xA6, 0xA6]

  // ----- the step counter -----

  function XorBytes(a: Bytes, b: Bytes): (c: Bytes)
    requires |a| == |b|
    ensures |c| == |a|
    ensures forall i :: 0 <= i < |a| ==> c[i] == a[i] ^ b[i]
  {
    seq(|a|, i requires 0 <= i < |a| => a[i] ^ b[i])
  }

  /** A xor t as 64-bit words in big-endian order, which is byte by byte. */
  function XorCounter(a: Bytes, t: nat): (b: Bytes)
    requires |a| == 8
    ensures |b| == 8
  {
    XorBytes(a, Be64(t))
  }

  lemma XorCounterTwice(a: Bytes, t: nat)
    requires |a| == 8
    ensures XorCounter(XorCounter(a, t), t) == a
  {
    hide Be64;
    var b := Be64(t);
    forall i | 0 <= i < 8
      ensures XorBytes(XorBytes(a, b), b)[i] == a[i]
    {
      XorTwice(a[i], b[i]);
    }
  }

  lemma XorTwice(a: Byte, b: Byte)
    ensures (a ^ b) ^ b == a
  {
  }

  // ----- one step and its inverse -----

  /** The integrity register A and the n blocks R the two loops update in place. */
  datatype Registers = Registers(a: Bytes, r: Bytes)

  predicate Fits(st: Registers, n: nat) {
    |st.a| == 8 && |st.r| == 8 * n
  }

  function Block(r: Bytes, i: nat): (b: Bytes)
    requires 8 * i + 8 <= |r|
    ensures |b| == 8
  {
    r[8 * i..8 * i + 8]
  }

  function SetBlock(r: Bytes, i: nat, b: Bytes): (r': Bytes)
    requires 8 * i + 8 <= |r| && |b| == 8
    ensures |r'| == |r|
    ensures Block(r', i) == b
    ensures forall k :: 0 <= k < |r| && !(8 * i <= k < 8 * i + 8) ==> r'[k] == r[k]
  {
    r[..8 * i] + b + r[8 * i + 8..]
  }

  lemma SetBlockBack(r: Bytes, i: nat, b: Bytes)
    requires 8 * i + 8 <= |r| && |b| == 8
    ensures SetBlock(SetBlock(r, i, b), i, Block(r, i)) == r
  {
  }

  function WrapStep(aes: BlockCipher, key: Bytes, n: nat, st: Registers, i: nat, t: nat): (st': Registers)
    requires IsPermutation(aes) && Fits(st, n) && i < n
    ensures Fits(st', n)
  {
    var buf := aes.encrypt(key, st.a + Block(st.r, i));
    Registers(XorCounter(buf[..8], t), SetBlock(st.r, i, buf[8..]))
  }

  function UnwrapStep(aes: BlockCipher, key: Bytes, n: nat, st: Registers, i: nat, t: nat): (st': Registers)
    requires IsPermutation(aes) && Fits(st, n) && i < n
    ensures Fits(st', n)
  {
    var buf := aes.decrypt(key, XorCounter(st.a, t) + Block(st.r, i));
    Registers(buf[..8], SetBlock(st.r, i, buf[8..]))
  }

  lemma {:induction false} StepsInvert(aes: BlockCipher, key: Bytes, n: nat, st: Registers, i: nat, t: nat)
    requires IsPermutation(aes) && Fits(st, n) && i < n
    ensures UnwrapStep(aes, key, n, WrapStep(aes, key, n, st, i, t), i, t) == st
    ensures WrapStep(aes, key, n, UnwrapStep(aes, key, n, st, i, t), i, t) == st
  {
    hide XorCounter, SetBlock, Block;
    var buf := aes.encrypt(key, st.a + Block(st.r, i));
    assert buf[..8] + buf[8..] == buf;
    XorCounterTwice(buf[..8], t);
    SetBlockBack(st.r, i, buf[8..]);
    assert (st.a + Block(st.r, i))[..8] == st.a && (st.a + Block(st.r, i))[8..] == Block(st.r, i);

    var buf' := aes.decrypt(key, XorCounter(st.a, t) + Block(st.r, i));
    assert buf'[..8] + buf'[8..] == buf';
    XorCounterTwice(st.a, t);
    SetBlockBack(st.r, i, buf'[8..]);
    var in' := XorCounter(st.a, t) + Block(st.r, i);
    assert in'[..8] == XorCounter(st.a, t) && in'[8..] == Block(st.r, i);
  }

  // ----- all 6n steps -----

  /** The state after the first k wrap steps; step number t works on block (t - 1) % n. */
  function WrapSteps(aes: BlockCipher, key: Bytes, n: nat, st: Registers, k: nat): (st': Registers)
    requires IsPermutation(aes) && Fits(st, n) && n > 0
    ensures Fits(st', n)
    decreases k
  {
    if k == 0 then st else WrapStep(aes, key, n, WrapSteps(aes, key, n, st, k - 1), (k - 1) % n, k)
  }

  /** Undoes wrap steps k, k - 1, ..., 1. */
  function UnwrapSteps(aes: BlockCipher, key: Bytes, n: nat, st: Registers, k: nat): (st': Registers)
    requires IsPermutation(aes) && Fits(st, n) && n > 0
    ensures Fits(st', n)
    decreases k
  {
    if k == 0 then st else UnwrapSteps(aes, key, n, UnwrapStep(aes, key, n, st, (k - 1) % n, k), k - 1)
  }

  lemma {:induction false} RunsInvert(aes: BlockCipher, key: Bytes, n: nat, st: Registers, k: nat)
    requires IsPermutation(aes) && Fits(st, n) && n > 0
    ensures UnwrapSteps(aes, key, n, WrapSteps(aes, key, n, st, k), k) == st
    ensures WrapSteps(aes, key, n, UnwrapSteps(aes, key, n, st, k), k) == st
    decreases k
  {
    hide WrapStep, UnwrapStep;
    if k > 0 {
      var i := (k - 1) % n;
      StepsInvert(aes, key, n, WrapSteps(aes, key, n, st, k - 1), i, k);
      RunsInvert(aes, key, n, st, k - 1);
      StepsInvert(aes, key, n, st, i, k);
      RunsInvert(aes, key, n, UnwrapStep(aes, key, n, st, i, k), k - 1);
    }
  }

  // ----- the two operations -----

  function Wrap(aes: BlockCipher, kek: Bytes, plaintext: Bytes): Result<Bytes>
    requires IsPermutation(aes)
  {
    if |plaintext| < 16 || |plaintext| % 8 != 0 then
      Err("aes-kw: plaintext must be >= 16 bytes and a multiple of 8")
    else if !IsAesKey(kek) then
      Err("crypto/aes: invalid key size")
    else
      var n := |plaintext| / 8;
      var st := WrapSteps(aes, kek, n, Registers(DEFAULT_IV, plaintext), 6 * n);
      Ok(st.a + st.r)
  }

  function Unwrap(aes: BlockCipher, kek: Bytes, ciphertext: Bytes): Result<Bytes>
    requires IsPermutation(aes)
  {
    if |ciphertext| < 24 || |ciphertext| % 8 != 0 then
      Err("aes-kw: ciphertext must be >= 24 bytes and a multiple of 8")
    else if !IsAesKey(kek) then
      Err("crypto/aes: invalid key size")
    else
      var n := |ciphertext| / 8 - 1;
      var st := UnwrapSteps(aes, kek, n, Registers(ciphertext[..8], ciphertext[8..]), 6 * n);
      if st.a != DEFAULT_IV then Err("aes-kw: integrity check failed") else Ok(st.r)
  }

  lemma {:induction false} UnwrapUndoesWrap(aes: BlockCipher, kek: Bytes, c: Bytes, p: Bytes)
    requires IsPermutation(aes)
    requires Wrap(aes, kek, p) == Ok(c)
    ensures Unwrap(aes, kek, c) == Ok(p)
  {
    hide WrapSteps, UnwrapSteps;
    var n := |p| / 8;
    var st := WrapSteps(aes, kek, n, Registers(DEFAULT_IV, p), 6 * n);
    assert c[..8] == st.a && c[8..] == st.r;
    RunsInvert(aes, kek, n, Registers(DEFAULT_IV, p), 6 * n);
  }

  lemma {:induction false} WrapUndoesUnwrap(aes: BlockCipher, kek: Bytes, c: Bytes, p: Bytes)
    requires IsPermutation(aes)
    requires Unwrap(aes, kek, c) == Ok(p)
    ensures Wrap(aes, kek, p) == Ok(c)
  {
    hide WrapSteps, UnwrapSteps;
    var n := |c| / 8 - 1;
    RunsInvert(aes, kek, n, Registers(c[..8], c[8..]), 6 * n);
    assert c[..8] + c[8..] == c;
  }

  /** Unwrapping yields p exactly for the wrapping of p; nothing else passes the integrity check. */
  lemma {:induction false} UnwrapIffWrap(aes: BlockCipher, kek: Bytes, c: Bytes, p: Bytes)
    requires IsPermutation(aes)
    ensures Unwrap(aes, kek, c) == Ok(p) <==> Wrap(aes, kek, p) == Ok(c)
  {
    hide Wrap, Unwrap;
    if Wrap(aes, kek, p) == Ok(c) {
      UnwrapUndoesWrap(aes, kek, c, p);
    }
    if Unwrap(aes, kek, c) == Ok(p) {
      WrapUndoesUnwrap(aes, kek, c, p);
    }
  }

  /** Wrapping succeeds exactly for whole 8-byte blocks, two or more, under an AES key. */
  lemma WrapSucceedsIff(aes: BlockCipher, kek: Bytes, p: Bytes)
    requires IsPermutation(aes)
    ensures Wrap(aes, kek, p).Ok? <==> |p| >= 16 && |p| % 8 == 0 && |kek| in {16, 24, 32}
    ensures Wrap(aes, kek, p).Ok? ==> |Wrap(aes, kek, p).value| == |p| + 8
  {
    hide WrapSteps;
  }

  // ----- what the steps compute, under ciphers that can be followed by hand -----

  /** Only the cipher's action under the given key matters. */
  lemma {:induction false} OnlyThisKey(aes: BlockCipher, aes': BlockCipher, kek: Bytes, n: nat, st: Registers, k: nat)
    requires IsPermutation(aes) && IsPermutation(aes') && Fits(st, n) && n > 0
    requires forall b :: |b| == 16 ==> aes.encrypt(kek, b) == aes'.encrypt(kek, b)
    ensures WrapSteps(aes, kek, n, st, k) == WrapSteps(aes', kek, n, st, k)
    decreases k
  {
    hide XorCounter, SetBlock, IsPermutation;
    if k > 0 {
      OnlyThisKey(aes, aes', kek, n, st, k - 1);
    }
  }

  lemma {:induction false} WrapUsesKey(aes: BlockCipher, aes': BlockCipher, kek: Bytes, p: Bytes)
    requires IsPermutation(aes) && IsPermutation(aes')
    requires forall b :: |b| == 16 ==> aes.encrypt(kek, b) == aes'.encrypt(kek, b)
    ensures Wrap(aes, kek, p) == Wrap(aes', kek, p)
  {
    hide WrapSteps, IsPermutation;
    if |p| >= 16 && |p| % 8 == 0 {
      OnlyThisKey(aes, aes', kek, |p| / 8, Registers(DEFAULT_IV, p), 6 * (|p| / 8));
    }
  }

  function IdentityCipher(): BlockCipher {
    BlockCipher((key, b) => b, (key, b) => b)
  }

  /** The cipher that exchanges the two halves of a block. */
  function SwapCipher(): BlockCipher {
    BlockCipher((key, b: Bytes) => if |b| == 16 then b[8..] + b[..8] else b, (key, b: Bytes) => if |b| == 16 then b[8..] + b[..8] else b)
  }

  lemma PlainCiphers()
    ensures IsPermutation(IdentityCipher()) && IsPermutation(SwapCipher())
  {
    forall b: Bytes | |b| == 16
      ensures (b[8..] + b[..8])[8..] + (b[8..] + b[..8])[..8] == b
    {
      assert (b[8..] + b[..8])[8..] == b[..8] && (b[8..] + b[..8])[..8] == b[8..];
    }
  }

  /** The counters 1 to k xored into a. */
  function XorAll(a: Bytes, k: nat): (b: Bytes)
    requires |a| == 8
    ensures |b| == 8
  {
    if k == 0 then a else XorBytes(XorAll(a, k - 1), Be64(k))
  }

  lemma {:induction false} IdentitySteps(key: Bytes, n: nat, st: Registers, k: nat)
    requires IsPermutation(IdentityCipher()) && Fits(st, n) && n > 0
    ensures WrapSteps(IdentityCipher(), key, n, st, k) == Registers(XorAll(st.a, k), st.r)
    decreases k
  {
    hide IsPermutation, Be64, XorBytes;
    if k > 0 {
      IdentitySteps(key, n, st, k - 1);
      var i := (k - 1) % n;
      var a := XorAll(st.a, k - 1);
      var buf := a + Block(st.r, i);
      assert buf[..8] == a && buf[8..] == Block(st.r, i);
      assert SetBlock(st.r, i, Block(st.r, i)) == st.r;
    }
  }

  /** Under the identity the 6n counters end up in the integrity register and nowhere else. */
  lemma {:induction false} WrapUnderIdentity(kek: Bytes, p: Bytes)
    requires |p| >= 16 && |p| % 8 == 0 && |kek| in {16, 24, 32}
    ensures IsPermutation(IdentityCipher())
    ensures Wrap(IdentityCipher(), kek, p) ==
            Ok(XorAll([0xA6, 0xA6, 0xA6, 0xA6, 0xA6, 0xA6, 0xA6, 0xA6], 6 * (|p| / 8)) + p)
  {
    PlainCiphers();
    hide IsPermutation, XorAll, IdentityCipher, WrapSteps;
    IdentitySteps(kek, |p| / 8, Registers(DEFAULT_IV, p), 6 * (|p| / 8));
  }

  /** The integrity register after t steps under the swap: step t brings in block t of the input, or
      what step t - n put there, and xors t. */
  function Trail(p: Bytes, n: nat, t: nat): (b: Bytes)
    requires |p| == 8 * n
    ensures |b| == 8
    decreases t
  {
    if t == 0 then [0xA6, 0xA6, 0xA6, 0xA6, 0xA6, 0xA6, 0xA6, 0xA6] else XorBytes(Waiting(p, n, t), Be64(t))
  }

  /** The block that step t finds. */
  function Waiting(p: Bytes, n: nat, t: nat): (b: Bytes)
    requires |p| == 8 * n && t > 0
    ensures |b| == 8
    decreases t, 0
  {
    if t <= n then p[8 * (t - 1)..8 * t] else Trail(p, n, t - n - 1)
  }

  ghost predicate Followed(p: Bytes, n: nat, st: Registers, k: nat)
    requires |p| == 8 * n && n > 0
  {
    && Fits(st, n) && st.a == Trail(p, n, k)
    && forall j {:trigger Waiting(p, n, j)} :: k < j <= k + n ==> Block(st.r, (j - 1) % n) == Waiting(p, n, j)
  }

  lemma ModShift(n: nat, k: nat, d: nat)
    requires n > 0 && d < n
    ensures (k + d) % n == k % n ==> d == 0
    ensures (k + n) % n == k % n
  {
    var q, r := k / n, k % n;
    assert k == n * q + r;
    if r + d < n {
      assert k + d == n * q + (r + d);
      BlockOfStep(n, q, r + d);
    } else {
      assert k + d == n * q + n + (r + d - n) && n * q + n == n * (q + 1);
      BlockOfStep(n, q + 1, r + d - n);
    }
    assert k + n == n * (q + 1) + r;
    BlockOfStep(n, q + 1, r);
  }

  lemma OtherBlock(r: Bytes, i: nat, b: Bytes, j: nat)
    requires 8 * i + 8 <= |r| && 8 * j + 8 <= |r| && |b| == 8 && i != j
    ensures Block(SetBlock(r, i, b), j) == Block(r, j)
  {
  }

  lemma {:induction false} SwapStep(key: Bytes, p: Bytes, n: nat, st: Registers, k: nat)
    requires IsPermutation(SwapCipher()) && |p| == 8 * n && n > 0 && Followed(p, n, st, k)
    ensures Followed(p, n, WrapStep(SwapCipher(), key, n, st, k % n, k + 1), k + 1)
  {
    hide IsPermutation, Be64, XorBytes, SetBlock, Block;
    var i := k % n;
    var st' := WrapStep(SwapCipher(), key, n, st, i, k + 1);
    var found, input := Block(st.r, i), st.a + Block(st.r, i);
    assert input[8..] == found && input[..8] == st.a;
    assert found == Waiting(p, n, k + 1);
    assert (found + st.a)[..8] == found && (found + st.a)[8..] == st.a;
    assert st'.a == XorBytes(found, Be64(k + 1)) == Trail(p, n, k + 1);
    forall j | k + 1 < j <= k + 1 + n
      ensures Block(st'.r, (j - 1) % n) == Waiting(p, n, j)
    {
      if j == k + 1 + n {
        ModShift(n, k, 0);
        assert Waiting(p, n, j) == Trail(p, n, k);
      } else {
        ModShift(n, k, j - 1 - k);
        OtherBlock(st.r, i, st.a, (j - 1) % n);
      }
    }
  }

  lemma {:induction false} SwapSteps(key: Bytes, p: Bytes, n: nat, k: nat)
    requires IsPermutation(SwapCipher()) && |p| == 8 * n && n > 0
    ensures Followed(p, n, WrapSteps(SwapCipher(), key, n, Registers(DEFAULT_IV, p), k), k)
    decreases k
  {
    hide IsPermutation, Be64, XorBytes, WrapStep, SwapCipher;
    if k == 0 {
      forall j | 0 < j <= n
        ensures Block(p, (j - 1) % n) == Waiting(p, n, j)
      {
        assert (j - 1) % n == j - 1;
      }
    } else {
      SwapSteps(key, p, n, k - 1);
      SwapStep(key, p, n, WrapSteps(SwapCipher(), key, n, Registers(DEFAULT_IV, p), k - 1), k - 1);
    }
  }

  /** Under the swap every block passes through the integrity register in turn: the wrapping is
      register 6n followed by registers 5n, 5n + 1, ..., 6n - 1. */
  lemma {:induction false} WrapUnderSwap(kek: Bytes, p: Bytes, i: nat)
    requires |p| >= 16 && |p| % 8 == 0 && |kek| in {16, 24, 32} && i < |p| / 8
    ensures IsPermutation(SwapCipher()) && Wrap(SwapCipher(), kek, p).Ok?
    ensures var n := |p| / 8;
            var c := Wrap(SwapCipher(), kek, p).value;
            |c| == |p| + 8 && c[..8] == Trail(p, n, 6 * n) && c[8 + 8 * i..16 + 8 * i] == Trail(p, n, 5 * n + i)
  {
    PlainCiphers();
    hide IsPermutation, SwapCipher, WrapSteps, XorBytes, Be64;
    var n := |p| / 8;
    SwapSteps(kek, p, n, 6 * n);
    var st := WrapSteps(SwapCipher(), kek, n, Registers(DEFAULT_IV, p), 6 * n);
    var c := Wrap(SwapCipher(), kek, p).value;
    assert c == st.a + st.r && c[8 + 8 * i..16 + 8 * i] == st.r[8 * i..8 * i + 8];
    var j := 6 * n + i + 1;
    BlockOfStep(n, 6, i);
    assert Waiting(p, n, j) == Trail(p, n, 5 * n + i);
    assert Block(st.r, (j - 1) % n) == Waiting(p, n, j);
  }

  method AesKeyWrap(aes: BlockCipher, kek: Bytes, plaintext: Bytes) returns (result: Result<Bytes>)
    requires IsPermutation(aes)
    ensures result == Wrap(aes, kek, plaintext)
  {
    hide WrapStep, SetBlock, XorCounter;
    if |plaintext| < 16 || |plaintext| % 8 != 0 {
      return Err("aes-kw: plaintext must be >= 16 bytes and a multiple of 8");
    }
    if !IsAesKey(kek) {
      return Err("crypto/aes: invalid key size");
    }
    var n := |plaintext| / 8;
    var R := new Byte[|plaintext|](k requires 0 <= k < |plaintext| => plaintext[k]);
    var A := DEFAULT_IV;
    ghost var init := Registers(DEFAULT_IV, plaintext);
    assert R[..] == plaintext;
    for j := 0 to 6
      invariant Registers(A, R[..]) == WrapSteps(aes, kek, n, init, n * j)
    {
      for i := 0 to n
        invariant Registers(A, R[..]) == WrapSteps(aes, kek, n, init, n * j + i)
      {
        BlockOfStep(n, j, i);
        A := WrapBlock(aes, kek, n, A, R, i, n * j + i + 1);
      }
      assert n * j + n == n * (j + 1);
    }
    result := Ok(A + R[..]);
  }

  lemma BlockOfStep(n: nat, j: nat, i: nat)
    requires i < n
    ensures (n * j + i) % n == i
  {
    var x := n * j + i;
    var q, r := x / n, x % n;
    assert x == n * q + r;
    if q > j {
      MulMonotone(n, j + 1, q);
    } else if q < j {
      MulMonotone(n, q + 1, j);
    }
  }

  lemma MulMonotone(n: nat, a: int, b: int)
    requires a <= b
    ensures n * a <= n * b
  {
  }

  /** The body of the inner wrap loop: encrypts A with block i of R, in place. */
  method WrapBlock(aes: BlockCipher, kek: Bytes, n: nat, A0: Bytes, R: array<Byte>, i: nat, t: nat) returns (A: Bytes)
    requires IsPermutation(aes) && |A0| == 8 && R.Length == 8 * n && i < n
    modifies R
    ensures Registers(A, R[..]) == WrapStep(aes, kek, n, Registers(A0, old(R[..])), i, t)
  {
    hide XorCounter;
    var buf := aes.encrypt(kek, A0 + R[i * 8..(i + 1) * 8]);
    A := XorCounter(buf[..8], t);
    forall k | 0 <= k < 8 { R[i * 8 + k] := buf[8 + k]; }
    assert R[..] == SetBlock(old(R[..]), i, buf[8..]);
  }

  method AesKeyUnwrap(aes: BlockCipher, kek: Bytes, ciphertext: Bytes) returns (result: Result<Bytes>)
    requires IsPermutation(aes)
    ensures result == Unwrap(aes, kek, ciphertext)
  {
    hide UnwrapStep, SetBlock, XorCounter, IsPermutation;
    if |ciphertext| < 24 || |ciphertext| % 8 != 0 {
      return Err("aes-kw: ciphertext must be >= 24 bytes and a multiple of 8");
    }
    if !IsAesKey(kek) {
      return Err("crypto/aes: invalid key size");
    }
    var n := |ciphertext| / 8 - 1;
    var R := new Byte[n * 8](k requires 0 <= k < n * 8 => ciphertext[8 + k]);
    var A := ciphertext[..8];
    ghost var end := UnwrapSteps(aes, kek, n, Registers(ciphertext[..8], ciphertext[8..]), 6 * n);
    assert R[..] == ciphertext[8..];
    for j := 6 downto 0
      invariant |A| == 8
      invariant UnwrapSteps(aes, kek, n, Registers(A, R[..]), n * j) == end
    {
      A := UnwrapRound(aes, kek, n, A, R, j);
    }
    if A != DEFAULT_IV {
      return Err("aes-kw: integrity check failed");
    }
    result := Ok(R[..]);
  }

  /** The inner unwrap loop: undoes round j, last block first, in place. */
  method UnwrapRound(aes: BlockCipher, kek: Bytes, n: nat, A0: Bytes, R: array<Byte>, j: nat) returns (A: Bytes)
    requires IsPermutation(aes) && |A0| == 8 && R.Length == 8 * n && n > 0
    modifies R
    ensures |A| == 8
    ensures UnwrapSteps(aes, kek, n, Registers(A, R[..]), n * j) ==
            UnwrapSteps(aes, kek, n, Registers(A0, old(R[..])), n * (j + 1))
  {
    hide UnwrapStep, SetBlock, XorCounter, IsPermutation;
    A := A0;
    assert n * j + n == n * (j + 1);
    for i := n downto 0
      invariant |A| == 8
      invariant UnwrapSteps(aes, kek, n, Registers(A, R[..]), n * j + i) ==
                UnwrapSteps(aes, kek, n, Registers(A0, old(R[..])), n * (j + 1))
    {
      BlockOfStep(n, j, i);
      A := UnwrapBlock(aes, kek, n, A, R, i, n * j + i + 1);
    }
  }

  /** The body of the inner unwrap loop: decrypts A with block i of R, in place. */
  method UnwrapBlock(aes: BlockCipher, kek: Bytes, n: nat, A0: Bytes, R: array<Byte>, i: nat, t: nat) returns (A: Bytes)
    requires IsPermutation(aes) && |A0| == 8 && R.Length == 8 * n && i < n
    modifies R
    ensures |A| == 8
    ensures Registers(A, R[..]) == UnwrapStep(aes, kek, n, Registers(A0, old(R[..])), i, t)
  {
    hide XorCounter;
    var buf := aes.decrypt(kek, XorCounter(A0, t) + R[i * 8..(i + 1) * 8]);
    A := buf[..8];
    forall k | 0 <= k < 8 { R[i * 8 + k] := buf[8 + k]; }
    assert R[..] == SetBlock(old(R[..]), i, buf[8..]);
  }
}
