/** Unsigned varints and multibase-encoded keys, as did:key and the credential verifier use them. */
module Multikey {
  import opened Results
  import opened Bytes

  type Octet = n: nat | n < 256
  type Octets = seq<Octet>

  const UINT64 := 0x1_0000_0000_0000_0000

  // ----- varints -----

  /** Base-128 digits, least significant first, continuation bit on all but the last. */
  function Varint(x: nat): (b: Octets)
    ensures |b| >= 1
  {
    if x >= 128 then [128 + x % 128] + Varint(x / 128) else [x]
  }

  lemma {:induction false} VarintLength(x: nat, k: nat)
    requires k >= 1 && x < Exp2(7 * k)
    ensures |Varint(x)| <= k
    decreases k
  {
    if x >= 128 {
      assert Exp2(7) == 128 by { SmallPowers(); }
      if k > 1 {
        Exp2Add(7, 7 * (k - 1));
        VarintLength(x / 128, k - 1);
      }
    }
  }

  lemma SmallPowers()
    ensures Exp2(7) == 128 && Exp2(70) >= UINT64 && Exp2(0) == 1 && Exp2(64) == UINT64
  {
    assert Exp2(2) == 4;
    assert Exp2(4) == 16;
    assert Exp2(6) == 64;
    Exp2Add(7, 7); Exp2Add(14, 14); Exp2Add(28, 28); Exp2Add(56, 14);
    Exp2Add(4, 4); Exp2Add(8, 8); Exp2Add(16, 16); Exp2Add(32, 32);
  }

  lemma {:induction false} Exp2Add(a: nat, b: nat)
    ensures Exp2(a + b) == Exp2(a) * Exp2(b)
    decreases a
  {
    if a > 0 {
      Exp2Add(a - 1, b);
      assert Exp2(a + b) == 2 * Exp2((a - 1) + b) && Exp2(a) == 2 * Exp2(a - 1);
    }
  }

  method Uvarint(x0: nat) returns (b: Octets)
    requires x0 < UINT64
    ensures b == Varint(x0) && |b| <= 10
  {
    var buf := new Octet[10](_ => 0);
    var n, x := 0, x0;
    SmallPowers();
    VarintLength(x0, 10);
    hide Exp2;
    while x >= 0x80
      invariant 0 <= n < 10 && buf[..n] + Varint(x) == Varint(x0) && |Varint(x0)| <= 10
      invariant n + |Varint(x)| == |Varint(x0)|
    {
      ghost var rest := Varint(x / 128);
      assert Varint(x) == [128 + x % 128] + rest;
      buf[n] := 128 + x % 128;
      assert buf[..n + 1] + rest == buf[..n] + Varint(x);
      x := x / 128;
      n := n + 1;
    }
    buf[n] := x;
    assert buf[..n + 1] == buf[..n] + [x];
    b := buf[..n + 1];
  }

  /** uint64(c) << s; bits shifted past the top are lost. */
  function Shl(c: nat, s: nat): nat {
    c * Exp2(s) % UINT64
  }

  /** The decoding loop from position i. The accumulator holds only bits below 7 * i, so the
      source's bitwise or is addition. */
  function DecodeFrom(b: Octets, i: nat, acc: nat): (r: (nat, nat))
    ensures r.1 <= |b|
    decreases |b| - i
  {
    if i >= |b| then (0, 0)
    else if b[i] < 128 then (acc + Shl(b[i], 7 * i), i + 1)
    else DecodeFrom(b, i + 1, acc + Shl(b[i] - 128, 7 * i))
  }

  method DecodeUvarint(b: Octets) returns (x: nat, n: nat)
    ensures (x, n) == DecodeFrom(b, 0, 0)
  {
    hide Shl;
    x := 0;
    var s := 0;
    for i := 0 to |b|
      invariant s == 7 * i && DecodeFrom(b, i, x) == DecodeFrom(b, 0, 0)
    {
      var c := b[i];
      if c < 0x80 {
        return x + Shl(c, s), i + 1;
      }
      x := x + Shl(c - 128, s);
      s := s + 7;
    }
    return 0, 0;
  }

  /** Decoding starts at the varint's first byte and reads exactly its bytes. */
  lemma {:induction false} DecodeVarintAt(before: Octets, x: nat, suffix: Octets, acc: nat)
    requires x * Exp2(7 * |before|) < UINT64
    ensures DecodeFrom(before + Varint(x) + suffix, |before|, acc) ==
            (acc + x * Exp2(7 * |before|), |before| + |Varint(x)|)
    decreases x
  {
    hide Exp2;
    var i := |before|;
    var p := Exp2(7 * i);
    var b := before + Varint(x) + suffix;
    if x < 128 {
      assert b[i] == x;
      assert Shl(x, 7 * i) == x * p;
    } else {
      var q, r := x / 128, x % 128;
      assert b[i] == 128 + r;
      Exp2Add(7, 7 * i);
      SmallPowers();
      assert Exp2(7 * (i + 1)) == 128 * p;
      Scale(q, r, p);
      assert Shl(r, 7 * i) == r * p;
      var before' := before + [128 + r];
      assert before' + Varint(q) + suffix == b;
      DecodeVarintAt(before', q, suffix, acc + r * p);
    }
  }

  lemma Scale(q: nat, r: nat, p: nat)
    ensures (128 * q + r) * p == q * (128 * p) + r * p
    ensures r * p <= (128 * q + r) * p && q * (128 * p) <= (128 * q + r) * p
  {
    assert q * (128 * p) >= 0 && r * p >= 0;
  }

  /** Every uint64 decodes to itself in front of any suffix. */
  lemma VarintRoundTrip(x: nat, suffix: Octets)
    requires x < UINT64
    ensures DecodeFrom(Varint(x) + suffix, 0, 0) == (x, |Varint(x)|) && |Varint(x)| <= 10
  {
    SmallPowers();
    VarintLength(x, 10);
    assert [] + Varint(x) + suffix == Varint(x) + suffix;
    DecodeVarintAt([], x, suffix, 0);
  }

  /** The value of base-128 digits, least significant first. */
  function Value(b: Octets): nat {
    if b == [] then 0 else b[0] % 128 + 128 * Value(b[1..])
  }

  /** The digits of a varint spell the number, and all but the last carry the high bit. */
  lemma {:induction false} VarintIs(x: nat)
    ensures Value(Varint(x)) == x
    ensures forall i :: 0 <= i < |Varint(x)| ==> (Varint(x)[i] >= 128 <==> i < |Varint(x)| - 1)
    ensures |Varint(x)| > 1 ==> Varint(x)[|Varint(x)| - 1] != 0
    decreases x
  {
    if x >= 128 {
      VarintIs(x / 128);
      assert Varint(x)[1..] == Varint(x / 128);
    }
  }

  /** Bytes that never end a varint decode to nothing. */
  lemma {:induction false} Unterminated(b: Octets, i: nat, acc: nat)
    requires forall j :: i <= j < |b| ==> b[j] >= 128
    ensures DecodeFrom(b, i, acc) == (0, 0)
    decreases |b| - i
  {
    hide Shl;
    if i < |b| {
      Unterminated(b, i + 1, acc + Shl(b[i] - 128, 7 * i));
    }
  }

  // ----- keys -----

  /** The multibase and base64url libraries. */
  datatype Codecs = Codecs(
    mbEncode: Octets -> Option<string>,
    mbDecode: string -> Option<Octets>,
    b64: Octets -> string,
    unb64: string -> Option<Octets>)

  /** Decoding undoes encoding; on the fallback text multibase either fails or agrees. */
  ghost predicate Lawful(c: Codecs) {
    && (forall raw :: c.mbEncode(raw).Some? ==> c.mbDecode(c.mbEncode(raw).value) == Some(raw))
    && (forall raw :: c.unb64(c.b64(raw)) == Some(raw))
    && (forall raw :: c.mbDecode("u" + c.b64(raw)).Some? ==> c.mbDecode("u" + c.b64(raw)).value == raw)
  }

  function ToMultibase(c: Codecs, key: Octets, codec: nat): string {
    var raw := Varint(codec) + key;
    if c.mbEncode(raw).Some? then c.mbEncode(raw).value else "u" + c.b64(raw)
  }

  function RawKey(c: Codecs, mb: string): Option<Octets> {
    if c.mbDecode(mb).Some? then c.mbDecode(mb)
    else if "u" <= mb then c.unb64(mb[1..])
    else None
  }

  function DecodeEd25519(c: Codecs, mb: string): Result<Octets> {
    match RawKey(c, mb)
    case None => Err("decode key")
    case Some(raw) =>
      if |raw| < 2 then Err("key too short")
      else
        var n := DecodeFrom(raw, 0, 0).1;
        if |raw| - n != 32 then Err("expected 32-byte Ed25519 key") else Ok(raw[n..])
  }

  /** Every 32-byte key survives encoding under any codec, on the multibase and the fallback path. */
  lemma MultibaseRoundTrip(c: Codecs, key: Octets, codec: nat)
    requires Lawful(c) && |key| == 32 && codec < UINT64
    ensures DecodeEd25519(c, ToMultibase(c, key, codec)) == Ok(key)
  {
    hide DecodeFrom, Varint;
    var raw := Varint(codec) + key;
    VarintRoundTrip(codec, key);
    if c.mbEncode(raw).None? {
      assert ("u" + c.b64(raw))[1..] == c.b64(raw);
    }
    assert RawKey(c, ToMultibase(c, key, codec)) == Some(raw);
    assert raw[|Varint(codec)|..] == key;
  }

  const ED25519_PUB := 0xed

  function KeyDidPrefix(): string { "did:key:" }

  function EncodeKeyDid(c: Codecs, pub: Octets): Result<string> {
    match c.mbEncode([0xed, 0x01] + pub)
    case None => Err("did:key encode")
    case Some(mb) => Ok(KeyDidPrefix() + mb)
  }

  /** The key a did:key resolves to, with the text published for it in the document. */
  function ResolveKeyDid(c: Codecs, did: string): Result<(Octets, string)> {
    if !(KeyDidPrefix() <= did) then Err("did:key: invalid DID")
    else
      match c.mbDecode(did[|KeyDidPrefix()|..])
      case None => Err("did:key decode")
      case Some(raw) =>
        if |raw| < 3 then Err("did:key: too short")
        else
          var (codec, n) := DecodeFrom(raw, 0, 0);
          if codec != ED25519_PUB then Err("did:key: unsupported multicodec")
          else if |raw| - n != 32 then Err("did:key: invalid ed25519 key length")
          else Ok((raw[n..], ToMultibase(c, raw[n..], ED25519_PUB)))
  }

  /** A did:key resolves to the key it was made from, and its document publishes that key. */
  lemma KeyDidRoundTrip(c: Codecs, pub: Octets)
    requires Lawful(c) && |pub| == 32 && EncodeKeyDid(c, pub).Ok?
    ensures var r := ResolveKeyDid(c, EncodeKeyDid(c, pub).value);
            r.Ok? && r.value.0 == pub && DecodeEd25519(c, r.value.1) == Ok(pub)
  {
    var raw := Varint(ED25519_PUB) + pub;
    assert Varint(ED25519_PUB) == [0xed, 0x01];
    hide DecodeFrom, Varint, DecodeEd25519, ToMultibase, KeyDidPrefix;
    var did := EncodeKeyDid(c, pub).value;
    assert did[|KeyDidPrefix()|..] == c.mbEncode(raw).value;
    VarintRoundTrip(ED25519_PUB, pub);
    assert raw[2..] == pub;
    MultibaseRoundTrip(c, pub, ED25519_PUB);
  }

  /** A did:key is the multibase text of the bytes 0xed 0x01 and the key. */
  lemma KeyDidIs(c: Codecs, pub: Octets)
    ensures EncodeKeyDid(c, pub).Ok? <==> c.mbEncode([0xed, 0x01] + pub).Some?
    ensures EncodeKeyDid(c, pub).Ok? ==> EncodeKeyDid(c, pub).value == "did:key:" + c.mbEncode([0xed, 0x01] + pub).value
  {
  }

  /** A did:key resolves to a key exactly when it decodes to the code 0xed and that 32-byte key. */
  lemma {:induction false} ResolveIff(c: Codecs, did: string, pub: Octets)
    ensures (ResolveKeyDid(c, did).Ok? && ResolveKeyDid(c, did).value.0 == pub) <==>
            && "did:key:" <= did && c.mbDecode(did[8..]).Some?
            && var raw := c.mbDecode(did[8..]).value;
               |pub| == 32 && |raw| >= 33 && DecodeFrom(raw, 0, 0) == (0xed, |raw| - 32) && raw[|raw| - 32..] == pub
  {
    assert |KeyDidPrefix()| == 8 && KeyDidPrefix() == "did:key:";
    if c.mbDecode(did[if "did:key:" <= did then 8 else 0..]).Some? {
      var raw := c.mbDecode(did[if "did:key:" <= did then 8 else 0..]).value;
      DecodePositive(raw, 0, 0);
    }
    hide DecodeFrom, ToMultibase, KeyDidPrefix;
  }

  lemma {:induction false} DecodePositive(b: Octets, i: nat, acc: nat)
    ensures DecodeFrom(b, i, acc) == (0, 0) || DecodeFrom(b, i, acc).1 > i
    decreases |b| - i
  {
    hide Shl;
    if i < |b| && b[i] >= 128 {
      DecodePositive(b, i + 1, acc + Shl(b[i] - 128, 7 * i));
    }
  }

  /** Any other code is refused. */
  lemma {:induction false} OtherCodecRefused(c: Codecs, did: string, codec: nat, key: Octets)
    requires codec < UINT64 && codec != 0xed && "did:key:" <= did && c.mbDecode(did[8..]) == Some(Varint(codec) + key)
    ensures ResolveKeyDid(c, did).Err?
  {
    assert |KeyDidPrefix()| == 8 && KeyDidPrefix() == "did:key:";
    VarintRoundTrip(codec, key);
    hide DecodeFrom, ToMultibase, KeyDidPrefix, Varint;
  }

  /** The multibase text is that of the code's varint and the key, or "u" and base64url if multibase
      fails; a key is read back from any text whose bytes after one varint number 32. */
  lemma MultibaseIs(c: Codecs, key: Octets, codec: nat, mb: string)
    ensures ToMultibase(c, key, codec) ==
            match c.mbEncode(Varint(codec) + key) case Some(t) => t case None => "u" + c.b64(Varint(codec) + key)
    ensures DecodeEd25519(c, mb) == Ok(key) <==>
            exists raw :: (c.mbDecode(mb) == Some(raw) || (c.mbDecode(mb).None? && "u" <= mb && c.unb64(mb[1..]) == Some(raw))) &&
                          |raw| >= 2 && |key| == 32 && DecodeFrom(raw, 0, 0).1 == |raw| - 32 && raw[|raw| - 32..] == key
  {
    hide DecodeFrom, Varint;
  }
}
