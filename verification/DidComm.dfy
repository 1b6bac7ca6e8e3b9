/** DIDComm v2 envelopes: anoncrypt (ECDH-ES) and authcrypt (ECDH-1PU) packing and unpacking.
    Library primitives are parameters, constrained only by the laws in Lawful. */
module DidComm {
  import opened Results
  import opened Bytes
  import opened KeyWrap

  datatype Header = Header(typ: Bytes, alg: Bytes, enc: Bytes, skid: Bytes, apu: Bytes, apv: Bytes)

  /** One entry of the envelope's recipient list; epk is the ephemeral key's x coordinate. */
  datatype Entry = Entry(kid: Bytes, epk: Option<Bytes>, encryptedKey: Bytes)

  datatype Envelope = Envelope(protected: Bytes, recipients: seq<Entry>, iv: Bytes, ciphertext: Bytes, tag: Bytes)

  datatype Recipient = Recipient(kid: Bytes, pubKey: Bytes)

  datatype Suite = Suite(
    aes: BlockCipher,
    x25519: (Bytes, Bytes) -> Option<Bytes>,
    sha256: Bytes -> Bytes,
    seal: (Bytes, Bytes, Bytes, Bytes) -> Bytes,
    open: (Bytes, Bytes, Bytes, Bytes) -> Option<Bytes>,
    b64: Bytes -> Bytes,
    unb64: Bytes -> Option<Bytes>,
    putHeader: Header -> Bytes,
    getHeader: Bytes -> Option<Header>,
    putEnvelope: Envelope -> Bytes,
    getEnvelope: Bytes -> Option<Envelope>,
    sortStrings: seq<Bytes> -> seq<Bytes>)

  const BASEPOINT: Bytes := [9] + seq(31, _ => 0)
  const ZERO_POINT: Bytes := seq(32, _ => 0)
  const OVERHEAD := 16

  const MEDIA_TYPE_ENCRYPTED := Ascii("application/didcomm-encrypted+json")
  const ALG_ANONCRYPT := Ascii("ECDH-ES+A256KW")
  const ALG_AUTHCRYPT := Ascii("ECDH-1PU+A256KW")
  const ENC_XC20P := Ascii("XC20P")

  function Ascii(s: string): (b: Bytes)
    ensures |b| == |s|
  {
    seq(|s|, i requires 0 <= i < |s| => ByteOf(s[i] as nat))
  }

  /** X25519 agreement commutes on derived public keys, and rejects the all-zero point. */
  ghost predicate AgreementLaws(x25519: (Bytes, Bytes) -> Option<Bytes>) {
    && (forall k, u :: x25519(k, u).Some? ==> |x25519(k, u).value| == 32)
    && (forall a, b :: x25519(a, BASEPOINT).Some? && x25519(b, BASEPOINT).Some? ==>
          x25519(a, x25519(b, BASEPOINT).value) == x25519(b, x25519(a, BASEPOINT).value))
    && (forall k :: x25519(k, ZERO_POINT).None?)
  }

  ghost predicate Lawful(s: Suite) {
    && IsPermutation(s.aes)
    && AgreementLaws(s.x25519)
    && (forall m :: |s.sha256(m)| == 32)
    && (forall k, n, m, aad :: |s.seal(k, n, m, aad)| == |m| + OVERHEAD && s.open(k, n, s.seal(k, n, m, aad), aad) == Some(m))
    && (forall m :: s.unb64(s.b64(m)) == Some(m))
    && (forall h :: s.getHeader(s.putHeader(h)) == Some(h))
    && (forall e :: s.getEnvelope(s.putEnvelope(e)) == Some(e))
  }

  // ----- key agreement -----

  function KdfInput(z: Bytes, alg: Bytes, apu: Bytes, apv: Bytes): Bytes {
    Be32(1) + z + OtherInfo(alg, apu, apv)
  }

  /** What follows the secret: length-prefixed algorithm and parties, and the key size. */
  function OtherInfo(alg: Bytes, apu: Bytes, apv: Bytes): Bytes {
    Be32(|alg|) + (alg + (Be32(|apu|) + (apu + (Be32(|apv|) + (apv + Be32(256))))))
  }

  /** Party info as the KDF reads it: absent when the header field is empty. */
  function PartyInfo(s: Suite, field: Bytes): Option<Bytes> {
    if field != [] then s.unb64(field) else Some([])
  }

  function ConcatKdf(s: Suite, z: Bytes, alg: Bytes, apuB64: Bytes, apvB64: Bytes): Option<Bytes> {
    match (PartyInfo(s, apuB64), PartyInfo(s, apvB64))
    case (Some(apu), Some(apv)) => Some(s.sha256(KdfInput(z, alg, apu, apv)))
    case _ => None
  }

  function EsKekSender(s: Suite, ephPriv: Bytes, recipPub: Bytes, alg: Bytes, apv: Bytes): Option<Bytes> {
    match s.x25519(ephPriv, recipPub)
    case None => None
    case Some(z) => ConcatKdf(s, z, alg, [], apv)
  }

  function EsKekRecipient(s: Suite, recipPriv: Bytes, ephPub: Bytes, alg: Bytes, apv: Bytes): Option<Bytes> {
    match s.x25519(recipPriv, ephPub)
    case None => None
    case Some(z) => ConcatKdf(s, z, alg, [], apv)
  }

  function PuKekSender(s: Suite, ephPriv: Bytes, senderPriv: Bytes, recipPub: Bytes, alg: Bytes, apu: Bytes, apv: Bytes): Option<Bytes> {
    match (s.x25519(ephPriv, recipPub), s.x25519(senderPriv, recipPub))
    case (Some(ze), Some(zs)) => ConcatKdf(s, ze + zs, alg, apu, apv)
    case _ => None
  }

  function PuKekRecipient(s: Suite, ephPub: Bytes, recipPriv: Bytes, senderPub: Bytes, alg: Bytes, apu: Bytes, apv: Bytes): Option<Bytes> {
    match (s.x25519(recipPriv, ephPub), s.x25519(recipPriv, senderPub))
    case (Some(ze), Some(zs)) => ConcatKdf(s, ze + zs, alg, apu, apv)
    case _ => None
  }

  /** The hash input of secrets of one length determines the secret, the algorithm and both
      parties. If one secret is longer, it continues the shorter one with that one's own
      length-prefixed algorithm. */
  lemma {:induction false} KdfInputInjective(z: Bytes, alg: Bytes, apu: Bytes, apv: Bytes, z': Bytes, alg': Bytes, apu': Bytes, apv': Bytes)
    requires |z| <= |z'|
    requires |alg| < 0x1_0000_0000 && |apu| < 0x1_0000_0000 && |apv| < 0x1_0000_0000
    requires |alg'| < 0x1_0000_0000 && |apu'| < 0x1_0000_0000 && |apv'| < 0x1_0000_0000
    requires KdfInput(z, alg, apu, apv) == KdfInput(z', alg', apu', apv')
    ensures z <= z' && z'[|z|..] <= OtherInfo(alg, apu, apv)
    ensures |z| == |z'| ==> z == z' && alg == alg' && apu == apu' && apv == apv'
  {
    var o, o' := OtherInfo(alg, apu, apv), OtherInfo(alg', apu', apv');
    hide Be32, OtherInfo;
    assert KdfInput(z, alg, apu, apv) == Be32(1) + (z + o);
    assert KdfInput(z', alg', apu', apv') == Be32(1) + (z' + o');
    SplitEqual(Be32(1), z + o, Be32(1), z' + o');
    Overlap(z, o, z', o');
    if |z| == |z'| {
      SplitEqual(z, o, z', o');
      OtherInfoInjective(alg, apu, apv, alg', apu', apv');
    }
  }

  lemma Overlap(a: Bytes, b: Bytes, a': Bytes, b': Bytes)
    requires a + b == a' + b' && |a| <= |a'|
    ensures a <= a' && a'[|a|..] <= b
  {
    var n, n' := |a|, |a'|;
    assert a == (a + b)[..n] == (a' + b')[..n] == a'[..n];
    assert b == (a + b)[n..] == (a' + b')[n..] == a'[n..] + b';
  }

  lemma OtherInfoInjective(alg: Bytes, apu: Bytes, apv: Bytes, alg': Bytes, apu': Bytes, apv': Bytes)
    requires |alg| < 0x1_0000_0000 && |apu| < 0x1_0000_0000 && |apv| < 0x1_0000_0000
    requires |alg'| < 0x1_0000_0000 && |apu'| < 0x1_0000_0000 && |apv'| < 0x1_0000_0000
    requires OtherInfo(alg, apu, apv) == OtherInfo(alg', apu', apv')
    ensures alg == alg' && apu == apu' && apv == apv'
  {
    hide Be32;
    var v, v' := Be32(|apv|) + (apv + Be32(256)), Be32(|apv'|) + (apv' + Be32(256));
    var u, u' := Be32(|apu|) + (apu + v), Be32(|apu'|) + (apu' + v');
    PrefixedInjective(alg, u, alg', u');
    PrefixedInjective(apu, v, apu', v');
    PrefixedInjective(apv, Be32(256), apv', Be32(256));
  }

  lemma SplitEqual(a: Bytes, b: Bytes, a': Bytes, b': Bytes)
    requires a + b == a' + b' && |a| == |a'|
    ensures a == a' && b == b'
  {
    assert a == (a + b)[..|a|] && b == (a + b)[|a|..];
    assert a' == (a' + b')[..|a'|] && b' == (a' + b')[|a'|..];
  }

  lemma PrefixedInjective(a: Bytes, rest: Bytes, a': Bytes, rest': Bytes)
    requires |a| < 0x1_0000_0000 && |a'| < 0x1_0000_0000
    requires Be32(|a|) + (a + rest) == Be32(|a'|) + (a' + rest')
    ensures a == a' && rest == rest'
  {
    hide Be32;
    SplitEqual(Be32(|a|), a + rest, Be32(|a'|), a' + rest');
    Be32Injective(|a|, |a'|);
    SplitEqual(a, rest, a', rest');
  }

  ghost predicate ShaClash(s: Suite, x: Bytes, y: Bytes) {
    x != y && s.sha256(x) == s.sha256(y)
  }

  /** Equal key-encryption keys come from equal secrets, algorithms and parties, or from a longer
      secret that continues the shorter one with its length-prefixed algorithm, unless the two hash
      inputs are themselves a SHA-256 collision. */
  lemma {:induction false} EqualKeksBind(s: Suite, z: Bytes, alg: Bytes, apu: Bytes, apv: Bytes, z': Bytes, alg': Bytes, apu': Bytes, apv': Bytes)
    requires |z| <= |z'| && |alg| < 0x1_0000_0000 && |alg'| < 0x1_0000_0000
    requires ConcatKdf(s, z, alg, apu, apv).Some? && ConcatKdf(s, z', alg', apu', apv') == ConcatKdf(s, z, alg, apu, apv)
    requires |PartyInfo(s, apu).value| < 0x1_0000_0000 && |PartyInfo(s, apv).value| < 0x1_0000_0000
    requires |PartyInfo(s, apu').value| < 0x1_0000_0000 && |PartyInfo(s, apv').value| < 0x1_0000_0000
    ensures var u, v := PartyInfo(s, apu).value, PartyInfo(s, apv).value;
            || ShaClash(s, KdfInput(z, alg, u, v), KdfInput(z', alg', PartyInfo(s, apu').value, PartyInfo(s, apv').value))
            || (z == z' && alg == alg' && PartyInfo(s, apu) == PartyInfo(s, apu') && PartyInfo(s, apv) == PartyInfo(s, apv'))
            || (z < z' && z'[|z|..] <= OtherInfo(alg, u, v))
  {
    hide KdfInput, OtherInfo;
    var u, v, u', v' := PartyInfo(s, apu).value, PartyInfo(s, apv).value, PartyInfo(s, apu').value, PartyInfo(s, apv').value;
    if KdfInput(z, alg, u, v) == KdfInput(z', alg', u', v') {
      KdfInputInjective(z, alg, u, v, z', alg', u', v');
    }
  }

  /** The two agreements: an ECDH-ES key equals an ECDH-1PU key only if both ephemeral secrets agree
      and the sender's secret begins with the length-prefixed name of ECDH-ES, or the two hash inputs
      collide. */
  lemma {:induction false} AgreementsApart(s: Suite, ephPriv: Bytes, recipPub: Bytes, apv: Bytes,
                           ephPriv': Bytes, senderPriv: Bytes, recipPub': Bytes, apu: Bytes, apv': Bytes)
    requires Lawful(s)
    requires EsKekSender(s, ephPriv, recipPub, ALG_ANONCRYPT, apv).Some?
    requires PuKekSender(s, ephPriv', senderPriv, recipPub', ALG_AUTHCRYPT, apu, apv') == EsKekSender(s, ephPriv, recipPub, ALG_ANONCRYPT, apv)
    requires |PartyInfo(s, apv).value| < 0x1_0000_0000
    requires |PartyInfo(s, apu).value| < 0x1_0000_0000 && |PartyInfo(s, apv').value| < 0x1_0000_0000
    ensures var z := s.x25519(ephPriv, recipPub).value;
            var ze, zs := s.x25519(ephPriv', recipPub').value, s.x25519(senderPriv, recipPub').value;
            || ShaClash(s, KdfInput(z, ALG_ANONCRYPT, [], PartyInfo(s, apv).value),
                        KdfInput(ze + zs, ALG_AUTHCRYPT, PartyInfo(s, apu).value, PartyInfo(s, apv').value))
            || (z == ze && Be32(|ALG_ANONCRYPT|) + ALG_ANONCRYPT <= zs)
  {
    var z := s.x25519(ephPriv, recipPub).value;
    var ze, zs := s.x25519(ephPriv', recipPub').value, s.x25519(senderPriv, recipPub').value;
    var v := PartyInfo(s, apv).value;
    assert |z| == 32 && |ze| == 32 && |zs| == 32 && PartyInfo(s, []) == Some([]) && |ALG_ANONCRYPT| == 14;
    EqualKeksBind(s, z, ALG_ANONCRYPT, [], apv, ze + zs, ALG_AUTHCRYPT, apu, apv');
    if z < ze + zs && (ze + zs)[32..] <= OtherInfo(ALG_ANONCRYPT, [], v) {
      assert z == (ze + zs)[..32] == ze && (ze + zs)[32..] == zs;
      NameLeads(ALG_ANONCRYPT, v, zs);
    }
  }

  lemma NameLeads(alg: Bytes, v: Bytes, zs: Bytes)
    requires zs <= OtherInfo(alg, [], v) && 4 + |alg| <= |zs|
    ensures Be32(|alg|) + alg <= zs
  {
    hide Be32;
    var rest := Be32(0) + ([] + (Be32(|v|) + (v + Be32(256))));
    var all := OtherInfo(alg, [], v);
    assert all == Be32(|alg|) + (alg + rest) == (Be32(|alg|) + alg) + rest;
    assert (Be32(|alg|) + alg) == all[..4 + |alg|] == zs[..4 + |alg|];
  }

  // ----- packing -----

  /** RFC 7748 clamping of a freshly drawn private key. */
  function Clamp(raw: Bytes): Bytes
    requires |raw| == 32
  {
    raw[0 := raw[0] & 248][31 := (raw[31] & 127) | 64]
  }

  function Joined(kids: seq<Bytes>): Bytes {
    if kids == [] then []
    else if |kids| == 1 then kids[0]
    else Joined(kids[..|kids| - 1]) + [0x2e] + kids[|kids| - 1]
  }

  function Kids(recipients: seq<Recipient>): seq<Bytes> {
    seq(|recipients|, i requires 0 <= i < |recipients| => recipients[i].kid)
  }

  function MakeHeader(s: Suite, recipients: seq<Recipient>, senderKid: Bytes, authcrypt: bool): Header {
    var apv := s.b64(s.sha256(Joined(s.sortStrings(Kids(recipients)))));
    if authcrypt then Header(MEDIA_TYPE_ENCRYPTED, ALG_AUTHCRYPT, ENC_XC20P, senderKid, s.b64(senderKid), apv)
    else Header(MEDIA_TYPE_ENCRYPTED, ALG_ANONCRYPT, ENC_XC20P, [], [], apv)
  }

  /** Values the source draws from its random generator. */
  datatype Draws = Draws(cek: Bytes, iv: Bytes, ephemerals: seq<Bytes>)

  ghost predicate IsDraws(d: Draws, recipients: seq<Recipient>) {
    && |d.cek| == 32 && |d.iv| == 24 && |d.ephemerals| == |recipients|
    && forall i :: 0 <= i < |recipients| ==> |d.ephemerals[i]| == 32
  }

  function SenderKek(s: Suite, hdr: Header, ephPriv: Bytes, senderPriv: Option<Bytes>, recipPub: Bytes): Option<Bytes> {
    if senderPriv.Some? then PuKekSender(s, ephPriv, senderPriv.value, recipPub, hdr.alg, hdr.apu, hdr.apv)
    else EsKekSender(s, ephPriv, recipPub, hdr.alg, hdr.apv)
  }

  function PackEntry(s: Suite, hdr: Header, senderPriv: Option<Bytes>, cek: Bytes, r: Recipient, raw: Bytes): Result<Entry>
    requires IsPermutation(s.aes) && |raw| == 32
  {
    var ephPriv := Clamp(raw);
    match s.x25519(ephPriv, BASEPOINT)
    case None => Err("didcomm: ephem key")
    case Some(ephPub) =>
      match SenderKek(s, hdr, ephPriv, senderPriv, r.pubKey)
      case None => Err("didcomm: kek")
      case Some(k) =>
        match Wrap(s.aes, k, cek)
        case Err(_) => Err("didcomm: key wrap")
        case Ok(wrapped) => Ok(Entry(r.kid, Some(s.b64(ephPub)), s.b64(wrapped)))
  }

  /** Entries for the first n recipients; the first failure ends the loop. */
  function PackEntries(s: Suite, hdr: Header, senderPriv: Option<Bytes>, d: Draws, recipients: seq<Recipient>, n: nat): (r: Result<seq<Entry>>)
    requires IsPermutation(s.aes) && n <= |recipients| == |d.ephemerals|
    requires forall i :: 0 <= i < |recipients| ==> |d.ephemerals[i]| == 32
    ensures r.Ok? ==> |r.value| == n
  {
    if n == 0 then Ok([]) else
      match PackEntries(s, hdr, senderPriv, d, recipients, n - 1)
      case Err(e) => Err(e)
      case Ok(entries) =>
        match PackEntry(s, hdr, senderPriv, d.cek, recipients[n - 1], d.ephemerals[n - 1])
        case Err(e) => Err(e)
        case Ok(entry) => Ok(entries + [entry])
  }

  function Seal(s: Suite, hdr: Header, entries: seq<Entry>, d: Draws, msg: Bytes): Envelope
    requires Lawful(s)
  {
    var protected := s.b64(s.putHeader(hdr));
    var sealed := s.seal(d.cek, d.iv, msg, protected);
    var tagOff := |sealed| - OVERHEAD;
    Envelope(protected, entries, s.b64(d.iv), s.b64(sealed[..tagOff]), s.b64(sealed[tagOff..]))
  }

  function Pack(s: Suite, msg: Bytes, recipients: seq<Recipient>, senderKid: Bytes, senderPriv: Option<Bytes>, d: Draws): Result<Bytes>
    requires Lawful(s) && IsDraws(d, recipients)
  {
    if recipients == [] then Err("didcomm: at least one recipient required") else
      var hdr := MakeHeader(s, recipients, senderKid, senderPriv.Some?);
      match PackEntries(s, hdr, senderPriv, d, recipients, |recipients|)
      case Err(e) => Err(e)
      case Ok(entries) => Ok(s.putEnvelope(Seal(s, hdr, entries, d, msg)))
  }

  method PackEnvelope(s: Suite, msg: Bytes, recipients: seq<Recipient>, senderKid: Bytes, senderPriv: Option<Bytes>, d: Draws)
    returns (result: Result<Bytes>)
    requires Lawful(s) && IsDraws(d, recipients)
    ensures result == Pack(s, msg, recipients, senderKid, senderPriv, d)
  {
    hide MakeHeader, Seal, PackEntry, Lawful;
    if |recipients| == 0 {
      return Err("didcomm: at least one recipient required");
    }
    LawfulCipher(s);
    var hdr := MakeHeader(s, recipients, senderKid, senderPriv.Some?);
    var entries: seq<Entry> := [];
    for i := 0 to |recipients|
      invariant PackEntries(s, hdr, senderPriv, d, recipients, i) == Ok(entries)
    {
      var entry := MakeEntry(s, hdr, senderPriv, d.cek, recipients[i], d.ephemerals[i]);
      if entry.Err? {
        PackStops(s, hdr, senderPriv, d, recipients, i + 1, |recipients|);
        return Err(entry.error);
      }
      entries := entries + [entry.value];
    }
    result := Ok(s.putEnvelope(Seal(s, hdr, entries, d, msg)));
  }

  lemma LawfulCipher(s: Suite)
    requires Lawful(s)
    ensures IsPermutation(s.aes)
  {
  }

  /** The body of the per-recipient loop. */
  method MakeEntry(s: Suite, hdr: Header, senderPriv: Option<Bytes>, cek: Bytes, r: Recipient, raw: Bytes) returns (entry: Result<Entry>)
    requires IsPermutation(s.aes) && |raw| == 32
    ensures entry == PackEntry(s, hdr, senderPriv, cek, r, raw)
  {
    hide Wrap, Clamp;
    var ephPriv := Clamp(raw);
    var ephPub := s.x25519(ephPriv, BASEPOINT);
    if ephPub.None? {
      return Err("didcomm: ephem key");
    }
    var kek: Option<Bytes>;
    if senderPriv.Some? {
      kek := PuKekSender(s, ephPriv, senderPriv.value, r.pubKey, hdr.alg, hdr.apu, hdr.apv);
    } else {
      kek := EsKekSender(s, ephPriv, r.pubKey, hdr.alg, hdr.apv);
    }
    if kek.None? {
      return Err("didcomm: kek");
    }
    var wrapped := AesKeyWrap(s.aes, kek.value, cek);
    if wrapped.Err? {
      return Err("didcomm: key wrap");
    }
    entry := Ok(Entry(r.kid, Some(s.b64(ephPub.value)), s.b64(wrapped.value)));
  }

  lemma {:induction false} PackStops(s: Suite, hdr: Header, senderPriv: Option<Bytes>, d: Draws, recipients: seq<Recipient>, m: nat, n: nat)
    requires IsPermutation(s.aes) && m <= n <= |recipients| == |d.ephemerals|
    requires forall i :: 0 <= i < |recipients| ==> |d.ephemerals[i]| == 32
    requires PackEntries(s, hdr, senderPriv, d, recipients, m).Err?
    ensures PackEntries(s, hdr, senderPriv, d, recipients, n) == PackEntries(s, hdr, senderPriv, d, recipients, m)
    decreases n
  {
    hide PackEntry;
    if m < n {
      PackStops(s, hdr, senderPriv, d, recipients, m, n - 1);
    }
  }

  // ----- unpacking -----

  type KeyLookup = Bytes -> Option<Bytes>

  /** The key-encryption key a recipient derives; None for an unknown algorithm too. */
  function RecipientKek(s: Suite, hdr: Header, priv: Bytes, ephPub: Bytes, senderPub: Bytes): Option<Bytes> {
    if hdr.alg == ALG_ANONCRYPT then EsKekRecipient(s, priv, ephPub, hdr.alg, hdr.apv)
    else if hdr.alg == ALG_AUTHCRYPT then PuKekRecipient(s, ephPub, priv, senderPub, hdr.alg, hdr.apu, hdr.apv)
    else None
  }

  /** The content key from one entry; None is the source's `continue`. */
  function EntryCek(s: Suite, hdr: Header, senderPub: Bytes, keys: KeyLookup, e: Entry): Option<Bytes>
    requires IsPermutation(s.aes)
  {
    if keys(e.kid).None? || e.epk.None? || s.unb64(e.epk.value).None? || |s.unb64(e.epk.value).value| != 32 then None else
      var priv, ephPub := keys(e.kid).value, s.unb64(e.epk.value).value;
      var kek := RecipientKek(s, hdr, priv, ephPub, senderPub);
      if kek.None? || s.unb64(e.encryptedKey).None? then None else
        match Unwrap(s.aes, kek.value, s.unb64(e.encryptedKey).value)
        case Err(_) => None
        case Ok(cek) => if |cek| != 32 then None else Some(cek)
  }

  function FindCek(s: Suite, hdr: Header, senderPub: Bytes, keys: KeyLookup, entries: seq<Entry>): Option<Bytes>
    requires IsPermutation(s.aes)
  {
    if entries == [] then None
    else if EntryCek(s, hdr, senderPub, keys, entries[0]).Some? then EntryCek(s, hdr, senderPub, keys, entries[0])
    else FindCek(s, hdr, senderPub, keys, entries[1..])
  }

  function OpenContent(s: Suite, env: Envelope, cek: Bytes, skid: Bytes): Result<(Bytes, Bytes)> {
    match (s.unb64(env.iv), s.unb64(env.ciphertext), s.unb64(env.tag))
    case (Some(iv), Some(ct), Some(tag)) =>
      (match s.open(cek, iv, ct + tag, env.protected)
       case None => Err("didcomm: decrypt content")
       case Some(plaintext) => Ok((plaintext, skid)))
    case _ => Err("didcomm: decode")
  }

  /** The sender's public key: all zero unless the header names a sender. */
  function SenderKey(hdr: Header, senders: Option<KeyLookup>): Option<Bytes> {
    if hdr.skid == [] then Some(ZERO_POINT)
    else if senders.None? then None
    else senders.value(hdr.skid)
  }

  function Unpack(s: Suite, envelope: Bytes, keys: KeyLookup, senders: Option<KeyLookup>): Result<(Bytes, Bytes)>
    requires IsPermutation(s.aes)
  {
    match s.getEnvelope(envelope)
    case None => Err("didcomm: parse envelope")
    case Some(env) =>
      match s.unb64(env.protected)
      case None => Err("didcomm: decode protected header")
      case Some(json) =>
        match s.getHeader(json)
        case None => Err("didcomm: parse protected header")
        case Some(hdr) =>
          match SenderKey(hdr, senders)
          case None => Err("didcomm: sender key")
          case Some(senderPub) =>
            match FindCek(s, hdr, senderPub, keys, env.recipients)
            case None => Err("didcomm: no matching recipient key found")
            case Some(cek) => OpenContent(s, env, cek, hdr.skid)
  }

  method UnpackEnvelope(s: Suite, envelope: Bytes, keys: KeyLookup, senders: Option<KeyLookup>) returns (result: Result<(Bytes, Bytes)>)
    requires IsPermutation(s.aes)
    ensures result == Unpack(s, envelope, keys, senders)
  {
    hide Unwrap, OpenContent;
    var parsed := s.getEnvelope(envelope);
    if parsed.None? {
      return Err("didcomm: parse envelope");
    }
    var env := parsed.value;
    var protJson := s.unb64(env.protected);
    if protJson.None? {
      return Err("didcomm: decode protected header");
    }
    var header := s.getHeader(protJson.value);
    if header.None? {
      return Err("didcomm: parse protected header");
    }
    var hdr := header.value;
    var senderPub := ZERO_POINT;
    if hdr.skid != [] {
      if senders.None? || senders.value(hdr.skid).None? {
        return Err("didcomm: sender key");
      }
      senderPub := senders.value(hdr.skid).value;
    }
    var cek: Option<Bytes> := None;
    var i := 0;
    while i < |env.recipients| && cek.None?
      invariant 0 <= i <= |env.recipients|
      invariant FindCek(s, hdr, senderPub, keys, env.recipients) ==
                if cek.Some? then cek else FindCek(s, hdr, senderPub, keys, env.recipients[i..])
      decreases |env.recipients| - i
    {
      assert env.recipients[i..][1..] == env.recipients[i + 1..];
      cek := TryEntry(s, hdr, senderPub, keys, env.recipients[i]);
      i := i + 1;
    }
    if cek.None? {
      return Err("didcomm: no matching recipient key found");
    }
    result := OpenContent(s, env, cek.value, hdr.skid);
  }

  /** The body of the recipient loop. */
  method TryEntry(s: Suite, hdr: Header, senderPub: Bytes, keys: KeyLookup, e: Entry) returns (cek: Option<Bytes>)
    requires IsPermutation(s.aes)
    ensures cek == EntryCek(s, hdr, senderPub, keys, e)
  {
    hide Unwrap;
    var priv := keys(e.kid);
    if priv.None? || e.epk.None? {
      return None;
    }
    var ephPub := s.unb64(e.epk.value);
    if ephPub.None? || |ephPub.value| != 32 {
      return None;
    }
    var kek := None;
    if hdr.alg == ALG_ANONCRYPT {
      kek := EsKekRecipient(s, priv.value, ephPub.value, hdr.alg, hdr.apv);
    } else if hdr.alg == ALG_AUTHCRYPT {
      kek := PuKekRecipient(s, ephPub.value, priv.value, senderPub, hdr.alg, hdr.apu, hdr.apv);
    }
    if kek.None? {
      return None;
    }
    var encKey := s.unb64(e.encryptedKey);
    if encKey.None? {
      return None;
    }
    var unwrapped := AesKeyUnwrap(s.aes, kek.value, encKey.value);
    if unwrapped.Err? || |unwrapped.value| != 32 {
      return None;
    }
    cek := Some(unwrapped.value);
  }

  // ----- every recipient gets the message back -----

  /** The keyring holds, for each recipient key ID it knows, the private key of that recipient. */
  ghost predicate KeysMatch(s: Suite, keys: KeyLookup, recipients: seq<Recipient>) {
    forall i :: 0 <= i < |recipients| && keys(recipients[i].kid).Some? ==>
      s.x25519(keys(recipients[i].kid).value, BASEPOINT) == Some(recipients[i].pubKey)
  }

  ghost predicate HoldsSome(keys: KeyLookup, recipients: seq<Recipient>) {
    exists i :: 0 <= i < |recipients| && keys(recipients[i].kid).Some?
  }

  /** The directory resolves the sender's key ID to the sender's public key. */
  ghost predicate SenderKnown(s: Suite, senders: Option<KeyLookup>, senderKid: Bytes, senderPriv: Option<Bytes>) {
    senderPriv.Some? ==>
      senders.Some? && senders.value(senderKid).Some? &&
      s.x25519(senderPriv.value, BASEPOINT) == senders.value(senderKid)
  }

  lemma AlgsDiffer()
    ensures ALG_ANONCRYPT != ALG_AUTHCRYPT
  {
    assert |ALG_ANONCRYPT| == 14 && |ALG_AUTHCRYPT| == 15;
  }

  lemma {:induction false} EntryOpens(s: Suite, hdr: Header, senderPriv: Option<Bytes>, cek: Bytes, r: Recipient, raw: Bytes, senderPub: Bytes, keys: KeyLookup)
    requires Lawful(s) && |raw| == 32 && |cek| == 32
    requires hdr.alg == if senderPriv.Some? then ALG_AUTHCRYPT else ALG_ANONCRYPT
    requires PackEntry(s, hdr, senderPriv, cek, r, raw).Ok?
    requires keys(r.kid).Some? ==> s.x25519(keys(r.kid).value, BASEPOINT) == Some(r.pubKey)
    requires senderPriv.Some? ==> s.x25519(senderPriv.value, BASEPOINT) == Some(senderPub)
    ensures EntryCek(s, hdr, senderPub, keys, PackEntry(s, hdr, senderPriv, cek, r, raw).value) ==
            if keys(r.kid).Some? then Some(cek) else None
  {
    hide Wrap, Unwrap, ConcatKdf, Clamp, IsPermutation, Ascii;
    AlgsDiffer();
    if keys(r.kid).Some? {
      var priv := keys(r.kid).value;
      var ephPriv := Clamp(raw);
      var ephPub := s.x25519(ephPriv, BASEPOINT).value;
      assert |ephPub| == 32;
      assert s.x25519(ephPriv, r.pubKey) == s.x25519(priv, ephPub);
      if senderPriv.Some? {
        assert s.x25519(senderPriv.value, r.pubKey) == s.x25519(priv, senderPub);
      }
      var kek := if senderPriv.Some?
        then PuKekSender(s, ephPriv, senderPriv.value, r.pubKey, hdr.alg, hdr.apu, hdr.apv)
        else EsKekSender(s, ephPriv, r.pubKey, hdr.alg, hdr.apv);
      var wrapped := Wrap(s.aes, kek.value, cek).value;
      UnwrapIffWrap(s.aes, kek.value, wrapped, cek);
    }
  }

  /** The recipients loop finds the content key as soon as the keyring knows some recipient. */
  lemma {:induction false} CekFound(s: Suite, hdr: Header, senderPriv: Option<Bytes>, d: Draws, recipients: seq<Recipient>, n: nat, senderPub: Bytes, keys: KeyLookup)
    requires Lawful(s) && IsDraws(d, recipients) && n <= |recipients|
    requires hdr.alg == if senderPriv.Some? then ALG_AUTHCRYPT else ALG_ANONCRYPT
    requires KeysMatch(s, keys, recipients)
    requires senderPriv.Some? ==> s.x25519(senderPriv.value, BASEPOINT) == Some(senderPub)
    requires PackEntries(s, hdr, senderPriv, d, recipients, n).Ok?
    ensures FindCek(s, hdr, senderPub, keys, PackEntries(s, hdr, senderPriv, d, recipients, n).value) ==
            if HoldsSome(keys, recipients[..n]) then Some(d.cek) else None
    decreases n
  {
    hide PackEntry, EntryCek, Lawful, Ascii;
    LawfulCipher(s);
    if n > 0 {
      CekFound(s, hdr, senderPriv, d, recipients, n - 1, senderPub, keys);
      var entries := PackEntries(s, hdr, senderPriv, d, recipients, n - 1).value;
      var r := recipients[n - 1];
      var e := PackEntry(s, hdr, senderPriv, d.cek, r, d.ephemerals[n - 1]).value;
      EntryOpens(s, hdr, senderPriv, d.cek, r, d.ephemerals[n - 1], senderPub, keys);
      FindCekAppend(s, hdr, senderPub, keys, entries, e);
      HoldsSomeStep(keys, recipients, n);
    }
  }

  lemma HoldsSomeStep(keys: KeyLookup, recipients: seq<Recipient>, n: nat)
    requires 0 < n <= |recipients|
    ensures HoldsSome(keys, recipients[..n]) <==> HoldsSome(keys, recipients[..n - 1]) || keys(recipients[n - 1].kid).Some?
  {
    var a, b := recipients[..n], recipients[..n - 1];
    if HoldsSome(keys, b) {
      var i :| 0 <= i < |b| && keys(b[i].kid).Some?;
      assert a[i] == b[i];
    }
    assert a[n - 1] == recipients[n - 1];
    if HoldsSome(keys, a) {
      var i :| 0 <= i < |a| && keys(a[i].kid).Some?;
      assert i < n - 1 ==> b[i] == a[i];
    }
  }

  lemma {:induction false} FindCekAppend(s: Suite, hdr: Header, senderPub: Bytes, keys: KeyLookup, entries: seq<Entry>, e: Entry)
    requires IsPermutation(s.aes)
    ensures FindCek(s, hdr, senderPub, keys, entries + [e]) ==
            if FindCek(s, hdr, senderPub, keys, entries).Some? then FindCek(s, hdr, senderPub, keys, entries)
            else EntryCek(s, hdr, senderPub, keys, e)
    decreases |entries|
  {
    hide EntryCek;
    if entries == [] {
      assert entries + [e] == [e];
    } else {
      assert (entries + [e])[1..] == entries[1..] + [e];
      FindCekAppend(s, hdr, senderPub, keys, entries[1..], e);
    }
  }

  lemma SealedOpens(s: Suite, hdr: Header, entries: seq<Entry>, d: Draws, msg: Bytes)
    requires Lawful(s)
    ensures OpenContent(s, Seal(s, hdr, entries, d, msg), d.cek, hdr.skid) == Ok((msg, hdr.skid))
  {
    hide IsPermutation, AgreementLaws;
    var protected := s.b64(s.putHeader(hdr));
    var sealed := s.seal(d.cek, d.iv, msg, protected);
    var tagOff := |sealed| - OVERHEAD;
    assert sealed[..tagOff] + sealed[tagOff..] == sealed;
  }

  /** Whenever packing succeeds and the keyring and directory hold the right keys, unpacking
      succeeds exactly if the keyring knows one of the recipients, and then returns the message
      and the sender's key ID. Authcrypt under the empty key ID is the exception below. */
  lemma {:induction false} UnpackReturnsMessage(s: Suite, msg: Bytes, recipients: seq<Recipient>, senderKid: Bytes, senderPriv: Option<Bytes>, d: Draws,
                             keys: KeyLookup, senders: Option<KeyLookup>)
    requires Lawful(s) && IsDraws(d, recipients)
    requires Pack(s, msg, recipients, senderKid, senderPriv, d).Ok?
    requires KeysMatch(s, keys, recipients) && SenderKnown(s, senders, senderKid, senderPriv)
    requires senderPriv.Some? ==> senderKid != []
    ensures var r := Unpack(s, Pack(s, msg, recipients, senderKid, senderPriv, d).value, keys, senders);
            && (r.Ok? <==> HoldsSome(keys, recipients))
            && (r.Ok? ==> r.value == (msg, if senderPriv.Some? then senderKid else []))
  {
    hide PackEntries, FindCek, OpenContent, Seal, Ascii, IsPermutation, AgreementLaws;
    var hdr := MakeHeader(s, recipients, senderKid, senderPriv.Some?);
    var entries := PackEntries(s, hdr, senderPriv, d, recipients, |recipients|).value;
    var env := Seal(s, hdr, entries, d, msg);
    SealFields(s, hdr, entries, d, msg);
    var senderPub := SenderKey(hdr, senders).value;
    CekFound(s, hdr, senderPriv, d, recipients, |recipients|, senderPub, keys);
    assert recipients[..|recipients|] == recipients;
    SealedOpens(s, hdr, entries, d, msg);
  }

  lemma SealFields(s: Suite, hdr: Header, entries: seq<Entry>, d: Draws, msg: Bytes)
    requires Lawful(s)
    ensures Seal(s, hdr, entries, d, msg).recipients == entries
    ensures Seal(s, hdr, entries, d, msg).protected == s.b64(s.putHeader(hdr))
  {
  }

  /** With distinct key IDs, the matching private key of any one recipient is enough. */
  lemma {:induction false} AnyOneRecipientUnpacks(s: Suite, msg: Bytes, recipients: seq<Recipient>, senderKid: Bytes, senderPriv: Option<Bytes>, d: Draws,
                               m: nat, priv: Bytes, senders: Option<KeyLookup>)
    requires Lawful(s) && IsDraws(d, recipients)
    requires Pack(s, msg, recipients, senderKid, senderPriv, d).Ok?
    requires forall i, j :: 0 <= i < j < |recipients| ==> recipients[i].kid != recipients[j].kid
    requires m < |recipients| && s.x25519(priv, BASEPOINT) == Some(recipients[m].pubKey)
    requires SenderKnown(s, senders, senderKid, senderPriv)
    requires senderPriv.Some? ==> senderKid != []
    ensures var keys := (kid: Bytes) => if kid == recipients[m].kid then Some(priv) else None;
            Unpack(s, Pack(s, msg, recipients, senderKid, senderPriv, d).value, keys, senders) ==
            Ok((msg, if senderPriv.Some? then senderKid else []))
  {
    hide Pack, Unpack;
    var keys: KeyLookup := (kid: Bytes) => if kid == recipients[m].kid then Some(priv) else None;
    assert keys(recipients[m].kid).Some?;
    UnpackReturnsMessage(s, msg, recipients, senderKid, senderPriv, d, keys, senders);
  }

  /** Authcrypt under an empty sender key ID is never unpacked: the header then names no sender,
      the receiver falls back to the all-zero public key, and key agreement rejects it. */
  lemma {:induction false} EmptySenderIdNeverUnpacks(s: Suite, msg: Bytes, recipients: seq<Recipient>, senderPriv: Bytes, d: Draws,
                                  keys: KeyLookup, senders: Option<KeyLookup>)
    requires Lawful(s) && IsDraws(d, recipients)
    requires Pack(s, msg, recipients, [], Some(senderPriv), d).Ok?
    ensures Unpack(s, Pack(s, msg, recipients, [], Some(senderPriv), d).value, keys, senders).Err?
  {
    hide PackEntries, FindCek, OpenContent, Seal, Ascii, IsPermutation;
    var hdr := MakeHeader(s, recipients, [], true);
    var entries := PackEntries(s, hdr, Some(senderPriv), d, recipients, |recipients|).value;
    SealFields(s, hdr, entries, d, msg);
    AlgsDiffer();
    NoCekFromZeroPoint(s, hdr, keys, entries);
  }

  /** So authcrypt round-trips exactly when the sender key ID is not empty. */
  lemma {:induction false} AuthcryptIffSenderNamed(s: Suite, msg: Bytes, recipients: seq<Recipient>, senderKid: Bytes, senderPriv: Bytes, d: Draws,
                                keys: KeyLookup, senders: Option<KeyLookup>)
    requires Lawful(s) && IsDraws(d, recipients)
    requires Pack(s, msg, recipients, senderKid, Some(senderPriv), d).Ok?
    requires KeysMatch(s, keys, recipients) && HoldsSome(keys, recipients)
    requires SenderKnown(s, senders, senderKid, Some(senderPriv))
    ensures Unpack(s, Pack(s, msg, recipients, senderKid, Some(senderPriv), d).value, keys, senders) == Ok((msg, senderKid))
            <==> senderKid != []
  {
    hide Pack, Unpack;
    if senderKid == [] {
      EmptySenderIdNeverUnpacks(s, msg, recipients, senderPriv, d, keys, senders);
    } else {
      UnpackReturnsMessage(s, msg, recipients, senderKid, Some(senderPriv), d, keys, senders);
    }
  }

  lemma {:induction false} NoCekFromZeroPoint(s: Suite, hdr: Header, keys: KeyLookup, entries: seq<Entry>)
    requires IsPermutation(s.aes) && AgreementLaws(s.x25519) && hdr.alg == ALG_AUTHCRYPT && hdr.alg != ALG_ANONCRYPT
    ensures FindCek(s, hdr, ZERO_POINT, keys, entries).None?
    decreases |entries|
  {
    hide Ascii, Unwrap, IsPermutation, ConcatKdf, EsKekRecipient;
    if entries != [] {
      NoCekFromZeroPoint(s, hdr, keys, entries[1..]);
    }
  }
}
