/** DIDComm envelopes on the wire: what packing writes and what unpacking accepts, said on the
    library's answers and literal bytes alone. */
module DidCommWire {
  import opened Results
  import opened Bytes
  import opened KeyWrap
  import opened DidComm

  // ----- keys -----

  /** The bytes that are hashed into a key-encryption key: counter 1, the secret, the length-prefixed
      algorithm and parties, and the key length of 256 bits. */
  function Hashed(z: Bytes, alg: Bytes, apu: Bytes, apv: Bytes): Bytes {
    [0, 0, 0, 1] + z + (Be32(|alg|) + alg) + (Be32(|apu|) + apu) + (Be32(|apv|) + apv) + [0, 0, 1, 0]
  }

  lemma {:induction false} KdfLayout(z: Bytes, alg: Bytes, apu: Bytes, apv: Bytes)
    ensures KdfInput(z, alg, apu, apv) == Hashed(z, alg, apu, apv)
  {
    assert Be32(1) == [0, 0, 0, 1] && Be32(256) == [0, 0, 1, 0] by { SmallLengths(); }
    hide Be32;
  }

  lemma SmallLengths()
    ensures Be32(1) == [0, 0, 0, 1] && Be32(256) == [0, 0, 1, 0]
  {
    hide ByteOf;
    ByteOfNext(0);
    assert 1 / 256 == 0 && 1 % 256 == 1 && 256 / 256 == 1 && 256 % 256 == 0 && 0 / 256 == 0 && 0 % 256 == 0;
  }

  /** A header field stands for these party bytes. */
  predicate Party(s: Suite, field: Bytes, bytes: Bytes) {
    if field == [] then bytes == [] else s.unb64(field) == Some(bytes)
  }

  ghost predicate Derives(s: Suite, z: Bytes, alg: Bytes, apu: Bytes, apv: Bytes, kek: Bytes) {
    exists u, v :: Party(s, apu, u) && Party(s, apv, v) && kek == s.sha256(Hashed(z, alg, u, v))
  }

  lemma {:induction false} KdfIff(s: Suite, z: Bytes, alg: Bytes, apu: Bytes, apv: Bytes, kek: Bytes)
    ensures ConcatKdf(s, z, alg, apu, apv) == Some(kek) <==> Derives(s, z, alg, apu, apv, kek)
  {
    hide Hashed, KdfInput;
    forall u, v
      ensures KdfInput(z, alg, u, v) == Hashed(z, alg, u, v)
    {
      KdfLayout(z, alg, u, v);
    }
    if ConcatKdf(s, z, alg, apu, apv) == Some(kek) {
      var u, v := PartyInfo(s, apu).value, PartyInfo(s, apv).value;
      assert Party(s, apu, u) && Party(s, apv, v);
    }
  }

  /** One agreement under ECDH-ES; the ephemeral agreement followed by the static one under
      ECDH-1PU, which alone binds the sender's party info. */
  ghost predicate Agrees(s: Suite, ze: Option<Bytes>, zs: Option<Bytes>, authcrypt: bool, hdr: Header, kek: Bytes) {
    if authcrypt then ze.Some? && zs.Some? && Derives(s, ze.value + zs.value, hdr.alg, hdr.apu, hdr.apv, kek)
    else ze.Some? && Derives(s, ze.value, hdr.alg, [], hdr.apv, kek)
  }

  lemma {:induction false} KeksAre(s: Suite, hdr: Header, eph: Bytes, senderPriv: Bytes, recipPub: Bytes, priv: Bytes, ephPub: Bytes, senderPub: Bytes, kek: Bytes)
    ensures EsKekSender(s, eph, recipPub, hdr.alg, hdr.apv) == Some(kek) <==> Agrees(s, s.x25519(eph, recipPub), None, false, hdr, kek)
    ensures PuKekSender(s, eph, senderPriv, recipPub, hdr.alg, hdr.apu, hdr.apv) == Some(kek) <==>
            Agrees(s, s.x25519(eph, recipPub), s.x25519(senderPriv, recipPub), true, hdr, kek)
    ensures EsKekRecipient(s, priv, ephPub, hdr.alg, hdr.apv) == Some(kek) <==> Agrees(s, s.x25519(priv, ephPub), None, false, hdr, kek)
    ensures PuKekRecipient(s, ephPub, priv, senderPub, hdr.alg, hdr.apu, hdr.apv) == Some(kek) <==>
            Agrees(s, s.x25519(priv, ephPub), s.x25519(priv, senderPub), true, hdr, kek)
  {
    hide ConcatKdf, Derives;
    forall z, apu
      ensures ConcatKdf(s, z, hdr.alg, apu, hdr.apv) == Some(kek) <==> Derives(s, z, hdr.alg, apu, hdr.apv, kek)
    {
      KdfIff(s, z, hdr.alg, apu, hdr.apv, kek);
    }
  }

  /** Clamping clears the three low bits of the first byte and the top bit of the last, sets the bit
      below it and leaves every other bit alone. */
  lemma ClampIs(raw: Bytes, i: nat)
    requires |raw| == 32 && i < 32
    ensures var c := Clamp(raw);
            && |c| == 32 && c[0] & 0x07 == 0 && c[31] & 0x80 == 0 && c[31] & 0x40 == 0x40
            && c[0] & 0xF8 == raw[0] & 0xF8 && c[31] & 0x3F == raw[31] & 0x3F && (0 < i < 31 ==> c[i] == raw[i])
  {
    FirstByte(raw[0]);
    LastByte(raw[31]);
  }

  lemma FirstByte(b: Byte)
    ensures (b & 248) & 0x07 == 0 && (b & 248) & 0xF8 == b & 0xF8
  {
  }

  lemma LastByte(b: Byte)
    ensures ((b & 127) | 64) & 0x80 == 0 && ((b & 127) | 64) & 0x40 == 0x40 && ((b & 127) | 64) & 0x3F == b & 0x3F
  {
  }

  // ----- packing -----

  /** Key IDs joined by full stops. */
  function Dotted(kids: seq<Bytes>): Bytes {
    if kids == [] then [] else if |kids| == 1 then kids[0] else kids[0] + [0x2e] + Dotted(kids[1..])
  }

  lemma {:induction false} DottedAppend(kids: seq<Bytes>, last: Bytes)
    requires kids != []
    ensures Dotted(kids + [last]) == Dotted(kids) + [0x2e] + last
    decreases |kids|
  {
    var all := kids + [last];
    if |kids| == 1 {
      assert all[1..] == [last];
    } else {
      assert all[1..] == kids[1..] + [last];
      DottedAppend(kids[1..], last);
      assert Dotted(all) == kids[0] + [0x2e] + (Dotted(kids[1..]) + [0x2e] + last);
    }
  }

  lemma {:induction false} JoinedIs(kids: seq<Bytes>)
    ensures Joined(kids) == Dotted(kids)
    decreases |kids|
  {
    if |kids| > 1 {
      var n := |kids| - 1;
      JoinedIs(kids[..n]);
      DottedAppend(kids[..n], kids[n]);
      assert kids[..n] + [kids[n]] == kids;
    }
  }

  function WireHeader(s: Suite, recipients: seq<Recipient>, senderKid: Bytes, authcrypt: bool): Header {
    var kids := seq(|recipients|, i requires 0 <= i < |recipients| => recipients[i].kid);
    var apv := s.b64(s.sha256(Dotted(s.sortStrings(kids))));
    if authcrypt
    then Header(Ascii("application/didcomm-encrypted+json"), Ascii("ECDH-1PU+A256KW"), Ascii("XC20P"), senderKid, s.b64(senderKid), apv)
    else Header(Ascii("application/didcomm-encrypted+json"), Ascii("ECDH-ES+A256KW"), Ascii("XC20P"), [], [], apv)
  }

  lemma HeaderIs(s: Suite, recipients: seq<Recipient>, senderKid: Bytes, authcrypt: bool)
    ensures MakeHeader(s, recipients, senderKid, authcrypt) == WireHeader(s, recipients, senderKid, authcrypt)
  {
    JoinedIs(s.sortStrings(Kids(recipients)));
    hide Joined, Dotted, Ascii;
  }

  /** The entry carries the ephemeral public key and the content key wrapped for this recipient. */
  ghost predicate Addressed(s: Suite, hdr: Header, senderPriv: Option<Bytes>, cek: Bytes, r: Recipient, eph: Bytes, e: Entry)
    requires IsPermutation(s.aes)
  {
    && e.kid == r.kid
    && s.x25519(eph, [9] + seq(31, _ => 0)).Some? && e.epk == Some(s.b64(s.x25519(eph, [9] + seq(31, _ => 0)).value))
    && exists kek, w ::
         Agrees(s, s.x25519(eph, r.pubKey), if senderPriv.Some? then s.x25519(senderPriv.value, r.pubKey) else None, senderPriv.Some?, hdr, kek) &&
         Wrap(s.aes, kek, cek) == Ok(w) && e.encryptedKey == s.b64(w)
  }

  lemma {:induction false} SenderKekIff(s: Suite, hdr: Header, eph: Bytes, senderPriv: Option<Bytes>, recipPub: Bytes, kek: Bytes)
    ensures SenderKek(s, hdr, eph, senderPriv, recipPub) == Some(kek) <==>
            Agrees(s, s.x25519(eph, recipPub), if senderPriv.Some? then s.x25519(senderPriv.value, recipPub) else None, senderPriv.Some?, hdr, kek)
  {
    hide Agrees, EsKekSender, PuKekSender;
    KeksAre(s, hdr, eph, if senderPriv.Some? then senderPriv.value else [], recipPub, [], [], [], kek);
  }

  lemma {:induction false} EntryIff(s: Suite, hdr: Header, senderPriv: Option<Bytes>, cek: Bytes, r: Recipient, raw: Bytes, e: Entry)
    requires IsPermutation(s.aes) && |raw| == 32
    ensures PackEntry(s, hdr, senderPriv, cek, r, raw) == Ok(e) <==> Addressed(s, hdr, senderPriv, cek, r, Clamp(raw), e)
  {
    var eph := Clamp(raw);
    assert BASEPOINT == [9] + seq(31, _ => 0);
    hide Wrap, Clamp, IsPermutation, Agrees, SenderKek;
    if Addressed(s, hdr, senderPriv, cek, r, eph, e) {
      var kek, w :|
         Agrees(s, s.x25519(eph, r.pubKey), if senderPriv.Some? then s.x25519(senderPriv.value, r.pubKey) else None, senderPriv.Some?, hdr, kek) &&
         Wrap(s.aes, kek, cek) == Ok(w) && e.encryptedKey == s.b64(w);
      SenderKekIff(s, hdr, eph, senderPriv, r.pubKey, kek);
    }
    if PackEntry(s, hdr, senderPriv, cek, r, raw) == Ok(e) {
      SenderKekIff(s, hdr, eph, senderPriv, r.pubKey, SenderKek(s, hdr, eph, senderPriv, r.pubKey).value);
    }
  }

  lemma {:induction false} EntriesIff(s: Suite, hdr: Header, senderPriv: Option<Bytes>, d: Draws, recipients: seq<Recipient>, n: nat, es: seq<Entry>)
    requires IsPermutation(s.aes) && IsDraws(d, recipients) && n <= |recipients|
    ensures PackEntries(s, hdr, senderPriv, d, recipients, n) == Ok(es) <==>
            |es| == n && forall i :: 0 <= i < n ==> Addressed(s, hdr, senderPriv, d.cek, recipients[i], Clamp(d.ephemerals[i]), es[i])
    decreases n
  {
    hide PackEntry, Addressed, IsPermutation, Clamp;
    if n > 0 {
      if |es| == n {
        EntriesIff(s, hdr, senderPriv, d, recipients, n - 1, es[..n - 1]);
        EntryIff(s, hdr, senderPriv, d.cek, recipients[n - 1], d.ephemerals[n - 1], es[n - 1]);
        assert es == es[..n - 1] + [es[n - 1]];
      }
    }
  }

  /** What packing writes: the header above, one entry per recipient in order, the nonce, and the
      sealed content with its last 16 bytes as the tag, authenticated together with the header. */
  ghost predicate Wire(s: Suite, msg: Bytes, recipients: seq<Recipient>, senderKid: Bytes, senderPriv: Option<Bytes>, d: Draws, env: Envelope)
    requires IsPermutation(s.aes) && IsDraws(d, recipients)
  {
    var hdr := WireHeader(s, recipients, senderKid, senderPriv.Some?);
    && env.protected == s.b64(s.putHeader(hdr)) && env.iv == s.b64(d.iv)
    && |env.recipients| == |recipients| > 0
    && (forall i :: 0 <= i < |recipients| ==>
          Addressed(s, hdr, senderPriv, d.cek, recipients[i], Clamp(d.ephemerals[i]), env.recipients[i]))
    && Sealed(s, d, msg, env)
  }

  /** Content and 16-byte tag together are the sealed message. */
  ghost predicate Sealed(s: Suite, d: Draws, msg: Bytes, env: Envelope) {
    exists body, tag :: |tag| == 16 && body + tag == s.seal(d.cek, d.iv, msg, env.protected) &&
                        env.ciphertext == s.b64(body) && env.tag == s.b64(tag)
  }

  lemma SealIs(s: Suite, hdr: Header, entries: seq<Entry>, d: Draws, msg: Bytes)
    requires Lawful(s)
    ensures var env := Seal(s, hdr, entries, d, msg);
            && env.protected == s.b64(s.putHeader(hdr)) && env.iv == s.b64(d.iv) && env.recipients == entries
            && Sealed(s, d, msg, env)
  {
    hide IsPermutation, AgreementLaws;
    var sealed := s.seal(d.cek, d.iv, msg, s.b64(s.putHeader(hdr)));
    var off := |sealed| - 16;
    assert sealed[..off] + sealed[off..] == sealed && |sealed[off..]| == 16;
  }

  lemma SealUnique(s: Suite, hdr: Header, entries: seq<Entry>, d: Draws, msg: Bytes, env: Envelope)
    requires Lawful(s)
    requires env.protected == s.b64(s.putHeader(hdr)) && env.iv == s.b64(d.iv) && env.recipients == entries
    requires Sealed(s, d, msg, env)
    ensures env == Seal(s, hdr, entries, d, msg)
  {
    hide IsPermutation, AgreementLaws;
    var body, tag :| |tag| == 16 && body + tag == s.seal(d.cek, d.iv, msg, env.protected) && env.ciphertext == s.b64(body) && env.tag == s.b64(tag);
    var sealed := s.seal(d.cek, d.iv, msg, env.protected);
    assert sealed[..|sealed| - 16] == body && sealed[|sealed| - 16..] == tag;
  }

  lemma {:induction false} PackIsWire(s: Suite, msg: Bytes, recipients: seq<Recipient>, senderKid: Bytes, senderPriv: Option<Bytes>, d: Draws) returns (env: Envelope)
    requires Lawful(s) && IsDraws(d, recipients) && Pack(s, msg, recipients, senderKid, senderPriv, d).Ok?
    ensures IsPermutation(s.aes) && Wire(s, msg, recipients, senderKid, senderPriv, d, env)
    ensures Pack(s, msg, recipients, senderKid, senderPriv, d) == Ok(s.putEnvelope(env))
  {
    LawfulCipher(s);
    HeaderIs(s, recipients, senderKid, senderPriv.Some?);
    var hdr := WireHeader(s, recipients, senderKid, senderPriv.Some?);
    hide IsPermutation, Lawful, WireHeader, MakeHeader, PackEntries, Seal, Sealed, Addressed, Clamp, IsDraws;
    var es := PackEntries(s, hdr, senderPriv, d, recipients, |recipients|).value;
    EntriesIff(s, hdr, senderPriv, d, recipients, |recipients|, es);
    SealIs(s, hdr, es, d, msg);
    env := Seal(s, hdr, es, d, msg);
  }

  lemma {:induction false} WireIsPacked(s: Suite, msg: Bytes, recipients: seq<Recipient>, senderKid: Bytes, senderPriv: Option<Bytes>, d: Draws, env: Envelope)
    requires Lawful(s) && IsDraws(d, recipients) && IsPermutation(s.aes) && Wire(s, msg, recipients, senderKid, senderPriv, d, env)
    ensures Pack(s, msg, recipients, senderKid, senderPriv, d) == Ok(s.putEnvelope(env))
  {
    HeaderIs(s, recipients, senderKid, senderPriv.Some?);
    var hdr := WireHeader(s, recipients, senderKid, senderPriv.Some?);
    hide IsPermutation, Lawful, WireHeader, MakeHeader, PackEntries, Seal, Sealed, Addressed, Clamp, IsDraws;
    EntriesIff(s, hdr, senderPriv, d, recipients, |recipients|, env.recipients);
    SealUnique(s, hdr, env.recipients, d, msg, env);
  }

  /** Packing succeeds with these bytes exactly when they are such an envelope. */
  lemma {:induction false} PackIff(s: Suite, msg: Bytes, recipients: seq<Recipient>, senderKid: Bytes, senderPriv: Option<Bytes>, d: Draws, out: Bytes)
    requires Lawful(s) && IsDraws(d, recipients)
    ensures IsPermutation(s.aes)
    ensures Pack(s, msg, recipients, senderKid, senderPriv, d) == Ok(out) <==>
            exists env :: Wire(s, msg, recipients, senderKid, senderPriv, d, env) && out == s.putEnvelope(env)
  {
    LawfulCipher(s);
    hide IsPermutation, Lawful, Wire, Pack, IsDraws;
    if Pack(s, msg, recipients, senderKid, senderPriv, d) == Ok(out) {
      var env := PackIsWire(s, msg, recipients, senderKid, senderPriv, d);
    }
    if exists env :: Wire(s, msg, recipients, senderKid, senderPriv, d, env) && out == s.putEnvelope(env) {
      var env :| Wire(s, msg, recipients, senderKid, senderPriv, d, env) && out == s.putEnvelope(env);
      WireIsPacked(s, msg, recipients, senderKid, senderPriv, d, env);
    }
  }

  // ----- unpacking -----

  /** The entry yields the content key to the holder of this keyring: the wrapped key is the content
      key wrapped under what both agree on. */
  ghost predicate Yields(s: Suite, hdr: Header, senderPub: Bytes, keys: KeyLookup, e: Entry, cek: Bytes)
    requires IsPermutation(s.aes)
  {
    && |cek| == 32 && keys(e.kid).Some? && e.epk.Some?
    && s.unb64(e.epk.value).Some? && |s.unb64(e.epk.value).value| == 32 && s.unb64(e.encryptedKey).Some?
    && (hdr.alg == Ascii("ECDH-ES+A256KW") || hdr.alg == Ascii("ECDH-1PU+A256KW"))
    && exists kek ::
         Agrees(s, s.x25519(keys(e.kid).value, s.unb64(e.epk.value).value), s.x25519(keys(e.kid).value, senderPub), hdr.alg == Ascii("ECDH-1PU+A256KW"), hdr, kek) &&
         Wrap(s.aes, kek, cek) == Ok(s.unb64(e.encryptedKey).value)
  }

  lemma AgreesWithoutStatic(s: Suite, ze: Option<Bytes>, zs: Option<Bytes>, hdr: Header, kek: Bytes)
    ensures Agrees(s, ze, zs, false, hdr, kek) <==> Agrees(s, ze, None, false, hdr, kek)
  {
  }

  /** The key a recipient derives for an entry. */
  lemma {:induction false} RecipientKekIff(s: Suite, hdr: Header, priv: Bytes, ephPub: Bytes, senderPub: Bytes, kek: Bytes)
    ensures RecipientKek(s, hdr, priv, ephPub, senderPub) == Some(kek) <==>
            && (hdr.alg == Ascii("ECDH-ES+A256KW") || hdr.alg == Ascii("ECDH-1PU+A256KW"))
            && Agrees(s, s.x25519(priv, ephPub), s.x25519(priv, senderPub), hdr.alg == Ascii("ECDH-1PU+A256KW"), hdr, kek)
  {
    assert ALG_ANONCRYPT == Ascii("ECDH-ES+A256KW") && ALG_AUTHCRYPT == Ascii("ECDH-1PU+A256KW");
    AlgsDiffer();
    hide Agrees, EsKekRecipient, PuKekRecipient, Ascii;
    KeksAre(s, hdr, [], [], [], priv, ephPub, senderPub, kek);
    AgreesWithoutStatic(s, s.x25519(priv, ephPub), s.x25519(priv, senderPub), hdr, kek);
  }

  lemma {:induction false} YieldsIff(s: Suite, hdr: Header, senderPub: Bytes, keys: KeyLookup, e: Entry, cek: Bytes)
    requires IsPermutation(s.aes)
    ensures EntryCek(s, hdr, senderPub, keys, e) == Some(cek) <==> Yields(s, hdr, senderPub, keys, e, cek)
  {
    hide Ascii, Unwrap, Wrap, IsPermutation, Agrees, RecipientKek;
    if keys(e.kid).Some? && e.epk.Some? && s.unb64(e.epk.value).Some? && s.unb64(e.encryptedKey).Some? {
      var priv, ephPub, wrapped := keys(e.kid).value, s.unb64(e.epk.value).value, s.unb64(e.encryptedKey).value;
      var kek := RecipientKek(s, hdr, priv, ephPub, senderPub);
      if kek.Some? {
        RecipientKekIff(s, hdr, priv, ephPub, senderPub, kek.value);
        UnwrapIffWrap(s.aes, kek.value, wrapped, cek);
      }
      if Yields(s, hdr, senderPub, keys, e, cek) {
        var k :| Agrees(s, s.x25519(priv, ephPub), s.x25519(priv, senderPub), hdr.alg == Ascii("ECDH-1PU+A256KW"), hdr, k) &&
                 Wrap(s.aes, k, cek) == Ok(wrapped);
        RecipientKekIff(s, hdr, priv, ephPub, senderPub, k);
      }
    }
  }

  /** Entry i yields the key and no earlier one yields any. */
  ghost predicate FirstYield(s: Suite, hdr: Header, senderPub: Bytes, keys: KeyLookup, entries: seq<Entry>, i: nat, cek: Bytes)
    requires IsPermutation(s.aes)
  {
    && i < |entries| && Yields(s, hdr, senderPub, keys, entries[i], cek)
    && forall j, k :: 0 <= j < i ==> !Yields(s, hdr, senderPub, keys, entries[j], k)
  }

  lemma {:induction false} FindIff(s: Suite, hdr: Header, senderPub: Bytes, keys: KeyLookup, entries: seq<Entry>, cek: Bytes)
    requires IsPermutation(s.aes)
    ensures FindCek(s, hdr, senderPub, keys, entries) == Some(cek) <==> exists i: nat :: FirstYield(s, hdr, senderPub, keys, entries, i, cek)
    decreases |entries|
  {
    hide EntryCek, Yields, IsPermutation;
    if entries != [] {
      var e, rest := entries[0], entries[1..];
      FindIff(s, hdr, senderPub, keys, rest, cek);
      forall k
        ensures EntryCek(s, hdr, senderPub, keys, e) == Some(k) <==> Yields(s, hdr, senderPub, keys, e, k)
      {
        YieldsIff(s, hdr, senderPub, keys, e, k);
      }
      if EntryCek(s, hdr, senderPub, keys, e) == Some(cek) {
        assert FirstYield(s, hdr, senderPub, keys, entries, 0, cek);
      }
      if EntryCek(s, hdr, senderPub, keys, e).None? && FindCek(s, hdr, senderPub, keys, rest) == Some(cek) {
        var i: nat :| FirstYield(s, hdr, senderPub, keys, rest, i, cek);
        assert FirstYield(s, hdr, senderPub, keys, entries, i + 1, cek);
      }
      if exists i: nat :: FirstYield(s, hdr, senderPub, keys, entries, i, cek) {
        var i: nat :| FirstYield(s, hdr, senderPub, keys, entries, i, cek);
        if i > 0 {
          FirstYieldRest(s, hdr, senderPub, keys, entries, i, cek);
        }
      }
    }
  }

  lemma FirstYieldRest(s: Suite, hdr: Header, senderPub: Bytes, keys: KeyLookup, entries: seq<Entry>, i: nat, cek: Bytes)
    requires IsPermutation(s.aes) && i > 0 && FirstYield(s, hdr, senderPub, keys, entries, i, cek)
    ensures FirstYield(s, hdr, senderPub, keys, entries[1..], i - 1, cek)
    ensures forall k :: !Yields(s, hdr, senderPub, keys, entries[0], k)
  {
    hide Yields, IsPermutation;
    var rest := entries[1..];
    assert rest[i - 1] == entries[i];
    forall j, k | 0 <= j < i - 1
      ensures !Yields(s, hdr, senderPub, keys, rest[j], k)
    {
      assert rest[j] == entries[j + 1];
    }
  }

  /** The envelope opens to the message: its header names the sender, the directory knows the
      sender's key (or nobody is named), some entry yields the content key, and the content opens
      under it together with the header. */
  ghost predicate Opens(s: Suite, env: Envelope, hdr: Header, keys: KeyLookup, senders: Option<KeyLookup>, senderPub: Bytes, i: nat, cek: Bytes, msg: Bytes)
    requires IsPermutation(s.aes)
  {
    && s.unb64(env.protected).Some? && s.getHeader(s.unb64(env.protected).value) == Some(hdr)
    && (if hdr.skid == [] then senderPub == seq(32, _ => 0) else senders.Some? && senders.value(hdr.skid) == Some(senderPub))
    && FirstYield(s, hdr, senderPub, keys, env.recipients, i, cek)
    && s.unb64(env.iv).Some? && s.unb64(env.ciphertext).Some? && s.unb64(env.tag).Some?
    && s.open(cek, s.unb64(env.iv).value, s.unb64(env.ciphertext).value + s.unb64(env.tag).value, env.protected) == Some(msg)
  }

  lemma SenderKeyIff(hdr: Header, senders: Option<KeyLookup>, senderPub: Bytes)
    ensures SenderKey(hdr, senders) == Some(senderPub) <==>
            if hdr.skid == [] then senderPub == seq(32, _ => 0) else senders.Some? && senders.value(hdr.skid) == Some(senderPub)
  {
    assert ZERO_POINT == seq(32, _ => 0);
  }

  lemma ContentIff(s: Suite, env: Envelope, cek: Bytes, skid: Bytes, msg: Bytes, sender: Bytes)
    ensures OpenContent(s, env, cek, skid) == Ok((msg, sender)) <==>
            && sender == skid && s.unb64(env.iv).Some? && s.unb64(env.ciphertext).Some? && s.unb64(env.tag).Some?
            && s.open(cek, s.unb64(env.iv).value, s.unb64(env.ciphertext).value + s.unb64(env.tag).value, env.protected) == Some(msg)
  {
  }

  lemma {:induction false} UnpackOpens(s: Suite, bytes: Bytes, keys: KeyLookup, senders: Option<KeyLookup>, msg: Bytes, sender: Bytes)
    requires IsPermutation(s.aes) && Unpack(s, bytes, keys, senders) == Ok((msg, sender))
    ensures s.getEnvelope(bytes).Some? && exists hdr, senderPub, i: nat, cek ::
              Opens(s, s.getEnvelope(bytes).value, hdr, keys, senders, senderPub, i, cek, msg) && hdr.skid == sender
  {
    hide IsPermutation, FindCek, FirstYield, SenderKey, OpenContent;
    var env := s.getEnvelope(bytes).value;
    var hdr := s.getHeader(s.unb64(env.protected).value).value;
    var senderPub := SenderKey(hdr, senders).value;
    var cek := FindCek(s, hdr, senderPub, keys, env.recipients).value;
    FindIff(s, hdr, senderPub, keys, env.recipients, cek);
    SenderKeyIff(hdr, senders, senderPub);
    ContentIff(s, env, cek, hdr.skid, msg, sender);
    var i: nat :| FirstYield(s, hdr, senderPub, keys, env.recipients, i, cek);
    assert Opens(s, env, hdr, keys, senders, senderPub, i, cek, msg);
  }

  lemma {:induction false} OpensUnpacks(s: Suite, bytes: Bytes, hdr: Header, keys: KeyLookup, senders: Option<KeyLookup>, senderPub: Bytes, i: nat, cek: Bytes, msg: Bytes)
    requires IsPermutation(s.aes) && s.getEnvelope(bytes).Some?
    requires Opens(s, s.getEnvelope(bytes).value, hdr, keys, senders, senderPub, i, cek, msg)
    ensures Unpack(s, bytes, keys, senders) == Ok((msg, hdr.skid))
  {
    hide IsPermutation, FindCek, FirstYield, SenderKey, OpenContent;
    var env := s.getEnvelope(bytes).value;
    FindIff(s, hdr, senderPub, keys, env.recipients, cek);
    SenderKeyIff(hdr, senders, senderPub);
    ContentIff(s, env, cek, hdr.skid, msg, hdr.skid);
  }

  /** For any bytes, keyring and directory: unpacking gives this message from this sender exactly
      when the bytes are an envelope that opens to it and names that sender. */
  lemma {:induction false} UnpackIff(s: Suite, bytes: Bytes, keys: KeyLookup, senders: Option<KeyLookup>, msg: Bytes, sender: Bytes)
    requires IsPermutation(s.aes)
    ensures Unpack(s, bytes, keys, senders) == Ok((msg, sender)) <==>
            s.getEnvelope(bytes).Some? && exists hdr, senderPub, i: nat, cek ::
              Opens(s, s.getEnvelope(bytes).value, hdr, keys, senders, senderPub, i, cek, msg) && hdr.skid == sender
  {
    hide IsPermutation, Unpack, Opens;
    if Unpack(s, bytes, keys, senders) == Ok((msg, sender)) {
      UnpackOpens(s, bytes, keys, senders, msg, sender);
    }
    if s.getEnvelope(bytes).Some? {
      var env := s.getEnvelope(bytes).value;
      if exists hdr, senderPub, i: nat, cek :: Opens(s, env, hdr, keys, senders, senderPub, i, cek, msg) && hdr.skid == sender {
        var hdr, senderPub, i: nat, cek :| Opens(s, env, hdr, keys, senders, senderPub, i, cek, msg) && hdr.skid == sender;
        OpensUnpacks(s, bytes, hdr, keys, senders, senderPub, i, cek, msg);
      }
    }
  }
}
