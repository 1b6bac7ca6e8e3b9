/** What it means for the verifier to accept a string, said on the text, the library's answers and
    the claim names alone; and what the issuer and the holder put into their tokens. */
module SdJwtAccept {
  import opened Results
  import opened Strings
  import opened Times
  import opened SdJwt
  import opened SdJwtIssue

  /** The claim names. */
  lemma Names()
    ensures Iss() == "iss" && Sub() == "sub" && Iat() == "iat" && Exp() == "exp" && SdAlg() == "_sd_alg" && Sd() == "_sd"
    ensures Vct() == "vct" && Cnf() == "cnf" && NonceName() == "nonce" && Aud() == "aud" && SdHash() == "sd_hash"
  {
  }

  // ----- tokens -----

  /** The library accepts the third part, decoded, as a signature over the first two. */
  ghost predicate SignedUnder(kit: Kit, jwt: string, pub: string) {
    exists h, p, g :: ThreeParts(jwt, h, p, g) && kit.unb64(g).Some? && kit.checkSig(pub, h + "." + p, kit.unb64(g).value)
  }

  /** The second part decodes to the claims. */
  ghost predicate Bears(kit: Kit, jwt: string, claims: Claims) {
    exists h, p, g :: ThreeParts(jwt, h, p, g) && kit.unb64(p).Some? && kit.fromJson(kit.unb64(p).value) == Some(JObj(claims))
  }

  lemma {:induction false} SigIff(kit: Kit, jwt: string, pub: string)
    ensures JwtSigOk(kit, jwt, pub) <==> SignedUnder(kit, jwt, pub)
  {
    hide Split3, ThreeParts;
    if SignedUnder(kit, jwt, pub) {
      var h, p, g :| ThreeParts(jwt, h, p, g) && kit.unb64(g).Some? && kit.checkSig(pub, h + "." + p, kit.unb64(g).value);
      Split3Iff(jwt, h, p, g);
    }
    if JwtSigOk(kit, jwt, pub) {
      var (h, p, g) := Split3(jwt).value;
      Split3Iff(jwt, h, p, g);
    }
  }

  lemma {:induction false} PayloadIff(kit: Kit, jwt: string, claims: Claims)
    ensures JwtPayload(kit, jwt) == Some(claims) <==> Bears(kit, jwt, claims)
  {
    hide Split3, ThreeParts;
    if Bears(kit, jwt, claims) {
      var h, p, g :| ThreeParts(jwt, h, p, g) && kit.unb64(p).Some? && kit.fromJson(kit.unb64(p).value) == Some(JObj(claims));
      Split3Iff(jwt, h, p, g);
    }
    if JwtPayload(kit, jwt) == Some(claims) {
      var (h, p, g) := Split3(jwt).value;
      Split3Iff(jwt, h, p, g);
    }
  }

  predicate Says(claims: Claims, name: string, text: string) {
    name in claims && claims[name] == JStr(text)
  }

  // ----- the parts of a presentation -----

  /** The non-empty parts that are not key-binding tokens, in order. */
  function Plain(parts: seq<string>): seq<string> {
    if parts == [] then []
    else (if parts[0] != "" && Dots(parts[0]) != 2 then [parts[0]] else []) + Plain(parts[1..])
  }

  /** The last part with exactly two dots, or the empty text. */
  function LastToken(parts: seq<string>): string {
    if parts == [] then ""
    else if LastToken(parts[1..]) != "" then LastToken(parts[1..])
    else if Dots(parts[0]) == 2 then parts[0] else ""
  }

  lemma {:induction false} PlainAppend(parts: seq<string>, x: string)
    ensures Plain(parts + [x]) == Plain(parts) + (if x != "" && Dots(x) != 2 then [x] else [])
    ensures LastToken(parts + [x]) == if Dots(x) == 2 then x else LastToken(parts)
    decreases |parts|
  {
    var all := parts + [x];
    assert Dots("") == 0;
    hide Dots;
    if parts == [] {
      assert all[1..] == [] && all[0] == x;
    } else {
      assert all[1..] == parts[1..] + [x] && all[0] == parts[0];
      PlainAppend(parts[1..], x);
      var head := if parts[0] != "" && Dots(parts[0]) != 2 then [parts[0]] else [];
      var last := if x != "" && Dots(x) != 2 then [x] else [];
      assert head + (Plain(parts[1..]) + last) == (head + Plain(parts[1..])) + last;
    }
  }

  lemma {:induction false} SortIs(jwt: string, parts: seq<string>)
    ensures Sort(Parsed(jwt, [], ""), parts) == Parsed(jwt, Plain(parts), LastToken(parts))
    decreases |parts|
  {
    hide Dots;
    if parts != [] {
      var n := |parts| - 1;
      SortIs(jwt, parts[..n]);
      PlainAppend(parts[..n], parts[n]);
      assert parts[..n] + [parts[n]] == parts;
      assert Dots("") == 0 by { NoDots(""); }
    }
  }

  // ----- disclosures -----

  ghost predicate ReadsAs(kit: Kit, e: string, salt: string, key: string, value: Json) {
    kit.unb64(e).Some? && kit.fromJson(kit.unb64(e).value) == Some(JArr([JStr(salt), JStr(key), value]))
  }

  /** base64url(sha256(base64url([salt, key, value]))). */
  function Fingerprint(kit: Kit, salt: string, key: string, value: Json): string {
    kit.b64(kit.sha256(kit.b64(kit.toJson(JArr([JStr(salt), JStr(key), value])))))
  }

  /** The text is a disclosure whose fingerprint the issuer signed. */
  ghost predicate Vouched(kit: Kit, claims: Claims, e: string) {
    exists salt, key, value :: ReadsAs(kit, e, salt, key, value) &&
      "_sd" in claims && claims["_sd"].JArr? && JStr(Fingerprint(kit, salt, key, value)) in claims["_sd"].items
  }

  lemma ReadsIff(kit: Kit, e: string, d: Disclosure)
    ensures ParseDisclosure(kit, e) == Some(d) <==> ReadsAs(kit, e, d.salt, d.key, d.value)
  {
    if ParseDisclosure(kit, e) == Some(d) {
      var items := kit.fromJson(kit.unb64(e).value).value.items;
      assert items == [JStr(d.salt), JStr(d.key), d.value];
    }
  }

  lemma DigestListed(claims: Claims, x: string)
    ensures x in DigestsOf(claims) <==> "_sd" in claims && claims["_sd"].JArr? && JStr(x) in claims["_sd"].items
  {
    Names();
    hide Sd;
    if "_sd" in claims && claims["_sd"].JArr? {
      var items := claims["_sd"].items;
      if JStr(x) in items {
        var i :| 0 <= i < |items| && items[i] == JStr(x);
        assert items[i].JStr? && items[i].str == x;
      }
    }
  }

  lemma {:induction false} VouchedIff(kit: Kit, claims: Claims, e: string)
    ensures Vouched(kit, claims, e) <==>
            ParseDisclosure(kit, e).Some? && Digest(kit, ParseDisclosure(kit, e).value) in DigestsOf(claims)
  {
    if ParseDisclosure(kit, e).Some? {
      var d := ParseDisclosure(kit, e).value;
      ReadsIff(kit, e, d);
      DigestListed(claims, Digest(kit, d));
    }
    if Vouched(kit, claims, e) {
      var salt, key, value :| ReadsAs(kit, e, salt, key, value) &&
        "_sd" in claims && claims["_sd"].JArr? && JStr(Fingerprint(kit, salt, key, value)) in claims["_sd"].items;
      ReadsIff(kit, e, Disclosure(salt, key, value));
    }
    hide DigestsOf, ParseDisclosure;
  }

  lemma {:induction false} DiscloseOkIff(kit: Kit, claims: Claims, es: seq<string>)
    ensures Disclose(kit, DigestsOf(claims), es).Ok? <==> forall i :: 0 <= i < |es| ==> Vouched(kit, claims, es[i])
    decreases |es|
  {
    hide Vouched, DigestsOf, ParseDisclosure, Digest;
    if es != [] {
      var n := |es| - 1;
      DiscloseOkIff(kit, claims, es[..n]);
      VouchedIff(kit, claims, es[n]);
      assert forall i :: 0 <= i < n ==> es[..n][i] == es[i];
    }
  }

  /** The value shown for a claim is that of its last disclosure. */
  lemma {:induction false} DisclosedIs(kit: Kit, digests: set<string>, es: seq<string>, i: nat, salt: string, key: string, value: Json)
    requires Disclose(kit, digests, es).Ok? && i < |es| && ReadsAs(kit, es[i], salt, key, value)
    requires forall j, s, v :: i < j < |es| ==> !ReadsAs(kit, es[j], s, key, v)
    ensures key in Disclose(kit, digests, es).value && Disclose(kit, digests, es).value[key] == value
    decreases |es|
  {
    hide ParseDisclosure, Digest, ReadsAs;
    var n := |es| - 1;
    var d := ParseDisclosure(kit, es[n]).value;
    ReadsIff(kit, es[n], d);
    if i == n {
      ReadsIff(kit, es[n], Disclosure(salt, key, value));
    } else {
      assert d.key != key;
      assert forall j :: 0 <= j < n ==> es[..n][j] == es[j];
      DisclosedIs(kit, digests, es[..n], i, salt, key, value);
    }
  }

  // ----- key binding -----

  /** cnf.jwk holds the 32-byte OKP key. */
  ghost predicate HolderIs(kit: Kit, claims: Claims, pub: string) {
    && "cnf" in claims && claims["cnf"].JObj? && "jwk" in claims["cnf"].fields && claims["cnf"].fields["jwk"].JObj?
    && var jwk := claims["cnf"].fields["jwk"].fields;
    Says(jwk, "kty", "OKP") && "x" in jwk && jwk["x"].JStr? && kit.unb64(jwk["x"].str) == Some(pub) && |pub| == 32
  }

  lemma HolderIff(kit: Kit, claims: Claims, pub: string)
    ensures HolderKey(kit, claims) == Some(pub) <==> HolderIs(kit, claims, pub)
  {
    Names();
    hide Cnf;
    assert |"OKP"| == 3;
  }

  /** The key-binding token is the holder's, for this nonce and audience and this very presentation. */
  ghost predicate Bound(kit: Kit, jwt: string, ds: seq<string>, kb: string, pub: string, nonce: string, audience: string) {
    && SignedUnder(kit, kb, pub)
    && exists claims :: Bears(kit, kb, claims)
         && (nonce != "" ==> Says(claims, "nonce", nonce))
         && (audience != "" ==> Says(claims, "aud", audience))
         && Says(claims, "sd_hash", kit.b64(kit.sha256(Join([jwt] + ds) + "~")))
  }

  lemma {:induction false} BoundIff(kit: Kit, p: Parsed, pub: string, nonce: string, audience: string)
    requires Lawful(kit)
    ensures KbOk(kit, p, pub, nonce, audience) <==> Bound(kit, p.jwt, p.disclosures, p.kbToken, pub, nonce, audience)
  {
    Names();
    SigIff(kit, p.kbToken, pub);
    var hash := kit.b64(kit.sha256(Join([p.jwt] + p.disclosures) + "~"));
    assert hash != "" by { assert |kit.sha256(Join([p.jwt] + p.disclosures) + "~")| == 32; }
    hide Lawful, NonceName, Aud, SdHash, JwtPayload, JwtSigOk, SignedUnder, Bears, Join;
    if JwtPayload(kit, p.kbToken).Some? {
      PayloadIff(kit, p.kbToken, JwtPayload(kit, p.kbToken).value);
    }
    if Bound(kit, p.jwt, p.disclosures, p.kbToken, pub, nonce, audience) {
      var claims :| Bears(kit, p.kbToken, claims) && (nonce != "" ==> Says(claims, "nonce", nonce))
         && (audience != "" ==> Says(claims, "aud", audience)) && Says(claims, "sd_hash", hash);
      PayloadIff(kit, p.kbToken, claims);
    }
  }

  // ----- acceptance -----

  /** The issuer named in the claims resolves to a key under which the token is signed, and the
      claims have not expired. */
  ghost predicate IssuerVouches(kit: Kit, jwt: string, claims: Claims, now: int) {
    && Bears(kit, jwt, claims)
    && "iss" in claims && claims["iss"].JStr? && claims["iss"].str != "" && kit.resolveKey(claims["iss"].str).Some?
    && SignedUnder(kit, jwt, kit.resolveKey(claims["iss"].str).value)
    && ("exp" in claims && claims["exp"].JNum? ==> now <= claims["exp"].num)
  }

  lemma {:induction false} IssuerIff(kit: Kit, jwt: string, claims: Claims, now: int)
    ensures VerifyIssuer(kit, jwt, now) == Ok(claims) <==> IssuerVouches(kit, jwt, claims, now)
  {
    Names();
    PayloadIff(kit, jwt, claims);
    if "iss" in claims && claims["iss"].JStr? && kit.resolveKey(claims["iss"].str).Some? {
      SigIff(kit, jwt, kit.resolveKey(claims["iss"].str).value);
    }
    hide Iss, Exp, JwtPayload, JwtSigOk, SignedUnder, Bears;
  }

  /** Everything the verifier demands of a string cut at its "~". */
  ghost predicate Accepted(kit: Kit, parts: seq<string>, claims: Claims, nonce: string, audience: string, now: int)
    requires |parts| >= 1
  {
    var jwt, ds, kb := parts[0], Plain(parts[1..]), LastToken(parts[1..]);
    && |parts| >= 2 && IssuerVouches(kit, jwt, claims, now)
    && (forall i :: 0 <= i < |ds| ==> Vouched(kit, claims, ds[i]))
    && (kb != "" ==> exists pub :: HolderIs(kit, claims, pub) && Bound(kit, jwt, ds, kb, pub, nonce, audience))
    && (kb == "" ==> nonce == "" && audience == "")
  }

  /** Once the issuer vouches for the claims, the rest of the verifier's checks decide. */
  lemma {:induction false} VerifyWith(kit: Kit, token: string, claims: Claims, nonce: string, audience: string, now: int)
    requires Lawful(kit) && |Split(token)| >= 2 && IssuerVouches(kit, Split(token)[0], claims, now)
    ensures Verify(kit, token, nonce, audience, now).Ok? <==> Accepted(kit, Split(token), claims, nonce, audience, now)
  {
    hide Lawful, Split, Sort, Disclose, DigestsOf, HolderKey, KbOk, VerifyIssuer, ReadBack, IssuerVouches, Vouched, HolderIs, Bound, Plain, LastToken;
    var parts := Split(token);
    assert token != "" by { EmptySplit(); }
    SortIs(parts[0], parts[1..]);
    var p := Parsed(parts[0], Plain(parts[1..]), LastToken(parts[1..]));
    IssuerIff(kit, p.jwt, claims, now);
    DiscloseOkIff(kit, claims, p.disclosures);
    HolderStep(kit, p, claims, nonce, audience);
  }

  lemma {:induction false} VerifyNeedsIssuer(kit: Kit, token: string, nonce: string, audience: string, now: int) returns (claims: Claims)
    requires Verify(kit, token, nonce, audience, now).Ok?
    ensures |Split(token)| >= 2 && IssuerVouches(kit, Split(token)[0], claims, now)
  {
    hide Split, Sort, Disclose, DigestsOf, HolderKey, KbOk, VerifyIssuer, ReadBack, IssuerVouches;
    SortIs(Split(token)[0], Split(token)[1..]);
    claims := VerifyIssuer(kit, Split(token)[0], now).value;
    IssuerIff(kit, Split(token)[0], claims, now);
  }

  /** For every string: it is accepted exactly when the issuer's and the holder's signatures check,
      it has not expired and every disclosure in it was vouched for. */
  lemma {:induction false} VerifyIff(kit: Kit, token: string, nonce: string, audience: string, now: int)
    requires Lawful(kit)
    ensures Verify(kit, token, nonce, audience, now).Ok? <==> exists claims :: Accepted(kit, Split(token), claims, nonce, audience, now)
  {
    if Verify(kit, token, nonce, audience, now).Ok? {
      hide Lawful, Split, Verify, IssuerVouches;
      var claims := VerifyNeedsIssuer(kit, token, nonce, audience, now);
      VerifyWith(kit, token, claims, nonce, audience, now);
    }
    if exists claims :: Accepted(kit, Split(token), claims, nonce, audience, now) {
      hide Lawful, Split, Verify, IssuerVouches;
      var claims :| Accepted(kit, Split(token), claims, nonce, audience, now);
      VerifyWith(kit, token, claims, nonce, audience, now);
    }
  }

  lemma EmptySplit()
    ensures |Split("")| == 1
  {
  }

  lemma HolderStep(kit: Kit, p: Parsed, claims: Claims, nonce: string, audience: string)
    requires Lawful(kit)
    ensures HolderKey(kit, claims).Some? && KbOk(kit, p, HolderKey(kit, claims).value, nonce, audience) <==>
            exists pub :: HolderIs(kit, claims, pub) && Bound(kit, p.jwt, p.disclosures, p.kbToken, pub, nonce, audience)
  {
    hide HolderIs, HolderKey, Bound, KbOk, Lawful;
    forall pub
      ensures HolderKey(kit, claims) == Some(pub) <==> HolderIs(kit, claims, pub)
      ensures KbOk(kit, p, pub, nonce, audience) <==> Bound(kit, p.jwt, p.disclosures, p.kbToken, pub, nonce, audience)
    {
      HolderIff(kit, claims, pub);
      BoundIff(kit, p, pub, nonce, audience);
    }
  }

  /** The result repeats what the accepted claims say. */
  ghost predicate Shows(claims: Claims, v: Verified) {
    && Says(claims, "iss", v.issuer) && v.subject == StrOf(claims, "sub") && v.schema == StrOf(claims, "vct")
    && v.issuedAt == NumOf(claims, "iat") && v.expiresAt == NumOf(claims, "exp")
    && (forall k :: k in v.always <==> k in claims && k !in {"iss", "sub", "iat", "exp", "_sd", "_sd_alg", "vct", "cnf"})
    && (forall k :: k in v.always ==> v.always[k] == claims[k])
  }

  lemma ReadBackShows(claims: Claims, disclosed: Claims, keyBound: bool)
    requires "iss" in claims && claims["iss"].JStr?
    ensures Shows(claims, ReadBack(claims, disclosed, keyBound))
  {
    Names();
    hide Iss, Sub, Iat, Exp, SdAlg, Sd, Vct, Cnf;
  }

  lemma {:induction false} VerifiedShows(kit: Kit, token: string, nonce: string, audience: string, now: int)
    requires Lawful(kit) && Verify(kit, token, nonce, audience, now).Ok?
    ensures var v := Verify(kit, token, nonce, audience, now).value;
            var parts := Split(token);
            exists claims :: Accepted(kit, parts, claims, nonce, audience, now) && Shows(claims, v) &&
              (v.keyBound <==> LastToken(parts[1..]) != "") && Disclose(kit, DigestsOf(claims), Plain(parts[1..])) == Ok(v.disclosed)
  {
    var parts := Split(token);
    var claims := VerifyNeedsIssuer(kit, token, nonce, audience, now);
    VerifyWith(kit, token, claims, nonce, audience, now);
    NamedIssuer(kit, parts[0], claims, now);
    var v := Verify(kit, token, nonce, audience, now).value;
    IssuerIff(kit, parts[0], claims, now);
    SortIs(parts[0], parts[1..]);
    hide Lawful, Split, Sort, Disclose, DigestsOf, HolderKey, KbOk, VerifyIssuer, ReadBack, Plain, LastToken, Accepted, IssuerVouches, Shows;
    assert v == ReadBack(claims, v.disclosed, v.keyBound) by { ReadBackKeeps(claims, v); }
    ReadBackShows(claims, v.disclosed, v.keyBound);
    ReadBackKeeps(claims, v);
  }

  lemma NamedIssuer(kit: Kit, jwt: string, claims: Claims, now: int)
    requires IssuerVouches(kit, jwt, claims, now)
    ensures "iss" in claims && claims["iss"].JStr?
  {
  }

  lemma ReadBackKeeps(claims: Claims, v: Verified)
    ensures forall d, b :: v == ReadBack(claims, d, b) ==> v.disclosed == d && v.keyBound == b
  {
  }

  /** A claim is shown exactly when it was disclosed, with the value of its last disclosure. */
  lemma {:induction false} ShownIff(kit: Kit, digests: set<string>, es: seq<string>, key: string)
    requires Disclose(kit, digests, es).Ok?
    ensures key in Disclose(kit, digests, es).value <==> exists i, salt, value :: 0 <= i < |es| && ReadsAs(kit, es[i], salt, key, value)
    decreases |es|
  {
    hide ParseDisclosure, Digest, ReadsAs;
    if es != [] {
      var n := |es| - 1;
      var d := ParseDisclosure(kit, es[n]).value;
      ReadsIff(kit, es[n], d);
      ShownIff(kit, digests, es[..n], key);
      assert forall i :: 0 <= i < n ==> es[..n][i] == es[i];
      if exists i, salt, value :: 0 <= i < |es| && ReadsAs(kit, es[i], salt, key, value) {
        var i, salt, value :| 0 <= i < |es| && ReadsAs(kit, es[i], salt, key, value);
        if i == n {
          ReadsIff(kit, es[n], Disclosure(salt, key, value));
        } else {
          assert ReadsAs(kit, es[..n][i], salt, key, value);
        }
      }
      if exists i, salt, value :: 0 <= i < n && ReadsAs(kit, es[..n][i], salt, key, value) {
        var i, salt, value :| 0 <= i < n && ReadsAs(kit, es[..n][i], salt, key, value);
        assert ReadsAs(kit, es[i], salt, key, value);
      }
    }
  }

  // ----- what the issuer and the holder write -----

  /** A compact token: header and claims encoded, and a signature over both. */
  ghost predicate IsToken(kit: Kit, jwt: string, claims: Claims, key: string, kid: string, typ: string) {
    var h := kit.b64(kit.toJson(JObj(map["alg" := JStr("EdDSA"), "typ" := JStr(typ), "kid" := JStr(kid)])));
    var p := kit.b64(kit.toJson(JObj(claims)));
    ThreeParts(jwt, h, p, kit.b64(kit.sign(key, h + "." + p)))
  }

  lemma SignJwtIs(kit: Kit, claims: Claims, key: string, kid: string, typ: string)
    requires Lawful(kit)
    ensures IsToken(kit, SignJwt(kit, claims, key, kid, typ), claims, key, kid, typ)
  {
  }

  ghost predicate Fingerprints(kit: Kit, ds: seq<Disclosure>, j: Json) {
    && j.JArr? && |j.items| == |ds|
    && forall i :: 0 <= i < |ds| ==> j.items[i] == JStr(Fingerprint(kit, ds[i].salt, ds[i].key, ds[i].value))
  }

  predicate Holds(p: Claims, name: string, value: Json) {
    name in p && p[name] == value
  }

  /** What the issuer says on its own: issuer, subject, times in whole seconds, the hash name, one
      fingerprint per disclosure and the type. */
  ghost predicate OwnClaims(kit: Kit, o: Options, vct: Option<string>, ds: seq<Disclosure>, now: int, p: Claims) {
    var lifetime := if o.validFor <= 0 then 86_400_000_000_000 else o.validFor;
    && Holds(p, Iss(), JStr(o.issuer)) && Holds(p, Sub(), JStr(o.subject))
    && Holds(p, Iat(), JNum(now / 1_000_000_000)) && Holds(p, Exp(), JNum((now + lifetime) / 1_000_000_000))
    && Holds(p, SdAlg(), JStr("sha-256")) && Sd() in p && Fingerprints(kit, ds, p[Sd()])
    && (if vct.Some? then Holds(p, Vct(), JStr(vct.value)) else Vct() !in p)
    && (forall k :: k in p ==> k in {Iss(), Sub(), Iat(), Exp(), SdAlg(), Sd(), Vct()})
  }

  /** The claims of an issued token: the always-visible ones as given, and the issuer's own beside
      them. */
  ghost predicate IssuedClaims(kit: Kit, o: Options, vct: Option<string>, ds: seq<Disclosure>, now: int, p: Claims) {
    exists own :: OwnClaims(kit, o, vct, ds, now, own) && p.Keys == own.Keys + o.always.Keys &&
      forall k :: k in p ==> p[k] == if k in o.always then o.always[k] else own[k]
  }

  lemma {:induction false} OwnClaimsAre(kit: Kit, o: Options, vct: Option<string>, ds: seq<Disclosure>, now: int)
    ensures OwnClaims(kit, o, vct, ds, now, BaseClaims(o, vct, Digests(kit, ds), now))
  {
    TimesAre(o, now);
    assert Fingerprints(kit, ds, JArr(Digests(kit, ds)));
    OwnNames(o, vct, Digests(kit, ds), now);
    OwnValues(o, vct, Digests(kit, ds), now);
    hide Iss, Sub, Iat, Exp, SdAlg, Sd, Vct, Fingerprints, Digests, Unix, ExpiresAt, Lifetime, BaseClaims;
  }

  lemma OwnNames(o: Options, vct: Option<string>, digests: seq<Json>, now: int)
    ensures BaseClaims(o, vct, digests, now).Keys ==
            {Iss(), Sub(), Iat(), Exp(), SdAlg(), Sd()} + if vct.Some? then {Vct()} else {}
    ensures Vct() !in {Iss(), Sub(), Iat(), Exp(), SdAlg(), Sd()}
  {
    NamesDiffer();
    OtherNamesDiffer();
    hide Iss, Sub, Iat, Exp, SdAlg, Sd, Vct, Unix, ExpiresAt;
  }

  lemma OwnValues(o: Options, vct: Option<string>, digests: seq<Json>, now: int)
    ensures var p := BaseClaims(o, vct, digests, now);
            && Holds(p, Iss(), JStr(o.issuer)) && Holds(p, Sub(), JStr(o.subject)) && Holds(p, Iat(), JNum(Unix(now)))
            && Holds(p, Exp(), JNum(ExpiresAt(o, now))) && Holds(p, SdAlg(), JStr("sha-256")) && Holds(p, Sd(), JArr(digests))
            && (vct.Some? ==> Holds(p, Vct(), JStr(vct.value)))
  {
    NamesDiffer();
    OtherNamesDiffer();
    hide Iss, Sub, Iat, Exp, SdAlg, Sd, Vct, Unix, ExpiresAt;
  }

  lemma {:induction false} PayloadIs(kit: Kit, o: Options, vct: Option<string>, ds: seq<Disclosure>, now: int)
    ensures IssuedClaims(kit, o, vct, ds, now, Payload(o, vct, Digests(kit, ds), now))
  {
    hide OwnClaims, BaseClaims, Digests;
    OwnClaimsAre(kit, o, vct, ds, now);
  }

  lemma OtherNamesDiffer()
    ensures Sub() != Iat() && Sub() != Exp() && Sub() != SdAlg() && Sub() != Sd() && Sub() != Vct()
    ensures Iat() != Exp() && Iat() != SdAlg() && Iat() != Sd() && Iat() != Vct() && SdAlg() != Sd() && SdAlg() != Vct()
  {
    assert Sub()[0] == 's' && Iat()[0] == 'i' && Exp()[0] == 'e' && SdAlg()[0] == '_' && Sd()[0] == '_' && Vct()[0] == 'v';
    assert |SdAlg()| == 7 && |Sd()| == 3;
  }

  lemma TimesAre(o: Options, now: int)
    ensures Unix(now) == now / 1_000_000_000
    ensures ExpiresAt(o, now) == (now + if o.validFor <= 0 then 86_400_000_000_000 else o.validFor) / 1_000_000_000
  {
  }

  /** Issuing succeeds exactly for a durable issuer with a key, a subject and a known schema. The
      token is signed by that key over the claims above, with one disclosure per drawn claim. */
  lemma {:induction false} IssueIff(kit: Kit, o: Options, schemas: string -> Option<string>, d: Draws, now: int)
    requires Lawful(kit) && |d.salts| == |d.order| && forall k :: k in d.order ==> k in o.selective
    ensures var r := Issue(kit, o, schemas, d, now);
            && (r.Ok? <==> !("did:key:" <= o.issuer) && o.issuer != "" && o.key.Some? && o.subject != "" &&
                           (o.schemaId == "" || schemas(o.schemaId).Some?))
            && (r.Ok? ==>
                  var ds := r.value.disclosures;
                  && |ds| == |d.order|
                  && (forall i :: 0 <= i < |ds| ==> ds[i] == Disclosure(d.salts[i], d.order[i], o.selective[d.order[i]]))
                  && exists p :: IssuedClaims(kit, o, if o.schemaId == "" then None else schemas(o.schemaId), ds, now, p) &&
                                 IsToken(kit, r.value.jwt, p, o.key.value, o.methodId, "vc+sd-jwt"))
  {
    hide SignJwt, Payload, IssuedClaims, IsToken, Digests, Lawful;
    var r := Issue(kit, o, schemas, d, now);
    if r.Ok? {
      var ds := r.value.disclosures;
      var p := Payload(o, VctOf(o, schemas), Digests(kit, ds), now);
      PayloadIs(kit, o, VctOf(o, schemas), ds, now);
      SignJwtIs(kit, p, o.key.value, o.methodId, "vc+sd-jwt");
    }
  }

  function HolderClaims(nonce: string, audience: string, iat: int, sdHash: string): Claims {
    map[NonceName() := JStr(nonce), Aud() := JStr(audience), Iat() := JNum(iat), SdHash() := JStr(sdHash)]
  }

  /** The holder's token names nonce, audience and time, and hashes the presentation without its
      last "~". */
  lemma {:induction false} HolderTokenIs(kit: Kit, t: Token, keys: set<string>, holderKey: string, kid: string, nonce: string, audience: string, iat: int)
    requires Lawful(kit)
    ensures var text := Join([t.jwt] + Encodings(kit, Select(t.disclosures, keys)));
            var out := PresentWithKeyBinding(kit, t, keys, holderKey, kid, nonce, audience, iat);
            && text + "~" <= out
            && IsToken(kit, out[|text| + 1..], HolderClaims(nonce, audience, iat, kit.b64(kit.sha256(text))), holderKey, kid, "kb+jwt")
  {
    hide SignJwt, IsToken, NonceName, Aud, Iat, SdHash, Join, Select, Encodings, Lawful;
    var text := Join([t.jwt] + Encodings(kit, Select(t.disclosures, keys)));
    var base := text + "~";
    assert base[|base| - 1] == '~' && base[..|base| - 1] == text;
    assert SignerHash(kit, base) == kit.b64(kit.sha256(text));
    var claims := KbClaims(nonce, audience, iat, kit.b64(kit.sha256(text)));
    assert claims == HolderClaims(nonce, audience, iat, kit.b64(kit.sha256(text)));
    var kb := SignJwt(kit, claims, holderKey, kid, "kb+jwt");
    assert PresentWithKeyBinding(kit, t, keys, holderKey, kid, nonce, audience, iat) == base + kb;
    assert (base + kb)[|text| + 1..] == kb;
    SignJwtIs(kit, claims, holderKey, kid, "kb+jwt");
  }
}
