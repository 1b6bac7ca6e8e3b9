/** SD-JWT credentials: issuing, presenting a subset of claims, parsing and verifying, with and
    without a key-binding token. Library codecs and signatures are parameters under Lawful. */
module SdJwt {
  import opened Results
  import opened Strings

  datatype Json =
    | JNull
    | JBool(flag: bool)
    | JNum(num: int)
    | JStr(str: string)
    | JArr(items: seq<Json>)
    | JObj(fields: map<string, Json>)

  type Claims = map<string, Json>

  datatype Kit = Kit(
    toJson: Json -> string,
    fromJson: string -> Option<Json>,
    b64: string -> string,
    unb64: string -> Option<string>,
    sha256: string -> string,
    publicKey: string -> string,
    sign: (string, string) -> string,
    checkSig: (string, string, string) -> bool,
    resolveKey: string -> Option<string>)

  ghost predicate Lawful(kit: Kit) {
    && (forall j :: kit.toJson(j) != "" && kit.fromJson(kit.toJson(j)) == Some(j))
    && (forall s :: kit.unb64(kit.b64(s)) == Some(s) && '~' !in kit.b64(s) && '.' !in kit.b64(s) && (s != "" ==> kit.b64(s) != ""))
    && (forall key, m :: kit.checkSig(kit.publicKey(key), m, kit.sign(key, m)))
    && (forall m :: |kit.sha256(m)| == 32)
  }

  // ----- claim names -----

  function Iss(): string { "iss" }
  function Sub(): string { "sub" }
  function Iat(): string { "iat" }
  function Exp(): string { "exp" }
  function SdAlg(): string { "_sd_alg" }
  function Sd(): string { "_sd" }
  function Vct(): string { "vct" }
  function Cnf(): string { "cnf" }
  function NonceName(): string { "nonce" }
  function Aud(): string { "aud" }
  function SdHash(): string { "sd_hash" }

  lemma NamesDiffer()
    ensures |{Iss(), Sub(), Iat(), Exp(), SdAlg(), Sd(), Vct()}| == 7
    ensures NonceName() != Aud() && NonceName() != Iat() && NonceName() != SdHash()
    ensures Aud() != Iat() && Aud() != SdHash() && Iat() != SdHash()
    ensures Iss() != Sub() && Iss() != Iat() && Iss() != Exp() && Iss() != SdAlg() && Iss() != Sd() && Iss() != Vct()
    ensures Exp() != SdAlg() && Exp() != Sd() && Exp() != Vct()
    ensures Sd() != Vct()
  {
    assert Iss()[1] == 's' && Sub()[1] == 'u' && Iat()[1] == 'a' && Exp()[1] == 'x' && Vct()[1] == 'c';
    assert Iss()[0] == 'i' && Sd()[0] == '_' && |Sd()| == 3 && |SdAlg()| == 7 && |NonceName()| == 5;
    assert |Aud()| == 3 && Aud()[0] == 'a' && SdHash()[0] == 's' && |SdHash()| == 7;
    hide Iss, Sub, Iat, Exp, SdAlg, Sd, Vct, NonceName, Aud, SdHash;
  }

  // ----- disclosures -----

  datatype Disclosure = Disclosure(salt: string, key: string, value: Json)

  function Encode(kit: Kit, d: Disclosure): string {
    kit.b64(kit.toJson(JArr([JStr(d.salt), JStr(d.key), d.value])))
  }

  function Digest(kit: Kit, d: Disclosure): string {
    kit.b64(kit.sha256(Encode(kit, d)))
  }

  function ParseDisclosure(kit: Kit, encoded: string): Option<Disclosure> {
    match kit.unb64(encoded)
    case None => None
    case Some(raw) =>
      match kit.fromJson(raw)
      case Some(JArr(items)) =>
        if |items| == 3 && items[0].JStr? && items[1].JStr?
        then Some(Disclosure(items[0].str, items[1].str, items[2])) else None
      case _ => None
  }

  lemma {:induction false} ParseEncode(kit: Kit, d: Disclosure)
    requires Lawful(kit)
    ensures ParseDisclosure(kit, Encode(kit, d)) == Some(d)
    ensures '~' !in Encode(kit, d) && '.' !in Encode(kit, d) && Encode(kit, d) != ""
  {
  }

  // ----- JWTs -----

  function SignJwt(kit: Kit, claims: Claims, key: string, kid: string, typ: string): string {
    var input := kit.b64(kit.toJson(JObj(map["alg" := JStr("EdDSA"), "typ" := JStr(typ), "kid" := JStr(kid)]))) + "." +
                 kit.b64(kit.toJson(JObj(claims)));
    input + "." + kit.b64(kit.sign(key, input))
  }

  function JwtPayload(kit: Kit, jwt: string): Option<Claims> {
    match Split3(jwt)
    case None => None
    case Some((_, payload, _)) =>
      match kit.unb64(payload)
      case None => None
      case Some(raw) =>
        match kit.fromJson(raw)
        case Some(JObj(fields)) => Some(fields)
        case _ => None
  }

  predicate JwtSigOk(kit: Kit, jwt: string, pub: string) {
    match Split3(jwt)
    case None => false
    case Some((header, payload, sig)) =>
      match kit.unb64(sig)
      case None => false
      case Some(raw) => kit.checkSig(pub, header + "." + payload, raw)
  }

  lemma {:induction false} SignedJwt(kit: Kit, claims: Claims, key: string, kid: string, typ: string)
    requires Lawful(kit)
    ensures var jwt := SignJwt(kit, claims, key, kid, typ);
            && JwtPayload(kit, jwt) == Some(claims) && JwtSigOk(kit, jwt, kit.publicKey(key))
            && '~' !in jwt && Dots(jwt) == 2 && jwt != ""
  {
    hide Split3, Dots;
    var h := kit.b64(kit.toJson(JObj(map["alg" := JStr("EdDSA"), "typ" := JStr(typ), "kid" := JStr(kid)])));
    var p := kit.b64(kit.toJson(JObj(claims)));
    var g := kit.b64(kit.sign(key, h + "." + p));
    Split3Of(h, p, g);
    DotsOfThree(h, p, g);
  }

  // ----- presenting -----

  datatype Token = Token(jwt: string, disclosures: seq<Disclosure>)

  function Encodings(kit: Kit, ds: seq<Disclosure>): (es: seq<string>)
    ensures |es| == |ds|
  {
    seq(|ds|, i requires 0 <= i < |ds| => Encode(kit, ds[i]))
  }

  function SerializeWith(kit: Kit, t: Token, ds: seq<Disclosure>): string {
    Join([t.jwt] + Encodings(kit, ds)) + "~"
  }

  function Select(ds: seq<Disclosure>, keys: set<string>): seq<Disclosure> {
    if ds == [] then []
    else (var before := Select(ds[..|ds| - 1], keys);
          if ds[|ds| - 1].key in keys then before + [ds[|ds| - 1]] else before)
  }

  method Present(kit: Kit, t: Token, revealKeys: seq<string>) returns (s: string)
    ensures s == SerializeWith(kit, t, Select(t.disclosures, set k | k in revealKeys))
  {
    hide Join, Encode;
    var want: set<string> := {};
    for i := 0 to |revealKeys|
      invariant want == set k | k in revealKeys[..i]
    {
      want := want + {revealKeys[i]};
    }
    assert revealKeys[..|revealKeys|] == revealKeys;
    var selected: seq<Disclosure> := [];
    for i := 0 to |t.disclosures|
      invariant selected == Select(t.disclosures[..i], want)
    {
      assert t.disclosures[..i + 1][..i] == t.disclosures[..i];
      if t.disclosures[i].key in want {
        selected := selected + [t.disclosures[i]];
      }
    }
    assert t.disclosures[..|t.disclosures|] == t.disclosures;
    var parts := [t.jwt];
    for i := 0 to |selected|
      invariant parts == [t.jwt] + Encodings(kit, selected[..i])
    {
      assert Encodings(kit, selected[..i + 1]) == Encodings(kit, selected[..i]) + [Encode(kit, selected[i])];
      parts := parts + [Encode(kit, selected[i])];
    }
    assert selected[..|selected|] == selected;
    s := Join(parts) + "~";
  }

  /** The sd_hash the holder signs: the presentation without its trailing "~". */
  function SignerHash(kit: Kit, base: string): string {
    kit.b64(kit.sha256(if base != "" && base[|base| - 1] == '~' then base[..|base| - 1] else base))
  }

  function KbClaims(nonce: string, audience: string, iat: int, sdHash: string): Claims {
    map[NonceName() := JStr(nonce), Aud() := JStr(audience), Iat() := JNum(iat), SdHash() := JStr(sdHash)]
  }

  function PresentWithKeyBinding(kit: Kit, t: Token, keys: set<string>, holderKey: string, kid: string, nonce: string, audience: string, iat: int): string {
    var base := SerializeWith(kit, t, Select(t.disclosures, keys));
    base + SignJwt(kit, KbClaims(nonce, audience, iat, SignerHash(kit, base)), holderKey, kid, "kb+jwt")
  }

  // ----- parsing -----

  datatype Parsed = Parsed(jwt: string, disclosures: seq<string>, kbToken: string)

  /** The loop over the parts after the first. */
  function Sort(p: Parsed, parts: seq<string>): Parsed
    decreases |parts|
  {
    if parts == [] then p
    else
      var before := Sort(p, parts[..|parts| - 1]);
      var part := parts[|parts| - 1];
      if part == "" then before
      else if Dots(part) == 2 then before.(kbToken := part)
      else before.(disclosures := before.disclosures + [part])
  }

  function Parse(token: string): Result<Parsed> {
    if token == "" then Err("sdjwt: empty token")
    else
      var parts := Split(token);
      if |parts| < 2 then Err("sdjwt: missing ~ separator")
      else Ok(Sort(Parsed(parts[0], [], ""), parts[1..]))
  }

  method ParseSdJwt(token: string) returns (r: Result<Parsed>)
    ensures r == Parse(token)
  {
    hide Split, Dots;
    if token == "" {
      return Err("sdjwt: empty token");
    }
    var parts := Split(token);
    if |parts| < 2 {
      return Err("sdjwt: missing ~ separator");
    }
    var result := Parsed(parts[0], [], "");
    ghost var start := result;
    var rest := parts[1..];
    for i := 0 to |rest|
      invariant result == Sort(start, rest[..i])
    {
      assert rest[..i + 1][..i] == rest[..i];
      var p := rest[i];
      if p != "" {
        if Dots(p) == 2 {
          result := result.(kbToken := p);
        } else {
          result := result.(disclosures := result.disclosures + [p]);
        }
      }
    }
    assert rest[..|rest|] == rest;
    r := Ok(result);
  }

  lemma {:induction false} SortDisclosures(p: Parsed, es: seq<string>)
    requires forall i :: 0 <= i < |es| ==> es[i] != "" && Dots(es[i]) != 2
    ensures Sort(p, es) == p.(disclosures := p.disclosures + es)
    decreases |es|
  {
    hide Dots;
    if es == [] {
      assert p.disclosures + es == p.disclosures;
    } else {
      SortDisclosures(p, es[..|es| - 1]);
      assert es == es[..|es| - 1] + [es[|es| - 1]];
    }
  }

  /** Presentations, bare or with a key-binding token, parse back into their parts. */
  lemma {:induction false} ParseSerialized(kit: Kit, t: Token, ds: seq<Disclosure>, kb: string)
    requires Lawful(kit) && '~' !in t.jwt
    requires kb == "" || ('~' !in kb && Dots(kb) == 2)
    ensures Parse(SerializeWith(kit, t, ds) + kb) == Ok(Parsed(t.jwt, Encodings(kit, ds), kb))
  {
    hide Split, Join, Encode;
    var es := Encodings(kit, ds);
    forall i | 0 <= i < |es|
      ensures '~' !in es[i] && es[i] != "" && Dots(es[i]) != 2
    {
      ParseEncode(kit, ds[i]);
      NoDots(es[i]);
    }
    var parts := [t.jwt] + es;
    JoinAppend(parts, kb);
    var all := parts + [kb];
    SplitJoin(all);
    var token := SerializeWith(kit, t, ds) + kb;
    assert token == Join(all) && token != "";
    hide Dots;
    var rest := all[1..];
    assert rest == es + [kb] && rest[..|rest| - 1] == es;
    SortDisclosures(Parsed(t.jwt, [], ""), es);
    assert [] + es == es;
  }

  // ----- verifying -----

  datatype Verified = Verified(
    issuer: string, subject: string, schema: string, disclosed: Claims, always: Claims,
    issuedAt: Option<int>, expiresAt: Option<int>, keyBound: bool)

  function StrOf(claims: Claims, name: string): string {
    if name in claims && claims[name].JStr? then claims[name].str else ""
  }

  function DigestsOf(claims: Claims): set<string> {
    if Sd() in claims && claims[Sd()].JArr?
    then set i | 0 <= i < |claims[Sd()].items| && claims[Sd()].items[i].JStr? :: claims[Sd()].items[i].str
    else {}
  }

  function NumOf(claims: Claims, name: string): Option<int> {
    if name in claims && claims[name].JNum? then Some(claims[name].num) else None
  }

  predicate Expired(claims: Claims, now: int) {
    NumOf(claims, Exp()).Some? && now > NumOf(claims, Exp()).value
  }

  function ReadBack(claims: Claims, disclosed: Claims, keyBound: bool): Verified {
    Verified(StrOf(claims, Iss()), StrOf(claims, Sub()), StrOf(claims, Vct()), disclosed, AlwaysClaims(claims),
             NumOf(claims, Iat()), NumOf(claims, Exp()), keyBound)
  }

  /** The disclosure loop: every disclosure must hash into the issuer's digests. */
  function Disclose(kit: Kit, digests: set<string>, es: seq<string>): Result<Claims> {
    if es == [] then Ok(map[])
    else
      match Disclose(kit, digests, es[..|es| - 1])
      case Err(e) => Err(e)
      case Ok(before) =>
        match ParseDisclosure(kit, es[|es| - 1])
        case None => Err("sdjwt: disclosure")
        case Some(d) =>
          if Digest(kit, d) in digests then Ok(before[d.key := d.value]) else Err("sdjwt: disclosure not in _sd hashes")
  }

  /** The holder's key in cnf.jwk; None covers both an absent and an unusable key. */
  function HolderKey(kit: Kit, claims: Claims): Option<string> {
    if Cnf() in claims && claims[Cnf()].JObj? && "jwk" in claims[Cnf()].fields && claims[Cnf()].fields["jwk"].JObj? then
      var jwk := claims[Cnf()].fields["jwk"].fields;
      if StrOf(jwk, "kty") != "OKP" || !("x" in jwk && jwk["x"].JStr?) then None
      else
        match kit.unb64(jwk["x"].str)
        case Some(raw) => if |raw| == 32 then Some(raw) else None
        case None => None
    else None
  }

  /** sdHashOf: the hash of the presentation as the verifier rebuilds it. */
  function VerifierHash(kit: Kit, p: Parsed): string {
    kit.b64(kit.sha256(Join([p.jwt] + p.disclosures) + "~"))
  }

  predicate KbOk(kit: Kit, p: Parsed, holder: string, nonce: string, audience: string) {
    match JwtPayload(kit, p.kbToken)
    case None => false
    case Some(kb) =>
      && (nonce != "" ==> StrOf(kb, NonceName()) == nonce)
      && (audience != "" ==> StrOf(kb, Aud()) == audience)
      && StrOf(kb, SdHash()) == VerifierHash(kit, p)
      && JwtSigOk(kit, p.kbToken, holder)
  }

  function AlwaysClaims(claims: Claims): Claims {
    map k | k in claims && k !in {Iss(), Sub(), Iat(), Exp(), Sd(), SdAlg(), Vct(), Cnf()} :: claims[k]
  }

  /** Issuer checks: payload, issuer key, signature, expiry. */
  function VerifyIssuer(kit: Kit, jwt: string, now: int): Result<Claims> {
    match JwtPayload(kit, jwt)
    case None => Err("sdjwt: parse payload")
    case Some(claims) =>
      if StrOf(claims, Iss()) == "" then Err("sdjwt: missing iss claim")
      else
        match kit.resolveKey(StrOf(claims, Iss()))
        case None => Err("sdjwt: resolve issuer key")
        case Some(pub) =>
          if !JwtSigOk(kit, jwt, pub) then Err("sdjwt: invalid signature")
          else if Expired(claims, now) then Err("sdjwt: credential expired")
          else Ok(claims)
  }

  function Verify(kit: Kit, token: string, nonce: string, audience: string, now: int): Result<Verified> {
    match Parse(token)
    case Err(e) => Err(e)
    case Ok(p) =>
      match VerifyIssuer(kit, p.jwt, now)
      case Err(e) => Err(e)
      case Ok(claims) =>
        match Disclose(kit, DigestsOf(claims), p.disclosures)
        case Err(e) => Err(e)
        case Ok(disclosed) =>
          if p.kbToken != "" then
            if HolderKey(kit, claims).None? then Err("sdjwt: kb-jwt: no cnf holder key in token")
            else if !KbOk(kit, p, HolderKey(kit, claims).value, nonce, audience) then Err("sdjwt: kb-jwt")
            else Ok(ReadBack(claims, disclosed, true))
          else if nonce != "" || audience != "" then Err("sdjwt: key binding JWT required")
          else Ok(ReadBack(claims, disclosed, false))
  }

  method VerifySdJwt(kit: Kit, token: string, nonce: string, audience: string, now: int) returns (r: Result<Verified>)
    ensures r == Verify(kit, token, nonce, audience, now)
  {
    hide Parse, VerifyIssuer, ParseDisclosure, HolderKey, KbOk, AlwaysClaims, DigestsOf, Digest, Vct, Sub, Iss, Iat, Exp;
    var parsed := ParseSdJwt(token);
    if parsed.Err? {
      return Err(parsed.error);
    }
    var p := parsed.value;
    var issuer := VerifyIssuer(kit, p.jwt, now);
    if issuer.Err? {
      return Err(issuer.error);
    }
    var claims := issuer.value;
    var digests := DigestsOf(claims);
    var disclosed: Claims := map[];
    for i := 0 to |p.disclosures|
      invariant Disclose(kit, digests, p.disclosures[..i]) == Ok(disclosed)
    {
      assert p.disclosures[..i + 1][..i] == p.disclosures[..i];
      var d := ParseDisclosure(kit, p.disclosures[i]);
      if d.None? {
        DiscloseStops(kit, digests, p.disclosures, i + 1);
        return Err("sdjwt: disclosure");
      }
      if Digest(kit, d.value) !in digests {
        DiscloseStops(kit, digests, p.disclosures, i + 1);
        return Err("sdjwt: disclosure not in _sd hashes");
      }
      disclosed := disclosed[d.value.key := d.value.value];
    }
    assert p.disclosures[..|p.disclosures|] == p.disclosures;
    var keyBound := false;
    if p.kbToken != "" {
      var holder := HolderKey(kit, claims);
      if holder.None? {
        return Err("sdjwt: kb-jwt: no cnf holder key in token");
      }
      if !KbOk(kit, p, holder.value, nonce, audience) {
        return Err("sdjwt: kb-jwt");
      }
      keyBound := true;
    } else if nonce != "" || audience != "" {
      return Err("sdjwt: key binding JWT required");
    }
    r := Ok(Verified(StrOf(claims, Iss()), StrOf(claims, Sub()), StrOf(claims, Vct()), disclosed, AlwaysClaims(claims),
                     NumOf(claims, Iat()), NumOf(claims, Exp()), keyBound));
  }

  lemma {:induction false} DiscloseStops(kit: Kit, digests: set<string>, es: seq<string>, n: nat)
    requires n <= |es| && Disclose(kit, digests, es[..n]).Err?
    ensures Disclose(kit, digests, es) == Disclose(kit, digests, es[..n])
    decreases |es|
  {
    hide ParseDisclosure, Digest;
    if n == |es| {
      assert es[..n] == es;
    } else {
      assert es[..|es| - 1][..n] == es[..n];
      DiscloseStops(kit, digests, es[..|es| - 1], n);
    }
  }
}
