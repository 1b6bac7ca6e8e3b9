/** Issuing SD-JWTs, and what issuing, presenting and verifying promise each other. */
module SdJwtIssue {
  import opened Results
  import opened Strings
  import opened Times
  import opened SdJwt

  datatype Options = Options(
    issuer: string, key: Option<string>, methodId: string, subject: string, schemaId: string,
    selective: Claims, always: Claims, validFor: int)

  /** What the source draws: an iteration order for the selective claims and one salt each. */
  datatype Draws = Draws(order: seq<string>, salts: seq<string>)

  ghost predicate IsDraws(d: Draws, selective: Claims) {
    && |d.salts| == |d.order|
    && (forall i, j :: 0 <= i < j < |d.order| ==> d.order[i] != d.order[j])
    && (forall k :: k in selective <==> k in d.order)
  }

  function Disclosures(selective: Claims, d: Draws, n: nat): (ds: seq<Disclosure>)
    requires n <= |d.order| == |d.salts| && forall i :: 0 <= i < n ==> d.order[i] in selective
    ensures |ds| == n
  {
    seq(n, i requires 0 <= i < n => Disclosure(d.salts[i], d.order[i], selective[d.order[i]]))
  }

  function Digests(kit: Kit, ds: seq<Disclosure>): (js: seq<Json>)
    ensures |js| == |ds|
  {
    seq(|ds|, i requires 0 <= i < |ds| => JStr(Digest(kit, ds[i])))
  }

  function Lifetime(validFor: int): int {
    if validFor <= 0 then 24 * 3600 * SECOND else validFor
  }

  function ExpiresAt(o: Options, now: int): int {
    Unix(now + Lifetime(o.validFor))
  }

  function BaseClaims(o: Options, vct: Option<string>, digests: seq<Json>, now: int): Claims {
    var base := map[Iss() := JStr(o.issuer), Sub() := JStr(o.subject), Iat() := JNum(Unix(now)),
                    Exp() := JNum(ExpiresAt(o, now)), SdAlg() := JStr("sha-256"), Sd() := JArr(digests)];
    if vct.Some? then base[Vct() := JStr(vct.value)] else base
  }

  function Payload(o: Options, vct: Option<string>, digests: seq<Json>, now: int): Claims {
    BaseClaims(o, vct, digests, now) + o.always
  }

  function IssueError(o: Options, schemas: string -> Option<string>): Option<string> {
    if "did:key:" <= o.issuer then Some("vc: ephemeral issuer")
    else if o.issuer == "" || o.key.None? then Some("sdjwt: issuer DID and key are required")
    else if o.subject == "" then Some("sdjwt: subject DID is required")
    else if o.schemaId != "" && schemas(o.schemaId).None? then Some("sdjwt: unknown schema")
    else None
  }

  function VctOf(o: Options, schemas: string -> Option<string>): Option<string> {
    if o.schemaId != "" then schemas(o.schemaId) else None
  }

  function Issue(kit: Kit, o: Options, schemas: string -> Option<string>, d: Draws, now: int): Result<Token>
    requires |d.salts| == |d.order| && forall k :: k in d.order ==> k in o.selective
  {
    if IssueError(o, schemas).Some? then Err(IssueError(o, schemas).value)
    else
      var ds := Disclosures(o.selective, d, |d.order|);
      Ok(Token(SignJwt(kit, Payload(o, VctOf(o, schemas), Digests(kit, ds), now), o.key.value, o.methodId, "vc+sd-jwt"), ds))
  }

  method IssueSdJwt(kit: Kit, o: Options, schemas: string -> Option<string>, d: Draws, now: int) returns (r: Result<Token>)
    requires |d.salts| == |d.order| && forall k :: k in d.order ==> k in o.selective
    ensures r == Issue(kit, o, schemas, d, now)
  {
    hide SignJwt, Payload, IssueError, Digest, VctOf;
    var error := IssueError(o, schemas);
    if error.Some? {
      return Err(error.value);
    }
    var ds: seq<Disclosure> := [];
    var digests: seq<Json> := [];
    for i := 0 to |d.order|
      invariant ds == Disclosures(o.selective, d, i) && digests == Digests(kit, ds)
    {
      var disclosure := Disclosure(d.salts[i], d.order[i], o.selective[d.order[i]]);
      ds := ds + [disclosure];
      digests := digests + [JStr(Digest(kit, disclosure))];
    }
    assert o.key.Some? by { KeyPresent(o, schemas); }
    r := Ok(Token(SignJwt(kit, Payload(o, VctOf(o, schemas), digests, now), o.key.value, o.methodId, "vc+sd-jwt"), ds));
  }

  lemma KeyPresent(o: Options, schemas: string -> Option<string>)
    requires IssueError(o, schemas).None?
    ensures o.key.Some? && o.issuer != "" && o.subject != ""
  {
  }

  // ----- what the verifier reads back from an issued payload -----

  // Always-visible claims are merged last, so they may replace the issuer, the expiry and the
  // digests the source has just put in.

  function IssuerOf(o: Options): string {
    if Iss() in o.always then StrOf(o.always, Iss()) else o.issuer
  }

  function ExpiryOf(o: Options, issuedAt: int): Option<int> {
    if Exp() in o.always then NumOf(o.always, Exp()) else Some(ExpiresAt(o, issuedAt))
  }

  ghost predicate Listed(kit: Kit, o: Options, ds: seq<Disclosure>) {
    Sd() in o.always ==> forall i :: 0 <= i < |ds| ==> Digest(kit, ds[i]) in DigestsOf(o.always)
  }

  ghost predicate NoReserved(always: Claims) {
    Iss() !in always && Exp() !in always && Sd() !in always
  }

  lemma {:induction false} PayloadFields(o: Options, vct: Option<string>, digests: seq<Json>, now: int)
    ensures var p := Payload(o, vct, digests, now);
            && StrOf(p, Iss()) == IssuerOf(o)
            && NumOf(p, Exp()) == ExpiryOf(o, now)
            && (Sd() in o.always ==> DigestsOf(p) == DigestsOf(o.always))
            && (Sd() !in o.always ==> Sd() in p && p[Sd()] == JArr(digests))
  {
    NamesDiffer();
    hide Iss, Sub, Iat, Exp, SdAlg, Sd, Vct, ExpiresAt, Unix;
  }

  lemma DigestsRead(kit: Kit, p: Claims, ds: seq<Disclosure>)
    requires Sd() in p && p[Sd()] == JArr(Digests(kit, ds))
    ensures forall x :: x in DigestsOf(p) <==> exists i :: 0 <= i < |ds| && Digest(kit, ds[i]) == x
  {
    hide Digest, Sd;
    var items := Digests(kit, ds);
    forall x | x in DigestsOf(p)
      ensures exists i :: 0 <= i < |ds| && Digest(kit, ds[i]) == x
    {
      var i :| 0 <= i < |items| && items[i].JStr? && items[i].str == x;
      assert Digest(kit, ds[i]) == x;
    }
    forall i | 0 <= i < |ds|
      ensures Digest(kit, ds[i]) in DigestsOf(p)
    {
      assert items[i].JStr?;
    }
  }

  /** The issuer the token names resolves to a key that checks the token. */
  predicate IssuerAccepted(kit: Kit, o: Options, jwt: string) {
    IssuerOf(o) != "" && kit.resolveKey(IssuerOf(o)).Some? && JwtSigOk(kit, jwt, kit.resolveKey(IssuerOf(o)).value)
  }

  predicate InTime(o: Options, issuedAt: int, now: int) {
    ExpiryOf(o, issuedAt).Some? ==> now <= ExpiryOf(o, issuedAt).value
  }

  /** The issuer checks accept an issued JWT exactly until the expiry it carries. */
  lemma {:induction false} IssuedJwtVerifies(kit: Kit, o: Options, schemas: string -> Option<string>, d: Draws, issuedAt: int, now: int)
    requires Lawful(kit) && IsDraws(d, o.selective) && Issue(kit, o, schemas, d, issuedAt).Ok?
    ensures var t := Issue(kit, o, schemas, d, issuedAt).value;
            var p := Payload(o, VctOf(o, schemas), Digests(kit, t.disclosures), issuedAt);
            && '~' !in t.jwt && JwtPayload(kit, t.jwt) == Some(p) && JwtSigOk(kit, t.jwt, kit.publicKey(o.key.value))
            && (VerifyIssuer(kit, t.jwt, now).Ok? <==> IssuerAccepted(kit, o, t.jwt) && InTime(o, issuedAt, now))
            && (VerifyIssuer(kit, t.jwt, now).Ok? ==> VerifyIssuer(kit, t.jwt, now).value == p)
  {
    hide SignJwt, Payload, Digests, JwtPayload, JwtSigOk, VctOf, ExpiryOf, IssuerOf, Iss, StrOf, NumOf, Exp;
    KeyPresent(o, schemas);
    var ds := Disclosures(o.selective, d, |d.order|);
    var digests := Digests(kit, ds);
    PayloadFields(o, VctOf(o, schemas), digests, issuedAt);
    SignedJwt(kit, Payload(o, VctOf(o, schemas), digests, issuedAt), o.key.value, o.methodId, "vc+sd-jwt");
    hide Lawful, IssueError;
  }

  // ----- completeness -----

  function ClaimsOf(ds: seq<Disclosure>): Claims {
    if ds == [] then map[] else ClaimsOf(ds[..|ds| - 1])[ds[|ds| - 1].key := ds[|ds| - 1].value]
  }

  /** The disclosure loop accepts a list exactly when every digest is among the signed ones. */
  lemma {:induction false} DiscloseIff(kit: Kit, digests: set<string>, ds: seq<Disclosure>)
    requires Lawful(kit)
    ensures var r := Disclose(kit, digests, Encodings(kit, ds));
            && (r.Ok? <==> forall i :: 0 <= i < |ds| ==> Digest(kit, ds[i]) in digests)
            && (r.Ok? ==> r.value == ClaimsOf(ds))
    decreases |ds|
  {
    hide Lawful, ParseDisclosure, Encode, Digest;
    if ds != [] {
      var n := |ds| - 1;
      DiscloseIff(kit, digests, ds[..n]);
      ParseEncode(kit, ds[n]);
      assert Encodings(kit, ds)[..n] == Encodings(kit, ds[..n]);
      assert forall i :: 0 <= i < n ==> ds[..n][i] == ds[i];
    }
  }

  lemma {:induction false} SelectSubset(ds: seq<Disclosure>, keys: set<string>)
    ensures forall x :: x in Select(ds, keys) ==> x in ds
    decreases |ds|
  {
    if ds != [] {
      SelectSubset(ds[..|ds| - 1], keys);
    }
  }

  lemma {:induction false} ClaimsAppend(ds: seq<Disclosure>, d: Disclosure)
    ensures ClaimsOf(ds + [d]) == ClaimsOf(ds)[d.key := d.value]
  {
    assert (ds + [d])[..|ds|] == ds;
  }

  /** Selecting from the issued disclosures yields exactly the chosen claims with their values. */
  lemma {:induction false} SelectedClaims(selective: Claims, d: Draws, n: nat, keys: set<string>)
    requires n <= |d.order| == |d.salts| && forall i :: 0 <= i < n ==> d.order[i] in selective
    ensures ClaimsOf(Select(Disclosures(selective, d, n), keys)) ==
            map k | k in selective && k in d.order[..n] && k in keys :: selective[k]
    decreases n
  {
    hide ClaimsOf;
    var all := Disclosures(selective, d, n);
    if n == 0 {
      assert all == [];
      assert ClaimsOf([]) == map[] by { NoClaims(); }
    } else {
      SelectedClaims(selective, d, n - 1, keys);
      assert all[..n - 1] == Disclosures(selective, d, n - 1);
      var before := Select(all[..n - 1], keys);
      ClaimsAppend(before, all[n - 1]);
      assert d.order[..n] == d.order[..n - 1] + [d.order[n - 1]];
    }
  }

  lemma NoClaims()
    ensures ClaimsOf([]) == map[]
  {
  }

  /** A presentation of an issued SD-JWT verifies exactly when the issuer it names resolves to its
      key, the expiry it carries has not passed and the digests it carries list what is disclosed.
      It then discloses exactly the issued claims whose keys were chosen. */
  lemma {:induction false} PresentationVerifies(kit: Kit, o: Options, schemas: string -> Option<string>, d: Draws, issuedAt: int, keys: set<string>, now: int)
    requires Lawful(kit) && IsDraws(d, o.selective) && Issue(kit, o, schemas, d, issuedAt).Ok?
    ensures var t := Issue(kit, o, schemas, d, issuedAt).value;
            var ds := Select(t.disclosures, keys);
            var r := Verify(kit, SerializeWith(kit, t, ds), "", "", now);
            && (r.Ok? <==> IssuerAccepted(kit, o, t.jwt) && InTime(o, issuedAt, now) && Listed(kit, o, ds))
            && (r.Ok? ==> r.value.issuer == IssuerOf(o) && r.value.expiresAt == ExpiryOf(o, issuedAt) && !r.value.keyBound)
            && (r.Ok? ==> r.value.disclosed == map k | k in o.selective && k in keys :: o.selective[k])
  {
    hide Parse, VerifyIssuer, Disclose, DigestsOf, Payload, Issue, SerializeWith, Select, AlwaysClaims, ExpiryOf, IssuerOf, StrOf, NumOf,
         Digests, Listed, JwtPayload, JwtSigOk, IssuerAccepted, InTime, VctOf;
    var t := Issue(kit, o, schemas, d, issuedAt).value;
    var ds := Select(t.disclosures, keys);
    var base := SerializeWith(kit, t, ds);
    IssuedJwtVerifies(kit, o, schemas, d, issuedAt, now);
    ParseSerialized(kit, t, ds, "");
    assert base + "" == base;
    IssuedDiscloses(kit, o, schemas, d, issuedAt, keys);
    PayloadFields(o, VctOf(o, schemas), Digests(kit, t.disclosures), issuedAt);
    hide Lawful, Iss, Sub, Vct, Exp, Sd, Iat;
  }

  /** With no reserved names among the always-visible claims and the issuer's key published, every
      presentation verifies exactly until the expiry it was issued with. */
  lemma {:induction false} PlainPresentationVerifies(kit: Kit, o: Options, schemas: string -> Option<string>, d: Draws, issuedAt: int, keys: set<string>, now: int)
    requires Lawful(kit) && IsDraws(d, o.selective) && Issue(kit, o, schemas, d, issuedAt).Ok?
    requires NoReserved(o.always) && kit.resolveKey(o.issuer) == Some(kit.publicKey(o.key.value))
    ensures var t := Issue(kit, o, schemas, d, issuedAt).value;
            Verify(kit, SerializeWith(kit, t, Select(t.disclosures, keys)), "", "", now).Ok? <==> now <= ExpiresAt(o, issuedAt)
  {
    IssuedJwtVerifies(kit, o, schemas, d, issuedAt, now);
    PresentationVerifies(kit, o, schemas, d, issuedAt, keys, now);
    KeyPresent(o, schemas);
    hide Lawful, Verify, SerializeWith, Select, JwtPayload, JwtSigOk, VerifyIssuer, Payload, ExpiresAt, Iss, Exp, Sd;
  }

  lemma {:induction false} IssuedDiscloses(kit: Kit, o: Options, schemas: string -> Option<string>, d: Draws, issuedAt: int, keys: set<string>)
    requires Lawful(kit) && IsDraws(d, o.selective) && Issue(kit, o, schemas, d, issuedAt).Ok?
    ensures var t := Issue(kit, o, schemas, d, issuedAt).value;
            var p := Payload(o, VctOf(o, schemas), Digests(kit, t.disclosures), issuedAt);
            var ds := Select(t.disclosures, keys);
            var r := Disclose(kit, DigestsOf(p), Encodings(kit, ds));
            && (r.Ok? <==> Listed(kit, o, ds))
            && (r.Ok? ==> r.value == map k | k in o.selective && k in keys :: o.selective[k])
  {
    hide Disclose, DigestsOf, Payload, Select, Digests, Digest, IssueError, SignJwt, ClaimsOf, Sd, VctOf, IssuerOf, ExpiryOf, Encodings;
    var t := Issue(kit, o, schemas, d, issuedAt).value;
    var p := Payload(o, VctOf(o, schemas), Digests(kit, t.disclosures), issuedAt);
    PayloadFields(o, VctOf(o, schemas), Digests(kit, t.disclosures), issuedAt);
    var ds := Select(t.disclosures, keys);
    if Sd() !in o.always {
      SelectedAreListed(kit, p, t.disclosures, keys);
    }
    DiscloseIff(kit, DigestsOf(p), ds);
    SelectedClaims(o.selective, d, |d.order|, keys);
    assert d.order[..|d.order|] == d.order;
    ghost var inOrder := map k | k in o.selective && k in d.order && k in keys :: o.selective[k];
    assert inOrder == map k | k in o.selective && k in keys :: o.selective[k];
  }

  lemma SelectedAreListed(kit: Kit, p: Claims, all: seq<Disclosure>, keys: set<string>)
    requires Sd() in p && p[Sd()] == JArr(Digests(kit, all))
    ensures forall i :: 0 <= i < |Select(all, keys)| ==> Digest(kit, Select(all, keys)[i]) in DigestsOf(p)
  {
    hide DigestsOf, Select, Digests, Digest, Sd;
    DigestsRead(kit, p, all);
    SelectSubset(all, keys);
    var ds := Select(all, keys);
    forall i | 0 <= i < |ds|
      ensures Digest(kit, ds[i]) in DigestsOf(p)
    {
      assert ds[i] in all;
      var j :| 0 <= j < |all| && all[j] == ds[i];
    }
  }

  // ----- soundness -----

  /** Two given texts collide under SHA-256. */
  ghost predicate Clash(kit: Kit, x: string, y: string) {
    x != y && kit.sha256(x) == kit.sha256(y)
  }

  lemma SameDigest(kit: Kit, a: Disclosure, b: Disclosure)
    requires Lawful(kit) && Digest(kit, a) == Digest(kit, b)
    ensures a == b || Clash(kit, Encode(kit, a), Encode(kit, b))
  {
    var x, y := Encode(kit, a), Encode(kit, b);
    assert kit.unb64(kit.b64(kit.sha256(x))) == Some(kit.sha256(x));
    assert kit.unb64(kit.b64(kit.sha256(y))) == Some(kit.sha256(y));
    ParseEncode(kit, a);
    ParseEncode(kit, b);
    hide Encode, ParseDisclosure, Lawful;
  }

  /** A disclosed claim comes from a presented disclosure whose digest the issuer signed. */
  lemma {:induction false} DisclosedFrom(kit: Kit, digests: set<string>, es: seq<string>, k: string) returns (i: nat)
    requires Disclose(kit, digests, es).Ok? && k in Disclose(kit, digests, es).value
    ensures i < |es| && ParseDisclosure(kit, es[i]).Some?
    ensures var x := ParseDisclosure(kit, es[i]).value;
            Digest(kit, x) in digests && x.key == k && x.value == Disclose(kit, digests, es).value[k]
    decreases |es|
  {
    hide ParseDisclosure, Digest;
    i := |es| - 1;
    if ParseDisclosure(kit, es[i]).value.key != k {
      i := DisclosedFrom(kit, digests, es[..|es| - 1], k);
    }
  }

  /** A presented disclosure and an issued one are different texts with one hash. */
  ghost predicate ForgedDisclosure(kit: Kit, presented: seq<string>, issued: seq<Disclosure>) {
    exists i, j :: 0 <= i < |presented| && 0 <= j < |issued| && ParseDisclosure(kit, presented[i]).Some? &&
      Clash(kit, Encode(kit, ParseDisclosure(kit, presented[i]).value), Encode(kit, issued[j]))
  }

  predicate Reveals(kit: Kit, encoded: string, k: string, v: Json, digests: set<string>) {
    match ParseDisclosure(kit, encoded)
    case None => false
    case Some(x) => x.key == k && x.value == v && Digest(kit, x) in digests
  }

  /** The issuer listed the digest of a presented disclosure of this claim among its own
      always-visible claims. */
  ghost predicate ListedByHand(kit: Kit, o: Options, presented: seq<string>, k: string, v: Json) {
    Sd() in o.always && exists i :: 0 <= i < |presented| && Reveals(kit, presented[i], k, v, DigestsOf(o.always))
  }

  /** Whatever string a verifier accepts over an issued JWT, each claim it discloses was issued
      with that value, or listed by hand in an always-visible _sd, unless a presented disclosure
      collides with an issued one. */
  lemma {:induction false} DisclosedWasIssued(kit: Kit, o: Options, schemas: string -> Option<string>, d: Draws, issuedAt: int,
                           token: string, nonce: string, audience: string, now: int, k: string)
    requires Lawful(kit) && IsDraws(d, o.selective) && Issue(kit, o, schemas, d, issuedAt).Ok?
    requires Verify(kit, token, nonce, audience, now).Ok?
    requires Parse(token).value.jwt == Issue(kit, o, schemas, d, issuedAt).value.jwt
    requires k in Verify(kit, token, nonce, audience, now).value.disclosed
    ensures var v := Verify(kit, token, nonce, audience, now).value.disclosed[k];
            var presented := Parse(token).value.disclosures;
            || (k in o.selective && o.selective[k] == v)
            || ListedByHand(kit, o, presented, k, v)
            || ForgedDisclosure(kit, presented, Issue(kit, o, schemas, d, issuedAt).value.disclosures)
  {
    hide Parse, Disclose, DigestsOf, Payload, SignJwt, Digests, Digest, JwtPayload, JwtSigOk, HolderKey, KbOk, AlwaysClaims, StrOf, NumOf,
         IssueError, VctOf, Sd, Clash, Lawful, Encode, ParseDisclosure, IssuerOf, ExpiryOf;
    var t := Issue(kit, o, schemas, d, issuedAt).value;
    var p := Payload(o, VctOf(o, schemas), Digests(kit, t.disclosures), issuedAt);
    KeyPresent(o, schemas);
    SignedJwt(kit, p, o.key.value, o.methodId, "vc+sd-jwt");
    PayloadFields(o, VctOf(o, schemas), Digests(kit, t.disclosures), issuedAt);
    var presented := Parse(token).value.disclosures;
    var n := DisclosedFrom(kit, DigestsOf(p), presented, k);
    var x := ParseDisclosure(kit, presented[n]).value;
    assert Reveals(kit, presented[n], k, x.value, DigestsOf(p));
    if Sd() !in o.always {
      DigestsRead(kit, p, t.disclosures);
      var i :| 0 <= i < |t.disclosures| && Digest(kit, t.disclosures[i]) == Digest(kit, x);
      SameDigest(kit, x, t.disclosures[i]);
      assert t.disclosures[i].key == d.order[i];
      assert d.order[i] in d.order;
    }
  }

  // ----- key binding -----

  /** The verifier hashes exactly the string the key-binding token was appended to. */
  lemma {:induction false} VerifierHashesBase(kit: Kit, t: Token, ds: seq<Disclosure>, kb: string)
    requires Lawful(kit) && '~' !in t.jwt && '~' !in kb && Dots(kb) == 2
    ensures Parse(SerializeWith(kit, t, ds) + kb).Ok?
    ensures VerifierHash(kit, Parse(SerializeWith(kit, t, ds) + kb).value) == kit.b64(kit.sha256(SerializeWith(kit, t, ds)))
  {
    hide Parse, Join, Dots, Lawful;
    ParseSerialized(kit, t, ds, kb);
  }

  /** One sd_hash fits one issuer JWT and one ordered disclosure list, unless the two
      presentations themselves collide. */
  lemma {:induction false} HashBinds(kit: Kit, p: Parsed, q: Parsed)
    requires Lawful(kit) && VerifierHash(kit, p) == VerifierHash(kit, q)
    requires '~' !in p.jwt && '~' !in q.jwt
    requires forall i :: 0 <= i < |p.disclosures| ==> '~' !in p.disclosures[i]
    requires forall i :: 0 <= i < |q.disclosures| ==> '~' !in q.disclosures[i]
    ensures || (p.jwt == q.jwt && p.disclosures == q.disclosures)
            || Clash(kit, Join([p.jwt] + p.disclosures) + "~", Join([q.jwt] + q.disclosures) + "~")
  {
    var a, b := [p.jwt] + p.disclosures, [q.jwt] + q.disclosures;
    var x, y := Join(a) + "~", Join(b) + "~";
    assert kit.unb64(kit.b64(kit.sha256(x))) == Some(kit.sha256(x));
    assert kit.unb64(kit.b64(kit.sha256(y))) == Some(kit.sha256(y));
    hide Join, Lawful;
    if x == y {
      assert x[..|x| - 1] == Join(a) && y[..|y| - 1] == Join(b);
      SplitJoin(a);
      SplitJoin(b);
      assert a[0] == p.jwt && b[0] == q.jwt && a[1..] == p.disclosures && b[1..] == q.disclosures;
    }
  }

  /** Over any token bound to the holder's key, a key-binding token with the expected nonce and
      audience is accepted exactly when the bare presentation verifies and the sd_hash is its hash. */
  lemma {:induction false} KeyBindingIff(kit: Kit, t: Token, ds: seq<Disclosure>, now: int,
                      holderKey: string, kid: string, nonce: string, audience: string, iat: int, sdHash: string)
    requires Lawful(kit) && '~' !in t.jwt
    requires JwtPayload(kit, t.jwt).Some? && HolderKey(kit, JwtPayload(kit, t.jwt).value) == Some(kit.publicKey(holderKey))
    ensures var base := SerializeWith(kit, t, ds);
            var kb := SignJwt(kit, KbClaims(nonce, audience, iat, sdHash), holderKey, kid, "kb+jwt");
            Verify(kit, base + kb, nonce, audience, now).Ok? <==> Verify(kit, base, "", "", now).Ok? && sdHash == kit.b64(kit.sha256(base))
  {
    hide Parse, Disclose, DigestsOf, SerializeWith, AlwaysClaims, SignJwt, KbClaims, JwtPayload, JwtSigOk, VerifierHash, HolderKey,
         Encodings, Dots, Expired, ReadBack;
    var base := SerializeWith(kit, t, ds);
    var claims := KbClaims(nonce, audience, iat, sdHash);
    var kb := SignJwt(kit, claims, holderKey, kid, "kb+jwt");
    SignedJwt(kit, claims, holderKey, kid, "kb+jwt");
    ParseSerialized(kit, t, ds, kb);
    ParseSerialized(kit, t, ds, "");
    assert base + "" == base;
    VerifierHashesBase(kit, t, ds, kb);
    KbClaimFields(nonce, audience, iat, sdHash);
    hide Lawful, StrOf, Iss, Sub, Vct, Exp, Sd, NonceName, Aud, SdHash;
  }

  lemma KbClaimFields(nonce: string, audience: string, iat: int, sdHash: string)
    ensures var c := KbClaims(nonce, audience, iat, sdHash);
            StrOf(c, NonceName()) == nonce && StrOf(c, Aud()) == audience && StrOf(c, SdHash()) == sdHash
  {
    NamesDiffer();
    hide NonceName, Aud, SdHash, Iat;
  }

  /** PresentWithKeyBinding hashes the presentation without its trailing "~", so the verifier
      accepts its output exactly when the bare presentation verifies and its text with and without
      that "~" collide. */
  lemma {:induction false} OwnKeyBindingIffCollision(kit: Kit, t: Token, keys: set<string>, now: int,
                                  holderKey: string, kid: string, nonce: string, audience: string, iat: int)
    requires Lawful(kit) && '~' !in t.jwt
    requires JwtPayload(kit, t.jwt).Some? && HolderKey(kit, JwtPayload(kit, t.jwt).value) == Some(kit.publicKey(holderKey))
    ensures var base := SerializeWith(kit, t, Select(t.disclosures, keys));
            && base[..|base| - 1] != base
            && (Verify(kit, PresentWithKeyBinding(kit, t, keys, holderKey, kid, nonce, audience, iat), nonce, audience, now).Ok?
                <==> Verify(kit, base, "", "", now).Ok? && kit.sha256(base[..|base| - 1]) == kit.sha256(base))
  {
    hide Verify, Select, HolderKey, SignJwt, KbClaims, Join, JwtPayload;
    var base := SerializeWith(kit, t, Select(t.disclosures, keys));
    assert base[|base| - 1] == '~';
    KeyBindingIff(kit, t, Select(t.disclosures, keys), now, holderKey, kid, nonce, audience, iat, SignerHash(kit, base));
    var x, y := base[..|base| - 1], base;
    assert kit.unb64(kit.b64(kit.sha256(x))) == Some(kit.sha256(x));
    assert kit.unb64(kit.b64(kit.sha256(y))) == Some(kit.sha256(y));
  }
}
