/** What each call demands and what it leaves behind, said on the request and the tables alone: when
    a call is honoured, exactly what it stores and removes, and what that means over runs. */
module OidcGrants {
  import opened Results
  import opened Times
  import opened OidcSteps
  import opened OidcRuns
  import opened OidcLineage

  // ----- client authentication -----

  /** The secret a request presents for a client: the Basic password when its user is that client,
      otherwise the form's client_secret. */
  function Presented(creds: Credentials, client: string): string {
    match creds.basic
    case Some((user, password)) => if user == client then password else creds.secret
    case None => creds.secret
  }

  /** The client is registered, and public or proven by its secret. */
  predicate Proven(env: Env, clients: map<string, Client>, client: string, creds: Credentials) {
    && client in clients
    && (clients[client].authMethod == "none" ||
        (Presented(creds, client) != "" && env.hashSecret(Presented(creds, client)) == clients[client].secretHash))
  }

  lemma AuthIsProof(env: Env, clients: map<string, Client>, client: string, creds: Credentials)
    ensures ClientAuthOk(env, clients, client, creds) <==> Proven(env, clients, client, creds)
  {
  }

  // ----- authorization codes -----

  predicate Given(q: Params, k: Param) {
    k in q && q[k] != ""
  }

  function Or(q: Params, k: Param): string {
    if k in q then q[k] else ""
  }

  /** The parameters that count: what was pushed under the request_uri wins over the query. */
  function Effective(t: Tables, r: Request): Params
    requires r.Authorize?
  {
    if Given(r.query, RequestUriParam) && r.query[RequestUriParam] in t.par
    then r.query + t.par[r.query[RequestUriParam]].params else r.query
  }

  predicate UriHonoured(t: Tables, now: Time, r: Request)
    requires r.Authorize?
  {
    Given(r.query, RequestUriParam) ==>
      r.query[RequestUriParam] in t.par && now <= t.par[r.query[RequestUriParam]].expiresAt
  }

  /** A code is issued exactly to a registered client with one of its redirect URIs, for a known
      subject, with a state and an S256 challenge. */
  predicate Authorizable(t: Tables, now: Time, r: Request)
    requires r.Authorize?
  {
    var q := Effective(t, r);
    && UriHonoured(t, now, r) && r.subjectHeader != ""
    && Given(q, ClientId) && Given(q, RedirectUri) && Given(q, StateParam) && Given(q, CodeChallenge)
    && CodeChallengeMethod in q && q[CodeChallengeMethod] == "S256"
    && q[ClientId] in t.clients && q[RedirectUri] in t.clients[q[ClientId]].redirectUris
  }

  function IssuedSession(t: Tables, now: Time, r: Request): Session
    requires r.Authorize?
  {
    var q := Effective(t, r);
    Session(r.subjectHeader, Or(q, ClientId), Or(q, RedirectUri), Or(q, ScopeParam), Or(q, NonceParam), Or(q, StateParam),
            r.freshCode, Or(q, CodeChallenge), "S256", "", now + 300_000_000_000)
  }

  lemma {:induction false} AuthorizeIff(t: Tables, now: Time, r: Request)
    requires r.Authorize? && FreshRow(t, r)
    ensures var (t', o) := AuthorizeStep(t, now, r);
      && (o.CodeIssued? <==> Authorizable(t, now, r))
      && (o.CodeIssued? ==> o.session == IssuedSession(t, now, r))
      && t' == t.(sessions := if Authorizable(t, now, r) then t.sessions[r.sessionId := IssuedSession(t, now, r)] else t.sessions,
                  par := if Given(r.query, RequestUriParam) then t.par - {r.query[RequestUriParam]} else t.par)
  {
    var uri := Get(r.query, RequestUriParam);
    if uri != "" && uri !in t.par {
      assert t.par - {uri} == t.par;
    }
    AuthorizeChecks(t.clients, Effective(t, r), r.subjectHeader);
    hide AuthorizeError;
  }

  lemma AuthorizeChecks(clients: map<string, Client>, q: Params, subject: string)
    ensures AuthorizeError(clients, q, subject).None? <==>
            && subject != "" && Given(q, ClientId) && Given(q, RedirectUri) && Given(q, StateParam) && Given(q, CodeChallenge)
            && CodeChallengeMethod in q && q[CodeChallengeMethod] == "S256"
            && q[ClientId] in clients && q[RedirectUri] in clients[q[ClientId]].redirectUris
  {
    assert "S256" != "" by { assert |"S256"| == 4; }
  }

  /** The bridge's session keeps what it was given and gets a code for five minutes. */
  lemma IssueSessionIs(t: Tables, now: Time, r: Request)
    requires r.IssueSession? && FreshRow(t, r)
    ensures var (t', o) := IssueSessionStep(t, now, r);
      && o.CodeIssued? && t' == t.(sessions := t.sessions[r.sessionId := o.session])
      && o.session.code == r.freshCode && o.session.expiresAt == now + 300_000_000_000 && o.session.refreshTokenHash == ""
      && o.session.subject == r.session.subject && o.session.client == r.session.client && o.session.scope == r.session.scope
      && o.session.redirectUri == r.session.redirectUri && o.session.nonce == r.session.nonce && o.session.state == ""
      && o.session.challenge == r.session.challenge && o.session.challengeMethod == r.session.challengeMethod
  {
  }

  /** The session id holds the code and the request redeems it. */
  predicate Redeemable(env: Env, t: Tables, now: Time, r: Request, id: string)
    requires r.ExchangeCode?
  {
    && r.code != "" && id in t.sessions
    && var s := t.sessions[id];
    && s.code == r.code && now <= s.expiresAt && (r.clientId == "" || r.clientId == s.client)
    && r.verifier != "" && s.challenge != "" && env.s256(r.verifier) == s.challenge
    && Proven(env, t.clients, s.client, r.creds)
  }

  /** A token for what was granted, usable for thirty days. */
  function NewToken(subject: string, client: string, scope: string, now: Time): RefreshToken {
    RefreshToken(subject, client, scope, now, now + 2_592_000_000_000_000, None)
  }

  lemma {:induction false} ExchangeIff(env: Env, t: Tables, now: Time, r: Request)
    requires r.ExchangeCode? && UniqueCodes(t.sessions) && env.hashToken(r.freshRefresh) !in t.refresh
    ensures var (t', o) := ExchangeStep(env, t, now, r);
      && (o.CodeRedeemed? <==> exists id :: Redeemable(env, t, now, r, id))
      && (!o.CodeRedeemed? ==> t' == t)
      && forall id :: Redeemable(env, t, now, r, id) ==>
           var s := t.sessions[id];
           && o == CodeRedeemed(s, r.verifier, env.hashToken(r.freshRefresh))
           && t' == t.(sessions := t.sessions - {id},
                       refresh := t.refresh[env.hashToken(r.freshRefresh) := NewToken(s.subject, s.client, s.scope, now)])
  {
    var (t', o) := ExchangeStep(env, t, now, r);
    forall id | id in t.sessions && t.sessions[id].code == r.code
      ensures HasCode(t.sessions, r.code) && IdOfCode(t.sessions, r.code) == id
    {
    }
    if HasCode(t.sessions, r.code) {
      var id := IdOfCode(t.sessions, r.code);
      AuthIsProof(env, t.clients, t.sessions[id].client, r.creds);
      hide ClientAuthOk, Proven, HasCode, UniqueCodes, IdOfCode;
      assert o.CodeRedeemed? <==> Redeemable(env, t, now, r, id);
    }
  }

  // ----- refresh tokens -----

  predicate Rotatable(env: Env, t: Tables, now: Time, r: Request)
    requires r.RefreshGrant?
  {
    && r.rawToken != "" && env.hashToken(r.rawToken) in t.refresh
    && var rt := t.refresh[env.hashToken(r.rawToken)];
    now <= rt.expiresAt && rt.usedAt.None? && Proven(env, t.clients, rt.client, r.creds)
  }

  /** Presented after its expiry or a second time. */
  predicate Stale(env: Env, t: Tables, now: Time, r: Request)
    requires r.RefreshGrant?
  {
    && r.rawToken != "" && env.hashToken(r.rawToken) in t.refresh
    && (now > t.refresh[env.hashToken(r.rawToken)].expiresAt || t.refresh[env.hashToken(r.rawToken)].usedAt.Some?)
  }

  /** Rotation marks the old token and stores one new one; a stale token is removed; anything else
      changes nothing. */
  lemma {:induction false} RefreshIff(env: Env, t: Tables, now: Time, r: Request)
    requires r.RefreshGrant? && env.hashToken(r.freshRefresh) !in t.refresh
    ensures var (t', o) := RefreshStep(env, t, now, r);
      var h, h' := env.hashToken(r.rawToken), env.hashToken(r.freshRefresh);
      && (o.Rotated? <==> Rotatable(env, t, now, r))
      && (Rotatable(env, t, now, r) ==>
            && o == Rotated(h, h')
            && var rt := t.refresh[h];
               t' == t.(refresh := t.refresh[h := rt.(usedAt := Some(now))][h' := NewToken(rt.subject, rt.client, rt.scope, now)]))
      && (!Rotatable(env, t, now, r) ==> t' == t.(refresh := if Stale(env, t, now, r) then t.refresh - {h} else t.refresh))
  {
    if env.hashToken(r.rawToken) in t.refresh {
      AuthIsProof(env, t.clients, t.refresh[env.hashToken(r.rawToken)].client, r.creds);
    }
    hide ClientAuthOk, Proven;
  }

  // ----- device codes -----

  predicate UserCodeFree(devices: map<string, DeviceCode>, userCode: string) {
    forall d :: d in devices ==> devices[d].userCode != userCode
  }

  lemma {:induction false} StartDeviceIff(env: Env, t: Tables, now: Time, r: Request)
    requires r.StartDevice? && r.freshDevice !in t.devices
    ensures var (t', o) := StartDeviceStep(env, t, now, r);
      var d := DeviceCode(r.userCode, r.clientId, r.scope, "", false, false, now + 900_000_000_000);
      && (o.DeviceStarted? <==> r.clientId != "" && Proven(env, t.clients, r.clientId, r.creds) && UserCodeFree(t.devices, r.userCode))
      && (o.DeviceStarted? ==> o == DeviceStarted(r.freshDevice, d) && t' == t.(devices := t.devices[r.freshDevice := d]))
      && (!o.DeviceStarted? ==> t' == t)
  {
    AuthIsProof(env, t.clients, r.clientId, r.creds);
    hide ClientAuthOk, Proven;
  }

  /** The device code the upper-cased user code names, while it is valid. */
  predicate Approvable(env: Env, t: Tables, now: Time, r: Request, d: string)
    requires r.ApproveDevice?
  {
    && env.upper(r.userCode) != "" && r.subject != "" && d in t.devices
    && t.devices[d].userCode == env.upper(r.userCode) && now <= t.devices[d].expiresAt
  }

  ghost predicate OneDevicePerCode(devices: map<string, DeviceCode>) {
    forall a, b :: a in devices && b in devices && devices[a].userCode == devices[b].userCode ==> a == b
  }

  lemma {:induction false} ApproveDeviceIff(env: Env, t: Tables, now: Time, r: Request)
    requires r.ApproveDevice? && OneDevicePerCode(t.devices)
    ensures var (t', o) := ApproveDeviceStep(env, t, now, r);
      && (o.DeviceApproved? <==> exists d :: Approvable(env, t, now, r, d))
      && (!o.DeviceApproved? ==> t' == t)
      && forall d :: Approvable(env, t, now, r, d) ==>
           && o == DeviceApproved(d, r.subject)
           && t' == t.(devices := t.devices[d := t.devices[d].(subject := r.subject, approved := true)])
  {
    var (t', o) := ApproveDeviceStep(env, t, now, r);
    var code := env.upper(r.userCode);
    forall d | d in t.devices && t.devices[d].userCode == code
      ensures HasUserCode(t.devices, code) && DeviceOfUserCode(t.devices, code) == d
    {
    }
    if HasUserCode(t.devices, code) {
      var d := DeviceOfUserCode(t.devices, code);
      hide HasUserCode, OneDevicePerCode, DeviceOfUserCode;
      assert o.DeviceApproved? <==> Approvable(env, t, now, r, d);
    }
  }

  predicate Grantable(t: Tables, now: Time, r: Request)
    requires r.DeviceGrant?
  {
    && r.deviceCode != "" && r.deviceCode in t.devices
    && var d := t.devices[r.deviceCode];
    (r.clientId == "" || r.clientId == d.client) && now <= d.expiresAt && !d.denied && d.approved
  }

  /** The right client asks, but the code has expired or was denied. */
  predicate Spoiled(t: Tables, now: Time, r: Request)
    requires r.DeviceGrant?
  {
    && r.deviceCode != "" && r.deviceCode in t.devices
    && var d := t.devices[r.deviceCode];
    (r.clientId == "" || r.clientId == d.client) && (now > d.expiresAt || d.denied)
  }

  lemma {:induction false} DeviceGrantIff(env: Env, t: Tables, now: Time, r: Request)
    requires r.DeviceGrant? && env.hashToken(r.freshRefresh) !in t.refresh
    ensures var (t', o) := DeviceGrantStep(env, t, now, r);
      var h := env.hashToken(r.freshRefresh);
      && (o.DeviceRedeemed? <==> Grantable(t, now, r))
      && (Grantable(t, now, r) ==>
            var d := t.devices[r.deviceCode];
            && o == DeviceRedeemed(r.deviceCode, d, h)
            && t' == t.(devices := t.devices - {r.deviceCode}, refresh := t.refresh[h := NewToken(d.subject, d.client, d.scope, now)]))
      && (!Grantable(t, now, r) ==> t' == t.(devices := if Spoiled(t, now, r) then t.devices - {r.deviceCode} else t.devices))
  {
  }

  // ----- pushed requests -----

  predicate Pushable(env: Env, t: Tables, r: Request)
    requires r.PushRequest?
  {
    && Given(r.form, ClientId) && Proven(env, t.clients, r.form[ClientId], r.creds)
    && (Given(r.form, RedirectUri) ==> r.form[RedirectUri] in t.clients[r.form[ClientId]].redirectUris)
    && "urn:ietf:params:oauth:request_uri:" + r.freshId !in t.par
  }

  /** What is stored is every non-empty parameter of the form, for ninety seconds. */
  lemma {:induction false} PushIff(env: Env, t: Tables, now: Time, r: Request)
    requires r.PushRequest?
    ensures var (t', o) := PushStep(env, t, now, r);
      && (o.Pushed? <==> Pushable(env, t, r))
      && (!o.Pushed? ==> t' == t)
      && (o.Pushed? ==>
            && o.requestUri == "urn:ietf:params:oauth:request_uri:" + r.freshId
            && t' == t.(par := t.par[o.requestUri := o.request])
            && o.request.client == r.form[ClientId] && o.request.expiresAt == now + 90_000_000_000
            && forall k :: if Given(r.form, k) then k in o.request.params && o.request.params[k] == r.form[k] else k !in o.request.params)
  {
    if Given(r.form, ClientId) {
      AuthIsProof(env, t.clients, r.form[ClientId], r.creds);
    }
    hide ClientAuthOk;
  }

  // ----- revocation and logout -----

  /** The client the request speaks for: the form's, else the Basic user, else none. */
  function Speaker(r: Request): string
    requires r.RevokeToken?
  {
    if r.clientId != "" then r.clientId
    else match r.creds.basic case Some((user, _)) => user case None => ""
  }

  /** The request may revoke the refresh token it names: nobody in particular asks, or its owner,
      proven. */
  predicate Revocable(env: Env, t: Tables, r: Request)
    requires r.RevokeToken?
  {
    && r.token != "" && (r.hint == "" || r.hint == "refresh_token") && env.hashToken(r.token) in t.refresh
    && (Speaker(r) == "" || (Speaker(r) == t.refresh[env.hashToken(r.token)].client && Proven(env, t.clients, Speaker(r), r.creds)))
  }

  /** Exactly the named token is removed, and only for its owner or an anonymous caller. */
  lemma {:induction false} RevokeIff(env: Env, t: Tables, r: Request)
    requires r.RevokeToken?
    ensures RevokeStep(env, t, r).0 ==
            t.(refresh := if Revocable(env, t, r) then t.refresh - {env.hashToken(r.token)} else t.refresh)
    ensures RevokeStep(env, t, r).1 == Done <==> r.token != "" && (Speaker(r) == "" || Proven(env, t.clients, Speaker(r), r.creds))
  {
    AuthIsProof(env, t.clients, Speaker(r), r.creds);
    hide ClientAuthOk, Proven;
  }

  /** Logout ends every unexpired session of the subject and keeps every other session that has not
      expired; an anonymous logout does nothing. */
  lemma {:induction false} LogoutEndsSessions(t: Tables, now: Time, r: Request, id: string)
    requires r.Logout?
    ensures var t' := LogoutStep(t, now, r).0;
      && t' == t.(sessions := t'.sessions, refresh := t'.refresh)
      && (r.subject == "" ==> t' == t)
      && (id in t'.sessions ==> id in t.sessions && t'.sessions[id] == t.sessions[id])
      && (r.subject != "" && id in t.sessions ==>
            (id in t'.sessions <==> if t.sessions[id].subject == r.subject then t.sessions[id].expiresAt == now else t.sessions[id].expiresAt >= now))
  {
  }

  // ----- the error codes -----

  /** Section 5.2 of RFC 6749: a missing code is an invalid request, a client that fails to prove
      itself with everything else in order an invalid client, and anything else an invalid grant. */
  lemma {:induction false} ExchangeErrors(env: Env, t: Tables, now: Time, r: Request, id: string)
    requires r.ExchangeCode? && UniqueCodes(t.sessions) && id in t.sessions && t.sessions[id].code == r.code
    ensures var s, o := t.sessions[id], ExchangeStep(env, t, now, r).1;
      var sound := now <= s.expiresAt && (r.clientId == "" || r.clientId == s.client) && r.verifier != "" && s.challenge != "" &&
                   env.s256(r.verifier) == s.challenge;
      && (o == Refused(InvalidRequest, None) <==> r.code == "")
      && (o == Refused(InvalidGrant, None) <==> r.code != "" && !sound)
      && (o == Refused(InvalidClient, None) <==> r.code != "" && sound && !Proven(env, t.clients, s.client, r.creds))
  {
    assert HasCode(t.sessions, r.code) && IdOfCode(t.sessions, r.code) == id;
    AuthIsProof(env, t.clients, t.sessions[id].client, r.creds);
    hide ClientAuthOk, Proven, HasCode, UniqueCodes, IdOfCode;
  }

  lemma {:induction false} RefreshErrors(env: Env, t: Tables, now: Time, r: Request)
    requires r.RefreshGrant?
    ensures var o, h := RefreshStep(env, t, now, r).1, env.hashToken(r.rawToken);
      && (o == Refused(InvalidRequest, None) <==> r.rawToken == "")
      && (o == Refused(InvalidGrant, None) <==> r.rawToken != "" && (h in t.refresh ==> Stale(env, t, now, r)))
      && (o == Refused(InvalidClient, None) <==>
            r.rawToken != "" && h in t.refresh && !Stale(env, t, now, r) && !Proven(env, t.clients, t.refresh[h].client, r.creds))
  {
    if env.hashToken(r.rawToken) in t.refresh {
      AuthIsProof(env, t.clients, t.refresh[env.hashToken(r.rawToken)].client, r.creds);
    }
    hide ClientAuthOk, Proven;
  }

  /** Section 3.5 of RFC 8628: the poll answers that tell a device to wait, to stop or to start over. */
  lemma {:induction false} DeviceErrors(env: Env, t: Tables, now: Time, r: Request)
    requires r.DeviceGrant? && r.deviceCode in t.devices && r.deviceCode != ""
    ensures var o, d := DeviceGrantStep(env, t, now, r).1, t.devices[r.deviceCode];
      var own := r.clientId == "" || r.clientId == d.client;
      && (o == Refused(InvalidClient, None) <==> !own)
      && (o == Refused(ExpiredToken, None) <==> own && now > d.expiresAt)
      && (o == Refused(AccessDenied, None) <==> own && now <= d.expiresAt && d.denied)
      && (o == Refused(AuthorizationPending, None) <==> own && now <= d.expiresAt && !d.denied && !d.approved)
  {
  }

  lemma {:induction false} OtherErrors(env: Env, t: Tables, now: Time, r: Request)
    ensures r.DeviceGrant? && r.deviceCode == "" ==> DeviceGrantStep(env, t, now, r).1 == Refused(InvalidRequest, None)
    ensures r.DeviceGrant? && r.deviceCode != "" && r.deviceCode !in t.devices ==> DeviceGrantStep(env, t, now, r).1 == Refused(InvalidGrant, None)
    ensures r.ExchangeCode? && r.code != "" && !HasCode(t.sessions, r.code) ==> ExchangeStep(env, t, now, r).1 == Refused(InvalidGrant, None)
    ensures r.StartDevice? && (r.clientId == "" || !Proven(env, t.clients, r.clientId, r.creds)) ==>
            StartDeviceStep(env, t, now, r).1 == Refused(InvalidClient, None)
    ensures r.RevokeToken? && r.token == "" ==> RevokeStep(env, t, r).1 == Refused(InvalidRequest, None)
    ensures r.RevokeToken? && r.token != "" && Speaker(r) != "" && !Proven(env, t.clients, Speaker(r), r.creds) ==>
            RevokeStep(env, t, r).1 == Refused(InvalidClient, None)
    ensures r.PushRequest? && (!Given(r.form, ClientId) || !Proven(env, t.clients, r.form[ClientId], r.creds)) ==>
            PushStep(env, t, now, r).1 == Refused(InvalidClient, None)
    ensures r.PushRequest? && Given(r.form, ClientId) && Proven(env, t.clients, r.form[ClientId], r.creds) &&
            Given(r.form, RedirectUri) && r.form[RedirectUri] !in t.clients[r.form[ClientId]].redirectUris ==>
            PushStep(env, t, now, r).1 == Refused(InvalidRequest, None)
  {
    match r {
      case StartDevice(_, _, _, _, _) => AuthIsProof(env, t.clients, r.clientId, r.creds);
      case RevokeToken(_, _, _, _) => AuthIsProof(env, t.clients, Speaker(r), r.creds);
      case PushRequest(_, _, _) =>
        if Given(r.form, ClientId) {
          AuthIsProof(env, t.clients, r.form[ClientId], r.creds);
        }
      case _ =>
    }
    hide ClientAuthOk, HasCode, HasUserCode, RequestUri, NonEmpty;
  }

  /** The authorization endpoint: an unknown or expired request_uri, a missing state or challenge, a
      method other than S256 and a foreign redirect URI are invalid requests, a missing client,
      redirect URI or subject a bad request, an unknown client an unauthorized one. */
  lemma {:induction false} AuthorizeErrors(t: Tables, now: Time, r: Request)
    requires r.Authorize?
    ensures var o, q := AuthorizeStep(t, now, r).1, Effective(t, r);
      var named := Given(q, ClientId) && Given(q, RedirectUri) && r.subjectHeader != "";
      var bound := Given(q, StateParam) && Given(q, CodeChallenge) && CodeChallengeMethod in q && q[CodeChallengeMethod] == "S256";
      && (o.Refused? && o.error == BadRequest <==> UriHonoured(t, now, r) && !named)
      && (o.Refused? && o.error == UnauthorizedClient <==> UriHonoured(t, now, r) && named && bound && q[ClientId] !in t.clients)
      && (o.Refused? && o.error == InvalidRequest <==>
            !UriHonoured(t, now, r) || (named && (!bound || (q[ClientId] in t.clients && q[RedirectUri] !in t.clients[q[ClientId]].redirectUris))))
  {
    CheckErrors(t.clients, Effective(t, r), r.subjectHeader);
    hide AuthorizeError, SaveSession, NewSession;
  }

  lemma CheckErrors(clients: map<string, Client>, q: Params, subject: string)
    ensures var e := AuthorizeError(clients, q, subject);
      var named := Given(q, ClientId) && Given(q, RedirectUri) && subject != "";
      var bound := Given(q, StateParam) && Given(q, CodeChallenge) && CodeChallengeMethod in q && q[CodeChallengeMethod] == "S256";
      && (e == Some(BadRequest) <==> !named)
      && (e == Some(UnauthorizedClient) <==> named && bound && q[ClientId] !in clients)
      && (e == Some(InvalidRequest) <==> named && (!bound || (q[ClientId] in clients && q[RedirectUri] !in clients[q[ClientId]].redirectUris)))
      && (e.None? || e == Some(BadRequest) || e == Some(UnauthorizedClient) || e == Some(InvalidRequest))
  {
    assert "S256" != "" by { assert |"S256"| == 4; }
  }

  /** Deleting a session removes that row alone; purging keeps exactly the rows not yet past their
      expiry. */
  lemma SessionMaintenance(env: Env, t: Tables, now: Time, id: string, x: string)
    ensures var t' := Next(env, t, now, DeleteSession(id)).0;
            t' == t.(sessions := t'.sessions) && (x in t'.sessions <==> x in t.sessions && x != id) &&
            (x in t'.sessions ==> t'.sessions[x] == t.sessions[x])
    ensures var t' := Next(env, t, now, PurgeSessions).0;
            t' == t.(sessions := t'.sessions) && (x in t'.sessions <==> x in t.sessions && now <= t.sessions[x].expiresAt) &&
            (x in t'.sessions ==> t'.sessions[x] == t.sessions[x])
  {
  }

  /** A conflicting insert never changes whom a row belongs to: sessions keep owner, client, redirect
      URI, scope and nonce, refresh tokens all but their use, device codes all but the decision. */
  lemma UpsertsKeepOwners(t: Tables, k: string, s: Session, rt: RefreshToken, d: DeviceCode)
    ensures k in t.sessions ==>
            var was, saved := t.sessions[k], SaveSession(t.sessions, k, s)[k];
            && saved.subject == was.subject && saved.client == was.client && saved.redirectUri == was.redirectUri
            && saved.scope == was.scope && saved.nonce == was.nonce
            && saved.code == s.code && saved.state == s.state && saved.challenge == s.challenge && saved.expiresAt == s.expiresAt
            && saved.challengeMethod == s.challengeMethod && saved.refreshTokenHash == s.refreshTokenHash
    ensures k in t.refresh ==>
            var was, saved := t.refresh[k], SaveRefreshToken(t.refresh, k, rt)[k];
            && saved.subject == was.subject && saved.client == was.client && saved.scope == was.scope
            && saved.issuedAt == was.issuedAt && saved.expiresAt == was.expiresAt && saved.usedAt == rt.usedAt
    ensures k in t.devices ==>
            var was, saved := t.devices[k], SaveDeviceCode(t.devices, k, d)[k];
            && saved.userCode == was.userCode && saved.client == was.client && saved.scope == was.scope && saved.expiresAt == was.expiresAt
            && saved.subject == d.subject && saved.approved == d.approved && saved.denied == d.denied
  {
  }

  // ----- over runs -----

  /** The client a successful call was for. */
  function ClientOf(t: Tables, o: Outcome): Option<string> {
    match o
    case CodeRedeemed(s, _, _) => Some(s.client)
    case Rotated(h, _) => if h in t.refresh then Some(t.refresh[h].client) else None
    case DeviceStarted(_, d) => Some(d.client)
    case Pushed(_, request) => Some(request.client)
    case _ => None
  }

  /** The credentials the call carried, if its kind carries any. */
  function CredsOf(r: Request): Credentials {
    match r
    case ExchangeCode(_, _, _, creds, _) => creds
    case RefreshGrant(_, creds, _) => creds
    case StartDevice(_, _, creds, _, _) => creds
    case PushRequest(_, creds, _) => creds
    case _ => Credentials(None, "")
  }

  lemma StepProven(env: Env, t: Tables, now: Time, r: Request)
    ensures var o := Next(env, t, now, r).1;
            o.CodeRedeemed? || o.Rotated? || o.DeviceStarted? || o.Pushed? ==>
              ClientOf(t, o).Some? && Proven(env, t.clients, ClientOf(t, o).value, CredsOf(r))
  {
    var o := Next(env, t, now, r).1;
    if ClientOf(t, o).Some? {
      AuthIsProof(env, t.clients, ClientOf(t, o).value, CredsOf(r));
    }
    hide ClientAuthOk, Proven, AuthorizeError, SaveSession, SaveRefreshToken, SaveDeviceCode, NonEmpty, RequestUri, Unexpired, NamedTokens,
         SessionsOf, HasCode, HasUserCode, DeviceOfUserCode, NewSession, Get;
  }

  /** Over every run, codes are redeemed, tokens rotated, device codes started and requests pushed
      only for a client registered at that moment and public, or proven by the secret the call
      presented for it. */
  lemma {:induction false} OnlyProvenClients(env: Env, calls: seq<Call>, j: nat)
    requires j < |calls|
    ensures var t, o := After(env, calls[..j]), Trace(env, calls)[j];
            o.CodeRedeemed? || o.Rotated? || o.DeviceStarted? || o.Pushed? ==>
              ClientOf(t, o).Some? && Proven(env, t.clients, ClientOf(t, o).value, CredsOf(calls[j].request))
  {
    hide After, Trace, Next, Proven, ClientOf, CredsOf, FreshRun, FreshRow, Minted, AllMinted;
    TraceAt(env, calls, j);
    StepProven(env, After(env, calls[..j]), calls[j].now, calls[j].request);
  }

  /** A stored token's ticket was minted, and stays so. */
  lemma StoredIsMinted(env: Env, calls: seq<Call>, h: string)
    requires FreshRun(env, calls) && h in After(env, calls).refresh
    ensures RefreshTicket(h) in AllMinted(Trace(env, calls))
  {
    RunLineage(env, calls);
    hide After, Trace, Next, FreshRun, AllMinted, Rooted, SessionLineage, DeviceLineage;
  }

  lemma RevokeNext(env: Env, t: Tables, now: Time, r: Request)
    requires r.RevokeToken? && Revocable(env, t, r)
    ensures env.hashToken(r.token) in t.refresh && env.hashToken(r.token) !in Next(env, t, now, r).0.refresh
  {
    RevokeIff(env, t, r);
    hide RevokeStep, Proven;
  }

  lemma AbsentIsDead(t: Tables, h: string)
    requires h !in t.refresh
    ensures !Live(t, RefreshTicket(h))
  {
  }

  /** A refresh token revoked by call i is gone after it and is never rotated by a later call. */
  lemma {:induction false} RevokedNeverRotates(env: Env, calls: seq<Call>, i: nat, j: nat)
    requires FreshRun(env, calls) && i < j < |calls| && calls[i].request.RevokeToken?
    requires Revocable(env, After(env, calls[..i]), calls[i].request)
    ensures env.hashToken(calls[i].request.token) !in After(env, calls[..i + 1]).refresh
    ensures RefreshTicket(env.hashToken(calls[i].request.token)) !in Spent(Trace(env, calls)[j])
  {
    hide After, Trace, Next, Spent, FreshRun, FreshRow, Minted, AllMinted, Live, Revocable;
    var r := calls[i].request;
    var h := env.hashToken(r.token);
    RevokeNext(env, After(env, calls[..i]), calls[i].now, r);
    TraceAt(env, calls, i);
    StoredIsMinted(env, calls[..i], h);
    MintedStep(env, calls, i);
    AbsentIsDead(After(env, calls[..i + 1]), h);
    DeadStaysDead(env, calls, i + 1, j, RefreshTicket(h));
  }
}
