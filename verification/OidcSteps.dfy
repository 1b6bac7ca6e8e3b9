/** The token endpoint and its neighbours as atomic steps over the store's tables. Each handler
    is a function from tables and request to new tables and an outcome. */
module OidcSteps {
  import opened Results
  import opened Times

  type Time = int

  const CODE_TTL: Time := 300 * SECOND
  const REFRESH_TTL: Time := 30 * 24 * 3600 * SECOND
  const DEVICE_TTL: Time := 900 * SECOND
  const PAR_TTL: Time := 90 * SECOND

  /** Names of the form and query parameters the handlers read. */
  datatype Param =
    | ClientId | RedirectUri | ScopeParam | NonceParam | StateParam | CodeChallenge | CodeChallengeMethod
    | RequestUriParam | OtherParam(name: string)

  type Params = map<Param, string>

  // ----- tables -----

  datatype Client = Client(redirectUris: seq<string>, authMethod: string, secretHash: string)

  datatype Session = Session(
    subject: string, client: string, redirectUri: string, scope: string, nonce: string, state: string,
    code: string, challenge: string, challengeMethod: string, refreshTokenHash: string, expiresAt: Time)

  datatype RefreshToken = RefreshToken(subject: string, client: string, scope: string, issuedAt: Time, expiresAt: Time, usedAt: Option<Time>)

  datatype DeviceCode = DeviceCode(userCode: string, client: string, scope: string, subject: string, approved: bool, denied: bool, expiresAt: Time)

  datatype ParRequest = ParRequest(client: string, params: Params, expiresAt: Time)

  datatype Tables = Tables(
    clients: map<string, Client>,
    sessions: map<string, Session>,
    refresh: map<string, RefreshToken>,
    devices: map<string, DeviceCode>,
    par: map<string, ParRequest>)

  /** SaveSession: a conflicting id keeps the row's owner, client, redirect, scope and nonce. */
  function SaveSession(sessions: map<string, Session>, id: string, s: Session): map<string, Session> {
    if id in sessions then
      sessions[id := sessions[id].(state := s.state, code := s.code, challenge := s.challenge,
        challengeMethod := s.challengeMethod, refreshTokenHash := s.refreshTokenHash, expiresAt := s.expiresAt)]
    else sessions[id := s]
  }

  /** SaveRefreshToken: a conflicting hash changes only used_at. */
  function SaveRefreshToken(refresh: map<string, RefreshToken>, hash: string, t: RefreshToken): map<string, RefreshToken> {
    if hash in refresh then refresh[hash := refresh[hash].(usedAt := t.usedAt)] else refresh[hash := t]
  }

  /** SaveDeviceCode: a conflicting device code changes only the user's decision. */
  function SaveDeviceCode(devices: map<string, DeviceCode>, code: string, d: DeviceCode): map<string, DeviceCode> {
    if code in devices then devices[code := devices[code].(subject := d.subject, approved := d.approved, denied := d.denied)]
    else devices[code := d]
  }

  // ----- requests and outcomes -----

  /** The hash functions and the string operation the handlers call. */
  datatype Env = Env(hashToken: string -> string, s256: string -> string, hashSecret: string -> string, upper: string -> string)

  datatype Credentials = Credentials(basic: Option<(string, string)>, secret: string)

  /** One call, with the random values it draws. */
  datatype Request =
    | Authorize(query: Params, subjectHeader: string, sessionId: string, freshCode: string)
    | IssueSession(session: Session, sessionId: string, freshCode: string)
    | ExchangeCode(code: string, clientId: string, verifier: string, creds: Credentials, freshRefresh: string)
    | RefreshGrant(rawToken: string, creds: Credentials, freshRefresh: string)
    | StartDevice(clientId: string, scope: string, creds: Credentials, freshDevice: string, userCode: string)
    | ApproveDevice(userCode: string, subject: string)
    | DeviceGrant(deviceCode: string, clientId: string, freshRefresh: string)
    | PushRequest(form: Params, creds: Credentials, freshId: string)
    | RevokeToken(token: string, hint: string, clientId: string, creds: Credentials)
    | Logout(subject: string)
    | DeleteSession(sessionId: string)
    | PurgeSessions
    | ChangeClients(clients: map<string, Client>)

  /** The error codes the handlers answer with. */
  datatype Error =
    | BadRequest | InternalError | InvalidRequest | InvalidClient | InvalidGrant | UnauthorizedClient
    | ExpiredToken | AccessDenied | AuthorizationPending

  /** What a call did; a request_uri it resolved is recorded even when it goes on to refuse. */
  datatype Outcome =
    | Refused(error: Error, resolved: Option<string>)
    | CodeIssued(session: Session, resolved: Option<string>)
    | CodeRedeemed(session: Session, verifier: string, newHash: string)
    | Rotated(oldHash: string, newHash: string)
    | DeviceStarted(deviceCode: string, device: DeviceCode)
    | DeviceApproved(deviceCode: string, subject: string)
    | DeviceRedeemed(deviceCode: string, device: DeviceCode, newHash: string)
    | Pushed(requestUri: string, request: ParRequest)
    | Done

  function Get(m: Params, k: Param): string {
    if k in m then m[k] else ""
  }

  /** validateClientAuth. */
  predicate ClientAuthOk(env: Env, clients: map<string, Client>, clientId: string, creds: Credentials) {
    && clientId in clients
    && (clients[clientId].authMethod == "none" ||
        var secret := if creds.basic.Some? && creds.basic.value.0 == clientId then creds.basic.value.1 else creds.secret;
        secret != "" && env.hashSecret(secret) == clients[clientId].secretHash)
  }

  // ----- authorize -----

  /** The checks of AuthorizeHandler after the parameters are known; None lets the call through. */
  function AuthorizeError(clients: map<string, Client>, q: Params, subject: string): Option<Error> {
    var clientId, redirectUri := Get(q, ClientId), Get(q, RedirectUri);
    if clientId == "" || redirectUri == "" || subject == "" then Some(BadRequest)
    else if Get(q, StateParam) == "" then Some(InvalidRequest)
    else if Get(q, CodeChallenge) == "" then Some(InvalidRequest)
    else if Get(q, CodeChallengeMethod) != "S256" then Some(InvalidRequest)
    else if clientId !in clients then Some(UnauthorizedClient)
    else if redirectUri !in clients[clientId].redirectUris then Some(InvalidRequest)
    else None
  }

  function NewSession(q: Params, subject: string, code: string, now: Time): Session {
    Session(subject, Get(q, ClientId), Get(q, RedirectUri), Get(q, ScopeParam), Get(q, NonceParam), Get(q, StateParam),
            code, Get(q, CodeChallenge), Get(q, CodeChallengeMethod), "", now + CODE_TTL)
  }

  function AuthorizeWith(t: Tables, now: Time, q: Params, r: Request, resolved: Option<string>): (Tables, Outcome)
    requires r.Authorize?
  {
    var error := AuthorizeError(t.clients, q, r.subjectHeader);
    if error.Some? then (t, Refused(error.value, resolved))
    else
      var s := NewSession(q, r.subjectHeader, r.freshCode, now);
      (t.(sessions := SaveSession(t.sessions, r.sessionId, s)), CodeIssued(s, resolved))
  }

  function AuthorizeStep(t: Tables, now: Time, r: Request): (Tables, Outcome)
    requires r.Authorize?
  {
    var uri := Get(r.query, RequestUriParam);
    if uri == "" then AuthorizeWith(t, now, r.query, r, None)
    else if uri !in t.par then (t, Refused(InvalidRequest, None))
    else
      var t' := t.(par := t.par - {uri});
      if now > t.par[uri].expiresAt then (t', Refused(InvalidRequest, None))
      else AuthorizeWith(t', now, r.query + t.par[uri].params, r, Some(uri))
  }

  function IssueSessionStep(t: Tables, now: Time, r: Request): (Tables, Outcome)
    requires r.IssueSession?
  {
    var s := r.session.(code := r.freshCode, state := "", refreshTokenHash := "", expiresAt := now + CODE_TTL);
    (t.(sessions := SaveSession(t.sessions, r.sessionId, s)), CodeIssued(s, None))
  }

  // ----- authorization code -----

  ghost predicate HasCode(sessions: map<string, Session>, code: string) {
    exists id :: id in sessions && sessions[id].code == code
  }

  /** The row GetSessionByCode returns. */
  ghost function IdOfCode(sessions: map<string, Session>, code: string): (id: string)
    requires HasCode(sessions, code)
    ensures id in sessions && sessions[id].code == code
  {
    var id :| id in sessions && sessions[id].code == code; id
  }

  function ExchangeError(env: Env, t: Tables, now: Time, s: Session, r: Request): Option<Error>
    requires r.ExchangeCode?
  {
    if now > s.expiresAt then Some(InvalidGrant)
    else if r.clientId != "" && r.clientId != s.client then Some(InvalidGrant)
    else if r.verifier == "" then Some(InvalidGrant)
    else if s.challenge == "" then Some(InvalidGrant)
    else if env.s256(r.verifier) != s.challenge then Some(InvalidGrant)
    else if !ClientAuthOk(env, t.clients, s.client, r.creds) then Some(InvalidClient)
    else None
  }

  ghost function ExchangeStep(env: Env, t: Tables, now: Time, r: Request): (Tables, Outcome)
    requires r.ExchangeCode?
  {
    if r.code == "" then (t, Refused(InvalidRequest, None))
    else if !HasCode(t.sessions, r.code) then (t, Refused(InvalidGrant, None))
    else
      var id := IdOfCode(t.sessions, r.code);
      var s := t.sessions[id];
      var error := ExchangeError(env, t, now, s, r);
      if error.Some? then (t, Refused(error.value, None))
      else
        var hash := env.hashToken(r.freshRefresh);
        var rt := RefreshToken(s.subject, s.client, s.scope, now, now + REFRESH_TTL, None);
        (t.(refresh := SaveRefreshToken(t.refresh, hash, rt), sessions := t.sessions - {id}),
         CodeRedeemed(s, r.verifier, hash))
  }

  // ----- refresh token rotation -----

  function RefreshStep(env: Env, t: Tables, now: Time, r: Request): (Tables, Outcome)
    requires r.RefreshGrant?
  {
    var hash := env.hashToken(r.rawToken);
    if r.rawToken == "" then (t, Refused(InvalidRequest, None))
    else if hash !in t.refresh then (t, Refused(InvalidGrant, None))
    else
      var rt := t.refresh[hash];
      if now > rt.expiresAt then (t.(refresh := t.refresh - {hash}), Refused(InvalidGrant, None))
      else if rt.usedAt.Some? then (t.(refresh := t.refresh - {hash}), Refused(InvalidGrant, None))
      else if !ClientAuthOk(env, t.clients, rt.client, r.creds) then (t, Refused(InvalidClient, None))
      else
        var marked := SaveRefreshToken(t.refresh, hash, rt.(usedAt := Some(now)));
        var newHash := env.hashToken(r.freshRefresh);
        var next := RefreshToken(rt.subject, rt.client, rt.scope, now, now + REFRESH_TTL, None);
        (t.(refresh := SaveRefreshToken(marked, newHash, next)), Rotated(hash, newHash))
  }

  // ----- device codes -----

  ghost predicate HasUserCode(devices: map<string, DeviceCode>, userCode: string) {
    exists d :: d in devices && devices[d].userCode == userCode
  }

  ghost function DeviceOfUserCode(devices: map<string, DeviceCode>, userCode: string): (d: string)
    requires HasUserCode(devices, userCode)
    ensures d in devices && devices[d].userCode == userCode
  {
    var d :| d in devices && devices[d].userCode == userCode; d
  }

  ghost function StartDeviceStep(env: Env, t: Tables, now: Time, r: Request): (Tables, Outcome)
    requires r.StartDevice?
  {
    if r.clientId == "" then (t, Refused(InvalidClient, None))
    else if !ClientAuthOk(env, t.clients, r.clientId, r.creds) then (t, Refused(InvalidClient, None))
    else if HasUserCode(t.devices, r.userCode) then (t, Refused(InternalError, None))
    else
      var d := DeviceCode(r.userCode, r.clientId, r.scope, "", false, false, now + DEVICE_TTL);
      (t.(devices := SaveDeviceCode(t.devices, r.freshDevice, d)), DeviceStarted(r.freshDevice, d))
  }

  ghost function ApproveDeviceStep(env: Env, t: Tables, now: Time, r: Request): (Tables, Outcome)
    requires r.ApproveDevice?
  {
    var userCode := env.upper(r.userCode);
    if userCode == "" || r.subject == "" then (t, Refused(InvalidRequest, None))
    else if !HasUserCode(t.devices, userCode) then (t, Refused(InvalidRequest, None))
    else
      var d := DeviceOfUserCode(t.devices, userCode);
      if now > t.devices[d].expiresAt then (t, Refused(InvalidRequest, None))
      else
        (t.(devices := t.devices[d := t.devices[d].(subject := r.subject, approved := true)]), DeviceApproved(d, r.subject))
  }

  function DeviceGrantStep(env: Env, t: Tables, now: Time, r: Request): (Tables, Outcome)
    requires r.DeviceGrant?
  {
    var code := r.deviceCode;
    if code == "" then (t, Refused(InvalidRequest, None))
    else if code !in t.devices then (t, Refused(InvalidGrant, None))
    else
      var d := t.devices[code];
      if r.clientId != "" && r.clientId != d.client then (t, Refused(InvalidClient, None))
      else if now > d.expiresAt then (t.(devices := t.devices - {code}), Refused(ExpiredToken, None))
      else if d.denied then (t.(devices := t.devices - {code}), Refused(AccessDenied, None))
      else if !d.approved then (t, Refused(AuthorizationPending, None))
      else
        var hash := env.hashToken(r.freshRefresh);
        var rt := RefreshToken(d.subject, d.client, d.scope, now, now + REFRESH_TTL, None);
        (t.(refresh := SaveRefreshToken(t.refresh, hash, rt), devices := t.devices - {code}),
         DeviceRedeemed(code, d, hash))
  }

  // ----- pushed requests, revocation, logout -----

  function RequestUri(id: string): string {
    "urn:ietf:params:oauth:request_uri:" + id
  }

  function NonEmpty(form: Params): Params {
    map k | k in form && form[k] != "" :: form[k]
  }

  function PushStep(env: Env, t: Tables, now: Time, r: Request): (Tables, Outcome)
    requires r.PushRequest?
  {
    var clientId, redirectUri := Get(r.form, ClientId), Get(r.form, RedirectUri);
    if clientId == "" then (t, Refused(InvalidClient, None))
    else if !ClientAuthOk(env, t.clients, clientId, r.creds) then (t, Refused(InvalidClient, None))
    else if redirectUri != "" && redirectUri !in t.clients[clientId].redirectUris then (t, Refused(InvalidRequest, None))
    else
      var uri := RequestUri(r.freshId);
      if uri in t.par then (t, Refused(InternalError, None))
      else
        var request := ParRequest(clientId, NonEmpty(r.form), now + PAR_TTL);
        (t.(par := t.par[uri := request]), Pushed(uri, request))
  }

  function RevokeStep(env: Env, t: Tables, r: Request): (Tables, Outcome)
    requires r.RevokeToken?
  {
    var clientId := if r.clientId == "" && r.creds.basic.Some? then r.creds.basic.value.0 else r.clientId;
    var hash := env.hashToken(r.token);
    if r.token == "" then (t, Refused(InvalidRequest, None))
    else if clientId != "" && !ClientAuthOk(env, t.clients, clientId, r.creds) then (t, Refused(InvalidClient, None))
    else if (r.hint == "" || r.hint == "refresh_token") && hash in t.refresh && (clientId == "" || t.refresh[hash].client == clientId)
    then (t.(refresh := t.refresh - {hash}), Done)
    else (t, Done)
  }

  function LogoutStep(t: Tables, now: Time, r: Request): (Tables, Outcome)
    requires r.Logout?
  {
    if r.subject == "" then (t, Done)
    else
      var mine := SessionsOf(t.sessions, r.subject, now);
      (t.(refresh := t.refresh - NamedTokens(t.sessions, mine), sessions := Unexpired(t.sessions - mine, now)), Done)
  }

  function SessionsOf(sessions: map<string, Session>, subject: string, now: Time): set<string> {
    set id | id in sessions && sessions[id].subject == subject && sessions[id].expiresAt > now
  }

  function NamedTokens(sessions: map<string, Session>, ids: set<string>): set<string> {
    set id | id in ids && id in sessions && sessions[id].refreshTokenHash != "" :: sessions[id].refreshTokenHash
  }

  function Unexpired(sessions: map<string, Session>, now: Time): map<string, Session> {
    map id | id in sessions && sessions[id].expiresAt >= now :: sessions[id]
  }

  ghost function Next(env: Env, t: Tables, now: Time, r: Request): (Tables, Outcome) {
    match r
    case Authorize(_, _, _, _) => AuthorizeStep(t, now, r)
    case IssueSession(_, _, _) => IssueSessionStep(t, now, r)
    case ExchangeCode(_, _, _, _, _) => ExchangeStep(env, t, now, r)
    case RefreshGrant(_, _, _) => RefreshStep(env, t, now, r)
    case StartDevice(_, _, _, _, _) => StartDeviceStep(env, t, now, r)
    case ApproveDevice(_, _) => ApproveDeviceStep(env, t, now, r)
    case DeviceGrant(_, _, _) => DeviceGrantStep(env, t, now, r)
    case PushRequest(_, _, _) => PushStep(env, t, now, r)
    case RevokeToken(_, _, _, _) => RevokeStep(env, t, r)
    case Logout(_) => LogoutStep(t, now, r)
    case DeleteSession(id) => (t.(sessions := t.sessions - {id}), Done)
    case PurgeSessions => (t.(sessions := Unexpired(t.sessions, now)), Done)
    case ChangeClients(clients) => (t.(clients := clients), Done)
  }
}
