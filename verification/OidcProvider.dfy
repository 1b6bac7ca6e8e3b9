/** The provider's handlers as they update the store, proved against the steps. Each handler runs
    as one atomic call and every store write succeeds. */
module OidcProvider {
  import opened Results
  import opened OidcSteps
  import opened OidcRuns

  class Provider {
    const env: Env
    var clients: map<string, Client>
    var sessions: map<string, Session>
    var refreshTokens: map<string, RefreshToken>
    var deviceCodes: map<string, DeviceCode>
    var parRequests: map<string, ParRequest>

    ghost function View(): Tables
      reads this
    {
      Tables(clients, sessions, refreshTokens, deviceCodes, parRequests)
    }

    /** Lookups by code and by user code are unambiguous. */
    ghost predicate Valid()
      reads this
    {
      UniqueCodes(sessions) && UniqueUserCodes(deviceCodes)
    }

    constructor (env: Env)
      ensures Valid() && View() == NO_TABLES && this.env == env
    {
      this.env := env;
      clients, sessions, refreshTokens, deviceCodes, parRequests := map[], map[], map[], map[], map[];
    }

    /** Serves a run of calls on an empty store: the tables and the outcomes are those the run
        theorems speak about, and nothing is honoured twice. */
    method Serve(calls: seq<Call>) returns (outcomes: seq<Outcome>)
      requires View() == NO_TABLES && FreshRun(env, calls)
      modifies this
      ensures Valid() && View() == After(env, calls) && outcomes == Trace(env, calls)
      ensures forall i, j :: 0 <= i < j < |calls| ==> Spent(outcomes[i]) !! Spent(outcomes[j])
    {
      hide Next, Live, UniqueCodes, UniqueUserCodes, Minted, Spent, FreshRow, AllMinted;
      EmptyIsValid();
      outcomes := [];
      for n := 0 to |calls|
        invariant Valid() && View() == After(env, calls[..n]) && outcomes == Trace(env, calls[..n])
      {
        hide After, Trace, FreshRun;
        TraceAt(env, calls, n);
        TraceStep(env, calls, n);
        RunInvariant(env, calls[..n]);
        var o := Dispatch(calls[n].now, calls[n].request);
        outcomes := outcomes + [o];
      }
      assert calls[..|calls|] == calls;
      forall i, j | 0 <= i < j < |calls|
        ensures Spent(outcomes[i]) !! Spent(outcomes[j])
      {
        HonouredAtMostOnce(env, calls, i, j);
      }
    }

    /** One call: routed to its handler. */
    method Dispatch(now: Time, r: Request) returns (o: Outcome)
      requires Valid() && FreshRow(View(), r)
      requires forall k :: k in Minted(Next(env, View(), now, r).1) ==> !Live(View(), k)
      modifies this
      ensures Valid() && (View(), o) == Next(env, old(View()), now, r)
    {
      hide AuthorizeStep, IssueSessionStep, ExchangeStep, RefreshStep, StartDeviceStep, ApproveDeviceStep, DeviceGrantStep, PushStep,
           RevokeStep, LogoutStep, Unexpired, UniqueCodes, UniqueUserCodes, FreshRow, HasCode;
      match r
      case Authorize(_, _, _, _) =>
        IssuedCodes(View(), now, r);
        o := AuthorizeHandler(now, r);
      case IssueSession(_, _, _) =>
        IssuedCodes(View(), now, r);
        o := IssueSessionForDid(now, r);
      case ExchangeCode(_, _, _, _, _) => o := HandleAuthCodeExchange(now, r);
      case RefreshGrant(_, _, _) => o := HandleRefreshTokenGrant(now, r);
      case StartDevice(_, _, _, _, _) => o := DeviceAuthorizationHandler(now, r);
      case ApproveDevice(_, _) => o := DeviceApproveHandler(now, r);
      case DeviceGrant(_, _, _) => o := HandleDeviceGrant(now, r);
      case PushRequest(_, _, _) => o := ParHandler(now, r);
      case RevokeToken(_, _, _, _) => o := RevokeHandler(r);
      case Logout(_) => o := LogoutHandler(now, r);
      case DeleteSession(id) =>
        SubsetOfSessions(sessions, sessions - {id});
        sessions := sessions - {id};
        o := Done;
      case PurgeSessions =>
        UnexpiredSubset(sessions, now);
        SubsetOfSessions(sessions, Unexpired(sessions, now));
        sessions := Unexpired(sessions, now);
        o := Done;
      case ChangeClients(registered) =>
        clients := registered;
        o := Done;
    }

    method ResolveParRequest(uri: string, now: Time) returns (params: Option<Params>)
      modifies this`parRequests
      ensures parRequests == if uri in old(parRequests) then old(parRequests) - {uri} else old(parRequests)
      ensures params == if uri in old(parRequests) && now <= old(parRequests)[uri].expiresAt
                        then Some(old(parRequests)[uri].params) else None
    {
      if uri !in parRequests {
        return None;
      }
      var par := parRequests[uri];
      parRequests := parRequests - {uri};
      if now > par.expiresAt {
        return None;
      }
      params := Some(par.params);
    }

    method AuthorizeHandler(now: Time, r: Request) returns (o: Outcome)
      requires Valid() && r.Authorize? && FreshRow(View(), r)
      requires AuthorizeStep(View(), now, r).1.CodeIssued? ==> !HasCode(sessions, r.freshCode)
      modifies this
      ensures Valid() && (View(), o) == AuthorizeStep(old(View()), now, r)
    {
      hide UniqueUserCodes, SaveSession, AuthorizeError;
      var q := r.query;
      var resolved := None;
      var uri := Get(q, RequestUriParam);
      if uri != "" {
        var params := ResolveParRequest(uri, now);
        if params.None? {
          return Refused(InvalidRequest, None);
        }
        q := q + params.value;
        resolved := Some(uri);
      }
      var error := CheckAuthorize(q, r.subjectHeader);
      if error.Some? {
        return Refused(error.value, resolved);
      }
      var s := NewSession(q, r.subjectHeader, r.freshCode, now);
      SaveFreshSession(sessions, r.sessionId, s);
      sessions := SaveSession(sessions, r.sessionId, s);
      o := CodeIssued(s, resolved);
    }

    method IssueSessionForDid(now: Time, r: Request) returns (o: Outcome)
      requires Valid() && r.IssueSession? && FreshRow(View(), r) && !HasCode(sessions, r.freshCode)
      modifies this`sessions
      ensures Valid() && (View(), o) == IssueSessionStep(old(View()), now, r)
    {
      hide UniqueUserCodes, SaveSession;
      var s := r.session.(code := r.freshCode, state := "", refreshTokenHash := "", expiresAt := now + CODE_TTL);
      SaveFreshSession(sessions, r.sessionId, s);
      sessions := SaveSession(sessions, r.sessionId, s);
      o := CodeIssued(s, None);
    }

    /** The parameter checks of AuthorizeHandler, in the source's order. */
    method CheckAuthorize(q: Params, subject: string) returns (error: Option<Error>)
      ensures error == AuthorizeError(clients, q, subject)
    {
      var clientId, redirectUri := Get(q, ClientId), Get(q, RedirectUri);
      if clientId == "" || redirectUri == "" || subject == "" {
        return Some(BadRequest);
      }
      if Get(q, StateParam) == "" {
        return Some(InvalidRequest);
      }
      if Get(q, CodeChallenge) == "" {
        return Some(InvalidRequest);
      }
      if Get(q, CodeChallengeMethod) != "S256" {
        return Some(InvalidRequest);
      }
      if clientId !in clients {
        return Some(UnauthorizedClient);
      }
      var uris := clients[clientId].redirectUris;
      for i := 0 to |uris|
        invariant redirectUri !in uris[..i]
      {
        if uris[i] == redirectUri {
          return None;
        }
      }
      error := Some(InvalidRequest);
    }

    /** The row with the given code, if any. */
    method FindSession(code: string) returns (id: Option<string>)
      ensures id.Some? ==> id.value in sessions && sessions[id.value].code == code
      ensures id.None? <==> !HasCode(sessions, code)
    {
      var left := sessions.Keys;
      while left != {}
        invariant left <= sessions.Keys
        invariant forall x :: x in sessions && x !in left ==> sessions[x].code != code
        decreases |left|
      {
        var x :| x in left;
        if sessions[x].code == code {
          return Some(x);
        }
        left := left - {x};
      }
      id := None;
    }

    method HandleAuthCodeExchange(now: Time, r: Request) returns (o: Outcome)
      requires Valid() && r.ExchangeCode?
      modifies this
      ensures Valid() && (View(), o) == ExchangeStep(env, old(View()), now, r)
    {
      hide UniqueUserCodes, SaveRefreshToken, ClientAuthOk;
      if r.code == "" {
        return Refused(InvalidRequest, None);
      }
      var found := FindSession(r.code);
      if found.None? {
        return Refused(InvalidGrant, None);
      }
      var id := found.value;
      assert id == IdOfCode(sessions, r.code);
      var s := sessions[id];
      if now > s.expiresAt {
        return Refused(InvalidGrant, None);
      }
      if r.clientId != "" && r.clientId != s.client {
        return Refused(InvalidGrant, None);
      }
      if r.verifier == "" {
        return Refused(InvalidGrant, None);
      }
      if s.challenge == "" {
        return Refused(InvalidGrant, None);
      }
      if env.s256(r.verifier) != s.challenge {
        return Refused(InvalidGrant, None);
      }
      if !ClientAuthOk(env, clients, s.client, r.creds) {
        return Refused(InvalidClient, None);
      }
      var hash := env.hashToken(r.freshRefresh);
      var rt := RefreshToken(s.subject, s.client, s.scope, now, now + REFRESH_TTL, None);
      refreshTokens := SaveRefreshToken(refreshTokens, hash, rt);
      SubsetOfSessions(sessions, sessions - {id});
      sessions := sessions - {id};
      o := CodeRedeemed(s, r.verifier, hash);
    }

    method HandleRefreshTokenGrant(now: Time, r: Request) returns (o: Outcome)
      requires Valid() && r.RefreshGrant?
      modifies this`refreshTokens
      ensures Valid() && (View(), o) == RefreshStep(env, old(View()), now, r)
    {
      hide UniqueCodes, UniqueUserCodes, SaveRefreshToken, ClientAuthOk;
      if r.rawToken == "" {
        return Refused(InvalidRequest, None);
      }
      var hash := env.hashToken(r.rawToken);
      if hash !in refreshTokens {
        return Refused(InvalidGrant, None);
      }
      var rt := refreshTokens[hash];
      if now > rt.expiresAt {
        refreshTokens := refreshTokens - {hash};
        return Refused(InvalidGrant, None);
      }
      if rt.usedAt.Some? {
        refreshTokens := refreshTokens - {hash};
        return Refused(InvalidGrant, None);
      }
      if !ClientAuthOk(env, clients, rt.client, r.creds) {
        return Refused(InvalidClient, None);
      }
      refreshTokens := SaveRefreshToken(refreshTokens, hash, rt.(usedAt := Some(now)));
      var newHash := env.hashToken(r.freshRefresh);
      var next := RefreshToken(rt.subject, rt.client, rt.scope, now, now + REFRESH_TTL, None);
      refreshTokens := SaveRefreshToken(refreshTokens, newHash, next);
      o := Rotated(hash, newHash);
    }

    /** The device code with the given user code, if any. */
    method FindDevice(userCode: string) returns (d: Option<string>)
      ensures d.Some? ==> d.value in deviceCodes && deviceCodes[d.value].userCode == userCode
      ensures d.None? <==> !HasUserCode(deviceCodes, userCode)
    {
      var left := deviceCodes.Keys;
      while left != {}
        invariant left <= deviceCodes.Keys
        invariant forall x :: x in deviceCodes && x !in left ==> deviceCodes[x].userCode != userCode
        decreases |left|
      {
        var x :| x in left;
        if deviceCodes[x].userCode == userCode {
          return Some(x);
        }
        left := left - {x};
      }
      d := None;
    }

    method DeviceAuthorizationHandler(now: Time, r: Request) returns (o: Outcome)
      requires Valid() && r.StartDevice?
      modifies this`deviceCodes
      ensures Valid() && (View(), o) == StartDeviceStep(env, old(View()), now, r)
    {
      hide UniqueCodes, ClientAuthOk;
      if r.clientId == "" {
        return Refused(InvalidClient, None);
      }
      if !ClientAuthOk(env, clients, r.clientId, r.creds) {
        return Refused(InvalidClient, None);
      }
      var taken := FindDevice(r.userCode);
      if taken.Some? {
        return Refused(InternalError, None);
      }
      var d := DeviceCode(r.userCode, r.clientId, r.scope, "", false, false, now + DEVICE_TTL);
      deviceCodes := SaveDeviceCode(deviceCodes, r.freshDevice, d);
      o := DeviceStarted(r.freshDevice, d);
    }

    method DeviceApproveHandler(now: Time, r: Request) returns (o: Outcome)
      requires Valid() && r.ApproveDevice?
      modifies this`deviceCodes
      ensures Valid() && (View(), o) == ApproveDeviceStep(env, old(View()), now, r)
    {
      hide UniqueCodes;
      var userCode := env.upper(r.userCode);
      if userCode == "" || r.subject == "" {
        return Refused(InvalidRequest, None);
      }
      var found := FindDevice(userCode);
      if found.None? || now > deviceCodes[found.value].expiresAt {
        return Refused(InvalidRequest, None);
      }
      var d := found.value;
      deviceCodes := deviceCodes[d := deviceCodes[d].(subject := r.subject, approved := true)];
      o := DeviceApproved(d, r.subject);
    }

    method HandleDeviceGrant(now: Time, r: Request) returns (o: Outcome)
      requires Valid() && r.DeviceGrant?
      modifies this`deviceCodes, this`refreshTokens
      ensures Valid() && (View(), o) == DeviceGrantStep(env, old(View()), now, r)
    {
      hide UniqueCodes, SaveRefreshToken;
      var code := r.deviceCode;
      if code == "" {
        return Refused(InvalidRequest, None);
      }
      if code !in deviceCodes {
        return Refused(InvalidGrant, None);
      }
      var d := deviceCodes[code];
      if r.clientId != "" && r.clientId != d.client {
        return Refused(InvalidClient, None);
      }
      if now > d.expiresAt {
        deviceCodes := deviceCodes - {code};
        return Refused(ExpiredToken, None);
      }
      if d.denied {
        deviceCodes := deviceCodes - {code};
        return Refused(AccessDenied, None);
      }
      if !d.approved {
        return Refused(AuthorizationPending, None);
      }
      var hash := env.hashToken(r.freshRefresh);
      var rt := RefreshToken(d.subject, d.client, d.scope, now, now + REFRESH_TTL, None);
      refreshTokens := SaveRefreshToken(refreshTokens, hash, rt);
      deviceCodes := deviceCodes - {code};
      o := DeviceRedeemed(code, d, hash);
    }

    method ParHandler(now: Time, r: Request) returns (o: Outcome)
      requires Valid() && r.PushRequest?
      modifies this`parRequests
      ensures Valid() && (View(), o) == PushStep(env, old(View()), now, r)
    {
      hide UniqueCodes, UniqueUserCodes, ClientAuthOk, RequestUri;
      var clientId, redirectUri := Get(r.form, ClientId), Get(r.form, RedirectUri);
      if clientId == "" {
        return Refused(InvalidClient, None);
      }
      if !ClientAuthOk(env, clients, clientId, r.creds) {
        return Refused(InvalidClient, None);
      }
      assert clientId in clients by { ClientKnown(env, clients, clientId, r.creds); }
      if redirectUri != "" && redirectUri !in clients[clientId].redirectUris {
        return Refused(InvalidRequest, None);
      }
      var uri := RequestUri(r.freshId);
      if uri in parRequests {
        return Refused(InternalError, None);
      }
      var request := ParRequest(clientId, NonEmpty(r.form), now + PAR_TTL);
      parRequests := parRequests[uri := request];
      o := Pushed(uri, request);
    }

    /** The refresh-token half of RevokeHandler. */
    method RevokeHandler(r: Request) returns (o: Outcome)
      requires Valid() && r.RevokeToken?
      modifies this`refreshTokens
      ensures Valid() && (View(), o) == RevokeStep(env, old(View()), r)
    {
      hide UniqueCodes, UniqueUserCodes, ClientAuthOk;
      if r.token == "" {
        return Refused(InvalidRequest, None);
      }
      var clientId := r.clientId;
      if clientId == "" && r.creds.basic.Some? {
        clientId := r.creds.basic.value.0;
      }
      if clientId != "" && !ClientAuthOk(env, clients, clientId, r.creds) {
        return Refused(InvalidClient, None);
      }
      if r.hint == "" || r.hint == "refresh_token" {
        var hash := env.hashToken(r.token);
        if hash in refreshTokens && (clientId == "" || refreshTokens[hash].client == clientId) {
          refreshTokens := refreshTokens - {hash};
        }
      }
      o := Done;
    }

    /** LogoutHandler's loop: deletes the sessions and the refresh tokens they name. */
    method DeleteSessions(ids: set<string>)
      modifies this`sessions, this`refreshTokens
      ensures sessions == old(sessions) - ids
      ensures refreshTokens == old(refreshTokens) - NamedTokens(old(sessions), ids)
    {
      hide NamedTokens;
      ghost var rows, tokens := sessions, refreshTokens;
      var left := ids;
      DeleteNone(rows, tokens);
      assert ids - left == {};
      while left != {}
        invariant left <= ids
        invariant sessions == rows - (ids - left)
        invariant refreshTokens == tokens - NamedTokens(rows, ids - left)
        decreases |left|
      {
        var id :| id in left;
        DeleteOneMore(rows, tokens, ids - left, id);
        DeleteSession(id);
        assert ids - (left - {id}) == (ids - left) + {id};
        left := left - {id};
      }
      assert ids - left == ids;
    }

    /** The loop's body: the refresh token the session names goes first, then the session. */
    method DeleteSession(id: string)
      modifies this`sessions, this`refreshTokens
      ensures sessions == old(sessions) - {id}
      ensures refreshTokens == old(refreshTokens) - NamedTokens(old(sessions), {id})
    {
      if id in sessions && sessions[id].refreshTokenHash != "" {
        assert NamedTokens(sessions, {id}) == {sessions[id].refreshTokenHash};
        refreshTokens := refreshTokens - {sessions[id].refreshTokenHash};
      } else {
        assert NamedTokens(sessions, {id}) == {};
      }
      sessions := sessions - {id};
    }

    method LogoutHandler(now: Time, r: Request) returns (o: Outcome)
      requires Valid() && r.Logout?
      modifies this`sessions, this`refreshTokens
      ensures Valid() && (View(), o) == LogoutStep(old(View()), now, r)
    {
      hide UniqueUserCodes, SessionsOf, NamedTokens, Unexpired, UniqueCodes;
      if r.subject == "" {
        return Done;
      }
      ghost var rows := sessions;
      DeleteSessions(SessionsOf(sessions, r.subject, now));
      UnexpiredSubset(sessions, now);
      sessions := Unexpired(sessions, now);
      SubsetOfSessions(rows, sessions);
      o := Done;
    }
  }

  ghost predicate UniqueUserCodes(devices: map<string, DeviceCode>) {
    forall a, b :: a in devices && b in devices && devices[a].userCode == devices[b].userCode ==> a == b
  }

  lemma EmptyIsValid()
    ensures UniqueCodes(NO_TABLES.sessions) && UniqueUserCodes(NO_TABLES.devices)
  {
  }

  /** A code about to be issued is live nowhere if nothing minted is. */
  lemma IssuedCodes(t: Tables, now: Time, r: Request)
    requires r.Authorize? || r.IssueSession?
    ensures var o := if r.Authorize? then AuthorizeStep(t, now, r).1 else IssueSessionStep(t, now, r).1;
            o.CodeIssued? ==> Minted(o) == {CodeTicket(r.freshCode)} && (!Live(t, CodeTicket(r.freshCode)) <==> !HasCode(t.sessions, r.freshCode))
    ensures r.IssueSession? ==> IssueSessionStep(t, now, r).1.CodeIssued?
  {
    hide AuthorizeError, SaveSession, Get;
  }

  lemma TraceStep(env: Env, calls: seq<Call>, n: nat)
    requires n < |calls|
    ensures Trace(env, calls[..n + 1]) == Trace(env, calls[..n]) + [Trace(env, calls)[n]]
  {
    hide Next, After;
    Prefixes(env, calls, n + 1);
    Prefixes(env, calls, n);
    hide Trace;
    var tr := Trace(env, calls);
    assert tr[..n + 1] == tr[..n] + [tr[n]];
  }

  lemma DeleteNone(rows: map<string, Session>, tokens: map<string, RefreshToken>)
    ensures rows - {} == rows && tokens - NamedTokens(rows, {}) == tokens
  {
  }

  /** Deleting one more session is deleting it from what is left. */
  lemma DeleteOneMore(rows: map<string, Session>, tokens: map<string, RefreshToken>, done: set<string>, id: string)
    requires id !in done
    ensures rows - (done + {id}) == (rows - done) - {id}
    ensures tokens - NamedTokens(rows, done + {id}) == (tokens - NamedTokens(rows, done)) - NamedTokens(rows - done, {id})
  {
    assert NamedTokens(rows, done + {id}) == NamedTokens(rows, done) + NamedTokens(rows - done, {id});
  }

  lemma UnexpiredSubset(sessions: map<string, Session>, now: Time)
    ensures forall id :: id in Unexpired(sessions, now) ==> id in sessions && Unexpired(sessions, now)[id] == sessions[id]
  {
  }

  lemma ClientKnown(env: Env, clients: map<string, Client>, clientId: string, creds: Credentials)
    requires ClientAuthOk(env, clients, clientId, creds)
    ensures clientId in clients
  {
  }
}
