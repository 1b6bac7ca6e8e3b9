/** Lifetimes over runs: every ticket is honoured only within the lifetime it was issued with, and
    an authorization made through a pushed request carries what was pushed. */
module OidcDeadlines {
  import opened Results
  import opened OidcSteps
  import opened OidcRuns
  import opened OidcLineage

  /** In nanoseconds: 5 minutes, 30 days, 15 minutes, 90 seconds. */
  function Ttl(k: Ticket): Time {
    match k
    case CodeTicket(_) => 300_000_000_000
    case RefreshTicket(_) => 2_592_000_000_000_000
    case DeviceTicket(_) => 900_000_000_000
    case ParTicket(_) => 90_000_000_000
  }

  /** Whatever the tables hold for the ticket expires no later than e. */
  ghost predicate ExpiresBy(t: Tables, k: Ticket, e: Time) {
    match k
    case CodeTicket(c) => forall id :: id in t.sessions && t.sessions[id].code == c ==> t.sessions[id].expiresAt <= e
    case RefreshTicket(h) => h in t.refresh ==> t.refresh[h].expiresAt <= e
    case DeviceTicket(d) => d in t.devices ==> t.devices[d].expiresAt <= e
    case ParTicket(u) => u in t.par ==> t.par[u].expiresAt <= e
  }

  /** The tables hold nothing for the ticket, live or not. */
  ghost predicate Absent(t: Tables, k: Ticket) {
    match k
    case CodeTicket(c) => !HasCode(t.sessions, c)
    case RefreshTicket(h) => h !in t.refresh
    case DeviceTicket(d) => d !in t.devices
    case ParTicket(u) => u !in t.par
  }

  /** The step honours no expired ticket, extends no deadline, and gives what it mints its lifetime. */
  ghost predicate Punctual(t: Tables, now: Time, o: Outcome, t': Tables, k: Ticket, e: Time) {
    && (k in Spent(o) && ExpiresBy(t, k, e) ==> now <= e)
    && (k !in Minted(o) && ExpiresBy(t, k, e) ==> ExpiresBy(t', k, e))
    && (k in Minted(o) && Absent(t, k) ==> ExpiresBy(t', k, now + Ttl(k)))
  }

  lemma {:induction false} StepPunctual(env: Env, t: Tables, now: Time, r: Request, k: Ticket, e: Time)
    requires FreshRow(t, r)
    ensures Punctual(t, now, Next(env, t, now, r).1, Next(env, t, now, r).0, k, e)
  {
    hide AuthorizeStep, ExchangeStep, RefreshStep, DeviceGrantStep, StartDeviceStep, ApproveDeviceStep, PushStep, RevokeStep,
         LogoutStep, IssueSessionStep, Punctual, Unexpired;
    match r
    case Authorize(_, _, _, _) => AuthorizePunctual(t, now, r, k, e);
    case IssueSession(_, _, _) => IssuePunctual(t, now, r, k, e);
    case ExchangeCode(_, _, _, _, _) => ExchangePunctual(env, t, now, r, k, e);
    case RefreshGrant(_, _, _) => RefreshPunctual(env, t, now, r, k, e);
    case StartDevice(_, _, _, _, _) => StartDevicePunctual(env, t, now, r, k, e);
    case ApproveDevice(_, _) => ApproveDevicePunctual(env, t, now, r, k, e);
    case DeviceGrant(_, _, _) => DeviceGrantPunctual(env, t, now, r, k, e);
    case PushRequest(_, _, _) => PushPunctual(env, t, now, r, k, e);
    case RevokeToken(_, _, _, _) => RevokePunctual(env, t, now, r, k, e);
    case Logout(_) => LogoutPunctual(t, now, r, k, e);
    case DeleteSession(id) => FewerPunctual(t, now, t.(sessions := t.sessions - {id}), k, e);
    case PurgeSessions => PurgePunctual(t, now, k, e);
    case ChangeClients(clients) => FewerPunctual(t, now, t.(clients := clients), k, e);
  }

  /** Dropping sessions and refresh tokens extends no deadline. */
  lemma FewerPunctual(t: Tables, now: Time, t': Tables, k: Ticket, e: Time)
    requires t'.devices == t.devices && t'.par == t.par
    requires forall id :: id in t'.sessions ==> id in t.sessions && t'.sessions[id] == t.sessions[id]
    requires forall h :: h in t'.refresh ==> h in t.refresh && t'.refresh[h] == t.refresh[h]
    ensures Punctual(t, now, Done, t', k, e)
  {
  }

  lemma PurgePunctual(t: Tables, now: Time, k: Ticket, e: Time)
    ensures Punctual(t, now, Done, t.(sessions := Unexpired(t.sessions, now)), k, e)
  {
    hide Punctual;
    FewerPunctual(t, now, t.(sessions := Unexpired(t.sessions, now)), k, e);
  }

  lemma LogoutPunctual(t: Tables, now: Time, r: Request, k: Ticket, e: Time)
    requires r.Logout?
    ensures Punctual(t, now, LogoutStep(t, now, r).1, LogoutStep(t, now, r).0, k, e)
  {
    hide Punctual;
    FewerPunctual(t, now, LogoutStep(t, now, r).0, k, e);
  }

  lemma RevokePunctual(env: Env, t: Tables, now: Time, r: Request, k: Ticket, e: Time)
    requires r.RevokeToken?
    ensures Punctual(t, now, RevokeStep(env, t, r).1, RevokeStep(env, t, r).0, k, e)
  {
    hide ClientAuthOk;
  }

  lemma AuthorizePunctual(t: Tables, now: Time, r: Request, k: Ticket, e: Time)
    requires r.Authorize? && FreshRow(t, r)
    ensures Punctual(t, now, AuthorizeStep(t, now, r).1, AuthorizeStep(t, now, r).0, k, e)
  {
    hide AuthorizeStep;
    AuthorizeShape(t, now, r);
  }

  lemma IssuePunctual(t: Tables, now: Time, r: Request, k: Ticket, e: Time)
    requires r.IssueSession? && FreshRow(t, r)
    ensures Punctual(t, now, IssueSessionStep(t, now, r).1, IssueSessionStep(t, now, r).0, k, e)
  {
  }

  lemma ExchangePunctual(env: Env, t: Tables, now: Time, r: Request, k: Ticket, e: Time)
    requires r.ExchangeCode?
    ensures Punctual(t, now, ExchangeStep(env, t, now, r).1, ExchangeStep(env, t, now, r).0, k, e)
  {
    hide ClientAuthOk, HasCode;
  }

  lemma RefreshPunctual(env: Env, t: Tables, now: Time, r: Request, k: Ticket, e: Time)
    requires r.RefreshGrant?
    ensures Punctual(t, now, RefreshStep(env, t, now, r).1, RefreshStep(env, t, now, r).0, k, e)
  {
    hide RefreshStep, HasCode;
    RefreshShape(env, t, now, r);
  }

  lemma StartDevicePunctual(env: Env, t: Tables, now: Time, r: Request, k: Ticket, e: Time)
    requires r.StartDevice?
    ensures Punctual(t, now, StartDeviceStep(env, t, now, r).1, StartDeviceStep(env, t, now, r).0, k, e)
  {
    hide ClientAuthOk, HasCode, HasUserCode;
  }

  lemma ApproveDevicePunctual(env: Env, t: Tables, now: Time, r: Request, k: Ticket, e: Time)
    requires r.ApproveDevice?
    ensures Punctual(t, now, ApproveDeviceStep(env, t, now, r).1, ApproveDeviceStep(env, t, now, r).0, k, e)
  {
    hide HasCode, HasUserCode, DeviceOfUserCode;
  }

  lemma DeviceGrantPunctual(env: Env, t: Tables, now: Time, r: Request, k: Ticket, e: Time)
    requires r.DeviceGrant?
    ensures Punctual(t, now, DeviceGrantStep(env, t, now, r).1, DeviceGrantStep(env, t, now, r).0, k, e)
  {
    hide DeviceGrantStep, HasCode;
    DeviceGrantShape(env, t, now, r);
  }

  lemma PushPunctual(env: Env, t: Tables, now: Time, r: Request, k: Ticket, e: Time)
    requires r.PushRequest?
    ensures Punctual(t, now, PushStep(env, t, now, r).1, PushStep(env, t, now, r).0, k, e)
  {
    hide ClientAuthOk, HasCode, RequestUri, NonEmpty, Get;
  }

  // ----- over runs -----

  /** When the ticket was last minted. */
  ghost function MintTime(env: Env, calls: seq<Call>, k: Ticket): Time {
    if calls == [] then 0
    else if k in Minted(LastOutcome(env, calls)) then calls[|calls| - 1].now
    else MintTime(env, calls[..|calls| - 1], k)
  }

  lemma {:induction false} MintedIsAbsent(env: Env, calls: seq<Call>, k: Ticket)
    requires FreshRun(env, calls) && k !in AllMinted(Trace(env, calls))
    ensures Absent(After(env, calls), k)
  {
    RunInvariant(env, calls);
    RunLineage(env, calls);
    hide Trace, Next, After, AllMinted, Rooted, SessionLineage, DeviceLineage;
    assert !Live(After(env, calls), k);
  }

  lemma {:induction false} DeadlineFromMint(env: Env, calls: seq<Call>, k: Ticket)
    requires FreshRun(env, calls) && k in AllMinted(Trace(env, calls))
    ensures ExpiresBy(After(env, calls), k, MintTime(env, calls, k) + Ttl(k))
    decreases |calls|
  {
    hide Next, ExpiresBy, Absent, Minted, Spent, Ttl;
    var before, c := calls[..|calls| - 1], calls[|calls| - 1];
    assert Trace(env, calls)[..|calls| - 1] == Trace(env, before);
    var t := After(env, before);
    StepPunctual(env, t, c.now, c.request, k, MintTime(env, before, k) + Ttl(k));
    if k in Minted(LastOutcome(env, calls)) {
      MintedIsAbsent(env, before, k);
    } else {
      DeadlineFromMint(env, before, k);
    }
  }

  /** Over every run, codes are honoured within 5 minutes of being issued, request_uris within 90
      seconds, device codes within 15 minutes and refresh tokens within 30 days. */
  lemma {:induction false} HonouredInTime(env: Env, calls: seq<Call>, j: nat, k: Ticket)
    requires FreshRun(env, calls) && j < |calls| && k in Spent(Trace(env, calls)[j])
    ensures calls[j].now <= MintTime(env, calls[..j], k) + Ttl(k)
  {
    hide Next, ExpiresBy, Minted, Spent, Ttl, Live, After, Trace, FreshRun, FreshRow, MintTime;
    var before := calls[..j];
    SpentWhenLive(env, calls, j, k);
    TraceAt(env, calls, j);
    RunInvariant(env, before);
    DeadlineFromMint(env, before, k);
    StepPunctual(env, After(env, before), calls[j].now, calls[j].request, k, MintTime(env, before, k) + Ttl(k));
  }

  // ----- pushed requests -----

  ghost predicate PushedIn(tr: seq<Outcome>, uri: string, request: ParRequest) {
    exists i :: 0 <= i < |tr| && tr[i] == Pushed(uri, request)
  }

  /** The pushed parameters name the client that authenticated at the push. */
  predicate OwnClient(request: ParRequest) {
    ClientId in request.params && request.params[ClientId] == request.client
  }

  ghost predicate ParLineage(par: map<string, ParRequest>, tr: seq<Outcome>) {
    forall u :: u in par ==> PushedIn(tr, u, par[u]) && OwnClient(par[u])
  }

  /** Rows of the PAR table appear only by being pushed. */
  lemma ParRows(env: Env, t: Tables, now: Time, r: Request, u: string)
    ensures var (t', o) := Next(env, t, now, r);
            u in t'.par ==> (u in t.par && t'.par[u] == t.par[u]) || (o == Pushed(u, t'.par[u]) && OwnClient(t'.par[u]))
  {
    if r.PushRequest? {
      PushOwnClient(env, t, now, r);
    }
    hide OwnClient, PushStep, ClientAuthOk, RequestUri, NonEmpty, AuthorizeError, ExchangeError, HasCode, HasUserCode, DeviceOfUserCode, IdOfCode, Unexpired,
         SaveSession, SaveRefreshToken, SaveDeviceCode, NewSession;
  }

  lemma PushOwnClient(env: Env, t: Tables, now: Time, r: Request)
    requires r.PushRequest?
    ensures var (t', o) := PushStep(env, t, now, r);
            t'.par == t.par || (o.Pushed? && t'.par == t.par[o.requestUri := o.request] && OwnClient(o.request))
  {
    hide ClientAuthOk, RequestUri;
  }

  lemma {:induction false} RunParLineage(env: Env, calls: seq<Call>)
    ensures ParLineage(After(env, calls).par, Trace(env, calls))
    decreases |calls|
  {
    hide Next, PushedIn, OwnClient;
    if calls != [] {
      var before, c := calls[..|calls| - 1], calls[|calls| - 1];
      var t, tr := After(env, before), Trace(env, before);
      RunParLineage(env, before);
      var t', o := After(env, calls), LastOutcome(env, calls);
      forall u | u in t'.par
        ensures PushedIn(tr + [o], u, t'.par[u]) && OwnClient(t'.par[u])
      {
        ParRows(env, t, c.now, c.request, u);
        PushedGrows(tr, o, u, t'.par[u]);
      }
    }
  }

  lemma PushedGrows(tr: seq<Outcome>, o: Outcome, u: string, request: ParRequest)
    requires PushedIn(tr, u, request) || o == Pushed(u, request)
    ensures PushedIn(tr + [o], u, request)
  {
    var tr' := tr + [o];
    if PushedIn(tr, u, request) {
      var i :| 0 <= i < |tr| && tr[i] == Pushed(u, request);
      assert tr'[i] == tr[i];
    } else {
      assert tr'[|tr|] == o;
    }
  }

  /** The session fields an authorization request fixes. */
  predicate Carries(s: Session, params: Params) {
    && (ClientId in params ==> s.client == params[ClientId])
    && (RedirectUri in params ==> s.redirectUri == params[RedirectUri])
    && (ScopeParam in params ==> s.scope == params[ScopeParam])
    && (NonceParam in params ==> s.nonce == params[NonceParam])
    && (StateParam in params ==> s.state == params[StateParam])
    && (CodeChallenge in params ==> s.challenge == params[CodeChallenge])
  }

  lemma AuthorizeCarriesPushed(t: Tables, now: Time, r: Request)
    requires r.Authorize? && AuthorizeStep(t, now, r).1.CodeIssued? && AuthorizeStep(t, now, r).1.resolved.Some?
    ensures var o := AuthorizeStep(t, now, r).1;
            o.resolved.value in t.par && Carries(o.session, t.par[o.resolved.value].params)
  {
    hide AuthorizeError, SaveSession;
  }

  /** An authorization made through a request_uri is for the client that authenticated when it
      pushed under that URI earlier in the run, and carries every parameter it pushed, whatever the
      browser's query said. */
  lemma {:induction false} PushedParametersWin(env: Env, calls: seq<Call>)
    requires calls != []
    requires LastOutcome(env, calls).CodeIssued? && LastOutcome(env, calls).resolved.Some?
    ensures var o := LastOutcome(env, calls);
            exists request :: PushedIn(Trace(env, calls[..|calls| - 1]), o.resolved.value, request) &&
                              Carries(o.session, request.params) && o.session.client == request.client
  {
    var before, c := calls[..|calls| - 1], calls[|calls| - 1];
    var t := After(env, before);
    RunParLineage(env, before);
    var o := LastOutcome(env, calls);
    assert c.request.Authorize? by { OnlyAuthorizeResolves(env, t, c.now, c.request); }
    AuthorizeCarriesPushed(t, c.now, c.request);
    var request := t.par[o.resolved.value];
    assert OwnClient(request) && o.session.client == request.client;
    hide After, Trace, AuthorizeStep, PushedIn, Carries, OwnClient;
    assert PushedIn(Trace(env, before), o.resolved.value, request);
  }

  lemma OnlyAuthorizeResolves(env: Env, t: Tables, now: Time, r: Request)
    ensures var o := Next(env, t, now, r).1; o.CodeIssued? && o.resolved.Some? ==> r.Authorize?
  {
    hide ClientAuthOk, RequestUri, NonEmpty, AuthorizeStep, ExchangeError, HasCode, HasUserCode, DeviceOfUserCode, IdOfCode, Unexpired,
         SaveSession, SaveRefreshToken, SaveDeviceCode;
  }
}
