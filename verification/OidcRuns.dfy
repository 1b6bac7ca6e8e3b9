/** Safety of the token endpoint over every run: what each grant may be used for, how often, and
    where every stored refresh token comes from. */
module OidcRuns {
  import opened Results
  import opened OidcSteps

  /** Anything a client can present to have a request honoured. */
  datatype Ticket =
    | CodeTicket(code: string)
    | RefreshTicket(hash: string)
    | DeviceTicket(deviceCode: string)
    | ParTicket(requestUri: string)

  function Spent(o: Outcome): set<Ticket> {
    match o
    case Refused(_, resolved) => if resolved.Some? then {ParTicket(resolved.value)} else {}
    case CodeIssued(_, resolved) => if resolved.Some? then {ParTicket(resolved.value)} else {}
    case CodeRedeemed(s, _, _) => {CodeTicket(s.code)}
    case Rotated(before, _) => {RefreshTicket(before)}
    case DeviceRedeemed(d, _, _) => {DeviceTicket(d)}
    case _ => {}
  }

  function Minted(o: Outcome): set<Ticket> {
    match o
    case CodeIssued(s, _) => {CodeTicket(s.code)}
    case CodeRedeemed(_, _, hash) => {RefreshTicket(hash)}
    case Rotated(_, hash) => {RefreshTicket(hash)}
    case DeviceStarted(d, _) => {DeviceTicket(d)}
    case DeviceRedeemed(_, _, hash) => {RefreshTicket(hash)}
    case Pushed(uri, _) => {ParTicket(uri)}
    case _ => {}
  }

  /** The tables could still honour the ticket. */
  ghost predicate Live(t: Tables, k: Ticket) {
    match k
    case CodeTicket(c) => HasCode(t.sessions, c)
    case RefreshTicket(h) => h in t.refresh && t.refresh[h].usedAt.None?
    case DeviceTicket(d) => d in t.devices
    case ParTicket(u) => u in t.par
  }

  ghost predicate UniqueCodes(sessions: map<string, Session>) {
    forall a, b :: a in sessions && b in sessions && sessions[a].code == sessions[b].code ==> a == b
  }

  /** Row ids drawn for new sessions are unused. */
  predicate FreshRow(t: Tables, r: Request) {
    (r.Authorize? || r.IssueSession?) ==> r.sessionId !in t.sessions
  }

  // ----- one step -----

  /** A step spends only live tickets, kills what it spends, and brings to life only what it mints. */
  ghost predicate Conserves(t: Tables, o: Outcome, t': Tables) {
    && UniqueCodes(t'.sessions)
    && (forall k :: k in Spent(o) ==> Live(t, k) && !Live(t', k))
    && (forall k :: Live(t', k) ==> Live(t, k) || k in Minted(o))
  }

  lemma SaveFreshSession(sessions: map<string, Session>, id: string, s: Session)
    requires UniqueCodes(sessions) && id !in sessions && !HasCode(sessions, s.code)
    ensures UniqueCodes(SaveSession(sessions, id, s))
    ensures forall c :: HasCode(SaveSession(sessions, id, s), c) ==> HasCode(sessions, c) || c == s.code
  {
    var after := SaveSession(sessions, id, s);
    forall c | HasCode(after, c)
      ensures HasCode(sessions, c) || c == s.code
    {
      var x :| x in after && after[x].code == c;
      assert x != id ==> x in sessions && sessions[x].code == c;
    }
  }

  lemma SubsetOfSessions(before: map<string, Session>, after: map<string, Session>)
    requires UniqueCodes(before)
    requires forall id :: id in after ==> id in before && after[id] == before[id]
    ensures UniqueCodes(after)
    ensures forall c :: HasCode(after, c) ==> HasCode(before, c)
  {
    forall c | HasCode(after, c)
      ensures HasCode(before, c)
    {
      var x :| x in after && after[x].code == c;
      assert x in before && before[x].code == c;
    }
  }

  /** Every step of every handler conserves tickets, provided what it mints is fresh. */
  lemma {:induction false} StepConserves(env: Env, t: Tables, now: Time, r: Request)
    requires UniqueCodes(t.sessions) && FreshRow(t, r)
    requires forall k :: k in Minted(Next(env, t, now, r).1) ==> !Live(t, k)
    ensures Conserves(t, Next(env, t, now, r).1, Next(env, t, now, r).0)
  {
    hide AuthorizeStep, ExchangeStep, RefreshStep, DeviceGrantStep, StartDeviceStep, ApproveDeviceStep, PushStep, RevokeStep,
         LogoutStep, IssueSessionStep, Conserves, Live, Minted, Unexpired;
    match r
    case Authorize(_, _, _, _) => AuthorizeConserves(t, now, r);
    case IssueSession(_, _, _) => IssueSessionConserves(t, now, r);
    case ExchangeCode(_, _, _, _, _) => ExchangeConserves(env, t, now, r);
    case RefreshGrant(_, _, _) => RefreshConserves(env, t, now, r);
    case StartDevice(_, _, _, _, _) => StartDeviceConserves(env, t, now, r);
    case ApproveDevice(_, _) => ApproveDeviceConserves(env, t, now, r);
    case DeviceGrant(_, _, _) => DeviceGrantConserves(env, t, now, r);
    case PushRequest(_, _, _) => PushConserves(env, t, now, r);
    case RevokeToken(_, _, _, _) => RevokeConserves(env, t, r);
    case Logout(_) => LogoutConserves(t, now, r);
    case DeleteSession(id) => FewerSessionsConserve(t, t.sessions - {id});
    case PurgeSessions => PurgeConserves(t, now);
    case ChangeClients(clients) => ClientsConserve(t, clients);
  }

  lemma ClientsConserve(t: Tables, clients: map<string, Client>)
    requires UniqueCodes(t.sessions)
    ensures Conserves(t, Done, t.(clients := clients))
  {
  }

  lemma FewerSessionsConserve(t: Tables, sessions: map<string, Session>)
    requires UniqueCodes(t.sessions)
    requires forall id :: id in sessions ==> id in t.sessions && sessions[id] == t.sessions[id]
    ensures Conserves(t, Done, t.(sessions := sessions))
  {
    hide HasCode, UniqueCodes;
    SubsetOfSessions(t.sessions, sessions);
  }

  lemma PurgeConserves(t: Tables, now: Time)
    requires UniqueCodes(t.sessions)
    ensures Conserves(t, Done, t.(sessions := Unexpired(t.sessions, now)))
  {
    hide Conserves, UniqueCodes;
    FewerSessionsConserve(t, Unexpired(t.sessions, now));
  }

  /** What AuthorizeHandler can do to the tables. */
  lemma AuthorizeShape(t: Tables, now: Time, r: Request)
    requires r.Authorize? && FreshRow(t, r)
    ensures var (t', o) := AuthorizeStep(t, now, r);
      && t'.refresh == t.refresh && t'.devices == t.devices
      && (forall u :: u in t'.par ==> u in t.par && t'.par[u] == t.par[u])
      && (o.Refused? || o.CodeIssued?)
      && (o.resolved.Some? ==> o.resolved.value in t.par && o.resolved.value !in t'.par && now <= t.par[o.resolved.value].expiresAt)
      && (o.CodeIssued? ==> o.session.expiresAt == now + CODE_TTL)
      && t'.sessions == if o.CodeIssued? then t.sessions[r.sessionId := o.session] else t.sessions
  {
    hide AuthorizeError, Get;
  }

  lemma AuthorizeConserves(t: Tables, now: Time, r: Request)
    requires r.Authorize? && UniqueCodes(t.sessions) && FreshRow(t, r)
    requires forall k :: k in Minted(AuthorizeStep(t, now, r).1) ==> !Live(t, k)
    ensures Conserves(t, AuthorizeStep(t, now, r).1, AuthorizeStep(t, now, r).0)
  {
    hide AuthorizeStep, HasCode, UniqueCodes;
    AuthorizeShape(t, now, r);
    var (t', o) := AuthorizeStep(t, now, r);
    if o.CodeIssued? {
      assert CodeTicket(o.session.code) in Minted(o);
      assert !Live(t, CodeTicket(o.session.code));
      SaveFreshSession(t.sessions, r.sessionId, o.session);
    }
  }

  lemma IssueSessionConserves(t: Tables, now: Time, r: Request)
    requires r.IssueSession? && UniqueCodes(t.sessions) && FreshRow(t, r)
    requires forall k :: k in Minted(IssueSessionStep(t, now, r).1) ==> !Live(t, k)
    ensures Conserves(t, IssueSessionStep(t, now, r).1, IssueSessionStep(t, now, r).0)
  {
    hide HasCode, UniqueCodes, SaveSession;
    var (t', o) := IssueSessionStep(t, now, r);
    assert CodeTicket(o.session.code) in Minted(o);
    assert !Live(t, CodeTicket(o.session.code));
    SaveFreshSession(t.sessions, r.sessionId, o.session);
  }

  lemma ExchangeConserves(env: Env, t: Tables, now: Time, r: Request)
    requires r.ExchangeCode? && UniqueCodes(t.sessions)
    requires forall k :: k in Minted(ExchangeStep(env, t, now, r).1) ==> !Live(t, k)
    ensures Conserves(t, ExchangeStep(env, t, now, r).1, ExchangeStep(env, t, now, r).0)
  {
    hide ExchangeError;
    var (t', o) := ExchangeStep(env, t, now, r);
    if o.CodeRedeemed? {
      var id := IdOfCode(t.sessions, r.code);
      assert !HasCode(t'.sessions, r.code);
      SubsetOfSessions(t.sessions, t'.sessions);
      hide HasCode, UniqueCodes, IdOfCode;
    }
  }

  /** What a refresh grant can do to the tables. */
  lemma RefreshShape(env: Env, t: Tables, now: Time, r: Request)
    requires r.RefreshGrant?
    ensures var (t', o) := RefreshStep(env, t, now, r);
      && t' == t.(refresh := t'.refresh) && (o.Rotated? || o.Refused?)
      && (o.Refused? ==> o.resolved.None? && forall h :: h in t'.refresh ==> h in t.refresh && t'.refresh[h] == t.refresh[h])
      && (o.Rotated? ==>
            && o.oldHash in t.refresh && t.refresh[o.oldHash].usedAt.None? && now <= t.refresh[o.oldHash].expiresAt
            && var marked := t.refresh[o.oldHash := t.refresh[o.oldHash].(usedAt := Some(now))];
               var rt := t.refresh[o.oldHash];
               t'.refresh == SaveRefreshToken(marked, o.newHash, RefreshToken(rt.subject, rt.client, rt.scope, now, now + REFRESH_TTL, None)))
  {
    hide ClientAuthOk;
  }

  lemma RefreshConserves(env: Env, t: Tables, now: Time, r: Request)
    requires r.RefreshGrant? && UniqueCodes(t.sessions)
    requires forall k :: k in Minted(RefreshStep(env, t, now, r).1) ==> !Live(t, k)
    ensures Conserves(t, RefreshStep(env, t, now, r).1, RefreshStep(env, t, now, r).0)
  {
    hide RefreshStep, HasCode, UniqueCodes;
    RefreshShape(env, t, now, r);
    var (t', o) := RefreshStep(env, t, now, r);
    if o.Rotated? {
      assert RefreshTicket(o.newHash) in Minted(o);
      assert o.newHash != o.oldHash;
    }
  }

  lemma StartDeviceConserves(env: Env, t: Tables, now: Time, r: Request)
    requires r.StartDevice? && UniqueCodes(t.sessions)
    ensures Conserves(t, StartDeviceStep(env, t, now, r).1, StartDeviceStep(env, t, now, r).0)
  {
    hide ClientAuthOk, HasCode, UniqueCodes, HasUserCode;
  }

  lemma ApproveDeviceConserves(env: Env, t: Tables, now: Time, r: Request)
    requires r.ApproveDevice? && UniqueCodes(t.sessions)
    ensures Conserves(t, ApproveDeviceStep(env, t, now, r).1, ApproveDeviceStep(env, t, now, r).0)
  {
    hide HasCode, UniqueCodes, HasUserCode, DeviceOfUserCode;
  }

  /** What a device grant can do to the tables. */
  lemma DeviceGrantShape(env: Env, t: Tables, now: Time, r: Request)
    requires r.DeviceGrant?
    ensures var (t', o) := DeviceGrantStep(env, t, now, r);
      && t' == t.(refresh := t'.refresh, devices := t'.devices) && (o.DeviceRedeemed? || o.Refused?)
      && (t'.devices == t.devices || t'.devices == t.devices - {r.deviceCode})
      && (o.Refused? ==> o.resolved.None? && t'.refresh == t.refresh)
      && (o.DeviceRedeemed? ==>
            && o.deviceCode == r.deviceCode && o.deviceCode in t.devices && o.device == t.devices[o.deviceCode]
            && o.device.approved && now <= o.device.expiresAt && t'.devices == t.devices - {o.deviceCode}
            && t'.refresh == SaveRefreshToken(t.refresh, o.newHash,
                 RefreshToken(o.device.subject, o.device.client, o.device.scope, now, now + REFRESH_TTL, None)))
  {
  }

  lemma DeviceGrantConserves(env: Env, t: Tables, now: Time, r: Request)
    requires r.DeviceGrant? && UniqueCodes(t.sessions)
    ensures Conserves(t, DeviceGrantStep(env, t, now, r).1, DeviceGrantStep(env, t, now, r).0)
  {
    hide DeviceGrantStep, HasCode, UniqueCodes;
    DeviceGrantShape(env, t, now, r);
  }

  lemma PushConserves(env: Env, t: Tables, now: Time, r: Request)
    requires r.PushRequest? && UniqueCodes(t.sessions)
    ensures Conserves(t, PushStep(env, t, now, r).1, PushStep(env, t, now, r).0)
  {
    hide HasCode, UniqueCodes, ClientAuthOk, RequestUri, NonEmpty, Get;
  }

  lemma RevokeConserves(env: Env, t: Tables, r: Request)
    requires r.RevokeToken? && UniqueCodes(t.sessions)
    ensures Conserves(t, RevokeStep(env, t, r).1, RevokeStep(env, t, r).0)
  {
    hide HasCode, UniqueCodes, ClientAuthOk;
  }

  lemma LogoutConserves(t: Tables, now: Time, r: Request)
    requires r.Logout? && UniqueCodes(t.sessions)
    ensures Conserves(t, LogoutStep(t, now, r).1, LogoutStep(t, now, r).0)
  {
    SubsetOfSessions(t.sessions, LogoutStep(t, now, r).0.sessions);
    hide HasCode, UniqueCodes, Unexpired;
  }

  // ----- runs -----

  datatype Call = Call(now: Time, request: Request)

  const NO_TABLES := Tables(map[], map[], map[], map[], map[])

  /** The tables after a sequence of calls on an empty store. */
  ghost function After(env: Env, calls: seq<Call>): Tables {
    if calls == [] then NO_TABLES
    else
      var c := calls[|calls| - 1];
      Next(env, After(env, calls[..|calls| - 1]), c.now, c.request).0
  }

  ghost function LastOutcome(env: Env, calls: seq<Call>): Outcome
    requires calls != []
  {
    var c := calls[|calls| - 1];
    Next(env, After(env, calls[..|calls| - 1]), c.now, c.request).1
  }

  ghost function Trace(env: Env, calls: seq<Call>): (tr: seq<Outcome>)
    ensures |tr| == |calls|
  {
    if calls == [] then [] else Trace(env, calls[..|calls| - 1]) + [LastOutcome(env, calls)]
  }

  ghost function AllMinted(tr: seq<Outcome>): set<Ticket> {
    if tr == [] then {} else AllMinted(tr[..|tr| - 1]) + Minted(tr[|tr| - 1])
  }

  ghost function AllSpent(tr: seq<Outcome>): set<Ticket> {
    if tr == [] then {} else AllSpent(tr[..|tr| - 1]) + Spent(tr[|tr| - 1])
  }

  /** Random draws never repeat: nothing is minted twice and session ids are unused. */
  ghost predicate FreshRun(env: Env, calls: seq<Call>) {
    calls == [] ||
    var before := calls[..|calls| - 1];
    && FreshRun(env, before)
    && FreshRow(After(env, before), calls[|calls| - 1].request)
    && Minted(LastOutcome(env, calls)) !! AllMinted(Trace(env, before))
  }

  lemma {:induction false} RunInvariant(env: Env, calls: seq<Call>)
    requires FreshRun(env, calls)
    ensures UniqueCodes(After(env, calls).sessions)
    ensures forall k :: Live(After(env, calls), k) ==> k in AllMinted(Trace(env, calls))
    ensures forall k :: k in AllSpent(Trace(env, calls)) ==> !Live(After(env, calls), k) && k in AllMinted(Trace(env, calls))
    decreases |calls|
  {
    hide Next, Live, UniqueCodes, Minted, Spent;
    if calls == [] {
      EmptyStore();
    } else {
      var before := calls[..|calls| - 1];
      var c := calls[|calls| - 1];
      RunInvariant(env, before);
      StepConserves(env, After(env, before), c.now, c.request);
      assert Trace(env, calls)[..|calls| - 1] == Trace(env, before);
    }
  }

  lemma EmptyStore()
    ensures UniqueCodes(NO_TABLES.sessions) && forall k :: !Live(NO_TABLES, k)
  {
  }

  lemma {:induction false} Prefixes(env: Env, calls: seq<Call>, n: nat)
    requires n <= |calls|
    ensures Trace(env, calls)[..n] == Trace(env, calls[..n])
    ensures FreshRun(env, calls) ==> FreshRun(env, calls[..n])
    decreases |calls|
  {
    hide Next, LastOutcome;
    if n == |calls| {
      assert calls[..n] == calls && Trace(env, calls)[..n] == Trace(env, calls);
    } else {
      var before := calls[..|calls| - 1];
      Prefixes(env, before, n);
      assert before[..n] == calls[..n];
      assert Trace(env, calls)[..n] == Trace(env, before)[..n];
    }
  }

  lemma {:induction false} TraceAt(env: Env, calls: seq<Call>, j: nat)
    requires j < |calls|
    ensures Trace(env, calls)[j] == Next(env, After(env, calls[..j]), calls[j].now, calls[j].request).1
    ensures After(env, calls[..j + 1]) == Next(env, After(env, calls[..j]), calls[j].now, calls[j].request).0
    ensures FreshRun(env, calls) ==> FreshRun(env, calls[..j]) && FreshRow(After(env, calls[..j]), calls[j].request)
    ensures FreshRun(env, calls) ==> Minted(Trace(env, calls)[j]) !! AllMinted(Trace(env, calls[..j]))
  {
    hide Next, Minted, FreshRow, AllMinted;
    Prefixes(env, calls, j + 1);
    Prefixes(env, calls, j);
    var upTo := calls[..j + 1];
    assert upTo[..j] == calls[..j];
    assert Trace(env, calls)[..j + 1][j] == Trace(env, upTo)[j] == LastOutcome(env, upTo);
  }

  lemma {:induction false} SpentWhenLive(env: Env, calls: seq<Call>, j: nat, k: Ticket)
    requires FreshRun(env, calls) && j < |calls| && k in Spent(Trace(env, calls)[j])
    ensures Live(After(env, calls[..j]), k)
  {
    hide Next, Live, UniqueCodes, Minted, Spent, Trace, After, FreshRun, FreshRow;
    TraceAt(env, calls, j);
    RunInvariant(env, calls[..j]);
    StepConserves(env, After(env, calls[..j]), calls[j].now, calls[j].request);
  }

  lemma {:induction false} SpentIsRecorded(tr: seq<Outcome>, i: nat, k: Ticket)
    requires i < |tr| && k in Spent(tr[i])
    ensures k in AllSpent(tr)
    decreases |tr|
  {
    hide Spent;
    if i < |tr| - 1 {
      SpentIsRecorded(tr[..|tr| - 1], i, k);
    }
  }

  /** Over every run, each authorization code, refresh token, device code and request_uri is
      honoured at most once. */
  lemma {:induction false} HonouredAtMostOnce(env: Env, calls: seq<Call>, i: nat, j: nat)
    requires FreshRun(env, calls) && i < j < |calls|
    ensures Spent(Trace(env, calls)[i]) !! Spent(Trace(env, calls)[j])
  {
    hide Live, Spent, UniqueCodes, After;
    var tr := Trace(env, calls);
    forall k | k in Spent(tr[i]) && k in Spent(tr[j])
      ensures false
    {
      SpentWhenLive(env, calls, j, k);
      Prefixes(env, calls, j);
      RunInvariant(env, calls[..j]);
      assert tr[..j][i] == tr[i];
      SpentIsRecorded(Trace(env, calls[..j]), i, k);
    }
  }

  /** A ticket that was issued and is no longer live, by use, revocation, expiry or logout, is
      never honoured again. */
  lemma {:induction false} DeadStaysDead(env: Env, calls: seq<Call>, i: nat, j: nat, k: Ticket)
    requires FreshRun(env, calls) && i <= j <= |calls|
    requires k in AllMinted(Trace(env, calls[..i])) && !Live(After(env, calls[..i]), k)
    ensures !Live(After(env, calls[..j]), k) && k in AllMinted(Trace(env, calls[..j]))
    ensures j < |calls| ==> k !in Spent(Trace(env, calls)[j])
    decreases j
  {
    hide Next, Live, UniqueCodes, Minted, Spent, After, Trace, FreshRun, FreshRow, AllMinted;
    if i < j {
      DeadStaysDead(env, calls, i, j - 1, k);
      TraceAt(env, calls, j - 1);
      RunInvariant(env, calls[..j - 1]);
      StepConserves(env, After(env, calls[..j - 1]), calls[j - 1].now, calls[j - 1].request);
      MintedStep(env, calls, j - 1);
    }
    if j < |calls| && k in Spent(Trace(env, calls)[j]) {
      SpentWhenLive(env, calls, j, k);
    }
  }

  lemma {:induction false} MintedStep(env: Env, calls: seq<Call>, j: nat)
    requires j < |calls|
    ensures AllMinted(Trace(env, calls[..j + 1])) == AllMinted(Trace(env, calls[..j])) + Minted(Trace(env, calls)[j])
  {
    hide Minted, After, Next;
    Prefixes(env, calls, j + 1);
    Prefixes(env, calls, j);
    var tr := Trace(env, calls);
    assert tr[..j + 1][..j] == tr[..j] && tr[..j + 1][j] == tr[j];
    hide Trace;
  }
}
