/** Where refresh tokens come from: every stored token descends, by rotations, from one redeemed
    authorization code or device code, and carries that root's subject, client and scope. */
module OidcLineage {
  import opened Results
  import opened OidcSteps
  import opened OidcRuns

  /** Position in the trace of the redemption at the root of a token's rotation chain. */
  ghost function Root(tr: seq<Outcome>, hash: string): (r: int)
    ensures -1 <= r < |tr|
  {
    if tr == [] then -1
    else
      var o, before := tr[|tr| - 1], tr[..|tr| - 1];
      if (o.CodeRedeemed? || o.DeviceRedeemed?) && o.newHash == hash then |tr| - 1
      else if o.Rotated? && o.newHash == hash then Root(before, o.oldHash)
      else Root(before, hash)
  }

  ghost predicate IssuedIn(tr: seq<Outcome>, s: Session) {
    exists i :: 0 <= i < |tr| && tr[i].CodeIssued? && tr[i].session == s
  }

  ghost predicate StartedIn(tr: seq<Outcome>, d: string, dev: DeviceCode) {
    exists i :: 0 <= i < |tr| && tr[i].DeviceStarted? && tr[i].deviceCode == d &&
                tr[i].device.client == dev.client && tr[i].device.scope == dev.scope
  }

  ghost predicate ApprovedIn(tr: seq<Outcome>, d: string, subject: string) {
    exists i :: 0 <= i < |tr| && tr[i] == DeviceApproved(d, subject)
  }

  /** The redemption at position r granted exactly what the token carries, and was entitled to:
      the code was issued and its verifier matched the challenge, or the device code was started
      for that client and scope and approved by that subject. */
  ghost predicate Grants(env: Env, tr: seq<Outcome>, r: nat, rt: RefreshToken)
    requires r < |tr|
  {
    match tr[r]
    case CodeRedeemed(s, verifier, _) =>
      && rt.subject == s.subject && rt.client == s.client && rt.scope == s.scope
      && s.challenge != "" && env.s256(verifier) == s.challenge
      && IssuedIn(tr[..r], s)
    case DeviceRedeemed(d, dev, _) =>
      && rt.subject == dev.subject && rt.client == dev.client && rt.scope == dev.scope
      && StartedIn(tr[..r], d, dev) && ApprovedIn(tr[..r], d, dev.subject)
    case _ => false
  }

  ghost predicate Rooted(env: Env, tr: seq<Outcome>, hash: string, rt: RefreshToken) {
    Root(tr, hash) >= 0 && Grants(env, tr, Root(tr, hash), rt)
  }

  ghost predicate RefreshLineage(env: Env, refresh: map<string, RefreshToken>, tr: seq<Outcome>) {
    && (forall h :: h in refresh ==> RefreshTicket(h) in AllMinted(tr) && Rooted(env, tr, h, refresh[h]))
    && (forall g, h :: g in refresh && h in refresh && refresh[g].usedAt.None? && refresh[h].usedAt.None? ==>
          Root(tr, g) == Root(tr, h) ==> g == h)
  }

  ghost predicate SessionLineage(sessions: map<string, Session>, tr: seq<Outcome>) {
    forall id :: id in sessions ==> IssuedIn(tr, sessions[id]) && sessions[id].refreshTokenHash == ""
  }

  ghost predicate DeviceLineage(devices: map<string, DeviceCode>, tr: seq<Outcome>) {
    forall d :: d in devices ==>
      StartedIn(tr, d, devices[d]) && (devices[d].approved ==> ApprovedIn(tr, d, devices[d].subject))
  }

  ghost predicate Lineage(env: Env, t: Tables, tr: seq<Outcome>) {
    RefreshLineage(env, t.refresh, tr) && SessionLineage(t.sessions, tr) && DeviceLineage(t.devices, tr)
  }

  // ----- a longer trace keeps everything -----

  lemma EventsKeep(tr: seq<Outcome>, o: Outcome, s: Session, d: string, dev: DeviceCode, subject: string)
    ensures IssuedIn(tr, s) ==> IssuedIn(tr + [o], s)
    ensures StartedIn(tr, d, dev) ==> StartedIn(tr + [o], d, dev)
    ensures ApprovedIn(tr, d, subject) ==> ApprovedIn(tr + [o], d, subject)
  {
    var tr' := tr + [o];
    if IssuedIn(tr, s) {
      var i :| 0 <= i < |tr| && tr[i].CodeIssued? && tr[i].session == s;
      assert tr'[i] == tr[i];
    }
    if StartedIn(tr, d, dev) {
      var i :| 0 <= i < |tr| && tr[i].DeviceStarted? && tr[i].deviceCode == d &&
               tr[i].device.client == dev.client && tr[i].device.scope == dev.scope;
      assert tr'[i] == tr[i];
    }
    if ApprovedIn(tr, d, subject) {
      var i :| 0 <= i < |tr| && tr[i] == DeviceApproved(d, subject);
      assert tr'[i] == tr[i];
    }
  }

  lemma RootedKeep(env: Env, tr: seq<Outcome>, o: Outcome, h: string, rt: RefreshToken)
    requires RefreshTicket(h) !in Minted(o)
    ensures Root(tr + [o], h) == Root(tr, h)
    ensures Rooted(env, tr, h, rt) ==> Rooted(env, tr + [o], h, rt)
  {
    hide IssuedIn, StartedIn, ApprovedIn;
    var tr' := tr + [o];
    assert tr'[..|tr| ] == tr;
    if Rooted(env, tr, h, rt) {
      var r := Root(tr, h);
      assert tr'[r] == tr[r] && tr'[..r] == tr[..r];
    }
  }

  lemma MintedGrow(tr: seq<Outcome>, o: Outcome)
    ensures AllMinted(tr + [o]) == AllMinted(tr) + Minted(o)
  {
    assert (tr + [o])[..|tr|] == tr;
  }

  lemma {:induction false} RefreshKeep(env: Env, refresh: map<string, RefreshToken>, tr: seq<Outcome>, o: Outcome)
    requires RefreshLineage(env, refresh, tr) && Minted(o) !! AllMinted(tr)
    ensures RefreshLineage(env, refresh, tr + [o])
  {
    hide Rooted, Minted, Root;
    MintedGrow(tr, o);
    forall h | h in refresh
      ensures Root(tr + [o], h) == Root(tr, h) && Rooted(env, tr + [o], h, refresh[h])
    {
      RootedKeep(env, tr, o, h, refresh[h]);
    }
  }

  lemma SessionsKeep(sessions: map<string, Session>, tr: seq<Outcome>, o: Outcome)
    requires SessionLineage(sessions, tr)
    ensures SessionLineage(sessions, tr + [o])
  {
    hide IssuedIn;
    forall id | id in sessions ensures IssuedIn(tr + [o], sessions[id]) {
      EventsKeep(tr, o, sessions[id], "", DeviceCode("", "", "", "", false, false, 0), "");
    }
  }

  lemma DevicesKeep(devices: map<string, DeviceCode>, tr: seq<Outcome>, o: Outcome)
    requires DeviceLineage(devices, tr)
    ensures DeviceLineage(devices, tr + [o])
  {
    hide StartedIn, ApprovedIn;
    forall d | d in devices
      ensures StartedIn(tr + [o], d, devices[d]) && (devices[d].approved ==> ApprovedIn(tr + [o], d, devices[d].subject))
    {
      EventsKeep(tr, o, Session("", "", "", "", "", "", "", "", "", "", 0), d, devices[d], devices[d].subject);
    }
  }

  // ----- adding and dropping rows -----

  lemma AddRefresh(env: Env, refresh: map<string, RefreshToken>, tr: seq<Outcome>, h: string, rt: RefreshToken)
    requires RefreshLineage(env, refresh, tr) && h !in refresh
    requires RefreshTicket(h) in AllMinted(tr) && Rooted(env, tr, h, rt)
    requires forall g :: g in refresh && refresh[g].usedAt.None? ==> Root(tr, g) != Root(tr, h)
    ensures RefreshLineage(env, SaveRefreshToken(refresh, h, rt), tr)
  {
    hide Rooted, Root;
  }

  lemma FewerRefresh(env: Env, refresh: map<string, RefreshToken>, fewer: map<string, RefreshToken>, tr: seq<Outcome>)
    requires RefreshLineage(env, refresh, tr)
    requires forall h :: h in fewer ==> h in refresh && fewer[h] == refresh[h]
    ensures RefreshLineage(env, fewer, tr)
  {
    hide Rooted, Root;
  }

  lemma MarkUsed(env: Env, refresh: map<string, RefreshToken>, tr: seq<Outcome>, h: string, now: Time)
    requires RefreshLineage(env, refresh, tr) && h in refresh
    ensures RefreshLineage(env, SaveRefreshToken(refresh, h, refresh[h].(usedAt := Some(now))), tr)
  {
    hide Root, IssuedIn, StartedIn, ApprovedIn;
  }

  // ----- each handler keeps the lineage -----

  lemma RootOfRedeemed(tr: seq<Outcome>, o: Outcome)
    requires o.CodeRedeemed? || o.DeviceRedeemed?
    ensures Root(tr + [o], o.newHash) == |tr|
  {
  }

  lemma RootOfRotated(tr: seq<Outcome>, o: Outcome)
    requires o.Rotated?
    ensures Root(tr + [o], o.newHash) == Root(tr, o.oldHash)
  {
    assert (tr + [o])[..|tr|] == tr;
  }

  /** A token minted by a redemption gets a root of its own. */
  lemma {:induction false} RedeemedLineage(env: Env, refresh: map<string, RefreshToken>, tr: seq<Outcome>, o: Outcome, rt: RefreshToken)
    requires RefreshLineage(env, refresh, tr) && Minted(o) !! AllMinted(tr)
    requires o.CodeRedeemed? || o.DeviceRedeemed?
    requires Grants(env, tr + [o], |tr|, rt)
    ensures RefreshLineage(env, SaveRefreshToken(refresh, o.newHash, rt), tr + [o])
  {
    hide RefreshLineage, SaveRefreshToken, Grants;
    var h := o.newHash;
    assert RefreshTicket(h) in Minted(o);
    RefreshKeep(env, refresh, tr, o);
    RootOfRedeemed(tr, o);
    MintedGrow(tr, o);
    assert forall g :: g in refresh ==> Root(tr + [o], g) < |tr| && g != h by {
      RootsEarlier(env, refresh, tr, o);
    }
    AddRefresh(env, refresh, tr + [o], h, rt);
  }

  lemma RootsEarlier(env: Env, refresh: map<string, RefreshToken>, tr: seq<Outcome>, o: Outcome)
    requires RefreshLineage(env, refresh, tr) && Minted(o) !! AllMinted(tr)
    ensures forall g :: g in refresh ==> RefreshTicket(g) !in Minted(o) && Root(tr + [o], g) == Root(tr, g) < |tr|
  {
    hide Rooted, Root, Minted;
    forall g | g in refresh
      ensures RefreshTicket(g) !in Minted(o) && Root(tr + [o], g) == Root(tr, g) < |tr|
    {
      assert RefreshTicket(g) in AllMinted(tr);
      RootedKeep(env, tr, o, g, refresh[g]);
    }
  }

  /** A rotated token inherits its predecessor's root, and the predecessor is no longer live. */
  lemma {:induction false} RotatedLineage(env: Env, refresh: map<string, RefreshToken>, tr: seq<Outcome>, o: Outcome, rt: RefreshToken, now: Time)
    requires RefreshLineage(env, refresh, tr) && Minted(o) !! AllMinted(tr)
    requires o.Rotated? && o.oldHash in refresh && refresh[o.oldHash].usedAt.None?
    requires rt.subject == refresh[o.oldHash].subject && rt.client == refresh[o.oldHash].client && rt.scope == refresh[o.oldHash].scope
    ensures var marked := SaveRefreshToken(refresh, o.oldHash, refresh[o.oldHash].(usedAt := Some(now)));
            RefreshLineage(env, SaveRefreshToken(marked, o.newHash, rt), tr + [o])
  {
    var marked := SaveRefreshToken(refresh, o.oldHash, refresh[o.oldHash].(usedAt := Some(now)));
    assert RefreshTicket(o.newHash) in Minted(o);
    RootsEarlier(env, refresh, tr, o);
    var tr' := tr + [o];
    RootOfRotated(tr, o);
    assert Rooted(env, tr, o.oldHash, refresh[o.oldHash]);
    var r := Root(tr, o.oldHash);
    assert tr'[r] == tr[r] && tr'[..r] == tr[..r];
    assert Rooted(env, tr', o.newHash, rt) by { hide IssuedIn, StartedIn, ApprovedIn; }
    assert forall g :: g in refresh && refresh[g].usedAt.None? && g != o.oldHash ==> Root(tr, g) != r;
    MarkUsed(env, refresh, tr, o.oldHash, now);
    RefreshKeep(env, marked, tr, o);
    MintedGrow(tr, o);
    hide RefreshLineage, Root, Rooted, Minted;
    AddRefresh(env, marked, tr', o.newHash, rt);
  }

  lemma AddSession(sessions: map<string, Session>, tr: seq<Outcome>, id: string, o: Outcome)
    requires SessionLineage(sessions, tr) && id !in sessions && o.CodeIssued? && o.session.refreshTokenHash == ""
    ensures SessionLineage(SaveSession(sessions, id, o.session), tr + [o])
  {
    SessionsKeep(sessions, tr, o);
    var tr' := tr + [o];
    assert tr'[|tr|] == o;
    assert IssuedIn(tr', o.session);
    hide IssuedIn;
  }

  /** One step keeps the whole lineage. */
  lemma {:induction false} StepLineage(env: Env, t: Tables, now: Time, r: Request, tr: seq<Outcome>)
    requires Lineage(env, t, tr) && FreshRow(t, r)
    requires Minted(Next(env, t, now, r).1) !! AllMinted(tr)
    ensures Lineage(env, Next(env, t, now, r).0, tr + [Next(env, t, now, r).1])
  {
    hide AuthorizeStep, ExchangeStep, RefreshStep, DeviceGrantStep, StartDeviceStep, ApproveDeviceStep, PushStep, RevokeStep,
         LogoutStep, IssueSessionStep, RefreshLineage, SessionLineage, DeviceLineage, Minted, Unexpired, FreshRow;
    var o := Next(env, t, now, r).1;
    RefreshKeep(env, t.refresh, tr, o);
    SessionsKeep(t.sessions, tr, o);
    DevicesKeep(t.devices, tr, o);
    match r
    case Authorize(_, _, _, _) => AuthorizeLineage(env, t, now, r, tr);
    case IssueSession(_, _, _) => IssueSessionLineage(env, t, now, r, tr);
    case ExchangeCode(_, _, _, _, _) => ExchangeLineage(env, t, now, r, tr);
    case RefreshGrant(_, _, _) => RefreshGrantLineage(env, t, now, r, tr);
    case StartDevice(_, _, _, _, _) => StartDeviceLineage(env, t, now, r, tr);
    case ApproveDevice(_, _) => ApproveDeviceLineage(env, t, now, r, tr);
    case DeviceGrant(_, _, _) => DeviceGrantLineage(env, t, now, r, tr);
    case PushRequest(_, _, _) => assert PushStep(env, t, now, r).0 == t.(par := PushStep(env, t, now, r).0.par) by { PushKeepsOthers(env, t, now, r); }
    case RevokeToken(_, _, _, _) => RevokeLineage(env, t, r, tr);
    case Logout(_) => LogoutLineage(env, t, now, r, tr);
    case DeleteSession(id) => FewerSessions(t.sessions, t.sessions - {id}, tr + [o]);
    case PurgeSessions => PurgedSessions(t.sessions, now, tr + [o]);
    case ChangeClients(clients) =>
  }

  lemma PushKeepsOthers(env: Env, t: Tables, now: Time, r: Request)
    requires r.PushRequest?
    ensures PushStep(env, t, now, r).0 == t.(par := PushStep(env, t, now, r).0.par)
  {
    hide ClientAuthOk, RequestUri, NonEmpty;
  }

  lemma FewerSessions(sessions: map<string, Session>, fewer: map<string, Session>, tr: seq<Outcome>)
    requires SessionLineage(sessions, tr)
    requires forall id :: id in fewer ==> id in sessions && fewer[id] == sessions[id]
    ensures SessionLineage(fewer, tr)
  {
    hide IssuedIn;
  }

  lemma PurgedSessions(sessions: map<string, Session>, now: Time, tr: seq<Outcome>)
    requires SessionLineage(sessions, tr)
    ensures SessionLineage(Unexpired(sessions, now), tr)
  {
    hide SessionLineage;
    FewerSessions(sessions, Unexpired(sessions, now), tr);
  }

  lemma AuthorizeLineage(env: Env, t: Tables, now: Time, r: Request, tr: seq<Outcome>)
    requires r.Authorize? && Lineage(env, t, tr) && FreshRow(t, r)
    requires Minted(AuthorizeStep(t, now, r).1) !! AllMinted(tr)
    ensures Lineage(env, AuthorizeStep(t, now, r).0, tr + [AuthorizeStep(t, now, r).1])
  {
    hide RefreshLineage, SessionLineage, DeviceLineage, SaveSession, AuthorizeError, Minted;
    var (t', o) := AuthorizeStep(t, now, r);
    RefreshKeep(env, t.refresh, tr, o);
    SessionsKeep(t.sessions, tr, o);
    DevicesKeep(t.devices, tr, o);
    if o.CodeIssued? {
      AddSession(t.sessions, tr, r.sessionId, o);
    }
  }

  lemma IssueSessionLineage(env: Env, t: Tables, now: Time, r: Request, tr: seq<Outcome>)
    requires r.IssueSession? && Lineage(env, t, tr) && FreshRow(t, r)
    requires Minted(IssueSessionStep(t, now, r).1) !! AllMinted(tr)
    ensures Lineage(env, IssueSessionStep(t, now, r).0, tr + [IssueSessionStep(t, now, r).1])
  {
    hide RefreshLineage, SessionLineage, DeviceLineage, SaveSession, Minted;
    var (t', o) := IssueSessionStep(t, now, r);
    RefreshKeep(env, t.refresh, tr, o);
    DevicesKeep(t.devices, tr, o);
    AddSession(t.sessions, tr, r.sessionId, o);
  }

  lemma ExchangeLineage(env: Env, t: Tables, now: Time, r: Request, tr: seq<Outcome>)
    requires r.ExchangeCode? && Lineage(env, t, tr)
    requires Minted(ExchangeStep(env, t, now, r).1) !! AllMinted(tr)
    ensures Lineage(env, ExchangeStep(env, t, now, r).0, tr + [ExchangeStep(env, t, now, r).1])
  {
    hide RefreshLineage, DeviceLineage, SaveRefreshToken, Minted, IssuedIn, ClientAuthOk;
    var (t', o) := ExchangeStep(env, t, now, r);
    RefreshKeep(env, t.refresh, tr, o);
    SessionsKeep(t.sessions, tr, o);
    DevicesKeep(t.devices, tr, o);
    if o.CodeRedeemed? {
      FewerSessions(t.sessions, t'.sessions, tr + [o]);
      var rt := RefreshToken(o.session.subject, o.session.client, o.session.scope, now, now + REFRESH_TTL, None);
      assert (tr + [o])[..|tr|] == tr;
      assert IssuedIn(tr, o.session);
      RedeemedLineage(env, t.refresh, tr, o, rt);
    }
  }

  lemma RefreshGrantLineage(env: Env, t: Tables, now: Time, r: Request, tr: seq<Outcome>)
    requires r.RefreshGrant? && Lineage(env, t, tr)
    requires Minted(RefreshStep(env, t, now, r).1) !! AllMinted(tr)
    ensures Lineage(env, RefreshStep(env, t, now, r).0, tr + [RefreshStep(env, t, now, r).1])
  {
    hide RefreshLineage, SessionLineage, DeviceLineage, SaveRefreshToken, Minted, ClientAuthOk;
    var (t', o) := RefreshStep(env, t, now, r);
    RefreshKeep(env, t.refresh, tr, o);
    SessionsKeep(t.sessions, tr, o);
    DevicesKeep(t.devices, tr, o);
    if o.Rotated? {
      var rt := t.refresh[o.oldHash];
      RotatedLineage(env, t.refresh, tr, o, RefreshToken(rt.subject, rt.client, rt.scope, now, now + REFRESH_TTL, None), now);
    } else {
      FewerRefresh(env, t.refresh, t'.refresh, tr + [o]);
    }
  }

  lemma StartDeviceLineage(env: Env, t: Tables, now: Time, r: Request, tr: seq<Outcome>)
    requires r.StartDevice? && Lineage(env, t, tr)
    requires Minted(StartDeviceStep(env, t, now, r).1) !! AllMinted(tr)
    ensures Lineage(env, StartDeviceStep(env, t, now, r).0, tr + [StartDeviceStep(env, t, now, r).1])
  {
    hide RefreshLineage, SessionLineage, Minted, ClientAuthOk, HasUserCode;
    var (t', o) := StartDeviceStep(env, t, now, r);
    RefreshKeep(env, t.refresh, tr, o);
    SessionsKeep(t.sessions, tr, o);
    DevicesKeep(t.devices, tr, o);
    if o.DeviceStarted? {
      assert (tr + [o])[|tr|] == o;
      assert StartedIn(tr + [o], o.deviceCode, o.device);
      hide StartedIn, ApprovedIn;
    }
  }

  lemma ApproveDeviceLineage(env: Env, t: Tables, now: Time, r: Request, tr: seq<Outcome>)
    requires r.ApproveDevice? && Lineage(env, t, tr)
    requires Minted(ApproveDeviceStep(env, t, now, r).1) !! AllMinted(tr)
    ensures Lineage(env, ApproveDeviceStep(env, t, now, r).0, tr + [ApproveDeviceStep(env, t, now, r).1])
  {
    hide RefreshLineage, SessionLineage, Minted, HasUserCode, DeviceOfUserCode;
    var (t', o) := ApproveDeviceStep(env, t, now, r);
    RefreshKeep(env, t.refresh, tr, o);
    SessionsKeep(t.sessions, tr, o);
    DevicesKeep(t.devices, tr, o);
    if o.DeviceApproved? {
      var d := o.deviceCode;
      assert (tr + [o])[|tr|] == o;
      assert ApprovedIn(tr + [o], d, o.subject);
      assert StartedIn(tr + [o], d, t.devices[d]);
      assert StartedIn(tr + [o], d, t'.devices[d]);
      hide StartedIn, ApprovedIn;
    }
  }

  lemma DeviceGrantLineage(env: Env, t: Tables, now: Time, r: Request, tr: seq<Outcome>)
    requires r.DeviceGrant? && Lineage(env, t, tr)
    requires Minted(DeviceGrantStep(env, t, now, r).1) !! AllMinted(tr)
    ensures Lineage(env, DeviceGrantStep(env, t, now, r).0, tr + [DeviceGrantStep(env, t, now, r).1])
  {
    hide RefreshLineage, SessionLineage, SaveRefreshToken, Minted, StartedIn, ApprovedIn;
    var (t', o) := DeviceGrantStep(env, t, now, r);
    RefreshKeep(env, t.refresh, tr, o);
    SessionsKeep(t.sessions, tr, o);
    DevicesKeep(t.devices, tr, o);
    if o.DeviceRedeemed? {
      assert (tr + [o])[..|tr|] == tr;
      RedeemedLineage(env, t.refresh, tr, o, RefreshToken(o.device.subject, o.device.client, o.device.scope, now, now + REFRESH_TTL, None));
    }
  }

  lemma RevokeLineage(env: Env, t: Tables, r: Request, tr: seq<Outcome>)
    requires r.RevokeToken? && Lineage(env, t, tr)
    requires Minted(RevokeStep(env, t, r).1) !! AllMinted(tr)
    ensures Lineage(env, RevokeStep(env, t, r).0, tr + [RevokeStep(env, t, r).1])
  {
    hide RefreshLineage, SessionLineage, DeviceLineage, Minted, ClientAuthOk;
    var (t', o) := RevokeStep(env, t, r);
    RefreshKeep(env, t.refresh, tr, o);
    SessionsKeep(t.sessions, tr, o);
    DevicesKeep(t.devices, tr, o);
    FewerRefresh(env, t.refresh, t'.refresh, tr + [o]);
  }

  lemma LogoutLineage(env: Env, t: Tables, now: Time, r: Request, tr: seq<Outcome>)
    requires r.Logout? && Lineage(env, t, tr)
    requires Minted(LogoutStep(t, now, r).1) !! AllMinted(tr)
    ensures Lineage(env, LogoutStep(t, now, r).0, tr + [LogoutStep(t, now, r).1])
  {
    hide RefreshLineage, SessionLineage, DeviceLineage, Minted;
    var (t', o) := LogoutStep(t, now, r);
    RefreshKeep(env, t.refresh, tr, o);
    SessionsKeep(t.sessions, tr, o);
    DevicesKeep(t.devices, tr, o);
    FewerRefresh(env, t.refresh, t'.refresh, tr + [o]);
    FewerSessions(t.sessions, t'.sessions, tr + [o]);
  }

  // ----- over every run -----

  lemma {:induction false} RunLineage(env: Env, calls: seq<Call>)
    requires FreshRun(env, calls)
    ensures Lineage(env, After(env, calls), Trace(env, calls))
    decreases |calls|
  {
    hide Lineage, Next, Minted, FreshRow;
    if calls == [] {
      assert Lineage(env, NO_TABLES, []) by { NothingToTrace(env); }
    } else {
      var before, c := calls[..|calls| - 1], calls[|calls| - 1];
      RunLineage(env, before);
      StepLineage(env, After(env, before), c.now, c.request, Trace(env, before));
    }
  }

  lemma NothingToTrace(env: Env)
    ensures Lineage(env, NO_TABLES, [])
  {
  }

  /** In every reachable state, each stored refresh token carries the subject, client and scope of
      the redeemed code or approved device code at the root of its rotation chain; a root that is
      a code was redeemed with a verifier matching its challenge. */
  lemma {:induction false} EveryTokenIsRooted(env: Env, calls: seq<Call>, hash: string)
    requires FreshRun(env, calls) && hash in After(env, calls).refresh
    ensures var tr := Trace(env, calls);
            0 <= Root(tr, hash) && Grants(env, tr, Root(tr, hash), After(env, calls).refresh[hash])
  {
    RunLineage(env, calls);
    hide Trace, Next, After, Root, Grants;
  }

  /** Rotation never forks: a chain has at most one token that can still be used. */
  lemma {:induction false} OneLiveTokenPerChain(env: Env, calls: seq<Call>, g: string, h: string)
    requires FreshRun(env, calls)
    requires Live(After(env, calls), RefreshTicket(g)) && Live(After(env, calls), RefreshTicket(h))
    requires Root(Trace(env, calls), g) == Root(Trace(env, calls), h)
    ensures g == h
  {
    RunLineage(env, calls);
    hide Trace, Next, After, Root, Rooted;
  }

  /** LogoutHandler's comment promises to revoke the subject's refresh tokens. No stored session
      ever names one, so logout leaves the refresh table as it was. */
  lemma {:induction false} LogoutKeepsRefreshTokens(env: Env, calls: seq<Call>, now: Time, subject: string)
    requires FreshRun(env, calls)
    ensures LogoutStep(After(env, calls), now, Logout(subject)).0.refresh == After(env, calls).refresh
  {
    RunLineage(env, calls);
    hide Trace, Next, After, RefreshLineage, DeviceLineage, IssuedIn, LogoutStep;
    LogoutOfUnnamed(After(env, calls), now, subject);
  }

  lemma LogoutOfUnnamed(t: Tables, now: Time, subject: string)
    requires forall id :: id in t.sessions ==> t.sessions[id].refreshTokenHash == ""
    ensures LogoutStep(t, now, Logout(subject)).0.refresh == t.refresh
  {
    hide Unexpired;
    var named := NamedTokens(t.sessions, SessionsOf(t.sessions, subject, now));
    assert named == {};
    assert t.refresh - named == t.refresh;
  }

  /** The subject still has a refresh token that a refresh grant would take. */
  ghost predicate HasUsableToken(t: Tables, subject: string, now: Time) {
    exists h :: Usable(t, h, subject, now)
  }

  predicate Usable(t: Tables, h: string, subject: string, now: Time) {
    h in t.refresh && t.refresh[h].subject == subject && t.refresh[h].usedAt.None? && now <= t.refresh[h].expiresAt
  }

  /** So in every reachable state logout keeps its promise exactly when it had nothing to do. */
  lemma {:induction false} LogoutRevokesIff(env: Env, calls: seq<Call>, now: Time, subject: string)
    requires FreshRun(env, calls)
    ensures HasUsableToken(LogoutStep(After(env, calls), now, Logout(subject)).0, subject, now) <==> HasUsableToken(After(env, calls), subject, now)
  {
    LogoutKeepsRefreshTokens(env, calls, now, subject);
    hide After, LogoutStep;
    var t := After(env, calls);
    var t' := LogoutStep(t, now, Logout(subject)).0;
    assert forall h :: Usable(t', h, subject, now) <==> Usable(t, h, subject, now);
    hide Usable;
  }

  // ----- a token that survives logout -----

  lemma RunExtends(env: Env, calls: seq<Call>, c: Call, t: Tables)
    requires FreshRun(env, calls) && After(env, calls) == t && FreshRow(t, c.request)
    requires Minted(Next(env, t, c.now, c.request).1) !! AllMinted(Trace(env, calls))
    ensures FreshRun(env, calls + [c]) && After(env, calls + [c]) == Next(env, t, c.now, c.request).0
    ensures AllMinted(Trace(env, calls + [c])) == AllMinted(Trace(env, calls)) + Minted(Next(env, t, c.now, c.request).1)
  {
    hide Next, Minted, FreshRow;
    assert (calls + [c])[..|calls|] == calls;
    MintedGrow(Trace(env, calls), LastOutcome(env, calls + [c]));
  }

  const APP := Client(["https://app"], "none", "")

  function LoginQuery(env: Env, verifier: string): Params {
    map[ClientId := "app", RedirectUri := "https://app", StateParam := "s", CodeChallenge := env.s256(verifier), CodeChallengeMethod := "S256"]
  }

  /** A public client is registered, the subject authorizes it, and the code is exchanged. */
  function Login(env: Env, subject: string, verifier: string): seq<Call> {
    [] + [Call(0, ChangeClients(map["app" := APP]))]
    + [Call(0, Authorize(LoginQuery(env, verifier), subject, "id", "code"))]
    + [Call(0, ExchangeCode("code", "", verifier, Credentials(None, ""), "token"))]
  }

  /** The authorization of the run: one session holding the code. */
  lemma LoginAuthorizes(env: Env, t: Tables, subject: string, verifier: string)
    requires t == NO_TABLES.(clients := map["app" := APP]) && subject != "" && env.s256(verifier) != ""
    ensures var q := LoginQuery(env, verifier);
            var s := NewSession(q, subject, "code", 0);
            && AuthorizeStep(t, 0, Authorize(q, subject, "id", "code")) == (t.(sessions := map["id" := s]), CodeIssued(s, None))
            && s.subject == subject && s.client == "app" && s.code == "code" && s.challenge == env.s256(verifier) && s.expiresAt == CODE_TTL
  {
    assert "https://app" in APP.redirectUris by { assert APP.redirectUris[0] == "https://app"; }
  }

  /** The exchange of the run: the session is spent and one refresh token stored. */
  lemma LoginExchanges(env: Env, t: Tables, s: Session, verifier: string)
    requires t == NO_TABLES.(clients := map["app" := APP], sessions := map["id" := s])
    requires s.client == "app" && s.code == "code" && s.challenge == env.s256(verifier) && s.expiresAt == CODE_TTL
    requires verifier != "" && env.s256(verifier) != ""
    ensures var (t', o) := ExchangeStep(env, t, 0, ExchangeCode("code", "", verifier, Credentials(None, ""), "token"));
            var hash := env.hashToken("token");
            && o == CodeRedeemed(s, verifier, hash)
            && t'.refresh == map[hash := RefreshToken(s.subject, s.client, s.scope, 0, REFRESH_TTL, None)]
  {
    assert t.sessions["id"].code == "code";
    assert HasCode(t.sessions, "code") && IdOfCode(t.sessions, "code") == "id";
  }

  /** Whoever the subject is, this run of fresh draws leaves them a usable refresh token, and a
      logout right after it does too. */
  lemma {:induction false} TokenSurvivesLogout(env: Env, subject: string, verifier: string)
    requires subject != "" && verifier != "" && env.s256(verifier) != ""
    ensures var calls := Login(env, subject, verifier);
            && FreshRun(env, calls) && HasUsableToken(After(env, calls), subject, 0)
            && HasUsableToken(LogoutStep(After(env, calls), 0, Logout(subject)).0, subject, 0)
  {
    hide AuthorizeStep, ExchangeStep, LogoutStep, NewSession, LoginQuery, After, Trace, FreshRun, AllMinted;
    var register := Call(0, ChangeClients(map["app" := APP]));
    var authorize := Call(0, Authorize(LoginQuery(env, verifier), subject, "id", "code"));
    var exchange := Call(0, ExchangeCode("code", "", verifier, Credentials(None, ""), "token"));
    var t := NO_TABLES.(clients := map["app" := APP]);
    var s := NewSession(LoginQuery(env, verifier), subject, "code", 0);
    EmptyRun(env);
    RunExtends(env, [], register, NO_TABLES);
    LoginAuthorizes(env, t, subject, verifier);
    RunExtends(env, [] + [register], authorize, t);
    var t' := t.(sessions := map["id" := s]);
    LoginExchanges(env, t', s, verifier);
    RunExtends(env, [] + [register] + [authorize], exchange, t');
    var calls := Login(env, subject, verifier);
    assert Usable(After(env, calls), env.hashToken("token"), subject, 0);
    LogoutRevokesIff(env, calls, 0, subject);
  }

  lemma EmptyRun(env: Env)
    ensures FreshRun(env, []) && After(env, []) == NO_TABLES && AllMinted(Trace(env, [])) == {}
  {
  }
}
