/** Access-token revocation against introspection. Times are nanoseconds; JWT expiries are seconds. */
module Revocation {
  import opened Results
  import opened Times

  /** A token's exp claim if it parses, whether its signature checks, and the list's hash key. */
  datatype Tokens = Tokens(expiry: string -> Option<int>, sigOk: string -> bool, hash: string -> string)

  type Revoked = map<string, int>

  /** Verify in oidc/jwt.go: signature, claims, and the whole-second expiry test. */
  predicate JwtValid(ts: Tokens, token: string, now: int) {
    ts.sigOk(token) && ts.expiry(token).Some? && !(Unix(now) > ts.expiry(token).value)
  }

  /** The list still holds the token at this time. */
  predicate Listed(ts: Tokens, revoked: Revoked, token: string, now: int) {
    ts.hash(token) in revoked && !(now > revoked[ts.hash(token)])
  }

  function AfterLookup(ts: Tokens, revoked: Revoked, token: string, now: int): Revoked {
    if ts.hash(token) in revoked && now > revoked[ts.hash(token)] then revoked - {ts.hash(token)} else revoked
  }

  predicate Active(ts: Tokens, revoked: Revoked, token: string, now: int) {
    JwtValid(ts, token, now) && !Listed(ts, revoked, token, now)
  }

  function AfterIntrospect(ts: Tokens, revoked: Revoked, token: string, now: int): Revoked {
    if JwtValid(ts, token, now) then AfterLookup(ts, revoked, token, now) else revoked
  }

  predicate Records(ts: Tokens, token: string, now: int) {
    ts.expiry(token).Some? && now < Instant(ts.expiry(token).value)
  }

  function AfterRevoke(ts: Tokens, revoked: Revoked, token: string, now: int): Revoked {
    if Records(ts, token, now) then revoked[ts.hash(token) := Instant(ts.expiry(token).value)] else revoked
  }

  class RevocationList {
    const tokens: Tokens
    var revoked: Revoked

    constructor (ts: Tokens)
      ensures tokens == ts && revoked == map[]
    {
      tokens := ts;
      revoked := map[];
    }

    method IsAccessTokenRevoked(token: string, now: int) returns (yes: bool)
      modifies this`revoked
      ensures yes == Listed(tokens, old(revoked), token, now)
      ensures revoked == AfterLookup(tokens, old(revoked), token, now)
      ensures var h := tokens.hash(token);
              revoked == if h in old(revoked) && now > old(revoked)[h] then old(revoked) - {h} else old(revoked)
    {
      var h := tokens.hash(token);
      if h !in revoked {
        return false;
      }
      if now > revoked[h] {
        revoked := revoked - {h};
        return false;
      }
      yes := true;
    }

    /** The access-token half of RevokeHandler. */
    method RevokeAccessToken(token: string, now: int)
      modifies this`revoked
      ensures revoked == AfterRevoke(tokens, old(revoked), token, now)
      ensures var exp := tokens.expiry(token);
              revoked == if exp.Some? && now < exp.value * 1_000_000_000
                         then old(revoked)[tokens.hash(token) := exp.value * 1_000_000_000] else old(revoked)
    {
      var exp := tokens.expiry(token);
      if exp.Some? {
        var expiry := Instant(exp.value);
        if now < expiry {
          revoked := revoked[tokens.hash(token) := expiry];
        }
      }
    }

    method IntrospectHandler(token: string, now: int) returns (active: bool)
      modifies this`revoked
      ensures active == Active(tokens, old(revoked), token, now)
      ensures revoked == AfterIntrospect(tokens, old(revoked), token, now)
    {
      if !JwtValid(tokens, token, now) {
        return false;
      }
      var gone := IsAccessTokenRevoked(token, now);
      if gone {
        return false;
      }
      if Unix(now) > tokens.expiry(token).value {
        return false;
      }
      active := true;
    }
  }

  // ----- runs -----

  datatype Event = Revoke(token: string, at: int) | Introspect(token: string, at: int)

  function Step(ts: Tokens, revoked: Revoked, e: Event): Revoked {
    match e
    case Revoke(token, at) => AfterRevoke(ts, revoked, token, at)
    case Introspect(token, at) => AfterIntrospect(ts, revoked, token, at)
  }

  function Run(ts: Tokens, es: seq<Event>): Revoked {
    if es == [] then map[] else Step(ts, Run(ts, es[..|es| - 1]), es[|es| - 1])
  }

  ghost predicate Ordered(es: seq<Event>) {
    forall i, j :: 0 <= i < j < |es| ==> es[i].at <= es[j].at
  }

  /** No other token of the run shares this token's hash. */
  ghost predicate OwnHash(ts: Tokens, es: seq<Event>, token: string) {
    forall i :: 0 <= i < |es| && ts.hash(es[i].token) == ts.hash(token) ==> es[i].token == token
  }

  /** From the recorded revocation on, the token is listed until its expiry has passed. */
  lemma {:induction false} StaysListed(ts: Tokens, es: seq<Event>, i: nat, token: string)
    requires Ordered(es) && OwnHash(ts, es, token)
    requires i < |es| && es[i] == Revoke(token, es[i].at) && Records(ts, token, es[i].at)
    ensures var exp := Instant(ts.expiry(token).value); var revoked := Run(ts, es);
            if ts.hash(token) in revoked then revoked[ts.hash(token)] == exp else es[|es| - 1].at > exp
    decreases |es|
  {
    hide JwtValid, Instant;
    var n := |es| - 1;
    if i < n {
      StaysListed(ts, es[..n], i, token);
      assert es[n - 1].at <= es[n].at;
    }
  }

  /** The run revoked the token before it expired. */
  ghost predicate RevokedInTime(ts: Tokens, es: seq<Event>, token: string) {
    ts.expiry(token).Some? && exists i :: 0 <= i < |es| && es[i].Revoke? && es[i].token == token && es[i].at < ts.expiry(token).value * 1_000_000_000
  }

  /** A token recorded as revoked is later reported active exactly when it is signed correctly and
      the time is strictly after exp and before exp + 1 s, where the list's expiry test and the
      JWT's whole-second test differ. */
  lemma {:induction false} ActiveAfterRevocationIff(ts: Tokens, es: seq<Event>, token: string, now: int)
    requires Ordered(es) && OwnHash(ts, es, token) && RevokedInTime(ts, es, token)
    requires es[|es| - 1].at <= now
    ensures var exp := ts.expiry(token).value;
            Active(ts, Run(ts, es), token, now) <==> ts.sigOk(token) && exp * 1_000_000_000 < now < (exp + 1) * 1_000_000_000
  {
    var exp := ts.expiry(token).value;
    var i :| 0 <= i < |es| && es[i].Revoke? && es[i].token == token && es[i].at < exp * 1_000_000_000;
    InstantIs(exp);
    InstantIs(exp + 1);
    StaysListed(ts, es, i, token);
    UnixBefore(now, exp);
    hide Run, Unix, Instant;
  }

  lemma InstantIs(exp: int)
    ensures Instant(exp) == exp * 1_000_000_000
  {
  }

  lemma UnixBefore(now: int, exp: int)
    ensures Unix(now) > exp <==> now >= Instant(exp + 1)
  {
  }

  /** Without a revocation in time the list never holds the token. */
  lemma {:induction false} NeverListed(ts: Tokens, es: seq<Event>, token: string)
    requires OwnHash(ts, es, token) && !RevokedInTime(ts, es, token)
    ensures ts.hash(token) !in Run(ts, es)
    decreases |es|
  {
    hide JwtValid;
    if es != [] {
      var n := |es| - 1;
      NeverListed(ts, es[..n], token);
      var e := es[n];
      if e.Revoke? && e.token == token && ts.expiry(token).Some? {
        InstantIs(ts.expiry(token).value);
      }
    }
  }

  /** Over every run introspection reports a token active exactly when it is signed correctly, less
      than a second past its expiry at most, and not revoked in time, except strictly between exp
      and exp + 1 s. */
  lemma {:induction false} ActiveIff(ts: Tokens, es: seq<Event>, token: string, now: int)
    requires Ordered(es) && OwnHash(ts, es, token) && (es != [] ==> es[|es| - 1].at <= now)
    ensures Active(ts, Run(ts, es), token, now) <==>
            && ts.sigOk(token) && ts.expiry(token).Some? && now < (ts.expiry(token).value + 1) * 1_000_000_000
            && (RevokedInTime(ts, es, token) ==> ts.expiry(token).value * 1_000_000_000 < now)
  {
    if RevokedInTime(ts, es, token) {
      ActiveAfterRevocationIff(ts, es, token, now);
    } else {
      NeverListed(ts, es, token);
      if ts.expiry(token).Some? {
        UnixBefore(now, ts.expiry(token).value);
        InstantIs(ts.expiry(token).value + 1);
      }
    }
    hide Run, Unix, Instant, RevokedInTime;
  }

  /** On a clock of whole seconds, a revoked token is never reported active again. */
  lemma {:induction false} NeverActiveInWholeSeconds(ts: Tokens, es: seq<Event>, token: string, now: int)
    requires Ordered(es) && OwnHash(ts, es, token) && RevokedInTime(ts, es, token)
    requires es[|es| - 1].at <= now && now % 1_000_000_000 == 0
    ensures !Active(ts, Run(ts, es), token, now)
  {
    ActiveAfterRevocationIff(ts, es, token, now);
    hide Run, Active;
  }
}
