/** Consent policies: what a list of grants lets a relying party see, over every sequence of
    grants and revocations. */
module Consent {
  import opened Results

  // ----- schemas -----

  datatype Schema = Schema(id: string, category: string, extraSensitive: bool)

  /** Registered schemas and categories; isInt says whether strconv.Atoi accepts a text. */
  datatype Registry = Registry(schemas: map<string, Schema>, categories: set<string>, isInt: string -> bool)

  /** strings.LastIndex(id, "-v"), scanning from position i down; -1 when absent. */
  function LastDashV(id: string, i: nat): (k: int)
    ensures -1 <= k < i || k == -1
    ensures k >= 0 ==> k + 2 <= |id| && id[k] == '-' && id[k + 1] == 'v'
  {
    if i == 0 then -1
    else if i + 1 <= |id| && id[i - 1] == '-' && id[i] == 'v' then i - 1
    else LastDashV(id, i - 1)
  }

  function BaseId(reg: Registry, id: string): string {
    var k := LastDashV(id, |id|);
    if k > 0 && reg.isInt(id[k + 2..]) then id[..k] else id
  }

  function GetSchema(reg: Registry, id: string): Option<Schema> {
    if id in reg.schemas then Some(reg.schemas[id])
    else
      var base := BaseId(reg, id);
      if base != id && base in reg.schemas then Some(reg.schemas[base]) else None
  }

  lemma {:induction false} LastDashVFound(id: string, k: nat, i: nat)
    requires k < i <= |id| && k + 2 <= |id| && id[k] == '-' && id[k + 1] == 'v'
    requires forall j :: k < j && j + 2 <= |id| ==> !(id[j] == '-' && id[j + 1] == 'v')
    ensures LastDashV(id, i) == k
    decreases i
  {
    if i - 1 != k {
      LastDashVFound(id, k, i - 1);
    }
  }

  predicate HasDashV(text: string) {
    exists j :: 0 <= j && j + 2 <= |text| && text[j] == '-' && text[j + 1] == 'v'
  }

  /** The versioned form of a registered ID resolves to that schema exactly when no other schema is
      registered under the versioned form and, if none is, the ID is not empty. Atoi accepts no
      text with "-v" in it. */
  lemma {:induction false} VersionedResolvesIff(reg: Registry, id: string, version: string)
    requires id in reg.schemas && reg.isInt(version) && !HasDashV(version)
    ensures var v := id + "-v" + version;
            GetSchema(reg, v) == Some(reg.schemas[id]) <==> if v in reg.schemas then reg.schemas[v] == reg.schemas[id] else id != ""
  {
    var v := id + "-v" + version;
    forall j | |id| < j && j + 2 <= |v|
      ensures !(v[j] == '-' && v[j + 1] == 'v')
    {
      if j >= |id| + 2 {
        var k := j - |id| - 2;
        assert v[j] == version[k] && v[j + 1] == version[k + 1];
      }
    }
    LastDashVFound(v, |id|, |v|);
    assert v[|id| + 2..] == version && v[..|id|] == id;
    hide LastDashV;
  }

  /** A suffix that is not a number names no version. */
  lemma {:induction false} OnlyNumbersAreVersions(reg: Registry, id: string, version: string)
    requires !reg.isInt(version) && !HasDashV(version)
    ensures var v := id + "-v" + version; v !in reg.schemas ==> GetSchema(reg, v) == None
  {
    var v := id + "-v" + version;
    forall j | |id| < j && j + 2 <= |v|
      ensures !(v[j] == '-' && v[j + 1] == 'v')
    {
      if j >= |id| + 2 {
        var k := j - |id| - 2;
        assert v[j] == version[k] && v[j + 1] == version[k + 1];
      }
    }
    LastDashVFound(v, |id|, |v|);
    assert v[|id| + 2..] == version;
    hide LastDashV;
  }

  // ----- grants -----

  datatype Level = SchemaLevel | CategoryLevel | OtherLevel(name: string)

  datatype Grant = Grant(
    id: string, subject: string, relying: string, level: Level, scope: string,
    expiresAt: Option<int>, revokedAt: Option<int>, confirmed: bool)

  predicate IsLive(g: Grant, now: int) {
    g.revokedAt.None? && !(g.expiresAt.Some? && now > g.expiresAt.value)
  }

  /** The grant, if live, opens the schema to the relying party. */
  predicate Covers(g: Grant, subject: string, relying: string, schemaId: string, s: Schema) {
    && g.subject == subject && g.relying == relying
    && match g.level
       case SchemaLevel => g.scope == schemaId
       case CategoryLevel => g.scope == s.category && !s.extraSensitive && g.confirmed
       case OtherLevel(_) => false
  }

  predicate Acceptable(reg: Registry, g: Grant) {
    && g.subject != "" && g.relying != "" && g.scope != ""
    && match g.level
       case SchemaLevel => GetSchema(reg, g.scope).Some? && (GetSchema(reg, g.scope).value.extraSensitive ==> g.confirmed)
       case CategoryLevel => g.scope in reg.categories && g.confirmed
       case OtherLevel(_) => false
  }

  ghost predicate MayAccess(reg: Registry, grants: seq<Grant>, subject: string, relying: string, schemaId: string, now: int) {
    && GetSchema(reg, schemaId).Some?
    && exists i :: 0 <= i < |grants| && IsLive(grants[i], now) &&
         Covers(grants[i], subject, relying, schemaId, GetSchema(reg, schemaId).value)
  }

  function AfterAdd(reg: Registry, grants: seq<Grant>, g: Grant): seq<Grant> {
    if Acceptable(reg, g) then grants + [g] else grants
  }

  /** Position of the first grant with the ID, or the length. */
  function FirstWith(grants: seq<Grant>, id: string): (k: nat)
    ensures k <= |grants| && (k < |grants| ==> grants[k].id == id)
    ensures forall j :: 0 <= j < k ==> grants[j].id != id
  {
    if grants == [] || grants[0].id == id then 0 else 1 + FirstWith(grants[1..], id)
  }

  predicate Revokes(grants: seq<Grant>, id: string) {
    var k := FirstWith(grants, id);
    k < |grants| && grants[k].revokedAt.None?
  }

  function AfterRevoke(grants: seq<Grant>, id: string, now: int): seq<Grant> {
    var k := FirstWith(grants, id);
    if Revokes(grants, id) then grants[k := grants[k].(revokedAt := Some(now))] else grants
  }

  class Policy {
    const registry: Registry
    var grants: seq<Grant>

    constructor (registry: Registry, grants: seq<Grant>)
      ensures this.registry == registry && this.grants == grants
    {
      this.registry := registry;
      this.grants := grants;
    }

    method CanAccess(subject: string, relying: string, schemaId: string, now: int) returns (ok: bool)
      ensures ok <==> MayAccess(registry, grants, subject, relying, schemaId, now)
    {
      var found := GetSchema(registry, schemaId);
      if found.None? {
        return false;
      }
      var s := found.value;
      for i := 0 to |grants|
        invariant forall j :: 0 <= j < i ==> !(IsLive(grants[j], now) && Covers(grants[j], subject, relying, schemaId, s))
      {
        var g := grants[i];
        if g.subject == subject && g.relying == relying && g.revokedAt.None? && !(g.expiresAt.Some? && now > g.expiresAt.value) {
          match g.level
          case SchemaLevel =>
            if g.scope == schemaId {
              return true;
            }
          case CategoryLevel =>
            if g.scope == s.category && !s.extraSensitive && g.confirmed {
              return true;
            }
          case OtherLevel(_) =>
        }
      }
      ok := false;
    }

    method AddGrant(g: Grant) returns (ok: bool)
      modifies this`grants
      ensures ok == Acceptable(registry, g) && grants == AfterAdd(registry, old(grants), g)
    {
      ok := Acceptable(registry, g);
      if ok {
        grants := grants + [g];
      }
    }

    method RevokeGrant(id: string, now: int) returns (ok: bool)
      modifies this`grants
      ensures ok == Revokes(old(grants), id) && grants == AfterRevoke(old(grants), id, now)
    {
      var i := 0;
      while i < |grants|
        invariant 0 <= i <= |grants| && grants == old(grants)
        invariant forall j :: 0 <= j < i ==> grants[j].id != id
      {
        if grants[i].id == id {
          if grants[i].revokedAt.Some? {
            return false;
          }
          grants := grants[i := grants[i].(revokedAt := Some(now))];
          return true;
        }
        i := i + 1;
      }
      ok := false;
    }
  }

  /** The grant opens the schema: given by this subject to this party, not withdrawn, not past its
      expiry, and for exactly this schema, or, confirmed, for its category unless it is
      extra-sensitive. */
  predicate OpensTo(g: Grant, subject: string, relying: string, schemaId: string, s: Schema, now: int) {
    && g.subject == subject && g.relying == relying && g.revokedAt == None
    && (g.expiresAt == None || now <= g.expiresAt.value)
    && ((g.level == SchemaLevel && g.scope == schemaId) ||
        (g.level == CategoryLevel && g.scope == s.category && !s.extraSensitive && g.confirmed))
  }

  /** Access is granted exactly when the schema is known and some grant opens it. */
  lemma {:induction false} AccessIff(reg: Registry, grants: seq<Grant>, subject: string, relying: string, schemaId: string, now: int)
    ensures MayAccess(reg, grants, subject, relying, schemaId, now) <==>
            GetSchema(reg, schemaId).Some? &&
            exists g :: g in grants && OpensTo(g, subject, relying, schemaId, GetSchema(reg, schemaId).value, now)
  {
    hide GetSchema;
    if MayAccess(reg, grants, subject, relying, schemaId, now) {
      var s := GetSchema(reg, schemaId).value;
      var i :| 0 <= i < |grants| && IsLive(grants[i], now) && Covers(grants[i], subject, relying, schemaId, s);
      assert grants[i] in grants && OpensTo(grants[i], subject, relying, schemaId, s, now);
    }
    if GetSchema(reg, schemaId).Some? {
      var s := GetSchema(reg, schemaId).value;
      if exists g :: g in grants && OpensTo(g, subject, relying, schemaId, s, now) {
        var g :| g in grants && OpensTo(g, subject, relying, schemaId, s, now);
        var i :| 0 <= i < |grants| && grants[i] == g;
        assert IsLive(grants[i], now) && Covers(grants[i], subject, relying, schemaId, s);
      }
    }
  }

  /** A grant is accepted exactly when its fields are there and it is for a known schema, confirmed if
      that is extra-sensitive, or, confirmed, for a known category. */
  lemma AcceptIff(reg: Registry, g: Grant)
    ensures Acceptable(reg, g) <==>
            && g.subject != "" && g.relying != "" && g.scope != ""
            && ((g.level == SchemaLevel && GetSchema(reg, g.scope).Some? && (g.confirmed || !GetSchema(reg, g.scope).value.extraSensitive)) ||
                (g.level == CategoryLevel && g.scope in reg.categories && g.confirmed))
  {
    hide GetSchema;
  }

  /** Revoking marks the first grant with the ID with the time, unless it is marked, and no other. */
  lemma {:induction false} RevokeIs(grants: seq<Grant>, id: string, now: int, k: nat)
    requires k < |grants| && grants[k].id == id && forall j :: 0 <= j < k ==> grants[j].id != id
    ensures Revokes(grants, id) <==> grants[k].revokedAt.None?
    ensures AfterRevoke(grants, id, now) == if grants[k].revokedAt.None? then grants[k := grants[k].(revokedAt := Some(now))] else grants
  {
    var f := FirstWith(grants, id);
    hide FirstWith;
    assert f == k;
  }

  // ----- runs -----

  datatype Op = Add(grant: Grant) | Revoke(id: string, at: int)

  function Step(reg: Registry, grants: seq<Grant>, op: Op): seq<Grant> {
    match op
    case Add(g) => AfterAdd(reg, grants, g)
    case Revoke(id, at) => AfterRevoke(grants, id, at)
  }

  function Run(reg: Registry, grants: seq<Grant>, ops: seq<Op>): seq<Grant>
    decreases |ops|
  {
    if ops == [] then grants else Run(reg, Step(reg, grants, ops[0]), ops[1..])
  }

  /** Later lists keep every record in place; only an open revocation mark may be filled in. */
  ghost predicate Keeps(before: seq<Grant>, after: seq<Grant>) {
    && |before| <= |after|
    && forall i :: 0 <= i < |before| ==>
         after[i] == before[i].(revokedAt := after[i].revokedAt) && (before[i].revokedAt.Some? ==> after[i] == before[i])
  }

  ghost predicate AllAcceptable(reg: Registry, grants: seq<Grant>) {
    forall i :: 0 <= i < |grants| ==> Acceptable(reg, grants[i])
  }

  lemma AcceptableIgnoresRevocation(reg: Registry, g: Grant, at: int)
    requires Acceptable(reg, g)
    ensures Acceptable(reg, g.(revokedAt := Some(at)))
  {
    hide GetSchema;
  }

  /** Over every run no record is removed or altered but for its revocation, and what was validated
      once stays valid. */
  lemma {:induction false} RunKeeps(reg: Registry, grants: seq<Grant>, ops: seq<Op>)
    ensures Keeps(grants, Run(reg, grants, ops))
    ensures AllAcceptable(reg, grants) ==> AllAcceptable(reg, Run(reg, grants, ops))
    decreases |ops|
  {
    hide Acceptable, FirstWith;
    if ops != [] {
      var next := Step(reg, grants, ops[0]);
      if ops[0].Revoke? && Revokes(grants, ops[0].id) && AllAcceptable(reg, grants) {
        AcceptableIgnoresRevocation(reg, grants[FirstWith(grants, ops[0].id)], ops[0].at);
      }
      assert Keeps(grants, next) && (AllAcceptable(reg, grants) ==> AllAcceptable(reg, next));
      RunKeeps(reg, next, ops[1..]);
    }
  }

  /** An explicitly confirmed grant for this very schema. */
  predicate ConfirmedFor(g: Grant, subject: string, relying: string, schemaId: string) {
    g.subject == subject && g.relying == relying && g.level.SchemaLevel? && g.scope == schemaId && g.confirmed
  }

  predicate ExtraSensitive(reg: Registry, schemaId: string) {
    GetSchema(reg, schemaId).Some? && GetSchema(reg, schemaId).value.extraSensitive
  }

  /** Whatever opens an extra-sensitive schema is an explicitly confirmed grant for exactly it. */
  ghost predicate OpensOnlyConfirmed(reg: Registry, grants: seq<Grant>) {
    forall i, subject, relying, schemaId, now ::
      0 <= i < |grants| && ExtraSensitive(reg, schemaId) && IsLive(grants[i], now) &&
      Covers(grants[i], subject, relying, schemaId, GetSchema(reg, schemaId).value)
      ==> ConfirmedFor(grants[i], subject, relying, schemaId)
  }

  /** No open schema-level grant for an extra-sensitive schema lacks its confirmation. */
  predicate ConfirmedWhereNeeded(reg: Registry, grants: seq<Grant>) {
    forall i :: 0 <= i < |grants| && grants[i].revokedAt.None? && grants[i].level.SchemaLevel? && ExtraSensitive(reg, grants[i].scope)
      ==> grants[i].confirmed
  }

  /** NewPolicy takes stored grants as they are. From any such start, extra-sensitive schemas are
      opened only by confirmed grants in every run exactly when the stored grants already carried
      their confirmations. */
  lemma {:induction false} ConfirmationIff(reg: Registry, start: seq<Grant>)
    ensures (forall ops :: OpensOnlyConfirmed(reg, Run(reg, start, ops))) <==> ConfirmedWhereNeeded(reg, start)
  {
    hide Run, ExtraSensitive;
    if ConfirmedWhereNeeded(reg, start) {
      forall ops
        ensures OpensOnlyConfirmed(reg, Run(reg, start, ops))
      {
        StaysConfirmed(reg, start, ops);
        ConfirmedOpens(reg, Run(reg, start, ops));
      }
    } else {
      var i :| 0 <= i < |start| && start[i].revokedAt.None? && start[i].level.SchemaLevel? && ExtraSensitive(reg, start[i].scope) && !start[i].confirmed;
      UnconfirmedOpens(reg, start, i);
      assert Run(reg, start, []) == start by { NoOps(reg, start); }
      assert !OpensOnlyConfirmed(reg, Run(reg, start, []));
    }
  }

  lemma NoOps(reg: Registry, grants: seq<Grant>)
    ensures Run(reg, grants, []) == grants
  {
  }

  /** A stored grant without its confirmation opens the schema as long as it has not expired. */
  lemma UnconfirmedOpens(reg: Registry, grants: seq<Grant>, i: nat)
    requires i < |grants| && grants[i].revokedAt.None? && grants[i].level.SchemaLevel?
    requires ExtraSensitive(reg, grants[i].scope) && !grants[i].confirmed
    ensures var g := grants[i];
            var now := if g.expiresAt.Some? then g.expiresAt.value else 0;
            MayAccess(reg, grants, g.subject, g.relying, g.scope, now)
    ensures !OpensOnlyConfirmed(reg, grants)
  {
    hide GetSchema;
    var g := grants[i];
    var now := if g.expiresAt.Some? then g.expiresAt.value else 0;
    assert IsLive(grants[i], now) && Covers(grants[i], g.subject, g.relying, g.scope, GetSchema(reg, g.scope).value);
  }

  lemma ConfirmedOpens(reg: Registry, grants: seq<Grant>)
    requires ConfirmedWhereNeeded(reg, grants)
    ensures OpensOnlyConfirmed(reg, grants)
  {
    hide GetSchema;
  }

  lemma {:induction false} StaysConfirmed(reg: Registry, grants: seq<Grant>, ops: seq<Op>)
    requires ConfirmedWhereNeeded(reg, grants)
    ensures ConfirmedWhereNeeded(reg, Run(reg, grants, ops))
    decreases |ops|
  {
    hide FirstWith, GetSchema;
    if ops != [] {
      StaysConfirmed(reg, Step(reg, grants, ops[0]), ops[1..]);
    }
  }

  /** So in every policy reached from such a start, access to an extra-sensitive schema rests on a
      live, explicitly confirmed grant for exactly that schema. */
  lemma {:induction false} ExtraSensitiveNeedsConfirmation(reg: Registry, start: seq<Grant>, ops: seq<Op>, subject: string, relying: string, schemaId: string, now: int)
    requires ConfirmedWhereNeeded(reg, start)
    requires MayAccess(reg, Run(reg, start, ops), subject, relying, schemaId, now) && ExtraSensitive(reg, schemaId)
    ensures exists g :: g in Run(reg, start, ops) && IsLive(g, now) && ConfirmedFor(g, subject, relying, schemaId)
  {
    hide GetSchema, Run, ConfirmedFor, Covers;
    StaysConfirmed(reg, start, ops);
    var grants := Run(reg, start, ops);
    ConfirmedOpens(reg, grants);
    var i :| 0 <= i < |grants| && IsLive(grants[i], now) && Covers(grants[i], subject, relying, schemaId, GetSchema(reg, schemaId).value);
    assert grants[i] in grants && ConfirmedFor(grants[i], subject, relying, schemaId);
  }

  /** No live grant carries the ID. */
  ghost predicate Silenced(grants: seq<Grant>, id: string) {
    forall i :: 0 <= i < |grants| && grants[i].id == id ==> grants[i].revokedAt.Some?
  }

  /** After a successful revocation nothing under that ID is open exactly when no second open grant
      shared it. */
  lemma {:induction false} RevocationSilencesIff(grants: seq<Grant>, id: string, at: int)
    requires Revokes(grants, id)
    ensures Silenced(AfterRevoke(grants, id, at), id) <==>
            forall i, j :: 0 <= i < j < |grants| && grants[i].id == id && grants[j].id == id ==> grants[j].revokedAt.Some?
  {
    var k := FirstWith(grants, id);
    var after := AfterRevoke(grants, id, at);
    hide FirstWith;
    if Silenced(after, id) {
      forall i, j | 0 <= i < j < |grants| && grants[i].id == id && grants[j].id == id
        ensures grants[j].revokedAt.Some?
      {
        assert k <= i < j && after[j] == grants[j];
      }
    }
    if forall i, j :: 0 <= i < j < |grants| && grants[i].id == id && grants[j].id == id ==> grants[j].revokedAt.Some? {
      forall i | 0 <= i < |after| && after[i].id == id
        ensures after[i].revokedAt.Some?
      {
        assert i != k ==> after[i] == grants[i] && grants[k].id == id && k < i;
      }
    }
  }

  /** RevokeGrant always stops at the first grant with the ID: a second open one stays open in every
      run, however often the ID is revoked. */
  lemma {:induction false} SharedIdStaysOpen(reg: Registry, grants: seq<Grant>, ops: seq<Op>, i: nat, j: nat)
    requires i < j < |grants| && grants[i].id == grants[j].id && grants[j].revokedAt.None?
    ensures j < |Run(reg, grants, ops)| && Run(reg, grants, ops)[j] == grants[j]
    decreases |ops|
  {
    hide Acceptable, FirstWith;
    if ops != [] {
      var next := Step(reg, grants, ops[0]);
      assert next[j] == grants[j] && next[i].id == grants[i].id;
      SharedIdStaysOpen(reg, next, ops[1..], i, j);
    }
  }

  /** Later operations that do not add the ID again leave a silenced ID silenced for good. */
  lemma {:induction false} SilenceLasts(reg: Registry, grants: seq<Grant>, ops: seq<Op>, id: string)
    requires Silenced(grants, id)
    requires forall i :: 0 <= i < |ops| && ops[i].Add? ==> ops[i].grant.id != id
    ensures Silenced(Run(reg, grants, ops), id)
    decreases |ops|
  {
    hide Acceptable, FirstWith;
    if ops != [] {
      SilenceLasts(reg, Step(reg, grants, ops[0]), ops[1..], id);
    }
  }

  ghost predicate DistinctIds(grants: seq<Grant>) {
    forall i, j :: 0 <= i < j < |grants| ==> grants[i].id != grants[j].id
  }

  /** Every added grant brings an ID no other grant of the run has. */
  ghost predicate FreshAdds(grants: seq<Grant>, ops: seq<Op>) {
    && (forall i, j :: 0 <= i < j < |ops| && ops[i].Add? && ops[j].Add? ==> ops[i].grant.id != ops[j].grant.id)
    && (forall i, k :: 0 <= i < |ops| && ops[i].Add? && 0 <= k < |grants| ==> ops[i].grant.id != grants[k].id)
  }

  lemma {:induction false} RunDistinct(reg: Registry, grants: seq<Grant>, ops: seq<Op>, n: nat)
    requires DistinctIds(grants) && FreshAdds(grants, ops) && n <= |ops|
    ensures DistinctIds(Run(reg, grants, ops[..n])) && FreshAdds(Run(reg, grants, ops[..n]), ops[n..])
    decreases n
  {
    hide Acceptable, FirstWith;
    if n == 0 {
      assert ops[..0] == [] && ops[0..] == ops;
    } else {
      var next, rest := Step(reg, grants, ops[0]), ops[1..];
      assert DistinctIds(next) && FreshAdds(next, rest);
      RunDistinct(reg, next, rest, n - 1);
      assert ops[..n][1..] == rest[..n - 1] && rest[n - 1..] == ops[n..];
    }
  }

  lemma {:induction false} RunConcat(reg: Registry, grants: seq<Grant>, a: seq<Op>, b: seq<Op>)
    ensures Run(reg, grants, a + b) == Run(reg, Run(reg, grants, a), b)
    decreases |a|
  {
    hide Step;
    if a == [] {
      assert a + b == b;
    } else {
      assert (a + b)[1..] == a[1..] + b;
      RunConcat(reg, Step(reg, grants, a[0]), a[1..], b);
    }
  }

  /** With unique grant IDs, a revocation that succeeds closes its ID for the rest of every run. */
  lemma {:induction false} RevokedNeverOpensAgain(reg: Registry, start: seq<Grant>, ops: seq<Op>, k: nat)
    requires DistinctIds(start) && FreshAdds(start, ops) && k < |ops| && ops[k].Revoke?
    requires Revokes(Run(reg, start, ops[..k]), ops[k].id)
    ensures Silenced(Run(reg, start, ops), ops[k].id)
  {
    hide Run, FirstWith;
    var grants, id := Run(reg, start, ops[..k]), ops[k].id;
    RunDistinct(reg, start, ops, k);
    RevocationSilencesIff(grants, id, ops[k].at);
    var after := Step(reg, grants, ops[k]);
    var rest := ops[k + 1..];
    var at := FirstWith(grants, id);
    forall i | 0 <= i < |rest| && rest[i].Add?
      ensures rest[i].grant.id != id
    {
      assert ops[k..][i + 1] == rest[i] && grants[at].id == id;
    }
    SilenceLasts(reg, after, rest, id);
    RunConcat(reg, start, ops[..k], ops[k..]);
    assert ops[..k] + ops[k..] == ops;
    RunFirst(reg, grants, ops[k..]);
    assert ops[k..][1..] == rest;
  }

  lemma RunFirst(reg: Registry, grants: seq<Grant>, ops: seq<Op>)
    requires ops != []
    ensures Run(reg, grants, ops) == Run(reg, Step(reg, grants, ops[0]), ops[1..])
  {
    hide Step;
  }
}
