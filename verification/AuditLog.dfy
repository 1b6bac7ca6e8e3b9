/** The hash-chained audit log: appends, concurrent writers, tamper evidence and proof ranges. */
module AuditLog {
  import opened Results

  /** One row; at is the insertion time, which the hash does not cover. */
  datatype Entry = Entry(seqNo: int, at: int, eventType: string, payload: string, hash: string, prevHash: string)

  /** SHA-256 in hex, and the JSON object over the three hashed fields. */
  datatype Hashing = Hashing(hexSha: string -> string, json: (string, string, string) -> string)

  ghost predicate Lawful(h: Hashing) {
    && (forall m :: h.hexSha(m) != "" && '{' !in h.hexSha(m))
    && (forall t, p, v :: |h.json(t, p, v)| > 0 && h.json(t, p, v)[0] == '{')
    && (forall t, p, v, t', p', v' :: h.json(t, p, v) == h.json(t', p', v') ==> t == t' && p == p' && v == v')
  }

  function HashInput(h: Hashing, eventType: string, payload: string, prevHash: string): string {
    prevHash + h.json(eventType, payload, prevHash)
  }

  function InputOf(h: Hashing, e: Entry): string {
    HashInput(h, e.eventType, e.payload, e.prevHash)
  }

  function NewEntry(h: Hashing, n: nat, at: int, eventType: string, payload: string, prevHash: string): Entry {
    Entry(n + 1, at, eventType, payload, h.hexSha(HashInput(h, eventType, payload, prevHash)), prevHash)
  }

  /** Hash of the newest entry, as Logger.handle reads it. */
  function HeadHash(log: seq<Entry>): string {
    if log == [] then "" else log[|log| - 1].hash
  }

  class AuditStore {
    const hashing: Hashing
    var log: seq<Entry>

    constructor (h: Hashing)
      ensures log == [] && hashing == h
    {
      hashing := h;
      log := [];
    }

    method AppendAuditEvent(at: int, eventType: string, payload: string, prevHash: string) returns (e: Entry)
      modifies this`log
      ensures log == old(log) + [e]
      ensures e == Entry(|old(log)| + 1, at, eventType, payload,
                         hashing.hexSha(prevHash + hashing.json(eventType, payload, prevHash)), prevHash)
    {
      var hash := hashing.hexSha(prevHash + hashing.json(eventType, payload, prevHash));
      e := Entry(|log| + 1, at, eventType, payload, hash, prevHash);
      log := log + [e];
    }

    /** ORDER BY seq DESC LIMIT 1: none in an empty log, otherwise the row numbered highest. */
    method GetAuditHead() returns (head: Option<Entry>)
      ensures head.None? <==> log == []
      ensures head.Some? ==> head.value in log && head.value.hash == HeadHash(log)
      ensures head.Some? && Hashed(hashing, log) ==> forall e :: e in log && e != head.value ==> e.seqNo < head.value.seqNo
    {
      head := if log == [] then None else Some(log[|log| - 1]);
    }

    /** Logger.handle when no other writer comes between its read and its append. */
    method Handle(at: int, eventType: string, payload: string)
      requires Linked(log) && Hashed(hashing, log)
      modifies this`log
      ensures Linked(log) && Hashed(hashing, log)
      ensures log == old(log) + [NewEntry(hashing, |old(log)|, at, eventType, payload, HeadHash(old(log)))]
    {
      var head := GetAuditHead();
      var prevHash := if head.Some? then head.value.hash else "";
      var e := AppendAuditEvent(at, eventType, payload, prevHash);
      AppendLinkedIff(old(log), e);
      AppendHashed(hashing, old(log), e);
      hide Linked, Hashed, NewEntry;
    }
  }

  // ----- chains -----

  /** Rows are numbered from 1 and each stored hash recomputes from its own fields. */
  ghost predicate Hashed(h: Hashing, log: seq<Entry>) {
    forall i :: 0 <= i < |log| ==> log[i].seqNo == i + 1 && log[i].hash == h.hexSha(InputOf(h, log[i]))
  }

  /** Each entry's previous hash is the hash of the entry before it. */
  ghost predicate Linked(log: seq<Entry>) {
    forall i {:trigger HashBefore(log, i)} :: 0 <= i < |log| ==> log[i].prevHash == HashBefore(log, i)
  }

  ghost function HashBefore(log: seq<Entry>, i: nat): string
    requires i <= |log|
  {
    if i == 0 then "" else log[i - 1].hash
  }

  /** What the hash covers of an entry. */
  ghost predicate SameEvent(a: Entry, b: Entry) {
    a.eventType == b.eventType && a.payload == b.payload && a.prevHash == b.prevHash && a.hash == b.hash
  }

  /** In every well-formed log, row i is numbered i + 1 and its hash covers the previous hash and the
      JSON of event type, payload and previous hash, and nothing else. */
  lemma RowHashIs(h: Hashing, log: seq<Entry>, i: nat)
    requires Hashed(h, log) && i < |log|
    ensures var e := log[i];
            e.seqNo == i + 1 && e.hash == h.hexSha(e.prevHash + h.json(e.eventType, e.payload, e.prevHash))
  {
  }

  /** Two entries of the logs with different hash inputs and one hash. */
  ghost predicate Clash(h: Hashing, a: seq<Entry>, b: seq<Entry>) {
    exists i, j :: 0 <= i < |a| && 0 <= j < |b| && InputOf(h, a[i]) != InputOf(h, b[j]) && a[i].hash == b[j].hash
  }

  /** The first brace of a hash input is where the JSON begins. */
  lemma FirstBrace(h: Hashing, t: string, p: string, v: string)
    requires Lawful(h) && '{' !in v
    ensures var x := HashInput(h, t, p, v);
            |x| > |v| && x[|v|] == '{' && (forall k :: 0 <= k < |v| ==> x[k] != '{') && x[..|v|] == v && x[|v|..] == h.json(t, p, v)
  {
  }

  lemma InputInjective(h: Hashing, t: string, p: string, v: string, t': string, p': string, v': string)
    requires Lawful(h) && '{' !in v && '{' !in v'
    requires HashInput(h, t, p, v) == HashInput(h, t', p', v')
    ensures t == t' && p == p' && v == v'
  {
    FirstBrace(h, t, p, v);
    FirstBrace(h, t', p', v');
    hide HashInput;
    assert |v| == |v'|;
  }

  lemma PrevIsPlain(h: Hashing, log: seq<Entry>, i: nat)
    requires Lawful(h) && Hashed(h, log) && Linked(log) && i < |log|
    ensures '{' !in log[i].prevHash && (log[i].prevHash == "" <==> i == 0)
  {
    hide HashInput;
    assert log[i].prevHash == HashBefore(log, i);
  }

  /** Two serial logs with the same head hash agree on every hashed field back to the start, unless
      two of their entries collide. Sequence numbers agree too; timestamps are not covered. */
  lemma {:induction false} HeadHashFixesLog(h: Hashing, a: seq<Entry>, b: seq<Entry>)
    requires Lawful(h) && Hashed(h, a) && Linked(a) && Hashed(h, b) && Linked(b)
    requires a != [] && b != [] && HeadHash(a) == HeadHash(b)
    ensures (|a| == |b| && forall i :: 0 <= i < |a| ==> SameEvent(a[i], b[i]) && a[i].seqNo == b[i].seqNo) || Clash(h, a, b)
    decreases |a|
  {
    var m, n := |a| - 1, |b| - 1;
    var x, y := a[m], b[n];
    assert x.hash == y.hash && x.seqNo == m + 1 && y.seqNo == n + 1;
    PrevIsPlain(h, a, m);
    PrevIsPlain(h, b, n);
    Prefix(h, a, m);
    Prefix(h, b, n);
    hide HashInput, InputOf, Lawful, Linked, Hashed;
    if InputOf(h, x) == InputOf(h, y) {
      SameInput(h, x, y);
      if m > 0 {
        HeadHashFixesLog(h, a[..m], b[..n]);
        if Clash(h, a[..m], b[..n]) {
          ClashExtends(h, a, b, m, n);
        } else {
          forall i | 0 <= i < |a|
            ensures SameEvent(a[i], b[i]) && a[i].seqNo == b[i].seqNo
          {
            if i < m {
              assert SameEvent(a[..m][i], b[..n][i]) && a[..m][i].seqNo == b[..n][i].seqNo;
            }
          }
        }
      }
    } else {
      assert Clash(h, a, b);
    }
  }

  lemma SameInput(h: Hashing, x: Entry, y: Entry)
    requires Lawful(h) && '{' !in x.prevHash && '{' !in y.prevHash
    requires x.hash == y.hash && InputOf(h, x) == InputOf(h, y)
    ensures SameEvent(x, y)
  {
    hide HashInput;
    InputInjective(h, x.eventType, x.payload, x.prevHash, y.eventType, y.payload, y.prevHash);
  }

  lemma Prefix(h: Hashing, log: seq<Entry>, m: nat)
    requires Hashed(h, log) && Linked(log) && m < |log|
    ensures Hashed(h, log[..m]) && Linked(log[..m]) && HeadHash(log[..m]) == log[m].prevHash
  {
    hide InputOf;
    assert log[m].prevHash == HashBefore(log, m);
    var p := log[..m];
    forall i | 0 <= i < m
      ensures p[i].prevHash == HashBefore(p, i)
    {
      assert p[i] == log[i] && log[i].prevHash == HashBefore(log, i);
    }
  }

  lemma AppendHashed(h: Hashing, log: seq<Entry>, e: Entry)
    requires Hashed(h, log) && e.seqNo == |log| + 1 && e.hash == h.hexSha(InputOf(h, e))
    ensures Hashed(h, log + [e])
  {
    hide InputOf;
  }

  lemma ClashExtends(h: Hashing, a: seq<Entry>, b: seq<Entry>, m: nat, n: nat)
    requires m <= |a| && n <= |b| && Clash(h, a[..m], b[..n])
    ensures Clash(h, a, b)
  {
    hide InputOf;
    var i, j :| 0 <= i < m && 0 <= j < n && InputOf(h, a[..m][i]) != InputOf(h, b[..n][j]) && a[..m][i].hash == b[..n][j].hash;
    assert a[..m][i] == a[i] && b[..n][j] == b[j];
  }

  // ----- concurrent writers -----

  /** handle reads the head and appends in two store calls; other writers may come between. */
  datatype Step = ReadHead(writer: nat) | Write(writer: nat, at: int, eventType: string, payload: string)

  datatype State = State(log: seq<Entry>, pending: map<nat, string>)

  function Next(h: Hashing, s: State, step: Step): State {
    match step
    case ReadHead(w) => s.(pending := s.pending[w := HeadHash(s.log)])
    case Write(w, at, t, p) =>
      if w in s.pending then State(s.log + [NewEntry(h, |s.log|, at, t, p, s.pending[w])], s.pending - {w}) else s
  }

  function Run(h: Hashing, steps: seq<Step>): State {
    if steps == [] then State([], map[]) else Next(h, Run(h, steps[..|steps| - 1]), steps[|steps| - 1])
  }

  ghost predicate HashOfSome(log: seq<Entry>, n: nat, hash: string)
    requires n <= |log|
  {
    exists j :: 0 <= j < n && log[j].hash == hash
  }

  /** Every entry hangs off nothing or off an earlier entry. */
  ghost predicate Forest(log: seq<Entry>) {
    forall i :: 0 <= i < |log| ==> log[i].prevHash == "" || HashOfSome(log, i, log[i].prevHash)
  }

  ghost predicate PendingKnown(s: State) {
    forall w :: w in s.pending ==> s.pending[w] == "" || HashOfSome(s.log, |s.log|, s.pending[w])
  }

  lemma HashOfSomeGrows(log: seq<Entry>, e: Entry, n: nat, hash: string)
    requires n <= |log| && HashOfSome(log, n, hash)
    ensures HashOfSome(log + [e], n, hash) && HashOfSome(log + [e], |log| + 1, hash)
  {
    var j :| 0 <= j < n && log[j].hash == hash;
    assert (log + [e])[j] == log[j];
  }

  lemma NextForest(h: Hashing, s: State, step: Step)
    requires Hashed(h, s.log) && Forest(s.log) && PendingKnown(s)
    ensures var s' := Next(h, s, step); Hashed(h, s'.log) && Forest(s'.log) && PendingKnown(s')
  {
    hide HashOfSome, HashInput;
    var s' := Next(h, s, step);
    if step.ReadHead? {
      if s.log != [] {
        assert HashOfSome(s.log, |s.log|, HeadHash(s.log)) by { HeadIsSome(s.log); }
      }
    } else if step.writer in s.pending {
      var e := s'.log[|s.log|];
      forall i | 0 <= i < |s'.log|
        ensures s'.log[i].prevHash == "" || HashOfSome(s'.log, i, s'.log[i].prevHash)
      {
        if i < |s.log| {
          assert s'.log[i] == s.log[i];
          if s.log[i].prevHash != "" { HashOfSomeGrows(s.log, e, i, s.log[i].prevHash); }
        } else if e.prevHash != "" {
          HashOfSomeGrows(s.log, e, |s.log|, e.prevHash);
        }
      }
      forall w | w in s'.pending
        ensures s'.pending[w] == "" || HashOfSome(s'.log, |s'.log|, s'.pending[w])
      {
        if s'.pending[w] != "" { HashOfSomeGrows(s.log, e, |s.log|, s.pending[w]); }
      }
    }
  }

  lemma HeadIsSome(log: seq<Entry>)
    requires log != []
    ensures HashOfSome(log, |log|, HeadHash(log))
  {
    assert log[|log| - 1].hash == HeadHash(log);
  }

  /** However writers interleave, the log stays a forest and every stored hash recomputes. */
  lemma {:induction false} EveryRunIsForest(h: Hashing, steps: seq<Step>)
    ensures Hashed(h, Run(h, steps).log) && Forest(Run(h, steps).log) && PendingKnown(Run(h, steps))
    decreases |steps|
  {
    hide Next, Hashed, Forest, PendingKnown;
    if steps == [] {
      EmptyIsForest(h);
    } else {
      EveryRunIsForest(h, steps[..|steps| - 1]);
      NextForest(h, Run(h, steps[..|steps| - 1]), steps[|steps| - 1]);
    }
  }

  lemma EmptyIsForest(h: Hashing)
    ensures Hashed(h, []) && Forest([]) && PendingKnown(State([], map[]))
  {
  }

  /** The schedule alone: how many rows are stored, and how many were when each writer waiting to
      append last read the head. */
  datatype Clock = Clock(rows: nat, readAt: map<nat, nat>)

  function Tick(c: Clock, step: Step): Clock {
    match step
    case ReadHead(w) => c.(readAt := c.readAt[w := c.rows])
    case Write(w, _, _, _) => if w in c.readAt then Clock(c.rows + 1, c.readAt - {w}) else c
  }

  function ClockOf(steps: seq<Step>): Clock {
    if steps == [] then Clock(0, map[]) else Tick(ClockOf(steps[..|steps| - 1]), steps[|steps| - 1])
  }

  /** No write was overtaken: between a writer's last read and its append nobody else appended. */
  predicate Quiet(steps: seq<Step>) {
    steps == [] ||
    var before, step := steps[..|steps| - 1], steps[|steps| - 1];
    var c := ClockOf(before);
    Quiet(before) && (step.Write? && step.writer in c.readAt ==> c.readAt[step.writer] == c.rows)
  }

  /** A waiting writer holds the hash that was the head when it read. */
  ghost predicate Follows(s: State, c: Clock) {
    && |s.log| == c.rows && s.pending.Keys == c.readAt.Keys
    && forall w :: w in c.readAt ==> c.readAt[w] <= |s.log| && s.pending[w] == HeadHash(s.log[..c.readAt[w]])
  }

  lemma NextFollows(h: Hashing, s: State, c: Clock, step: Step)
    requires Follows(s, c)
    ensures Follows(Next(h, s, step), Tick(c, step))
  {
    hide NewEntry, HeadHash;
    var s', c' := Next(h, s, step), Tick(c, step);
    assert s.log[..|s.log|] == s.log;
    forall w | w in c'.readAt
      ensures c'.readAt[w] <= |s'.log| && s'.pending[w] == HeadHash(s'.log[..c'.readAt[w]])
    {
      if step.Write? && step.writer in c.readAt {
        assert s'.log[..c.readAt[w]] == s.log[..c.readAt[w]];
      }
    }
  }

  lemma {:induction false} RunFollows(h: Hashing, steps: seq<Step>)
    ensures Follows(Run(h, steps), ClockOf(steps))
    decreases |steps|
  {
    hide Next, Tick;
    if steps != [] {
      RunFollows(h, steps[..|steps| - 1]);
      NextFollows(h, Run(h, steps[..|steps| - 1]), ClockOf(steps[..|steps| - 1]), steps[|steps| - 1]);
    }
  }

  /** The log of a run is a chain when no write was overtaken, and only then, unless two of its own
      rows are a SHA-256 collision. */
  lemma {:induction false} ChainIffQuiet(h: Hashing, steps: seq<Step>)
    requires Lawful(h)
    ensures Quiet(steps) ==> Linked(Run(h, steps).log)
    ensures Linked(Run(h, steps).log) ==> Quiet(steps) || Clash(h, Run(h, steps).log, Run(h, steps).log)
    decreases |steps|
  {
    hide Linked, NewEntry, Lawful, Hashed, Clash, HeadHash;
    if steps == [] {
      EmptyIsLinked();
    } else {
      var before, step := steps[..|steps| - 1], steps[|steps| - 1];
      var s, c := Run(h, before), ClockOf(before);
      ChainIffQuiet(h, before);
      if step.Write? && step.writer in s.pending {
        var w := step.writer;
        var e := NewEntry(h, |s.log|, step.at, step.eventType, step.payload, s.pending[w]);
        var log := s.log + [e];
        assert e.prevHash == s.pending[w] by { PrevOfNew(h, |s.log|, step, s.pending[w]); }
        assert log[..|s.log|] == s.log;
        AppendLinkedIff(s.log, e);
        RunFollows(h, before);
        assert s.log[..|s.log|] == s.log;
        if Clash(h, s.log, s.log) {
          ClashExtends(h, log, log, |s.log|, |s.log|);
        } else if Linked(log) && c.readAt[w] < |s.log| {
          EveryRunIsForest(h, before);
          SameHeadClashes(h, s.log, c.readAt[w]);
          assert false;
        }
      } else {
        RunFollows(h, before);
      }
    }
  }

  lemma EmptyIsLinked()
    ensures Linked([])
  {
  }

  lemma PrevOfNew(h: Hashing, n: nat, step: Step, prev: string)
    requires step.Write?
    ensures NewEntry(h, n, step.at, step.eventType, step.payload, prev).prevHash == prev
  {
  }

  /** In a chain no two lengths have the same head hash without a collision. */
  lemma {:induction false} SameHeadClashes(h: Hashing, log: seq<Entry>, n: nat)
    requires Lawful(h) && Hashed(h, log) && Linked(log) && n < |log| && HeadHash(log[..n]) == HeadHash(log)
    ensures Clash(h, log, log)
  {
    hide InputOf;
    Prefix(h, log, n);
    assert log[|log| - 1].hash == HeadHash(log) != "";
    hide Linked, Hashed, Clash, Lawful;
    HeadHashFixesLog(h, log[..n], log);
    ClashExtends(h, log, log, n, |log|);
  }

  lemma AppendLinkedIff(log: seq<Entry>, e: Entry)
    ensures Linked(log + [e]) <==> Linked(log) && e.prevHash == HeadHash(log)
  {
    var log' := log + [e];
    assert HashBefore(log', |log|) == HeadHash(log);
    forall i | 0 <= i < |log|
      ensures log'[i] == log[i] && HashBefore(log', i) == HashBefore(log, i)
    {
    }
    if Linked(log') {
      assert log'[|log|].prevHash == HashBefore(log', |log|);
      forall i | 0 <= i < |log| ensures log[i].prevHash == HashBefore(log, i) {
        assert log'[i].prevHash == HashBefore(log', i);
      }
    }
  }

  /** Two writers that read the same head before either writes hang both entries off it. The log
      then forks: for an empty log always, otherwise unless the first entry's hash repeats its
      predecessor's. */
  lemma {:induction false} OvertakenWriteForks(h: Hashing, s: State, v: nat, w: nat, a: Step, b: Step)
    requires Lawful(h) && v != w && a.Write? && a.writer == v && b.Write? && b.writer == w
    ensures var log := Next(h, Next(h, Next(h, Next(h, s, ReadHead(v)), ReadHead(w)), a), b).log;
            var n := |s.log|;
            && |log| == n + 2 && log[n].prevHash == log[n + 1].prevHash == HeadHash(s.log)
            && (Linked(log) ==> log[n].hash == HeadHash(s.log))
            && (s.log == [] ==> !Linked(log))
  {
    var log := Next(h, Next(h, Next(h, Next(h, s, ReadHead(v)), ReadHead(w)), a), b).log;
    var n := |s.log|;
    assert HashBefore(log, n + 1) == log[n].hash;
    hide Linked, HashInput;
    if Linked(log) {
      LinkedAt(log, n + 1);
    }
  }

  lemma LinkedAt(log: seq<Entry>, i: nat)
    requires Linked(log) && i < |log|
    ensures log[i].prevHash == HashBefore(log, i)
  {
  }

  // ----- proof ranges -----

  const MAX_PROOF := 1000

  datatype Proof = Proof(fromSeq: int, headSeq: int, headHash: string, chain: seq<Entry>)

  /** ListAuditEvents: LIMIT and OFFSET over rows in sequence order. */
  function ListEvents(log: seq<Entry>, limit: nat, offset: nat): seq<Entry> {
    if offset >= |log| then [] else if offset + limit <= |log| then log[offset..offset + limit] else log[offset..]
  }

  /** handleAuditProof: the head is read from one state of the log, the range from a later one. */
  function AuditProof(atHead: seq<Entry>, atList: seq<Entry>, fromSeq: int): Result<Proof> {
    if fromSeq < 1 then Err("invalid seq")
    else if atHead == [] then Err("audit log empty")
    else
      var head := atHead[|atHead| - 1];
      var limit := head.seqNo - fromSeq + 1;
      if limit <= 0 then Err("seq not found")
      else
        var capped := if limit > MAX_PROOF then MAX_PROOF else limit;
        Ok(Proof(fromSeq, head.seqNo, head.hash, ListEvents(atList, capped, fromSeq - 1)))
  }

  /** Appends between the two reads do not show: the proof names the head that was read and holds
      entries fromSeq to that head, at most 1000 of them; it reaches the head exactly when no more
      than 1000 are asked for. */
  lemma {:induction false} ProofIsRange(h: Hashing, atHead: seq<Entry>, atList: seq<Entry>, fromSeq: int)
    requires Hashed(h, atHead) && atHead <= atList
    ensures AuditProof(atHead, atList, fromSeq).Ok? <==> 1 <= fromSeq <= |atHead|
    ensures 1 <= fromSeq <= |atHead| ==>
      var proof := AuditProof(atHead, atList, fromSeq).value;
      var n := |atHead|;
      && proof.fromSeq == fromSeq && proof.headSeq == n && proof.headHash == atHead[n - 1].hash
      && proof.chain == atHead[fromSeq - 1..if n - fromSeq + 1 > 1000 then fromSeq + 999 else n]
      && (forall i :: 0 <= i < |proof.chain| ==> proof.chain[i].seqNo == fromSeq + i)
      && (proof.chain[|proof.chain| - 1] == atHead[n - 1] <==> n - fromSeq < 1000)
  {
    if 1 <= fromSeq <= |atHead| {
      var n := |atHead|;
      assert atHead[n - 1].seqNo == n;
      var limit := n - fromSeq + 1;
      var capped := if limit > MAX_PROOF then MAX_PROOF else limit;
      var chain := AuditProof(atHead, atList, fromSeq).value.chain;
      assert chain == atList[fromSeq - 1..fromSeq - 1 + capped] == atHead[fromSeq - 1..fromSeq - 1 + capped];
      assert chain[|chain| - 1] == atHead[fromSeq + capped - 2];
      assert atHead[fromSeq + capped - 2].seqNo == fromSeq + capped - 1;
    }
  }
}
