/** The per-IP token bucket of the API server, over exact real arithmetic and seconds. */
module RateLimiter {
  const IDLE_LIMIT := 600.0

  datatype Bucket = Bucket(tokens: real, lastSeen: real)

  type Buckets = map<string, Bucket>

  datatype Limits = Limits(rate: real, capacity: int)

  ghost predicate Sensible(l: Limits) {
    l.rate >= 0.0 && l.capacity >= 0
  }

  /** Ten minutes refill an empty bucket. */
  ghost predicate Refills(l: Limits) {
    l.capacity as real <= 600.0 * l.rate
  }

  function Cap(l: Limits): real {
    l.capacity as real
  }

  /** Tokens earned in a span of time. */
  function Credit(l: Limits, span: real): real {
    span * l.rate
  }

  /** Tokens in a bucket once the time since it was last seen is credited, up to capacity. */
  function Refilled(l: Limits, b: Bucket, now: real): real {
    var tokens := b.tokens + Credit(l, now - b.lastSeen);
    if tokens > Cap(l) then Cap(l) else tokens
  }

  function Available(l: Limits, bs: Buckets, ip: string, now: real): real {
    if ip in bs then Refilled(l, bs[ip], now) else Cap(l)
  }

  predicate Allows(l: Limits, bs: Buckets, ip: string, now: real) {
    Available(l, bs, ip, now) >= 1.0
  }

  function AfterAllow(l: Limits, bs: Buckets, ip: string, now: real): Buckets {
    var tokens := Available(l, bs, ip, now);
    bs[ip := Bucket(if tokens >= 1.0 then tokens - 1.0 else tokens, now)]
  }

  function AfterEvict(bs: Buckets, now: real): Buckets {
    map ip | ip in bs && !(bs[ip].lastSeen < now - IDLE_LIMIT) :: bs[ip]
  }

  class IpRateLimiter {
    var buckets: Buckets
    const limits: Limits

    constructor (rate: real, capacity: int)
      ensures buckets == map[] && limits == Limits(rate, capacity)
    {
      buckets := map[];
      limits := Limits(rate, capacity);
    }

    method Allow(ip: string, now: real) returns (ok: bool)
      modifies this`buckets
      ensures ok == Allows(limits, old(buckets), ip, now)
      ensures buckets == AfterAllow(limits, old(buckets), ip, now)
    {
      var b;
      if ip in buckets {
        b := buckets[ip];
      } else {
        b := Bucket(limits.capacity as real, now);
        buckets := buckets[ip := b];
      }
      var elapsed := now - b.lastSeen;
      b := b.(tokens := b.tokens + elapsed * limits.rate);
      if b.tokens > limits.capacity as real {
        b := b.(tokens := limits.capacity as real);
      }
      assert b.tokens == Available(limits, old(buckets), ip, now);
      b := b.(lastSeen := now);
      buckets := buckets[ip := b];
      assert buckets == old(buckets)[ip := b];
      if b.tokens < 1.0 {
        return false;
      }
      b := b.(tokens := b.tokens - 1.0);
      buckets := buckets[ip := b];
      ok := true;
    }

    method Evict(now: real)
      modifies this`buckets
      ensures buckets == AfterEvict(old(buckets), now)
      ensures forall ip :: ip in buckets <==> ip in old(buckets) && old(buckets)[ip].lastSeen >= now - 600.0
      ensures forall ip :: ip in buckets ==> buckets[ip] == old(buckets)[ip]
    {
      var cutoff := now - IDLE_LIMIT;
      var left := buckets.Keys;
      while left != {}
        invariant left <= old(buckets).Keys
        invariant buckets == map ip | ip in old(buckets) && (ip in left || !(old(buckets)[ip].lastSeen < cutoff)) :: old(buckets)[ip]
        decreases |left|
      {
        var ip :| ip in left;
        if buckets[ip].lastSeen < cutoff {
          buckets := buckets - {ip};
        }
        left := left - {ip};
      }
    }
  }

  // ----- schedules -----

  datatype Event = Request(ip: string, at: real) | Sweep(at: real)

  function Step(l: Limits, bs: Buckets, e: Event): Buckets {
    match e
    case Request(ip, at) => AfterAllow(l, bs, ip, at)
    case Sweep(at) => AfterEvict(bs, at)
  }

  function Final(l: Limits, bs: Buckets, es: seq<Event>): Buckets
    decreases |es|
  {
    if es == [] then bs else Final(l, Step(l, bs, es[0]), es[1..])
  }

  /** The answers given to the requests of a schedule, in order. */
  function Answers(l: Limits, bs: Buckets, es: seq<Event>): seq<bool>
    decreases |es|
  {
    if es == [] then []
    else
      (match es[0]
       case Request(ip, at) => [Allows(l, bs, ip, at)]
       case Sweep(_) => [])
      + Answers(l, Step(l, bs, es[0]), es[1..])
  }

  /** How many of one address's requests are allowed. */
  function Allowed(l: Limits, bs: Buckets, es: seq<Event>, ip: string): nat
    decreases |es|
  {
    if es == [] then 0
    else (if es[0].Request? && es[0].ip == ip && Allows(l, bs, ip, es[0].at) then 1 else 0)
         + Allowed(l, Step(l, bs, es[0]), es[1..], ip)
  }

  ghost predicate Ordered(es: seq<Event>) {
    forall i, j :: 0 <= i < j < |es| ==> es[i].at <= es[j].at
  }

  // ----- what every reachable state satisfies -----

  /** No bucket is overfull, overdrawn, or seen in the future. */
  ghost predicate Sound(l: Limits, bs: Buckets, now: real) {
    forall ip :: ip in bs ==> 0.0 <= bs[ip].tokens <= Cap(l) && bs[ip].lastSeen <= now
  }

  lemma CreditMonotone(l: Limits, a: real, b: real)
    requires l.rate >= 0.0 && a <= b
    ensures Credit(l, a) <= Credit(l, b)
    ensures Credit(l, 0.0) == 0.0
  {
    assert (b - a) * l.rate >= 0.0;
  }

  lemma CreditAdds(l: Limits, a: real, b: real)
    ensures Credit(l, a + b) == Credit(l, a) + Credit(l, b)
  {
  }

  lemma CreditIs(l: Limits, span: real)
    ensures Credit(l, span) == l.rate * span
    ensures Refills(l) <==> Cap(l) <= Credit(l, IDLE_LIMIT)
  {
  }

  lemma StepSound(l: Limits, bs: Buckets, now: real, e: Event)
    requires Sensible(l) && Sound(l, bs, now) && now <= e.at
    ensures Sound(l, Step(l, bs, e), e.at)
  {
    hide Credit;
    if e.Request? && e.ip in bs {
      CreditMonotone(l, 0.0, e.at - bs[e.ip].lastSeen);
    }
  }

  /** Time adds at most rate tokens a second. */
  lemma AvailableGrows(l: Limits, bs: Buckets, ip: string, s: real, u: real)
    requires Sensible(l) && Sound(l, bs, s) && s <= u
    ensures Available(l, bs, ip, s) <= Available(l, bs, ip, u) <= Available(l, bs, ip, s) + Credit(l, u - s)
  {
    hide Credit;
    CreditMonotone(l, 0.0, u - s);
    if ip in bs {
      var last := bs[ip].lastSeen;
      CreditAdds(l, s - last, u - s);
    }
  }

  /** A bucket idle long enough to be evicted is already full, when ten minutes refill it. */
  lemma IdleIsFull(l: Limits, bs: Buckets, ip: string, now: real)
    requires Sensible(l) && Sound(l, bs, now) && Cap(l) <= Credit(l, IDLE_LIMIT)
    requires ip in bs && bs[ip].lastSeen < now - IDLE_LIMIT
    ensures Available(l, bs, ip, now) == Cap(l)
  {
    hide Credit;
    CreditMonotone(l, IDLE_LIMIT, now - bs[ip].lastSeen);
  }

  // ----- the window bound -----

  lemma StepSpends(l: Limits, bs: Buckets, ip: string, e: Event)
    requires Sensible(l) && Sound(l, bs, e.at) && Cap(l) <= Credit(l, IDLE_LIMIT)
    ensures Available(l, Step(l, bs, e), ip, e.at) <=
            Available(l, bs, ip, e.at) - (if e.Request? && e.ip == ip && Allows(l, bs, ip, e.at) then 1.0 else 0.0)
  {
    hide Credit;
    if e.Sweep? && ip in bs && bs[ip].lastSeen < e.at - IDLE_LIMIT {
      IdleIsFull(l, bs, ip, e.at);
    }
    if e.Request? && e.ip == ip {
      CreditMonotone(l, 0.0, 0.0);
    }
  }

  lemma {:induction false} AllowedWithin(l: Limits, bs: Buckets, es: seq<Event>, ip: string, s: real, e: real)
    requires Sensible(l) && Sound(l, bs, s) && Cap(l) <= Credit(l, IDLE_LIMIT)
    requires Ordered(es) && s <= e && forall i :: 0 <= i < |es| ==> s <= es[i].at <= e
    ensures Allowed(l, bs, es, ip) as real <= Available(l, bs, ip, s) + Credit(l, e - s)
    decreases |es|
  {
    hide Available, Step, Allows, Credit;
    CreditMonotone(l, 0.0, e - s);
    if es == [] {
      AvailableNonNegative(l, bs, ip, s);
    } else {
      var u := es[0].at;
      AvailableGrows(l, bs, ip, s, u);
      StepSound(l, bs, s, es[0]);
      assert Sound(l, bs, u);
      StepSpends(l, bs, ip, es[0]);
      AllowedWithin(l, Step(l, bs, es[0]), es[1..], ip, u, e);
      CreditAdds(l, e - u, u - s);
    }
  }

  lemma AvailableNonNegative(l: Limits, bs: Buckets, ip: string, s: real)
    requires Sensible(l) && Sound(l, bs, s)
    ensures Available(l, bs, ip, s) >= 0.0
  {
    hide Credit;
    if ip in bs {
      CreditMonotone(l, 0.0, s - bs[ip].lastSeen);
    }
  }

  lemma {:induction false} FinalSound(l: Limits, bs: Buckets, es: seq<Event>, s: real, e: real)
    requires Sensible(l) && Sound(l, bs, s) && Ordered(es) && s <= e
    requires forall i :: 0 <= i < |es| ==> s <= es[i].at <= e
    ensures Sound(l, Final(l, bs, es), e)
    decreases |es|
  {
    hide Step;
    if es != [] {
      StepSound(l, bs, s, es[0]);
      FinalSound(l, Step(l, bs, es[0]), es[1..], es[0].at, e);
    }
  }

  /** For one address, the requests allowed between events i and j of any schedule, evictions
      included, number at most capacity plus rate times the time between them. */
  ghost predicate WindowBounded(l: Limits, es: seq<Event>, i: nat, j: nat, ip: string)
    requires i < j <= |es|
  {
    Allowed(l, Final(l, map[], es[..i]), es[i..j], ip) as real <= l.capacity as real + l.rate * (es[j - 1].at - es[i].at)
  }

  ghost predicate AlwaysBounded(l: Limits) {
    forall es, i, j, ip :: Ordered(es) && 0 <= i < j <= |es| ==> WindowBounded(l, es, i, j, ip)
  }

  lemma {:induction false} WindowCredit(l: Limits, es: seq<Event>, i: nat, j: nat, ip: string)
    requires Sensible(l) && Cap(l) <= Credit(l, IDLE_LIMIT)
    requires Ordered(es) && i < j <= |es|
    ensures Allowed(l, Final(l, map[], es[..i]), es[i..j], ip) as real <= Cap(l) + Credit(l, es[j - 1].at - es[i].at)
  {
    hide Final, Allowed, Available, Credit;
    var s := es[i].at;
    var bs := Final(l, map[], es[..i]);
    var first := es[0].at;
    FinalSound(l, map[], es[..i], first, s);
    AllowedWithin(l, bs, es[i..j], ip, s, es[j - 1].at);
    AvailableCapped(l, bs, ip, s);
  }

  lemma {:induction false} WindowBound(l: Limits, es: seq<Event>, i: nat, j: nat, ip: string)
    requires Sensible(l) && Refills(l)
    requires Ordered(es) && i < j <= |es|
    ensures WindowBounded(l, es, i, j, ip)
  {
    hide Final, Allowed, Credit, Refills, Ordered;
    CreditIs(l, es[j - 1].at - es[i].at);
    WindowCredit(l, es, i, j, ip);
  }

  lemma AvailableCapped(l: Limits, bs: Buckets, ip: string, now: real)
    ensures Available(l, bs, ip, now) <= Cap(l)
  {
  }

  // ----- when ten minutes do not refill a bucket -----

  function Burst(ip: string, k: nat, now: real): (es: seq<Event>)
    ensures |es| == k && forall i :: 0 <= i < k ==> es[i] == Request(ip, now)
  {
    seq(k, _ => Request(ip, now))
  }

  /** k requests at once are all allowed if k tokens are there, and leave the rest. */
  lemma {:induction false} BurstAllowed(l: Limits, bs: Buckets, ip: string, k: nat, now: real, es: seq<Event>)
    requires Sensible(l) && Available(l, bs, ip, now) >= k as real
    ensures Allowed(l, bs, Burst(ip, k, now) + es, ip) == k + Allowed(l, Final(l, bs, Burst(ip, k, now)), es, ip)
    ensures Available(l, Final(l, bs, Burst(ip, k, now)), ip, now) == Available(l, bs, ip, now) - k as real
    ensures k > 0 ==> var end := Final(l, bs, Burst(ip, k, now)); ip in end && end[ip].lastSeen == now
    decreases k
  {
    hide Credit;
    var burst := Burst(ip, k, now);
    if k == 0 {
      assert burst + es == es;
    } else {
      assert burst[1..] == Burst(ip, k - 1, now);
      assert (burst + es)[1..] == Burst(ip, k - 1, now) + es;
      CreditMonotone(l, 0.0, 0.0);
      AvailableCapped(l, bs, ip, now);
      BurstAllowed(l, Step(l, bs, burst[0]), ip, k - 1, now, es);
    }
  }

  /** A new address is allowed exactly capacity requests at once, and not one more. */
  lemma {:induction false} FreshBurst(l: Limits, ip: string, now: real)
    requires Sensible(l)
    ensures Allowed(l, map[], Burst(ip, l.capacity + 1, now), ip) == l.capacity
  {
    hide Credit;
    var k := l.capacity;
    BurstAllowed(l, map[], ip, k, now, [Request(ip, now)]);
    assert Burst(ip, k + 1, now) == Burst(ip, k, now) + [Request(ip, now)];
    var drained := Final(l, map[], Burst(ip, k, now));
    hide Final;
    assert !Allows(l, drained, ip, now);
  }

  /** Drain the bucket, let it idle just past the limit, sweep, drain it again. */
  function DrainTwice(ip: string, k: nat, later: real): seq<Event> {
    Burst(ip, k, 0.0) + ([Sweep(later)] + Burst(ip, k, later))
  }

  lemma DivideBack(x: real, d: real)
    requires x > 0.0 && d > 0.0
    ensures x / d > 0.0 && (x / d) * d == x
  {
  }

  /** A moment past the idle limit at which the refill is still short of capacity. */
  lemma ShortRefill(l: Limits) returns (later: real)
    requires Sensible(l) && Cap(l) > Credit(l, IDLE_LIMIT)
    ensures later > IDLE_LIMIT && Credit(l, later) < Cap(l) && Credit(l, later - IDLE_LIMIT) < 1.0
  {
    var gap := Cap(l) - Credit(l, IDLE_LIMIT);
    var part := if gap < 1.0 then gap else 1.0;
    var extra := part / (2.0 * l.rate + 1.0);
    later := IDLE_LIMIT + extra;
    CreditAdds(l, IDLE_LIMIT, extra);
    DivideBack(part, 2.0 * l.rate + 1.0);
    assert extra * (2.0 * l.rate + 1.0) == 2.0 * (extra * l.rate) + extra;
    assert Credit(l, extra) == extra * l.rate;
    assert extra * l.rate >= 0.0;
  }

  lemma DrainTwiceAllowed(l: Limits, ip: string, later: real)
    requires Sensible(l) && l.capacity > 0 && later > IDLE_LIMIT
    ensures Allowed(l, map[], DrainTwice(ip, l.capacity, later), ip) == 2 * l.capacity
  {
    hide Credit;
    var k := l.capacity;
    var tail := [Sweep(later)] + Burst(ip, k, later);
    BurstAllowed(l, map[], ip, k, 0.0, tail);
    var drained := Final(l, map[], Burst(ip, k, 0.0));
    assert tail[1..] == Burst(ip, k, later);
    var swept := Step(l, drained, Sweep(later));
    assert ip !in swept;
    BurstAllowed(l, swept, ip, k, later, []);
    assert Burst(ip, k, later) + [] == Burst(ip, k, later);
    hide Final;
  }

  lemma {:induction false} WindowBoundFails(l: Limits, ip: string)
    requires Sensible(l) && !Refills(l)
    ensures !AlwaysBounded(l)
  {
    CreditIs(l, IDLE_LIMIT);
    var later := ShortRefill(l);
    CreditIs(l, later);
    hide Credit, Allowed, Refills;
    var k := l.capacity;
    CreditMonotone(l, 0.0, IDLE_LIMIT);
    var es := DrainTwice(ip, k, later);
    DrainTwiceAllowed(l, ip, later);
    assert |es| == 2 * k + 1 && es[0].at == 0.0 && es[2 * k].at == later;
    assert es[..0] == [] && es[0..|es|] == es;
    assert Ordered(es);
    assert !WindowBounded(l, es, 0, |es|, ip);
  }

  /** The window bound holds on every schedule exactly when ten minutes refill an empty bucket. */
  lemma {:induction false} WindowBoundIff(l: Limits)
    requires Sensible(l)
    ensures AlwaysBounded(l) <==> Refills(l)
  {
    hide WindowBounded, Refills;
    if Refills(l) {
      forall es, i, j, ip | Ordered(es) && 0 <= i < j <= |es|
        ensures WindowBounded(l, es, i, j, ip)
      {
        WindowBound(l, es, i, j, ip);
      }
    } else {
      WindowBoundFails(l, "");
    }
  }

  // ----- eviction cannot be observed -----

  function Requests(es: seq<Event>): seq<Event> {
    if es == [] then []
    else (if es[0].Request? then [es[0]] else []) + Requests(es[1..])
  }

  ghost predicate EvictionInvisible(l: Limits) {
    forall es :: Ordered(es) ==> Answers(l, map[], es) == Answers(l, map[], Requests(es))
  }

  /** The evicting limiter has forgotten only addresses whose bucket is full in the other. */
  ghost predicate Agree(l: Limits, bs: Buckets, cs: Buckets, now: real) {
    && (forall ip :: ip in bs ==> ip in cs && bs[ip] == cs[ip])
    && (forall ip :: ip in cs && ip !in bs ==> Available(l, cs, ip, now) == Cap(l))
  }

  lemma AgreeLater(l: Limits, bs: Buckets, cs: Buckets, s: real, u: real)
    requires Sensible(l) && Agree(l, bs, cs, s) && Sound(l, cs, s) && s <= u
    ensures Agree(l, bs, cs, u)
  {
    hide Available;
    forall ip | ip in cs && ip !in bs
      ensures Available(l, cs, ip, u) == Cap(l)
    {
      AvailableGrows(l, cs, ip, s, u);
      AvailableCapped(l, cs, ip, u);
    }
  }

  lemma AgreeRequest(l: Limits, bs: Buckets, cs: Buckets, ip: string, now: real)
    requires Sensible(l) && Agree(l, bs, cs, now)
    ensures Allows(l, bs, ip, now) == Allows(l, cs, ip, now)
    ensures Agree(l, AfterAllow(l, bs, ip, now), AfterAllow(l, cs, ip, now), now)
  {
    assert Available(l, bs, ip, now) == Available(l, cs, ip, now);
    hide Credit, Refilled;
  }

  lemma AgreeSweep(l: Limits, bs: Buckets, cs: Buckets, now: real)
    requires Sensible(l) && Agree(l, bs, cs, now) && Sound(l, cs, now) && Cap(l) <= Credit(l, IDLE_LIMIT)
    ensures Agree(l, AfterEvict(bs, now), cs, now)
  {
    hide Available;
    var swept := AfterEvict(bs, now);
    forall ip | ip in cs && ip !in swept
      ensures Available(l, cs, ip, now) == Cap(l)
    {
      if ip in bs {
        IdleIsFull(l, cs, ip, now);
      }
    }
  }

  lemma {:induction false} SameAnswers(l: Limits, bs: Buckets, cs: Buckets, es: seq<Event>, s: real)
    requires Sensible(l) && Cap(l) <= Credit(l, IDLE_LIMIT)
    requires Agree(l, bs, cs, s) && Sound(l, cs, s)
    requires Ordered(es) && forall i :: 0 <= i < |es| ==> s <= es[i].at
    ensures Answers(l, bs, es) == Answers(l, cs, Requests(es))
    decreases |es|
  {
    hide Agree, Sound, AfterAllow, AfterEvict, Allows, Credit;
    if es != [] {
      var e := es[0];
      AgreeLater(l, bs, cs, s, e.at);
      SoundLater(l, cs, s, e.at);
      if e.Request? {
        AgreeRequest(l, bs, cs, e.ip, e.at);
        StepSound(l, cs, s, e);
        SameAnswers(l, Step(l, bs, e), Step(l, cs, e), es[1..], e.at);
        assert ([e] + Requests(es[1..]))[1..] == Requests(es[1..]);
      } else {
        AgreeSweep(l, bs, cs, e.at);
        SameAnswers(l, Step(l, bs, e), cs, es[1..], e.at);
        assert [] + Requests(es[1..]) == Requests(es[1..]);
      }
    }
  }

  lemma SoundLater(l: Limits, bs: Buckets, s: real, u: real)
    requires Sound(l, bs, s) && s <= u
    ensures Sound(l, bs, u)
  {
  }

  /** Counting the allowed requests of the only address, from the answers. */
  function Count(answers: seq<bool>): nat {
    if answers == [] then 0 else (if answers[0] then 1 else 0) + Count(answers[1..])
  }

  lemma {:induction false} AllowedIsCount(l: Limits, bs: Buckets, es: seq<Event>, ip: string)
    requires forall i :: 0 <= i < |es| && es[i].Request? ==> es[i].ip == ip
    ensures Allowed(l, bs, es, ip) == Count(Answers(l, bs, es))
    decreases |es|
  {
    hide Step, Allows;
    if es != [] {
      AllowedIsCount(l, Step(l, bs, es[0]), es[1..], ip);
      if es[0].Request? {
        var rest := Answers(l, Step(l, bs, es[0]), es[1..]);
        assert ([Allows(l, bs, es[0].ip, es[0].at)] + rest)[1..] == rest;
      } else {
        assert [] + Answers(l, Step(l, bs, es[0]), es[1..]) == Answers(l, Step(l, bs, es[0]), es[1..]);
      }
    }
  }

  lemma {:induction false} RequestsConcat(a: seq<Event>, b: seq<Event>)
    ensures Requests(a + b) == Requests(a) + Requests(b)
    decreases |a|
  {
    if a == [] {
      assert a + b == b;
    } else {
      var head := if a[0].Request? then [a[0]] else [];
      RequestsConcat(a[1..], b);
      calc {
        Requests(a + b);
        { assert (a + b)[0] == a[0] && (a + b)[1..] == a[1..] + b; }
        head + Requests(a[1..] + b);
        head + (Requests(a[1..]) + Requests(b));
        (head + Requests(a[1..])) + Requests(b);
        Requests(a) + Requests(b);
      }
    }
  }

  lemma {:induction false} RequestsOnly(a: seq<Event>)
    requires forall i :: 0 <= i < |a| ==> a[i].Request?
    ensures Requests(a) == a
    decreases |a|
  {
    if a != [] {
      RequestsOnly(a[1..]);
    }
  }

  /** Without the sweep, the second drain finds fewer than capacity tokens. */
  lemma {:induction false} EvictionShows(l: Limits, ip: string)
    requires Sensible(l) && !Refills(l)
    ensures !EvictionInvisible(l)
  {
    CreditIs(l, IDLE_LIMIT);
    var later := ShortRefill(l);
    hide Refills, Credit, Answers, Allowed, Final;
    var k := l.capacity;
    CreditMonotone(l, 0.0, IDLE_LIMIT);
    var es := DrainTwice(ip, k, later);
    var first, second := Burst(ip, k, 0.0), Burst(ip, k, later);
    assert Ordered(es);
    DrainTwiceAllowed(l, ip, later);
    AllowedIsCount(l, map[], es, ip);
    RequestsConcat(first, [Sweep(later)] + second);
    RequestsConcat([Sweep(later)], second);
    assert Requests([Sweep(later)]) == [];
    RequestsOnly(first);
    RequestsOnly(second);
    assert Requests(es) == first + second;
    AllowedIsCount(l, map[], first + second, ip);
    UnsweptFallsShort(l, ip, later);
  }

  lemma UnsweptFallsShort(l: Limits, ip: string, later: real)
    requires Sensible(l) && l.capacity > 0 && later > IDLE_LIMIT && Credit(l, later) < Cap(l)
    ensures Allowed(l, map[], Burst(ip, l.capacity, 0.0) + Burst(ip, l.capacity, later), ip) < 2 * l.capacity
  {
    hide Credit, Allowed;
    var k := l.capacity;
    BurstAllowed(l, map[], ip, k, 0.0, Burst(ip, k, later));
    var drained := Final(l, map[], Burst(ip, k, 0.0));
    FinalSound(l, map[], Burst(ip, k, 0.0), 0.0, 0.0);
    hide Final;
    CreditMonotone(l, 0.0, 0.0);
    AvailableGrows(l, drained, ip, 0.0, later);
    SoundLater(l, drained, 0.0, later);
    BurstBounded(l, drained, ip, k, later);
  }

  /** A burst is allowed at most as often as there are tokens. */
  lemma {:induction false} BurstBounded(l: Limits, bs: Buckets, ip: string, k: nat, now: real)
    requires Sensible(l) && Sound(l, bs, now)
    ensures Allowed(l, bs, Burst(ip, k, now), ip) as real <= Available(l, bs, ip, now)
    decreases k
  {
    hide Credit;
    AvailableNonNegative(l, bs, ip, now);
    if k > 0 {
      var e := Request(ip, now);
      assert Burst(ip, k, now)[1..] == Burst(ip, k - 1, now);
      CreditMonotone(l, 0.0, 0.0);
      StepSound(l, bs, now, e);
      BurstBounded(l, Step(l, bs, e), ip, k - 1, now);
      AvailableCapped(l, bs, ip, now);
    }
  }

  /** Eviction is invisible on every schedule exactly when ten minutes refill an empty bucket. */
  lemma {:induction false} EvictionInvisibleIff(l: Limits)
    requires Sensible(l)
    ensures EvictionInvisible(l) <==> Refills(l)
  {
    CreditIs(l, IDLE_LIMIT);
    hide Credit, Answers, Requests, Refills;
    if Refills(l) {
      forall es: seq<Event> | Ordered(es)
        ensures Answers(l, map[], es) == Answers(l, map[], Requests(es))
      {
        var start := if es == [] then 0.0 else es[0].at;
        SameAnswers(l, map[], map[], es, start);
      }
    } else {
      EvictionShows(l, "");
    }
  }

  /** The limits NewServer builds, with capacity int(2 * rate), meet the condition. */
  lemma ServerLimitsRefill(rate: real)
    requires rate > 0.0
    ensures var l := Limits(rate, (2.0 * rate).Floor); Sensible(l) && Refills(l)
  {
  }

  // ----- steady callers -----

  /** Requests of ip come at least one token's time, 1 / rate, apart. */
  ghost predicate Spaced(l: Limits, es: seq<Event>, ip: string) {
    forall i, j :: 0 <= i < j < |es| && es[i].Request? && es[j].Request? && es[i].ip == ip && es[j].ip == ip ==>
      l.rate * (es[j].at - es[i].at) >= 1.0
  }

  /** Requests of ip each earn a token's credit before the next. */
  ghost predicate Earning(l: Limits, es: seq<Event>, ip: string) {
    forall i, j :: 0 <= i < j < |es| && es[i].Request? && es[j].Request? && es[i].ip == ip && es[j].ip == ip ==>
      Credit(l, es[j].at - es[i].at) >= 1.0
  }

  lemma SpacedEarns(l: Limits, es: seq<Event>, ip: string)
    requires Spaced(l, es, ip)
    ensures Earning(l, es, ip)
  {
    forall i, j | 0 <= i < j < |es| && es[i].Request? && es[j].Request? && es[i].ip == ip && es[j].ip == ip
      ensures Credit(l, es[j].at - es[i].at) >= 1.0
    {
      CreditIs(l, es[j].at - es[i].at);
      hide Credit;
    }
  }

  function Asked(es: seq<Event>, ip: string): nat {
    if es == [] then 0 else (if es[0].Request? && es[0].ip == ip then 1 else 0) + Asked(es[1..], ip)
  }

  /** An address whose next requests all come a token later than its bucket was last seen. */
  ghost predicate Ready(l: Limits, bs: Buckets, es: seq<Event>, ip: string) {
    ip in bs ==> forall i :: 0 <= i < |es| && es[i].Request? && es[i].ip == ip ==> Credit(l, es[i].at - bs[ip].lastSeen) >= 1.0
  }

  lemma {:induction false} EarningAllAllowed(l: Limits, bs: Buckets, es: seq<Event>, ip: string, s: real)
    requires Sensible(l) && l.capacity >= 1 && Sound(l, bs, s)
    requires Ordered(es) && (forall i :: 0 <= i < |es| ==> s <= es[i].at)
    requires Earning(l, es, ip) && Ready(l, bs, es, ip)
    ensures Allowed(l, bs, es, ip) == Asked(es, ip)
    decreases |es|
  {
    hide Credit;
    if es != [] {
      var e := es[0];
      StepSound(l, bs, s, e);
      assert Ready(l, Step(l, bs, e), es[1..], ip);
      if e.Request? && e.ip == ip {
        assert Allows(l, bs, ip, e.at);
      }
      EarningAllAllowed(l, Step(l, bs, e), es[1..], ip, e.at);
    }
  }

  /** With room for one token, a caller spacing its requests is never refused, whatever the
      other addresses and the sweeps do. */
  lemma {:induction false} SteadyCallerNeverRefused(l: Limits, es: seq<Event>, ip: string)
    requires Sensible(l) && l.capacity >= 1 && Ordered(es) && Spaced(l, es, ip)
    ensures Allowed(l, map[], es, ip) == Asked(es, ip)
  {
    hide Credit, Spaced, Earning;
    var start := if es == [] then 0.0 else es[0].at;
    SpacedEarns(l, es, ip);
    EarningAllAllowed(l, map[], es, ip, start);
  }

  // ----- refused requests -----

  /** The two limiters hold the same tokens for every address now and at all later times. */
  ghost predicate SameTokens(l: Limits, bs: Buckets, cs: Buckets, now: real) {
    forall ip, u :: u >= now ==> Available(l, bs, ip, u) == Available(l, cs, ip, u)
  }

  /** Tokens after a request, at a later time. */
  lemma AvailableAfter(l: Limits, bs: Buckets, ip: string, now: real, u: real)
    requires Sensible(l) && now <= u
    ensures var tokens := Available(l, bs, ip, now);
            var left := (if tokens >= 1.0 then tokens - 1.0 else tokens) + Credit(l, u - now);
            Available(l, AfterAllow(l, bs, ip, now), ip, u) == if left > Cap(l) then Cap(l) else left
  {
    hide Credit;
  }

  /** Crediting in two steps is crediting in one. */
  lemma AvailableInSteps(l: Limits, bs: Buckets, ip: string, now: real, u: real)
    requires Sensible(l) && now <= u
    ensures var grown := Available(l, bs, ip, now) + Credit(l, u - now);
            Available(l, bs, ip, u) == if grown > Cap(l) then Cap(l) else grown
  {
    hide Credit;
    CreditMonotone(l, 0.0, u - now);
    if ip in bs {
      CreditAdds(l, now - bs[ip].lastSeen, u - now);
      assert (now - bs[ip].lastSeen) + (u - now) == u - bs[ip].lastSeen;
    }
  }

  lemma {:induction false} SameRequest(l: Limits, bs: Buckets, cs: Buckets, ip: string, now: real)
    requires Sensible(l) && SameTokens(l, bs, cs, now)
    ensures Allows(l, bs, ip, now) == Allows(l, cs, ip, now)
    ensures SameTokens(l, AfterAllow(l, bs, ip, now), AfterAllow(l, cs, ip, now), now)
  {
    var bs', cs' := AfterAllow(l, bs, ip, now), AfterAllow(l, cs, ip, now);
    forall x, u | u >= now
      ensures Available(l, bs', x, u) == Available(l, cs', x, u)
    {
      if x == ip {
        AvailableAfter(l, bs, ip, now, u);
        AvailableAfter(l, cs, ip, now, u);
      } else {
        OtherAddress(l, bs, ip, now, x, u);
        OtherAddress(l, cs, ip, now, x, u);
      }
    }
  }

  lemma OtherAddress(l: Limits, bs: Buckets, ip: string, now: real, x: string, u: real)
    requires x != ip
    ensures Available(l, AfterAllow(l, bs, ip, now), x, u) == Available(l, bs, x, u)
  {
    hide Refilled;
  }

  lemma {:induction false} SweepKeepsTokens(l: Limits, bs: Buckets, now: real, ip: string, u: real)
    requires Sensible(l) && Refills(l) && Sound(l, bs, now) && now <= u
    ensures Available(l, AfterEvict(bs, now), ip, u) == Available(l, bs, ip, u)
  {
    CreditIs(l, IDLE_LIMIT);
    hide Credit, Refills;
    if ip in bs && ip !in AfterEvict(bs, now) {
      IdleIsFull(l, bs, ip, now);
      AvailableGrows(l, bs, ip, now, u);
      AvailableCapped(l, bs, ip, u);
    }
  }

  lemma {:induction false} SameTokensAnswer(l: Limits, bs: Buckets, cs: Buckets, es: seq<Event>, s: real)
    requires Sensible(l) && Refills(l) && Sound(l, bs, s) && Sound(l, cs, s) && SameTokens(l, bs, cs, s)
    requires Ordered(es) && forall i :: 0 <= i < |es| ==> s <= es[i].at
    ensures Answers(l, bs, es) == Answers(l, cs, es)
    decreases |es|
  {
    hide Sound, Available, Refills, AfterAllow, AfterEvict;
    if es != [] {
      var e := es[0];
      SoundLater(l, bs, s, e.at);
      SoundLater(l, cs, s, e.at);
      StepSound(l, bs, s, e);
      StepSound(l, cs, s, e);
      if e.Request? {
        SameRequest(l, bs, cs, e.ip, e.at);
      } else {
        forall ip, u | u >= e.at
          ensures Available(l, AfterEvict(bs, e.at), ip, u) == Available(l, AfterEvict(cs, e.at), ip, u)
        {
          SweepKeepsTokens(l, bs, e.at, ip, u);
          SweepKeepsTokens(l, cs, e.at, ip, u);
        }
      }
      SameTokensAnswer(l, Step(l, bs, e), Step(l, cs, e), es[1..], e.at);
    }
  }

  /** A request that is refused after the first events changes no answer to the later ones. */
  ghost predicate RefusalUnseen(l: Limits, before: seq<Event>, ip: string, at: real, after: seq<Event>) {
    var bs := Final(l, map[], before);
    !Allows(l, bs, ip, at) ==> Answers(l, AfterAllow(l, bs, ip, at), after) == Answers(l, bs, after)
  }

  ghost predicate RefusalsUnseen(l: Limits) {
    forall before, ip, at, after :: Ordered(before + [Request(ip, at)] + after) ==> RefusalUnseen(l, before, ip, at, after)
  }

  lemma {:induction false} RefusalChangesNothing(l: Limits, before: seq<Event>, ip: string, at: real, after: seq<Event>)
    requires Sensible(l) && Refills(l) && Ordered(before + [Request(ip, at)] + after)
    ensures RefusalUnseen(l, before, ip, at, after)
  {
    hide Final, Answers, Refills;
    var es := before + [Request(ip, at)] + after;
    var bs := Final(l, map[], before);
    var n := |before|;
    assert es[n] == Request(ip, at);
    assert forall i :: 0 <= i < n ==> es[i] == before[i];
    assert forall i :: 0 <= i < |after| ==> es[n + 1 + i] == after[i];
    var start := if n == 0 then at else before[0].at;
    FinalSound(l, map[], before, start, at);
    if !Allows(l, bs, ip, at) {
      var bs' := AfterAllow(l, bs, ip, at);
      StepSound(l, bs, at, Request(ip, at));
      forall x, u | u >= at
        ensures Available(l, bs', x, u) == Available(l, bs, x, u)
      {
        if x == ip {
          AvailableAfter(l, bs, ip, at, u);
          AvailableInSteps(l, bs, ip, at, u);
        } else {
          OtherAddress(l, bs, ip, at, x, u);
        }
      }
      SameTokensAnswer(l, bs', bs, after, at);
    }
  }

  /** Otherwise a refused request can keep a bucket from being evicted, and that shows. */
  lemma {:induction false} RefusalShows(l: Limits, ip: string)
    requires Sensible(l) && !Refills(l)
    ensures !RefusalsUnseen(l)
  {
    CreditIs(l, IDLE_LIMIT);
    var later := ShortRefill(l);
    hide Refills, Credit, Answers, Allowed, Final;
    var k := l.capacity;
    CreditMonotone(l, 0.0, IDLE_LIMIT);
    var before, at := Burst(ip, k, 0.0), later - IDLE_LIMIT;
    var after := [Sweep(later)] + Burst(ip, k, later);
    var es := before + [Request(ip, at)] + after;
    assert Ordered(es);
    BurstAllowed(l, map[], ip, k, 0.0, []);
    var bs := Final(l, map[], before);
    FinalSound(l, map[], before, 0.0, 0.0);
    AvailableInSteps(l, bs, ip, 0.0, at);
    assert Available(l, bs, ip, 0.0) == 0.0;
    assert !Allows(l, bs, ip, at);
    var bs' := AfterAllow(l, bs, ip, at);
    SoundLater(l, bs, 0.0, at);
    StepSound(l, bs, at, Request(ip, at));
    SweptBurst(l, bs, ip, k, later);
    KeptBurst(l, bs', ip, k, at, later);
    AvailableAfter(l, bs, ip, at, later);
    CreditAdds(l, at, later - at);
    AllowedIsCount(l, bs, after, ip);
    AllowedIsCount(l, bs', after, ip);
    assert !RefusalUnseen(l, before, ip, at, after);
  }

  lemma SweptBurst(l: Limits, bs: Buckets, ip: string, k: nat, later: real)
    requires Sensible(l) && k == l.capacity && ip in bs && bs[ip].lastSeen < later - IDLE_LIMIT
    ensures Allowed(l, bs, [Sweep(later)] + Burst(ip, k, later), ip) == k
  {
    hide Credit;
    var tail := [Sweep(later)] + Burst(ip, k, later);
    assert tail[1..] == Burst(ip, k, later);
    var swept := Step(l, bs, Sweep(later));
    BurstAllowed(l, swept, ip, k, later, []);
    assert Burst(ip, k, later) + [] == Burst(ip, k, later);
  }

  lemma KeptBurst(l: Limits, bs: Buckets, ip: string, k: nat, at: real, later: real)
    requires Sensible(l) && Sound(l, bs, at) && ip in bs && bs[ip].lastSeen == at == later - IDLE_LIMIT
    ensures Allowed(l, bs, [Sweep(later)] + Burst(ip, k, later), ip) as real <= Available(l, bs, ip, later)
  {
    hide Credit;
    var tail := [Sweep(later)] + Burst(ip, k, later);
    assert tail[1..] == Burst(ip, k, later);
    var swept := Step(l, bs, Sweep(later));
    StepSound(l, bs, at, Sweep(later));
    BurstBounded(l, swept, ip, k, later);
  }

  /** Refused requests are invisible on every schedule exactly when ten minutes refill a bucket. */
  lemma {:induction false} RefusalsUnseenIff(l: Limits)
    requires Sensible(l)
    ensures RefusalsUnseen(l) <==> Refills(l)
  {
    hide Refills, RefusalUnseen;
    if Refills(l) {
      forall before, ip, at, after | Ordered(before + [Request(ip, at)] + after)
        ensures RefusalUnseen(l, before, ip, at, after)
      {
        RefusalChangesNothing(l, before, ip, at, after);
      }
    } else {
      RefusalShows(l, "");
    }
  }
}
