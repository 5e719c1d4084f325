/**
 Token buckets per client address with eviction of idle visitors. A request takes two steps: under
 the lock it looks its limiter up, and later, outside the lock, it asks that limiter. Between the
 two anything else may happen.
 */
module RateLimit {
  import opened Sequences

  /** Tokens per second, and the bucket's size. */
  datatype Policy = Policy(rate: real, burst: nat)

  const STALE_AFTER := 180.0

  // ----- one token bucket

  datatype Bucket = Bucket(tokens: real, last: real)

  /** A new bucket is full. Its last use lies before every event. */
  function NewBucket(p: Policy): Bucket {
    Bucket(p.burst as real, 0.0)
  }

  /** The tokens that flow in over a time. */
  function Inflow(p: Policy, elapsed: real): real {
    p.rate * elapsed
  }

  function Refill(p: Policy, tokens: real, elapsed: real): real {
    var filled := tokens + Inflow(p, elapsed);
    if filled > p.burst as real then p.burst as real else filled
  }

  function Level(p: Policy, b: Bucket, t: real): real {
    Refill(p, b.tokens, t - if t < b.last then t else b.last)
  }

  /** A denied request leaves the bucket as it was. */
  function Allow(p: Policy, b: Bucket, t: real): (Bucket, bool) {
    var left := Level(p, b, t) - 1.0;
    if 1 <= p.burst && left >= 0.0 then (Bucket(left, t), true) else (b, false)
  }

  predicate Sound(p: Policy, b: Bucket, now: real) {
    0.0 <= b.tokens <= p.burst as real && b.last <= now
  }

  lemma InflowGrows(p: Policy, a: real, b: real)
    requires p.rate > 0.0 && a <= b
    ensures Inflow(p, a) <= Inflow(p, b) && Inflow(p, 0.0) == 0.0
  {
  }

  lemma InflowAdds(p: Policy, a: real, b: real)
    ensures Inflow(p, a + b) == Inflow(p, a) + Inflow(p, b)
  {
  }

  lemma RefillTwice(p: Policy, tokens: real, a: real, b: real)
    requires p.rate > 0.0 && a >= 0.0 && b >= 0.0 && 0.0 <= tokens <= p.burst as real
    ensures Refill(p, Refill(p, tokens, a), b) == Refill(p, tokens, a + b)
    ensures 0.0 <= Refill(p, tokens, a) <= p.burst as real
    ensures Refill(p, tokens, a + b) <= Refill(p, tokens, a) + Inflow(p, b)
  {
    InflowAdds(p, a, b);
    InflowGrows(p, 0.0, a);
    InflowGrows(p, 0.0, b);
  }

  /** The level at a later time depends on the level now alone. */
  lemma LevelLater(p: Policy, b: Bucket, now: real, t: real)
    requires p.rate > 0.0 && Sound(p, b, now) && now <= t
    ensures Level(p, b, t) == Refill(p, Level(p, b, now), t - now)
    ensures 0.0 <= Level(p, b, now) <= p.burst as real
  {
    var rested, more := now - b.last, t - now;
    RefillTwice(p, b.tokens, rested, more);
    assert t - b.last == rested + more;
  }

  lemma LevelAt(p: Policy, b: Bucket, t: real)
    requires p.rate > 0.0 && b.last == t && b.tokens <= p.burst as real
    ensures Level(p, b, t) == b.tokens
  {
    InflowGrows(p, 0.0, 0.0);
    assert t - b.last == 0.0;
  }

  lemma AllowSound(p: Policy, b: Bucket, t: real)
    requires p.rate > 0.0 && Sound(p, b, t)
    ensures Sound(p, Allow(p, b, t).0, t)
    ensures Allow(p, b, t).1 <==> p.burst >= 1 && Level(p, b, t) >= 1.0
    ensures Level(p, Allow(p, b, t).0, t) == Level(p, b, t) - if Allow(p, b, t).1 then 1.0 else 0.0
  {
    if Allow(p, b, t).1 {
      LevelAt(p, Allow(p, b, t).0, t);
    }
  }

  // ----- the limiter

  datatype Visitor = Visitor(limiter: nat, lastSeen: real)

  /** A request that has looked its limiter up; open until it asks it. */
  datatype Request = Request(ip: string, limiter: nat, arrived: real, open: bool)

  /** Limiters are numbered in order of creation and outlive their visitor. */
  datatype State = State(now: real, visitors: map<string, Visitor>, limiters: seq<Bucket>, requests: seq<Request>)

  const START := State(0.0, map[], [], [])

  datatype Step = Arrive(ip: string) | Decide(request: nat) | Cleanup

  datatype Event = Event(at: real, step: Step)

  datatype Decision = Decision(at: real, ip: string, allowed: bool)

  predicate Valid(s: State) {
    && (forall ip :: ip in s.visitors ==> s.visitors[ip].limiter < |s.limiters|)
    && (forall r :: 0 <= r < |s.requests| ==> s.requests[r].limiter < |s.limiters|)
  }

  function Arrived(p: Policy, s: State, ip: string, t: real): State {
    if ip in s.visitors then
      var v := s.visitors[ip].limiter;
      State(t, s.visitors[ip := Visitor(v, t)], s.limiters, s.requests + [Request(ip, v, t, true)])
    else
      var v := |s.limiters|;
      State(t, s.visitors[ip := Visitor(v, t)], s.limiters + [NewBucket(p)], s.requests + [Request(ip, v, t, true)])
  }

  function Decided(p: Policy, s: State, r: nat, t: real): (State, bool)
    requires Valid(s) && r < |s.requests|
  {
    var q := s.requests[r];
    var (bucket, allowed) := Allow(p, s.limiters[q.limiter], t);
    (State(t, s.visitors, s.limiters[q.limiter := bucket], s.requests[r := q.(open := false)]), allowed)
  }

  predicate Stale(v: Visitor, t: real) {
    t - v.lastSeen > STALE_AFTER
  }

  function Cleaned(s: State, t: real): State {
    s.(now := t, visitors := map ip | ip in s.visitors && !Stale(s.visitors[ip], t) :: s.visitors[ip])
  }

  /** One event, with eviction or with the cleanup disabled. */
  function Apply(p: Policy, evicting: bool, s: State, e: Event): (r: (State, seq<Decision>))
    requires Valid(s)
    ensures Valid(r.0)
  {
    match e.step
    case Arrive(ip) => (Arrived(p, s, ip, e.at), [])
    case Decide(r) =>
      if r >= |s.requests| then (s, [])
      else
        var (next, allowed) := Decided(p, s, r, e.at);
        (next, [Decision(e.at, s.requests[r].ip, allowed)])
    case Cleanup => (if evicting then Cleaned(s, e.at) else s.(now := e.at), [])
  }

  function Run(p: Policy, evicting: bool, s: State, es: seq<Event>): (r: (State, seq<Decision>))
    requires Valid(s)
    ensures Valid(r.0)
    decreases es
  {
    if es == [] then (s, [])
    else
      var (mid, first) := Apply(p, evicting, s, es[0]);
      var (end, rest) := Run(p, evicting, mid, es[1..]);
      (end, first + rest)
  }

  /**
   Time does not go back, and every request asks its limiter once, at most delay after it arrived.
   */
  predicate Legal(delay: real, s: State, e: Event) {
    && s.now <= e.at
    && (e.step.Decide? ==>
          && e.step.request < |s.requests|
          && s.requests[e.step.request].open
          && e.at <= s.requests[e.step.request].arrived + delay)
  }

  predicate LegalRun(p: Policy, delay: real, s: State, es: seq<Event>)
    requires Valid(s)
    decreases es
  {
    es != [] ==> Legal(delay, s, es[0]) && LegalRun(p, delay, Apply(p, false, s, es[0]).0, es[1..])
  }

  /** An idle bucket is full again before its visitor can go stale, or no bucket ever holds a token. */
  predicate Ample(p: Policy, delay: real) {
    p.burst == 0 || p.burst as real <= Inflow(p, STALE_AFTER - delay)
  }

  // ----- the invariant of one limiter

  /** What an address could spend at a time, as the state has it. */
  function Tokens(p: Policy, s: State, ip: string, t: real): real
    requires Valid(s)
  {
    if ip in s.visitors then Level(p, s.limiters[s.visitors[ip].limiter], t) else p.burst as real
  }

  ghost predicate GoodVisitor(p: Policy, delay: real, s: State, ip: string)
    requires Valid(s) && ip in s.visitors
  {
    var v := s.visitors[ip];
    && v.lastSeen <= s.now
    && Sound(p, s.limiters[v.limiter], s.now)
    && s.limiters[v.limiter].last <= v.lastSeen + delay
  }

  /** A request that may still ask its limiter holds its address's current one. */
  ghost predicate GoodRequest(delay: real, s: State, q: Request) {
    q.open && s.now <= q.arrived + delay ==>
      q.ip in s.visitors && s.visitors[q.ip].limiter == q.limiter && q.arrived <= s.visitors[q.ip].lastSeen
  }

  ghost predicate Separate(s: State) {
    forall a, b :: a in s.visitors && b in s.visitors && s.visitors[a].limiter == s.visitors[b].limiter ==> a == b
  }

  ghost predicate Good(p: Policy, delay: real, s: State) {
    && Valid(s) && Separate(s) && 0.0 <= s.now
    && (forall ip :: ip in s.visitors ==> GoodVisitor(p, delay, s, ip))
    && (forall r :: 0 <= r < |s.requests| ==> GoodRequest(delay, s, s.requests[r]))
  }

  lemma ArrivedVisitorGood(p: Policy, delay: real, s: State, ip: string, t: real, a: string)
    requires delay >= 0.0 && Good(p, delay, s) && s.now <= t && a in Arrived(p, s, ip, t).visitors
    ensures GoodVisitor(p, delay, Arrived(p, s, ip, t), a)
  {
    assert a in s.visitors ==> GoodVisitor(p, delay, s, a);
  }

  lemma ArriveGood(p: Policy, delay: real, s: State, ip: string, t: real)
    requires delay >= 0.0 && Good(p, delay, s) && s.now <= t
    ensures Good(p, delay, Arrived(p, s, ip, t))
  {
    var n := Arrived(p, s, ip, t);
    forall a | a in n.visitors ensures GoodVisitor(p, delay, n, a) {
      ArrivedVisitorGood(p, delay, s, ip, t, a);
    }
    forall r | 0 <= r < |n.requests| ensures GoodRequest(delay, n, n.requests[r]) {
      assert r < |s.requests| ==> GoodRequest(delay, s, s.requests[r]);
    }
  }

  lemma DecideGood(p: Policy, delay: real, s: State, r: nat, t: real)
    requires p.rate > 0.0 && Good(p, delay, s) && Legal(delay, s, Event(t, Decide(r)))
    ensures Good(p, delay, Decided(p, s, r, t).0)
  {
    var n, q := Decided(p, s, r, t).0, s.requests[r];
    assert GoodRequest(delay, s, q);
    assert GoodVisitor(p, delay, s, q.ip);
    AllowSound(p, s.limiters[q.limiter], t);
    forall a | a in n.visitors ensures GoodVisitor(p, delay, n, a) {
      assert GoodVisitor(p, delay, s, a);
    }
    forall i | 0 <= i < |n.requests| ensures GoodRequest(delay, n, n.requests[i]) {
      assert GoodRequest(delay, s, s.requests[i]);
    }
  }

  lemma CleanupGood(p: Policy, delay: real, s: State, t: real)
    requires delay <= STALE_AFTER && Good(p, delay, s) && s.now <= t
    ensures Good(p, delay, Cleaned(s, t))
  {
    var n := Cleaned(s, t);
    forall a | a in n.visitors ensures GoodVisitor(p, delay, n, a) {
      assert GoodVisitor(p, delay, s, a);
    }
    forall r | 0 <= r < |n.requests| ensures GoodRequest(delay, n, n.requests[r]) {
      assert GoodRequest(delay, s, s.requests[r]);
    }
  }

  lemma IdleGood(p: Policy, delay: real, s: State, t: real)
    requires Good(p, delay, s) && s.now <= t
    ensures Good(p, delay, s.(now := t))
  {
    var n := s.(now := t);
    forall a | a in n.visitors ensures GoodVisitor(p, delay, n, a) {
      assert GoodVisitor(p, delay, s, a);
    }
    forall r | 0 <= r < |n.requests| ensures GoodRequest(delay, n, n.requests[r]) {
      assert GoodRequest(delay, s, s.requests[r]);
    }
  }

  /** Every event keeps the invariant; with eviction, if the delay is within the stale time. */
  lemma GoodStep(p: Policy, delay: real, evicting: bool, s: State, e: Event)
    requires p.rate > 0.0 && delay >= 0.0 && Good(p, delay, s) && Legal(delay, s, e)
    requires evicting ==> delay <= STALE_AFTER
    ensures Good(p, delay, Apply(p, evicting, s, e).0)
  {
    match e.step
    case Arrive(ip) => ArriveGood(p, delay, s, ip, e.at);
    case Decide(r) => DecideGood(p, delay, s, r, e.at);
    case Cleanup =>
      if evicting {
        CleanupGood(p, delay, s, e.at);
      } else {
        IdleGood(p, delay, s, e.at);
      }
  }

  // ----- what an event does to an address's tokens

  function Spent(ds: seq<Decision>, ip: string): real {
    if ds == [] then 0.0 else (if ds[0].ip == ip && ds[0].allowed then 1.0 else 0.0) + Spent(ds[1..], ip)
  }

  lemma TokensLater(p: Policy, delay: real, s: State, ip: string, t: real)
    requires p.rate > 0.0 && Good(p, delay, s) && s.now <= t
    ensures Tokens(p, s, ip, t) == Refill(p, Tokens(p, s, ip, s.now), t - s.now)
    ensures 0.0 <= Tokens(p, s, ip, s.now) <= p.burst as real
  {
    if ip in s.visitors {
      assert GoodVisitor(p, delay, s, ip);
      LevelLater(p, s.limiters[s.visitors[ip].limiter], s.now, t);
    } else {
      InflowGrows(p, 0.0, t - s.now);
    }
  }

  lemma RestedIsFull(p: Policy, tokens: real, rested: real, needed: real)
    requires p.rate > 0.0 && tokens >= 0.0 && rested >= 0.0 && needed <= rested
    requires p.burst == 0 || p.burst as real <= Inflow(p, needed)
    ensures Refill(p, tokens, rested) == p.burst as real
  {
    InflowGrows(p, needed, rested);
    InflowGrows(p, 0.0, rested);
  }

  /** A visitor that has gone stale has a full bucket. */
  lemma StaleIsFull(p: Policy, delay: real, s: State, ip: string, t: real)
    requires p.rate > 0.0 && Good(p, delay, s) && s.now <= t && Ample(p, delay)
    requires ip in s.visitors && Stale(s.visitors[ip], t)
    ensures Tokens(p, s, ip, t) == p.burst as real
  {
    assert GoodVisitor(p, delay, s, ip);
    var b := s.limiters[s.visitors[ip].limiter];
    RestedIsFull(p, b.tokens, t - b.last, STALE_AFTER - delay);
  }

  /** An allowed request costs its address one token; nothing else changes what an address can spend. */
  lemma TokensStep(p: Policy, delay: real, evicting: bool, s: State, e: Event, ip: string)
    requires p.rate > 0.0 && delay >= 0.0 && Good(p, delay, s) && Legal(delay, s, e)
    requires evicting ==> Ample(p, delay)
    ensures Tokens(p, Apply(p, evicting, s, e).0, ip, e.at) ==
              Tokens(p, s, ip, e.at) - Spent(Apply(p, evicting, s, e).1, ip)
  {
    match e.step
    case Arrive(a) => NewIsFull(p, e.at);
    case Decide(r) =>
      var q := s.requests[r];
      assert GoodRequest(delay, s, q);
      assert GoodVisitor(p, delay, s, q.ip);
      AllowSound(p, s.limiters[q.limiter], e.at);
    case Cleanup =>
      if evicting && ip in s.visitors && Stale(s.visitors[ip], e.at) {
        StaleIsFull(p, delay, s, ip, e.at);
      }
  }

  lemma NewIsFull(p: Policy, t: real)
    requires p.rate > 0.0 && t >= 0.0
    ensures Level(p, NewBucket(p), t) == p.burst as real
  {
    InflowGrows(p, 0.0, t);
  }

  lemma DecisionStep(p: Policy, delay: real, s: State, r: nat, t: real)
    requires p.rate > 0.0 && Good(p, delay, s) && Legal(delay, s, Event(t, Decide(r)))
    ensures Decided(p, s, r, t).1 <==> p.burst >= 1 && Tokens(p, s, s.requests[r].ip, t) >= 1.0
  {
    var q := s.requests[r];
    assert GoodRequest(delay, s, q);
    assert GoodVisitor(p, delay, s, q.ip);
    AllowSound(p, s.limiters[q.limiter], t);
  }

  // ----- eviction is unobservable

  predicate SameRequest(a: Request, b: Request) {
    a.ip == b.ip && a.arrived == b.arrived && a.open == b.open
  }

  ghost predicate SameRequests(s: State, k: State) {
    && s.now == k.now && |s.requests| == |k.requests|
    && forall r :: 0 <= r < |s.requests| ==> SameRequest(s.requests[r], k.requests[r])
  }

  lemma SameRequestsStep(p: Policy, s: State, k: State, e: Event)
    requires Valid(s) && Valid(k) && SameRequests(s, k)
    ensures SameRequests(Apply(p, true, s, e).0, Apply(p, false, k, e).0)
  {
  }

  ghost predicate SameTokens(p: Policy, s: State, k: State)
    requires Valid(s) && Valid(k)
  {
    forall ip :: Tokens(p, s, ip, s.now) == Tokens(p, k, ip, k.now)
  }

  lemma SameStep(p: Policy, delay: real, s: State, k: State, e: Event)
    requires p.rate > 0.0 && 0.0 <= delay <= STALE_AFTER && Ample(p, delay)
    requires Good(p, delay, s) && Good(p, delay, k) && SameRequests(s, k) && SameTokens(p, s, k)
    requires Legal(delay, k, e)
    ensures Apply(p, true, s, e).1 == Apply(p, false, k, e).1
    ensures SameTokens(p, Apply(p, true, s, e).0, Apply(p, false, k, e).0)
  {
    assert Legal(delay, s, e);
    if e.step.Decide? {
      var r := e.step.request;
      TokensLater(p, delay, s, s.requests[r].ip, e.at);
      TokensLater(p, delay, k, k.requests[r].ip, e.at);
      DecisionStep(p, delay, s, r, e.at);
      DecisionStep(p, delay, k, r, e.at);
    }
    forall ip ensures Tokens(p, Apply(p, true, s, e).0, ip, e.at) == Tokens(p, Apply(p, false, k, e).0, ip, e.at) {
      TokensLater(p, delay, s, ip, e.at);
      TokensLater(p, delay, k, ip, e.at);
      TokensStep(p, delay, true, s, e, ip);
      TokensStep(p, delay, false, k, e, ip);
    }
  }

  lemma {:induction false} SameRun(p: Policy, delay: real, s: State, k: State, es: seq<Event>)
    requires p.rate > 0.0 && 0.0 <= delay <= STALE_AFTER && Ample(p, delay)
    requires Good(p, delay, s) && Good(p, delay, k) && SameRequests(s, k) && SameTokens(p, s, k)
    requires LegalRun(p, delay, k, es)
    ensures Run(p, true, s, es).1 == Run(p, false, k, es).1
    decreases es
  {
    if es != [] {
      SameStep(p, delay, s, k, es[0]);
      SameRequestsStep(p, s, k, es[0]);
      GoodStep(p, delay, true, s, es[0]);
      GoodStep(p, delay, false, k, es[0]);
      SameRun(p, delay, Apply(p, true, s, es[0]).0, Apply(p, false, k, es[0]).0, es[1..]);
    }
  }

  /** With no tokens at all everything is denied, evicted or not. */
  lemma {:induction false} NoTokensRun(p: Policy, s: State, k: State, es: seq<Event>)
    requires p.burst == 0 && Valid(s) && Valid(k) && SameRequests(s, k)
    ensures Run(p, true, s, es).1 == Run(p, false, k, es).1
    decreases es
  {
    if es != [] {
      SameRequestsStep(p, s, k, es[0]);
      NoTokensRun(p, Apply(p, true, s, es[0]).0, Apply(p, false, k, es[0]).0, es[1..]);
    }
  }

  lemma AmpleDelay(p: Policy, delay: real)
    requires p.rate > 0.0 && Ample(p, delay) && p.burst > 0
    ensures delay <= STALE_AFTER
  {
    if delay > STALE_AFTER {
      InflowGrows(p, STALE_AFTER - delay, 0.0);
    }
  }

  /** Evicting idle visitors changes no decision of any run. */
  lemma EvictionUnobservable(p: Policy, delay: real, es: seq<Event>)
    requires p.rate > 0.0 && delay >= 0.0 && LegalRun(p, delay, START, es)
    requires p.burst == 0 || p.burst as real <= p.rate * (180.0 - delay)
    ensures Run(p, true, START, es).1 == Run(p, false, START, es).1
  {
    if p.burst == 0 {
      NoTokensRun(p, START, START, es);
    } else {
      AmpleDelay(p, delay);
      SameRun(p, delay, START, START, es);
    }
  }

  // ----- how much one address gets in a window

  ghost predicate Within(es: seq<Event>, t0: real, t1: real) {
    forall i :: 0 <= i < |es| ==> t0 <= es[i].at <= t1
  }

  /** From any good state: what is spent comes from what is there and what flows in. */
  lemma {:induction false} SpentBound(p: Policy, delay: real, s: State, es: seq<Event>, ip: string, t: real, end: real)
    requires p.rate > 0.0 && delay >= 0.0 && Good(p, delay, s) && LegalRun(p, delay, s, es)
    requires s.now <= t <= end && Within(es, t, end)
    ensures Spent(Run(p, false, s, es).1, ip) <= Tokens(p, s, ip, t) + Inflow(p, end - t)
    decreases es
  {
    if es == [] {
      TokensLater(p, delay, s, ip, t);
      RefillTwice(p, Tokens(p, s, ip, s.now), t - s.now, end - t);
      InflowGrows(p, 0.0, end - t);
    } else {
      var (mid, first) := Apply(p, false, s, es[0]);
      GoodStep(p, delay, false, s, es[0]);
      RestWithin(p, delay, s, es, t, end);
      SpentBound(p, delay, mid, es[1..], ip, es[0].at, end);
      SpentConcat(first, Run(p, false, mid, es[1..]).1, ip);
      SpentFirst(p, delay, s, es[0], ip, t, end);
    }
  }

  lemma SpentFirst(p: Policy, delay: real, s: State, e: Event, ip: string, t: real, end: real)
    requires p.rate > 0.0 && delay >= 0.0 && Good(p, delay, s) && Legal(delay, s, e)
    requires s.now <= t <= e.at <= end
    ensures Spent(Apply(p, false, s, e).1, ip) + Tokens(p, Apply(p, false, s, e).0, ip, e.at) + Inflow(p, end - e.at) <=
              Tokens(p, s, ip, t) + Inflow(p, end - t)
  {
    TokensStep(p, delay, false, s, e, ip);
    TokensLater(p, delay, s, ip, t);
    TokensLater(p, delay, s, ip, e.at);
    Flow(p, Tokens(p, s, ip, s.now), t - s.now, e.at - t, end - e.at);
    assert (t - s.now) + (e.at - t) == e.at - s.now && (e.at - t) + (end - e.at) == end - t;
  }

  lemma Flow(p: Policy, tokens: real, a: real, b: real, c: real)
    requires p.rate > 0.0 && a >= 0.0 && b >= 0.0 && c >= 0.0 && 0.0 <= tokens <= p.burst as real
    ensures Refill(p, tokens, a + b) + Inflow(p, c) <= Refill(p, tokens, a) + Inflow(p, b + c)
  {
    RefillTwice(p, tokens, a, b);
    InflowAdds(p, b, c);
  }

  lemma RestWithin(p: Policy, delay: real, s: State, es: seq<Event>, t: real, end: real)
    requires Valid(s) && LegalRun(p, delay, s, es) && es != [] && Within(es, t, end)
    ensures Within(es[1..], es[0].at, end)
  {
    assert forall i :: 0 <= i < |es[1..]| ==> es[1..][i] == es[i + 1];
    LegalWithin(p, delay, Apply(p, false, s, es[0]).0, es[1..], es[0].at, end);
  }

  lemma {:induction false} SpentConcat(a: seq<Decision>, b: seq<Decision>, ip: string)
    ensures Spent(a + b, ip) == Spent(a, ip) + Spent(b, ip)
  {
    if a == [] {
      assert a + b == b;
    } else {
      assert (a + b)[1..] == a[1..] + b;
      SpentConcat(a[1..], b, ip);
    }
  }

  /** The events of a legal run are in time order. */
  lemma {:induction false} LegalWithin(p: Policy, delay: real, s: State, es: seq<Event>, t: real, end: real)
    requires Valid(s) && LegalRun(p, delay, s, es) && t <= s.now
    requires forall i :: 0 <= i < |es| ==> es[i].at <= end
    ensures Within(es, t, end)
    decreases es
  {
    if es != [] {
      assert forall i :: 0 <= i < |es[1..]| ==> es[1..][i] == es[i + 1];
      LegalWithin(p, delay, Apply(p, false, s, es[0]).0, es[1..], t, end);
      forall i | 0 <= i < |es| ensures t <= es[i].at <= end {
        assert i > 0 ==> es[i] == es[1..][i - 1];
      }
    }
  }

  lemma {:induction false} RunConcat(p: Policy, evicting: bool, s: State, a: seq<Event>, b: seq<Event>)
    requires Valid(s)
    ensures Run(p, evicting, s, a + b).0 == Run(p, evicting, Run(p, evicting, s, a).0, b).0
    ensures Run(p, evicting, s, a + b).1 == Run(p, evicting, s, a).1 + Run(p, evicting, Run(p, evicting, s, a).0, b).1
    decreases a
  {
    if a == [] {
      assert a + b == b;
    } else {
      assert (a + b)[1..] == a[1..] + b;
      var (mid, first) := Apply(p, evicting, s, a[0]);
      RunConcat(p, evicting, mid, a[1..], b);
      Assoc(first, Run(p, evicting, mid, a[1..]).1, Run(p, evicting, Run(p, evicting, mid, a[1..]).0, b).1);
    }
  }

  lemma {:induction false} LegalConcat(p: Policy, delay: real, s: State, a: seq<Event>, b: seq<Event>)
    requires Valid(s)
    ensures LegalRun(p, delay, s, a + b) <==> LegalRun(p, delay, s, a) && LegalRun(p, delay, Run(p, false, s, a).0, b)
    decreases a
  {
    if a == [] {
      assert a + b == b;
    } else {
      assert (a + b)[1..] == a[1..] + b;
      LegalConcat(p, delay, Apply(p, false, s, a[0]).0, a[1..], b);
    }
  }

  lemma {:induction false} GoodRun(p: Policy, delay: real, s: State, es: seq<Event>)
    requires p.rate > 0.0 && delay >= 0.0 && Good(p, delay, s) && LegalRun(p, delay, s, es)
    ensures Good(p, delay, Run(p, false, s, es).0)
    decreases es
  {
    if es != [] {
      GoodStep(p, delay, false, s, es[0]);
      GoodRun(p, delay, Apply(p, false, s, es[0]).0, es[1..]);
    }
  }

  lemma Cancel(a: seq<Decision>, b: seq<Decision>, c: seq<Decision>)
    requires a + b == a + c
    ensures b == c
  {
    assert b == (a + b)[|a|..];
  }

  lemma WindowDecisions(p: Policy, delay: real, before: seq<Event>, window: seq<Event>)
    requires p.rate > 0.0 && delay >= 0.0 && Ample(p, delay)
    requires LegalRun(p, delay, START, before + window)
    ensures Run(p, true, Run(p, true, START, before).0, window).1 ==
        Run(p, false, Run(p, false, START, before).0, window).1
  {
    LegalConcat(p, delay, START, before, window);
    EvictionUnobservable(p, delay, before);
    EvictionUnobservable(p, delay, before + window);
    RunConcat(p, true, START, before, window);
    RunConcat(p, false, START, before, window);
    Cancel(Run(p, false, START, before).1, Run(p, true, Run(p, true, START, before).0, window).1,
           Run(p, false, Run(p, false, START, before).0, window).1);
  }

  lemma WindowSpent(p: Policy, delay: real, k: State, window: seq<Event>, ip: string, t0: real, t1: real)
    requires p.rate > 0.0 && delay >= 0.0 && Good(p, delay, k) && LegalRun(p, delay, k, window)
    requires Within(window, t0, t1) && t0 <= t1
    ensures Spent(Run(p, false, k, window).1, ip) <= p.burst as real + Inflow(p, t1 - t0)
  {
    InflowGrows(p, 0.0, t1 - t0);
    if window != [] {
      var t := if t0 < k.now then k.now else t0;
      LegalWithin(p, delay, k, window, k.now, t1);
      assert t <= window[0].at && Within(window, t, t1);
      SpentBound(p, delay, k, window, ip, t, t1);
      TokensLater(p, delay, k, ip, t);
      RefillTwice(p, Tokens(p, k, ip, k.now), t - k.now, 0.0);
      InflowGrows(p, t1 - t, t1 - t0);
    }
  }

  /** With eviction, the requests allowed in a window after a run fit the bucket and what flows in meanwhile. */
  predicate WindowFits(p: Policy, before: seq<Event>, window: seq<Event>, ip: string, t0: real, t1: real) {
    Spent(Run(p, true, Run(p, true, START, before).0, window).1, ip) <= p.burst as real + p.rate * (t1 - t0)
  }

  ghost predicate EveryWindowFits(p: Policy, delay: real) {
    forall before, window, ip, t0, t1 ::
      LegalRun(p, delay, START, before + window) && Within(window, t0, t1) && t0 <= t1 ==>
        WindowFits(p, before, window, ip, t0, t1)
  }

  /** Under an ample rate every window of every run fits. */
  lemma WindowBound(p: Policy, delay: real, before: seq<Event>, window: seq<Event>, ip: string, t0: real, t1: real)
    requires p.rate > 0.0 && delay >= 0.0 && Ample(p, delay)
    requires LegalRun(p, delay, START, before + window) && Within(window, t0, t1) && t0 <= t1
    ensures WindowFits(p, before, window, ip, t0, t1)
  {
    LegalConcat(p, delay, START, before, window);
    GoodRun(p, delay, START, before);
    WindowDecisions(p, delay, before, window);
    WindowSpent(p, delay, Run(p, false, START, before).0, window, ip, t0, t1);
  }

  // ----- without an ample rate, eviction shows

  const SOMEONE := "192.0.2.1"

  function Arrivals(n: nat, t: real): seq<Event> {
    if n == 0 then [] else [Event(t, Arrive(SOMEONE))] + Arrivals(n - 1, t)
  }

  function Decides(first: nat, n: nat, t: real): seq<Event>
    decreases n
  {
    if n == 0 then [] else [Event(t, Decide(first))] + Decides(first + 1, n - 1, t)
  }

  lemma {:induction false} ArrivalsLegal(p: Policy, delay: real, s: State, n: nat, t: real)
    requires Valid(s) && s.now <= t
    ensures LegalRun(p, delay, s, Arrivals(n, t))
    decreases n
  {
    if n > 0 {
      ArrivalsLegal(p, delay, Arrived(p, s, SOMEONE, t), n - 1, t);
      assert Arrivals(n, t)[1..] == Arrivals(n - 1, t);
    }
  }

  /** The requests from first on arrived together, from one address, and are all open. */
  ghost predicate Waiting(s: State, first: nat, n: nat, arrived: real) {
    && |s.requests| == first + n
    && forall r :: first <= r < first + n ==>
                     s.requests[r].ip == SOMEONE && s.requests[r].arrived == arrived && s.requests[r].open
  }

  lemma LegalCons(p: Policy, delay: real, s: State, e: Event, es: seq<Event>)
    requires Valid(s)
    ensures LegalRun(p, delay, s, [e] + es) <==> Legal(delay, s, e) && LegalRun(p, delay, Apply(p, false, s, e).0, es)
  {
    var all := [e] + es;
    assert all[0] == e && all[1..] == es;
  }

  lemma DecidedWaits(p: Policy, evicting: bool, s: State, first: nat, n: nat, arrived: real, t: real)
    requires Valid(s) && n > 0 && Waiting(s, first, n, arrived)
    ensures var next := Apply(p, evicting, s, Event(t, Decide(first))).0;
            next.now == t && Waiting(next, first + 1, n - 1, arrived)
  {
  }

  lemma {:induction false} DecidesLegal(p: Policy, delay: real, s: State, first: nat, n: nat, arrived: real, t: real)
    requires Valid(s) && s.now <= t <= arrived + delay && Waiting(s, first, n, arrived)
    ensures LegalRun(p, delay, s, Decides(first, n, t))
    decreases n
  {
    if n > 0 {
      var e := Event(t, Decide(first));
      DecidedWaits(p, false, s, first, n, arrived, t);
      DecidesLegal(p, delay, Apply(p, false, s, e).0, first + 1, n - 1, arrived, t);
      LegalCons(p, delay, s, e, Decides(first + 1, n - 1, t));
    }
  }

  /** The waiting requests hold one limiter. */
  ghost predicate Holding(s: State, first: nat, n: nat, limiter: nat) {
    |s.requests| == first + n && forall r :: first <= r < first + n ==> s.requests[r].limiter == limiter
  }

  lemma {:induction false} ArrivalsSeen(p: Policy, evicting: bool, s: State, first: nat, k: nat, n: nat)
    requires Valid(s) && SOMEONE in s.visitors && s.visitors[SOMEONE].lastSeen == s.now
    requires Waiting(s, first, k, s.now) && Holding(s, first, k, s.visitors[SOMEONE].limiter)
    ensures var (end, ds) := Run(p, evicting, s, Arrivals(n, s.now));
            && ds == [] && end.now == s.now && end.visitors == s.visitors && end.limiters == s.limiters
            && Waiting(end, first, k + n, s.now) && Holding(end, first, k + n, s.visitors[SOMEONE].limiter)
    decreases n
  {
    if n > 0 {
      var next := Arrived(p, s, SOMEONE, s.now);
      assert next.visitors == s.visitors;
      ArrivalsSeen(p, evicting, next, first, k + 1, n - 1);
      assert Arrivals(n, s.now)[1..] == Arrivals(n - 1, s.now);
    }
  }

  /** Requests of an address without a visitor: a new limiter serves them all. */
  lemma ArrivalsNew(p: Policy, evicting: bool, s: State, n: nat, t: real)
    requires Valid(s) && SOMEONE !in s.visitors && n > 0
    ensures var (end, ds) := Run(p, evicting, s, Arrivals(n, t));
            && ds == [] && end.now == t && end.limiters == s.limiters + [NewBucket(p)]
            && end.visitors == s.visitors[SOMEONE := Visitor(|s.limiters|, t)]
            && Waiting(end, |s.requests|, n, t) && Holding(end, |s.requests|, n, |s.limiters|)
  {
    FirstArrival(p, s, t);
    ArrivalsSeen(p, evicting, Arrived(p, s, SOMEONE, t), |s.requests|, 1, n - 1);
    RunCons(p, evicting, s, Event(t, Arrive(SOMEONE)), Arrivals(n - 1, t));
  }

  lemma FirstArrival(p: Policy, s: State, t: real)
    requires Valid(s) && SOMEONE !in s.visitors
    ensures var next := Arrived(p, s, SOMEONE, t);
            && Valid(next) && next.now == t && next.limiters == s.limiters + [NewBucket(p)]
            && next.visitors == s.visitors[SOMEONE := Visitor(|s.limiters|, t)]
            && Waiting(next, |s.requests|, 1, t) && Holding(next, |s.requests|, 1, |s.limiters|)
  {
  }

  /** A bucket that holds enough serves every waiting request. */
  lemma {:induction false} DecidesServed(p: Policy, evicting: bool, s: State, first: nat, n: nat, limiter: nat,
    arrived: real, t: real)
    requires p.rate > 0.0 && Valid(s) && Waiting(s, first, n, arrived) && Holding(s, first, n, limiter)
    requires limiter < |s.limiters| && Sound(p, s.limiters[limiter], t) && p.burst >= 1
    requires Level(p, s.limiters[limiter], t) >= n as real
    ensures var (end, ds) := Run(p, evicting, s, Decides(first, n, t));
            && Spent(ds, SOMEONE) == n as real && end.visitors == s.visitors && |end.requests| == |s.requests|
            && |end.limiters| == |s.limiters|
    decreases n
  {
    if n > 0 {
      var e := Event(t, Decide(first));
      var next := Apply(p, evicting, s, e).0;
      DecidedWaits(p, evicting, s, first, n, arrived, t);
      ServedOne(p, evicting, s, first, n, limiter, t);
      DecidesServed(p, evicting, next, first + 1, n - 1, limiter, arrived, t);
      RunCons(p, evicting, s, e, Decides(first + 1, n - 1, t));
      SpentConcat([Decision(t, SOMEONE, true)], Run(p, evicting, next, Decides(first + 1, n - 1, t)).1, SOMEONE);
    }
  }

  lemma ServedOne(p: Policy, evicting: bool, s: State, first: nat, n: nat, limiter: nat, t: real)
    requires p.rate > 0.0 && Valid(s) && n > 0 && Holding(s, first, n, limiter) && s.requests[first].ip == SOMEONE
    requires limiter < |s.limiters| && Sound(p, s.limiters[limiter], t) && p.burst >= 1
    requires Level(p, s.limiters[limiter], t) >= n as real
    ensures var (next, ds) := Apply(p, evicting, s, Event(t, Decide(first)));
            && ds == [Decision(t, SOMEONE, true)] && Holding(next, first + 1, n - 1, limiter)
            && Sound(p, next.limiters[limiter], t) && Level(p, next.limiters[limiter], t) >= (n - 1) as real
            && next.visitors == s.visitors && |next.requests| == |s.requests| && |next.limiters| == |s.limiters|
  {
    AllowSound(p, s.limiters[limiter], t);
  }

  // A full bucket's worth of requests; the cleanup; a full bucket's worth again.

  function FirstArrivals(p: Policy): seq<Event> {
    Arrivals(p.burst, 0.0)
  }

  function AfterArrivals(p: Policy, served: real, later: real): seq<Event> {
    Decides(0, p.burst, served) +
      ([Event(later, Cleanup)] + (Arrivals(p.burst, later) + Decides(p.burst, p.burst, later)))
  }

  lemma FirstPhase(p: Policy, evicting: bool)
    requires p.burst > 0
    ensures var (s, ds) := Run(p, evicting, START, FirstArrivals(p));
            && ds == [] && s.now == 0.0 && s.limiters == [NewBucket(p)] && s.visitors == map[SOMEONE := Visitor(0, 0.0)]
            && Waiting(s, 0, p.burst, 0.0) && Holding(s, 0, p.burst, 0)
  {
    ArrivalsNew(p, evicting, START, p.burst, 0.0);
    assert START.limiters + [NewBucket(p)] == [NewBucket(p)];
  }

  lemma RunCons(p: Policy, evicting: bool, s: State, e: Event, es: seq<Event>)
    requires Valid(s)
    ensures var (mid, first) := Apply(p, evicting, s, e);
            Run(p, evicting, s, [e] + es) == (Run(p, evicting, mid, es).0, first + Run(p, evicting, mid, es).1)
  {
    var all := [e] + es;
    assert all[0] == e && all[1..] == es;
  }

  lemma DecideCounts(p: Policy, s: State, r: nat, t: real)
    requires Valid(s) && r < |s.requests|
    ensures var next := Apply(p, false, s, Event(t, Decide(r))).0; |next.requests| == |s.requests| && next.now == t
  {
  }

  lemma ServedAgain(p: Policy, evicting: bool, s2: State, later: real)
    requires Valid(s2)
    ensures var s3 := Apply(p, evicting, s2, Event(later, Cleanup)).0;
            var s4 := Run(p, evicting, s3, Arrivals(p.burst, later));
            var s5 := Run(p, evicting, s4.0, Decides(p.burst, p.burst, later));
            Run(p, evicting, s2, [Event(later, Cleanup)] +
              (Arrivals(p.burst, later) + Decides(p.burst, p.burst, later))).1 ==
              s4.1 + s5.1
  {
    var n := p.burst;
    RunCons(p, evicting, s2, Event(later, Cleanup), Arrivals(n, later) + Decides(n, n, later));
    RunConcat(p, evicting, Apply(p, evicting, s2, Event(later, Cleanup)).0, Arrivals(n, later), Decides(n, n, later));
  }

  /** The decisions of the whole run are those of its two serving phases. */
  lemma ServedTwice(p: Policy, evicting: bool, s1: State, served: real, later: real)
    requires Valid(s1)
    ensures var s2 := Run(p, evicting, s1, Decides(0, p.burst, served));
            var s3 := Apply(p, evicting, s2.0, Event(later, Cleanup)).0;
            var s4 := Run(p, evicting, s3, Arrivals(p.burst, later));
            var s5 := Run(p, evicting, s4.0, Decides(p.burst, p.burst, later));
            Run(p, evicting, s1, AfterArrivals(p, served, later)).1 == s2.1 + (s4.1 + s5.1)
  {
    var n := p.burst;
    var rest := [Event(later, Cleanup)] + (Arrivals(n, later) + Decides(n, n, later));
    RunConcat(p, evicting, s1, Decides(0, n, served), rest);
    ServedAgain(p, evicting, Run(p, evicting, s1, Decides(0, n, served)).0, later);
  }

  /** An address without a visitor is served a full bucket. */
  lemma ServedAfresh(p: Policy, evicting: bool, s: State, t: real)
    requires p.rate > 0.0 && p.burst > 0 && t >= 0.0 && Valid(s) && SOMEONE !in s.visitors && |s.requests| == p.burst
    ensures var s4 := Run(p, evicting, s, Arrivals(p.burst, t));
            s4.1 == [] && Spent(Run(p, evicting, s4.0, Decides(p.burst, p.burst, t)).1, SOMEONE) == p.burst as real
  {
    var n := p.burst;
    ArrivalsNew(p, evicting, s, n, t);
    NewIsFull(p, t);
    DecidesServed(p, evicting, Run(p, evicting, s, Arrivals(n, t)).0, n, n, |s.limiters|, t, t);
  }

  lemma ServedFirst(p: Policy, s: State, served: real, later: real)
    requires p.rate > 0.0 && p.burst > 0 && 0.0 <= served <= STALE_AFTER < later
    requires Valid(s) && s.limiters == [NewBucket(p)] && s.visitors == map[SOMEONE := Visitor(0, 0.0)]
    requires Waiting(s, 0, p.burst, 0.0) && Holding(s, 0, p.burst, 0)
    ensures var (s2, ds) := Run(p, true, s, Decides(0, p.burst, served));
            Spent(ds, SOMEONE) == p.burst as real && Cleaned(s2, later).visitors == map[] && |s2.requests| == p.burst
  {
    NewIsFull(p, served);
    DecidesServed(p, true, s, 0, p.burst, 0, 0.0, served);
  }

  /** With eviction everything is allowed. */
  lemma EvictingAllows(p: Policy, served: real, later: real)
    requires p.rate > 0.0 && p.burst > 0 && 0.0 <= served <= STALE_AFTER < later
    ensures Spent(Run(p, true, Run(p, true, START, FirstArrivals(p)).0, AfterArrivals(p, served, later)).1, SOMEONE) ==
              (2 * p.burst) as real
  {
    FirstPhase(p, true);
    var s1 := Run(p, true, START, FirstArrivals(p)).0;
    ServedFirst(p, s1, served, later);
    var (s2, ds) := Run(p, true, s1, Decides(0, p.burst, served));
    var s3 := Cleaned(s2, later);
    ServedAfresh(p, true, s3, later);
    ServedTwice(p, true, s1, served, later);
    var s4 := Run(p, true, s3, Arrivals(p.burst, later));
    var more := Run(p, true, s4.0, Decides(p.burst, p.burst, later)).1;
    assert s4.1 + more == more;
    SpentConcat(ds, more, SOMEONE);
  }

  lemma {:induction false} ArrivalsAt(n: nat, t: real)
    ensures forall i :: 0 <= i < |Arrivals(n, t)| ==> Arrivals(n, t)[i].at == t
  {
    if n > 0 {
      ArrivalsAt(n - 1, t);
    }
  }

  lemma {:induction false} DecidesAt(first: nat, n: nat, t: real)
    ensures forall i :: 0 <= i < |Decides(first, n, t)| ==> Decides(first, n, t)[i].at == t
    decreases n
  {
    if n > 0 {
      DecidesAt(first + 1, n - 1, t);
    }
  }

  lemma AfterArrivalsWithin(p: Policy, served: real, later: real)
    requires served <= later
    ensures Within(AfterArrivals(p, served, later), served, later)
  {
    ArrivalsAt(p.burst, later);
    DecidesAt(0, p.burst, served);
    DecidesAt(p.burst, p.burst, later);
  }

  /** The requests left by a run do not depend on eviction. */
  lemma {:induction false} SameRequestsRun(p: Policy, s: State, k: State, es: seq<Event>)
    requires Valid(s) && Valid(k) && SameRequests(s, k)
    ensures SameRequests(Run(p, true, s, es).0, Run(p, false, k, es).0)
    decreases es
  {
    if es != [] {
      SameRequestsStep(p, s, k, es[0]);
      SameRequestsRun(p, Apply(p, true, s, es[0]).0, Apply(p, false, k, es[0]).0, es[1..]);
    }
  }

  lemma {:induction false} ArrivalsWait(p: Policy, s: State, first: nat, k: nat, n: nat, t: real)
    requires Valid(s) && Waiting(s, first, k, t) && (k > 0 ==> s.now == t)
    ensures var end := Run(p, false, s, Arrivals(n, t)).0; Waiting(end, first, k + n, t) && (k + n > 0 ==> end.now == t)
    decreases n
  {
    if n > 0 {
      ArrivalsWait(p, Arrived(p, s, SOMEONE, t), first, k + 1, n - 1, t);
      assert Arrivals(n, t)[1..] == Arrivals(n - 1, t);
    }
  }

  lemma {:induction false} DecidesEnd(p: Policy, s: State, first: nat, n: nat, t: real)
    requires Valid(s) && |s.requests| == first + n && s.now <= t
    ensures var end := Run(p, false, s, Decides(first, n, t)).0; |end.requests| == |s.requests| && end.now <= t
    decreases n
  {
    if n > 0 {
      var e := Event(t, Decide(first));
      var next := Apply(p, false, s, e).0;
      DecideCounts(p, s, first, t);
      DecidesEnd(p, next, first + 1, n - 1, t);
      RunCons(p, false, s, e, Decides(first + 1, n - 1, t));
    }
  }

  /** A cleanup, then a full bucket's worth of requests, served at once. */
  lemma SecondPhaseLegal(p: Policy, delay: real, s: State, later: real)
    requires delay >= 0.0 && Valid(s) && s.now <= later && |s.requests| == p.burst
    ensures LegalRun(p, delay, s, [Event(later, Cleanup)] +
        (Arrivals(p.burst, later) + Decides(p.burst, p.burst, later)))
  {
    var n := p.burst;
    var clean, tail := [Event(later, Cleanup)], Arrivals(n, later) + Decides(n, n, later);
    var k := s.(now := later);
    ArrivalsLegal(p, delay, k, n, later);
    ArrivalsWait(p, k, n, 0, n, later);
    DecidesLegal(p, delay, Run(p, false, k, Arrivals(n, later)).0, n, n, later, later);
    LegalConcat(p, delay, k, Arrivals(n, later), Decides(n, n, later));
    assert (clean + tail)[0] == clean[0] && (clean + tail)[1..] == tail;
  }

  /** It is a run that the clock and the delay permit. */
  lemma DrainingIsLegal(p: Policy, delay: real, served: real, later: real)
    requires p.burst > 0 && 0.0 <= served <= delay && served <= later
    ensures LegalRun(p, delay, START, FirstArrivals(p) + AfterArrivals(p, served, later))
  {
    var n := p.burst;
    ArrivalsLegal(p, delay, START, n, 0.0);
    ArrivalsWait(p, START, 0, 0, n, 0.0);
    var k1 := Run(p, false, START, FirstArrivals(p)).0;
    DecidesLegal(p, delay, k1, 0, n, 0.0, served);
    DecidesEnd(p, k1, 0, n, served);
    var rest := [Event(later, Cleanup)] + (Arrivals(n, later) + Decides(n, n, later));
    SecondPhaseLegal(p, delay, Run(p, false, k1, Decides(0, n, served)).0, later);
    LegalConcat(p, delay, k1, Decides(0, n, served), rest);
    LegalConcat(p, delay, START, FirstArrivals(p), AfterArrivals(p, served, later));
  }

  /** There is room after the stale time before enough has flowed in. */
  lemma RoomToEvict(p: Policy, rest: real) returns (more: real)
    requires p.rate > 0.0 && Inflow(p, rest) < p.burst as real
    ensures more > rest && Inflow(p, more) < p.burst as real
  {
    var gap := p.burst as real - Inflow(p, rest);
    var step := gap / (2.0 * p.rate);
    assert p.rate * step == gap / 2.0;
    assert step > 0.0 by {
      if step <= 0.0 {
        InflowGrows(p, step, 0.0);
      }
    }
    more := rest + step;
    InflowAdds(p, rest, step);
  }

  /** Without an ample rate some run lets eviction show. */
  lemma EvictionShows(p: Policy, delay: real)
    requires p.rate > 0.0 && delay >= 0.0 && !Ample(p, delay)
    ensures exists es :: LegalRun(p, delay, START, es) && Run(p, true, START, es).1 != Run(p, false, START, es).1
  {
    var served := if delay < STALE_AFTER then delay else STALE_AFTER;
    InflowGrows(p, 0.0, 0.0);
    var rest := RoomToEvict(p, STALE_AFTER - served);
    var later := served + rest;
    var es := FirstArrivals(p) + AfterArrivals(p, served, later);
    DrainingIsLegal(p, delay, served, later);
    DrainingDiffers(p, delay, served, later);
  }

  lemma DrainingDiffers(p: Policy, delay: real, served: real, later: real)
    requires p.rate > 0.0 && p.burst > 0 && 0.0 <= served <= delay && served <= STALE_AFTER < later
    requires Inflow(p, later - served) < p.burst as real
    requires LegalRun(p, delay, START, FirstArrivals(p) + AfterArrivals(p, served, later))
    ensures var es := FirstArrivals(p) + AfterArrivals(p, served, later);
            Run(p, true, START, es).1 != Run(p, false, START, es).1
  {
    var a, b := FirstArrivals(p), AfterArrivals(p, served, later);
    var k := Run(p, false, START, a).0;
    FirstPhase(p, true);
    FirstPhase(p, false);
    EvictingAllows(p, served, later);
    LegalConcat(p, delay, START, a, b);
    GoodRun(p, delay, START, a);
    AfterArrivalsWithin(p, served, later);
    WindowSpent(p, delay, k, b, SOMEONE, served, later);
    RunConcat(p, true, START, a, b);
    RunConcat(p, false, START, a, b);
    assert Run(p, true, START, a + b).1 == Run(p, true, Run(p, true, START, a).0, b).1;
    assert Run(p, false, START, a + b).1 == Run(p, false, k, b).1;
  }

  /** Eviction is unobservable in every run exactly when a bucket fills up in three minutes less the delay. */
  lemma EvictionUnobservableIff(p: Policy, delay: real)
    requires p.rate > 0.0 && delay >= 0.0
    ensures p.burst == 0 || p.burst as real <= p.rate * (180.0 - delay) <==>
              forall es :: LegalRun(p, delay, START, es) ==> Run(p, true, START, es).1 == Run(p, false, START, es).1
  {
    if Ample(p, delay) {
      forall es | LegalRun(p, delay, START, es) ensures Run(p, true, START, es).1 == Run(p, false, START, es).1 {
        EvictionUnobservable(p, delay, es);
      }
    } else {
      EvictionShows(p, delay);
    }
  }

  lemma DrainingOverfills(p: Policy, served: real, later: real)
    requires p.rate > 0.0 && p.burst > 0 && 0.0 <= served <= STALE_AFTER < later
    requires Inflow(p, later - served) < p.burst as real
    ensures !WindowFits(p, FirstArrivals(p), AfterArrivals(p, served, later), SOMEONE, served, later)
  {
    EvictingAllows(p, served, later);
  }

  lemma OverfullWindow(p: Policy, delay: real)
    requires p.rate > 0.0 && delay >= 0.0 && !Ample(p, delay)
    ensures !EveryWindowFits(p, delay)
  {
    var served := if delay < STALE_AFTER then delay else STALE_AFTER;
    InflowGrows(p, 0.0, 0.0);
    var rest := RoomToEvict(p, STALE_AFTER - served);
    var later := served + rest;
    var before, window := FirstArrivals(p), AfterArrivals(p, served, later);
    DrainingIsLegal(p, delay, served, later);
    DrainingOverfills(p, served, later);
    AfterArrivalsWithin(p, served, later);
    assert !WindowFits(p, before, window, SOMEONE, served, later);
  }

  /**
   In every window of every run an address is allowed at most its bucket plus what flows in meanwhile,
   exactly when a bucket fills up in three minutes less the delay.
   */
  lemma WindowBoundIff(p: Policy, delay: real)
    requires p.rate > 0.0 && delay >= 0.0
    ensures EveryWindowFits(p, delay) <==> p.burst == 0 || p.burst as real <= p.rate * (180.0 - delay)
  {
    if Ample(p, delay) {
      forall before, window, ip, t0, t1 | LegalRun(p, delay, START, before + window) && Within(window, t0, t1) &&
        t0 <= t1
        ensures WindowFits(p, before, window, ip, t0, t1)
      {
        WindowBound(p, delay, before, window, ip, t0, t1);
      }
    } else {
      OverfullWindow(p, delay);
    }
  }
}
