/**
 What the limiter promises its clients, in terms of arrivals, decisions and times alone: a request is
 allowed exactly when no window up to it would hold more than the burst and what the rate lets in.
 */
module RateLimitLaws {
  import opened RateLimit
  import opened Sequences

  /** The addresses of the requests, in order of arrival. */
  function Callers(es: seq<Event>): seq<string> {
    if es == [] then []
    else Callers(es[..|es| - 1]) + match es[|es| - 1].step case Arrive(ip) => [ip] case _ => []
  }

  /** What the decisions since the i-th leave of the burst and the inflow, by a time. */
  function LeftOf(p: Policy, ds: seq<Decision>, ip: string, i: nat, t: real): real
    requires i < |ds|
  {
    p.burst as real + p.rate * (t - ds[i].at) - Spent(ds[i..], ip)
  }

  /** Counting one more request, every window that starts at an earlier decision fits. */
  ghost predicate Affordable(p: Policy, ds: seq<Decision>, ip: string, t: real) {
    && p.burst >= 1
    && forall i: nat :: i < |ds| ==> 1.0 <= LeftOf(p, ds, ip, i, t)
  }

  function Min(a: real, b: real): real {
    if a <= b then a else b
  }

  /** The least that any window up to a time leaves, and at most the burst. */
  function Least(p: Policy, ds: seq<Decision>, ip: string, t: real): real {
    if ds == [] then p.burst as real else Min(LeftOf(p, ds, ip, 0, t), Least(p, ds[1..], ip, t))
  }

  lemma {:induction false} LeastIsSome(p: Policy, ds: seq<Decision>, ip: string, t: real, x: real)
    ensures Least(p, ds, ip, t) >= x
      <==> x <= p.burst as real && forall i: nat :: i < |ds| ==> x <= LeftOf(p, ds, ip, i, t)
  {
    if ds != [] {
      LeastIsSome(p, ds[1..], ip, t, x);
      forall i: nat | i < |ds[1..]| ensures LeftOf(p, ds[1..], ip, i, t) == LeftOf(p, ds, ip, i + 1, t) {
        assert ds[1..][i..] == ds[i + 1..];
      }
      forall i: nat | 0 < i < |ds| ensures LeftOf(p, ds, ip, i, t) == LeftOf(p, ds[1..], ip, i - 1, t) {
        assert ds[1..][i - 1..] == ds[i..];
      }
    }
  }

  /** What is left grows with the rate, up to the burst. */
  lemma {:induction false} LeastLater(p: Policy, ds: seq<Decision>, ip: string, now: real, t: real)
    requires p.rate > 0.0 && now <= t
    ensures Least(p, ds, ip, t) == Refill(p, Least(p, ds, ip, now), t - now)
    ensures Least(p, ds, ip, now) <= p.burst as real
  {
    InflowGrows(p, 0.0, t - now);
    if ds != [] {
      LeastLater(p, ds[1..], ip, now, t);
      InflowAdds(p, now - ds[0].at, t - now);
      assert (now - ds[0].at) + (t - now) == t - ds[0].at;
    }
  }

  lemma SpentOne(d: Decision, ip: string)
    ensures Spent([d], ip) == if d.ip == ip && d.allowed then 1.0 else 0.0
  {
    assert [d][1..] == [];
  }

  /** A window that has just begun leaves the burst, less what it spent. */
  lemma LeftAtOnce(p: Policy, d: Decision, ip: string)
    ensures LeftOf(p, [d], ip, 0, d.at) == p.burst as real - Spent([d], ip)
  {
    assert [d][0..] == [d];
  }

  lemma LeftSnoc(p: Policy, ds: seq<Decision>, d: Decision, ip: string, t: real)
    requires ds != []
    ensures LeftOf(p, ds + [d], ip, 0, t) == LeftOf(p, ds, ip, 0, t) - Spent([d], ip)
  {
    assert (ds + [d])[0..] == ds + [d] && ds[0..] == ds && (ds + [d])[0] == ds[0];
    SpentConcat(ds, [d], ip);
  }

  /** One more decision takes its cost out of every window. */
  lemma {:induction false} LeastSnoc(p: Policy, ds: seq<Decision>, d: Decision, ip: string)
    ensures Least(p, ds + [d], ip, d.at) == Least(p, ds, ip, d.at) - Spent([d], ip)
  {
    SpentOne(d, ip);
    if ds == [] {
      assert ds + [d] == [d] && [d][1..] == [];
      LeftAtOnce(p, d, ip);
      assert Least(p, [], ip, d.at) == p.burst as real;
    } else {
      assert (ds + [d])[1..] == ds[1..] + [d];
      LeftSnoc(p, ds, d, ip, d.at);
      LeastSnoc(p, ds[1..], d, ip);
    }
  }

  /** An address has the tokens that its windows leave. */
  ghost predicate Accounted(p: Policy, s: State, ds: seq<Decision>)
    requires Valid(s)
  {
    forall ip :: Tokens(p, s, ip, s.now) == Least(p, ds, ip, s.now)
  }

  lemma AppliedAt(p: Policy, delay: real, s: State, e: Event)
    requires Valid(s) && Legal(delay, s, e)
    ensures Apply(p, false, s, e).0.now == e.at
    ensures var out := Apply(p, false, s, e).1; |out| <= 1 && (out != [] ==> out[0].at == e.at)
  {
  }

  lemma LeastAfter(p: Policy, ds: seq<Decision>, out: seq<Decision>, ip: string, t: real)
    requires |out| <= 1 && (out != [] ==> out[0].at == t)
    ensures Least(p, ds + out, ip, t) == Least(p, ds, ip, t) - Spent(out, ip)
  {
    if out == [] {
      assert ds + out == ds;
    } else {
      assert out == [out[0]];
      LeastSnoc(p, ds, out[0], ip);
    }
  }

  /** Every event keeps the account. */
  lemma AccountedStep(p: Policy, delay: real, s: State, ds: seq<Decision>, e: Event)
    requires p.rate > 0.0 && delay >= 0.0 && Good(p, delay, s) && Legal(delay, s, e) && Accounted(p, s, ds)
    ensures Accounted(p, Apply(p, false, s, e).0, ds + Apply(p, false, s, e).1)
  {
    var (n, out) := Apply(p, false, s, e);
    AppliedAt(p, delay, s, e);
    forall ip ensures Tokens(p, n, ip, e.at) == Least(p, ds + out, ip, e.at) {
      TokensStep(p, delay, false, s, e, ip);
      TokensLater(p, delay, s, ip, e.at);
      LeastLater(p, ds, ip, s.now, e.at);
      LeastAfter(p, ds, out, ip, e.at);
    }
  }

  lemma {:induction false} AccountedRun(p: Policy, delay: real, es: seq<Event>)
    requires p.rate > 0.0 && delay >= 0.0 && LegalRun(p, delay, START, es)
    ensures var r := Run(p, false, START, es); Good(p, delay, r.0) && Accounted(p, r.0, r.1)
  {
    if es != [] {
      var init, e := es[..|es| - 1], es[|es| - 1];
      assert es == init + [e];
      LegalConcat(p, delay, START, init, [e]);
      RunConcat(p, false, START, init, [e]);
      AccountedRun(p, delay, init);
      var (s, ds) := Run(p, false, START, init);
      RunOne(p, delay, false, s, e);
      AccountedStep(p, delay, s, ds, e);
      GoodStep(p, delay, false, s, e);
    }
  }

  lemma RunOne(p: Policy, delay: real, evicting: bool, s: State, e: Event)
    requires Valid(s)
    ensures Run(p, evicting, s, [e]) == Apply(p, evicting, s, e)
    ensures LegalRun(p, delay, s, [e]) <==> Legal(delay, s, e)
  {
    var r := Apply(p, evicting, s, e);
    assert [e][1..] == [] && Run(p, evicting, r.0, []) == (r.0, []);
    assert r.1 + [] == r.1;
  }

  /** The requests of a run are its arrivals, with or without eviction. */
  lemma {:induction false} RequestsOfRun(p: Policy, evicting: bool, es: seq<Event>)
    ensures var s := Run(p, evicting, START, es).0;
      && |s.requests| == |Callers(es)|
      && forall r :: 0 <= r < |s.requests| ==> s.requests[r].ip == Callers(es)[r]
  {
    if es != [] {
      var init, e := es[..|es| - 1], es[|es| - 1];
      assert es == init + [e];
      RunConcat(p, evicting, START, init, [e]);
      RequestsOfRun(p, evicting, init);
      RunOne(p, 0.0, evicting, Run(p, evicting, START, init).0, e);
    }
  }

  /**
   After any run, with eviction, the next decision is for the caller of its request, and allows it exactly
   when no window up to now would hold more than the burst and what the rate lets in.
   */
  lemma DecisionIff(p: Policy, delay: real, before: seq<Event>, r: nat, t: real)
    requires p.rate > 0.0 && delay >= 0.0 && (p.burst == 0 || p.burst as real <= p.rate * (180.0 - delay))
    requires LegalRun(p, delay, START, before + [Event(t, Decide(r))])
    ensures r < |Callers(before)|
    ensures var ds, ip := Run(p, true, START, before).1, Callers(before)[r];
      Run(p, true, START, before + [Event(t, Decide(r))]).1 == ds + [Decision(t, ip, Affordable(p, ds, ip, t))]
  {
    var e := Event(t, Decide(r));
    var (s, ds) := Run(p, false, START, before);
    LegalConcat(p, delay, START, before, [e]);
    RunConcat(p, false, START, before, [e]);
    RunOne(p, delay, false, s, e);
    RequestsOfRun(p, false, before);
    AccountedRun(p, delay, before);
    DecisionStep(p, delay, s, r, t);
    var ip := s.requests[r].ip;
    TokensLater(p, delay, s, ip, t);
    LeastLater(p, ds, ip, s.now, t);
    LeastIsSome(p, ds, ip, t, 1.0);
    assert Decided(p, s, r, t).1 <==> Affordable(p, ds, ip, t);
    EvictionUnobservable(p, delay, before);
    EvictionUnobservable(p, delay, before + [e]);
  }

  /** A request that has been decided is not decided again. */
  lemma {:induction false} ClosedStays(p: Policy, delay: real, s: State, es: seq<Event>, r: nat)
    requires Valid(s) && LegalRun(p, delay, s, es) && r < |s.requests| && !s.requests[r].open
    ensures forall j :: 0 <= j < |es| ==> es[j].step != Decide(r)
    decreases es
  {
    if es != [] {
      var next := Apply(p, false, s, es[0]).0;
      assert r < |next.requests| && !next.requests[r].open;
      ClosedStays(p, delay, next, es[1..], r);
      forall j | 0 < j < |es| ensures es[j].step != Decide(r) {
        assert es[j] == es[1..][j - 1];
      }
    }
  }

  /** In a run every request is decided at most once. */
  lemma {:induction false} AskedOnce(p: Policy, delay: real, s: State, es: seq<Event>, i: nat, j: nat, r: nat)
    requires Valid(s) && LegalRun(p, delay, s, es) && i < j < |es| && es[i].step == Decide(r)
    ensures es[j].step != Decide(r)
    decreases es
  {
    var next, rest := Apply(p, false, s, es[0]).0, es[1..];
    assert es[j] == rest[j - 1];
    if i == 0 {
      ClosedStays(p, delay, next, rest, r);
    } else {
      assert es[i] == rest[i - 1];
      AskedOnce(p, delay, next, rest, i - 1, j - 1, r);
    }
  }
}
