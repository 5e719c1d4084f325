/** The limiter as the program keeps it: a map of visitors under a lock, and shared token buckets. */
module RateLimiter {
  import opened RateLimit

  /** A token bucket, shared between the visitor map and the requests in flight. */
  class Limiter {
    const policy: Policy
    var tokens: real
    var last: real

    constructor (policy: Policy)
      ensures this.policy == policy && Value() == NewBucket(policy)
    {
      this.policy := policy;
      tokens, last := policy.burst as real, 0.0;
    }

    ghost function Value(): Bucket
      reads this
    {
      Bucket(tokens, last)
    }

    method Ask(now: real) returns (allowed: bool)
      modifies this
      ensures (Value(), allowed) == Allow(policy, old(Value()), now)
    {
      var before := if now < last then now else last;
      var available := tokens + Inflow(policy, now - before);
      if available > policy.burst as real {
        available := policy.burst as real;
      }
      available := available - 1.0;
      allowed := 1 <= policy.burst && available >= 0.0;
      if allowed {
        tokens, last := available, now;
      }
    }
  }

  ghost predicate Distinct(limiters: seq<Limiter>) {
    forall i, j :: 0 <= i < j < |limiters| ==> limiters[i] != limiters[j]
  }

  lemma DistinctSnoc(limiters: seq<Limiter>, limiter: Limiter)
    requires Distinct(limiters) && limiter !in limiters
    ensures Distinct(limiters + [limiter])
  {
  }

  datatype Entry = Entry(limiter: Limiter, lastSeen: real)

  class RateLimiter {
    const policy: Policy
    var visitors: map<string, Entry>
    /** Every limiter ever created, in order, and the state they stand for. */
    ghost var issued: seq<Limiter>
    ghost var model: State

    ghost predicate Valid()
      reads this, issued
    {
      && RateLimit.Valid(model) && |model.limiters| == |issued|
      && Distinct(issued)
      && (forall i :: 0 <= i < |issued| ==> issued[i].policy == policy && issued[i].Value() == model.limiters[i])
      && (forall ip :: ip in visitors <==> ip in model.visitors)
      && forall ip :: ip in visitors ==> Stands(visitors[ip], model.visitors[ip])
    }

    ghost predicate Stands(e: Entry, v: Visitor)
      reads this
    {
      v.limiter < |issued| && e.limiter == issued[v.limiter] && e.lastSeen == v.lastSeen
    }

    constructor (policy: Policy)
      ensures Valid() && this.policy == policy && model == START
    {
      this.policy := policy;
      visitors, issued, model := map[], [], START;
    }

    /** Under the lock: find or create the visitor's limiter and note the time. */
    method Arrive(ip: string, now: real) returns (limiter: Limiter)
      requires Valid()
      modifies this
      ensures Valid() && model == Arrived(policy, old(model), ip, now)
      ensures old(issued) <= issued && limiter == issued[model.requests[|old(model).requests|].limiter]
    {
      if ip in visitors {
        limiter := visitors[ip].limiter;
      } else {
        limiter := new Limiter(policy);
        DistinctSnoc(issued, limiter);
        issued := issued + [limiter];
      }
      visitors := visitors[ip := Entry(limiter, now)];
      model := Arrived(policy, model, ip, now);
    }

    /** Outside the lock: the request asks the limiter it was given. */
    method Decide(ghost request: nat, limiter: Limiter, now: real) returns (allowed: bool)
      requires Valid() && request < |model.requests| && limiter == issued[model.requests[request].limiter]
      modifies `model, limiter
      ensures Valid() && issued == old(issued)
      ensures (model, allowed) == Decided(policy, old(model), request, now)
    {
      DecidedFrame(policy, model, request, now);
      allowed := limiter.Ask(now);
      model := Decided(policy, model, request, now).0;
    }

    /** Under the lock: delete every visitor not seen for more than three minutes. */
    method Cleanup(now: real)
      requires Valid()
      modifies `visitors, `model
      ensures Valid() && model == Cleaned(old(model), now)
      ensures forall ip :: ip in visitors <==> ip in old(visitors) && now - old(visitors)[ip].lastSeen <= 180.0
      ensures forall ip :: ip in visitors ==> visitors[ip] == old(visitors)[ip]
    {
      var kept := KeepFresh(visitors, now);
      CleanedVisitors(model, now);
      visitors, model := kept, Cleaned(model, now);
    }
  }

  lemma DecidedFrame(p: Policy, s: State, request: nat, now: real)
    requires RateLimit.Valid(s) && request < |s.requests|
    ensures var (next, allowed) := Decided(p, s, request, now);
            var k := s.requests[request].limiter;
            && RateLimit.Valid(next) && next.visitors == s.visitors
            && next.limiters == s.limiters[k := Allow(p, s.limiters[k], now).0] &&
              allowed == Allow(p, s.limiters[k], now).1
  {
  }

  lemma CleanedVisitors(s: State, now: real)
    requires RateLimit.Valid(s)
    ensures RateLimit.Valid(Cleaned(s, now)) && Cleaned(s, now).limiters == s.limiters
    ensures forall ip :: ip in Cleaned(s, now).visitors <==> ip in s.visitors && !Stale(s.visitors[ip], now)
    ensures forall ip :: ip in Cleaned(s, now).visitors ==> Cleaned(s, now).visitors[ip] == s.visitors[ip]
  {
  }

  method KeepFresh(seen: map<string, Entry>, now: real) returns (kept: map<string, Entry>)
    ensures forall ip :: ip in kept <==> ip in seen && !(now - seen[ip].lastSeen > STALE_AFTER)
    ensures forall ip :: ip in kept ==> kept[ip] == seen[ip]
  {
    kept := seen;
    var todo := seen.Keys;
    while todo != {}
      invariant todo <= seen.Keys
      invariant forall ip :: ip in kept <==> ip in seen && (ip in todo || !(now - seen[ip].lastSeen > STALE_AFTER))
      invariant forall ip :: ip in kept ==> kept[ip] == seen[ip]
      decreases |todo|
    {
      var ip :| ip in todo;
      if now - kept[ip].lastSeen > STALE_AFTER {
        kept := kept - {ip};
      }
      todo := todo - {ip};
    }
  }
}
