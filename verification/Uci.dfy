/**
 One UCI configuration file: named sections in file order. Setting a new section appends it,
 deleting a missing section changes nothing.
 */
module Uci {
  import opened Sequences

  datatype Config<S> = Config(order: seq<string>, secs: map<string, S>) {

    ghost predicate Valid() {
      NoDup(order) && forall id :: id in order <==> id in secs
    }

    function Set(id: string, s: S): Config<S> {
      if id in secs then this.(secs := secs[id := s]) else Config(order + [id], secs[id := s])
    }

    function Delete(id: string): Config<S> {
      Config(Without(order, id), secs - {id})
    }

    /** The sections of one type, in file order. */
    function Ids(p: S -> bool): seq<string> {
      Select(p, order, secs)
    }
  }

  function Select<S>(p: S -> bool, order: seq<string>, secs: map<string, S>): (r: seq<string>)
    ensures forall id :: id in r <==> id in order && id in secs && p(secs[id])
  {
    if order == [] then []
    else
      var init, last := order[..|order| - 1], order[|order| - 1];
      assert order == init + [last];
      Select(p, init, secs) + if last in secs && p(secs[last]) then [last] else []
  }

  lemma SetValid<S>(c: Config<S>, id: string, s: S)
    requires c.Valid()
    ensures c.Set(id, s).Valid()
  {
  }

  lemma DeleteValid<S>(c: Config<S>, id: string)
    requires c.Valid()
    ensures c.Delete(id).Valid()
  {
    WithoutNoDup(c.order, id);
  }

  lemma {:induction false} SelectNoDup<S>(p: S -> bool, order: seq<string>, secs: map<string, S>)
    requires NoDup(order)
    ensures NoDup(Select(p, order, secs))
  {
    if order != [] {
      SelectNoDup(p, order[..|order| - 1], secs);
    }
  }

  lemma SelectStep<S>(p: S -> bool, order: seq<string>, secs: map<string, S>, n: nat)
    requires n < |order|
    ensures Select(p, order[..n + 1], secs) ==
              Select(p, order[..n], secs) + if order[n] in secs && p(secs[order[n]]) then [order[n]] else []
  {
    assert order[..n + 1][..n] == order[..n];
  }

  lemma {:induction false} SelectCongruent<S>(p: S -> bool, order: seq<string>, secs: map<string, S>,
    secs': map<string, S>)
    requires forall id :: id in order ==> (id in secs && p(secs[id]) <==> id in secs' && p(secs'[id]))
    ensures Select(p, order, secs) == Select(p, order, secs')
  {
    if order != [] {
      SelectCongruent(p, order[..|order| - 1], secs, secs');
    }
  }

  lemma {:induction false} SelectWithout<S>(p: S -> bool, order: seq<string>, secs: map<string, S>, x: string)
    ensures Select(p, Without(order, x), secs - {x}) == Without(Select(p, order, secs), x)
  {
    if order != [] {
      var init, last := order[..|order| - 1], order[|order| - 1];
      assert order == init + [last];
      SelectWithout(p, init, secs, x);
      WithoutSnoc(init, last, x);
      SelectSnoc(p, init, last, secs);
      var r := Select(p, init, secs);
      if last in secs && p(secs[last]) {
        WithoutSnoc(r, last, x);
      } else {
        assert r + [] == r;
      }
      if last != x {
        SelectSnoc(p, Without(init, x), last, secs - {x});
      } else {
        assert Without(init, x) + [] == Without(init, x);
      }
    }
  }

  /** Overwriting a section without changing its type keeps the listing. */
  lemma IdsSetSame<S>(c: Config<S>, p: S -> bool, id: string, s: S)
    requires id in c.secs && p(c.secs[id]) == p(s)
    ensures c.Set(id, s).Ids(p) == c.Ids(p)
  {
    SelectCongruent(p, c.order, c.secs, c.secs[id := s]);
  }

  /** A new section is listed last. */
  lemma IdsSetNew<S>(c: Config<S>, p: S -> bool, id: string, s: S)
    requires c.Valid() && id !in c.secs
    ensures c.Set(id, s).Ids(p) == c.Ids(p) + if p(s) then [id] else []
  {
    assert (c.order + [id])[..|c.order|] == c.order;
    SelectCongruent(p, c.order, c.secs, c.secs[id := s]);
  }

  lemma IdsDelete<S>(c: Config<S>, p: S -> bool, id: string)
    ensures c.Delete(id).Ids(p) == Without(c.Ids(p), id)
  {
    SelectWithout(p, c.order, c.secs, id);
  }

  lemma {:induction false} SelectConcat<S>(p: S -> bool, a: seq<string>, b: seq<string>, secs: map<string, S>)
    ensures Select(p, a + b, secs) == Select(p, a, secs) + Select(p, b, secs)
  {
    if b == [] {
      assert a + b == a;
    } else {
      var init, last := b[..|b| - 1], b[|b| - 1];
      assert (a + b)[..|a + b| - 1] == a + init && (a + b)[|a + b| - 1] == last;
      SelectConcat(p, a, init, secs);
    }
  }

  lemma {:induction false} SelectAll<S>(p: S -> bool, a: seq<string>, secs: map<string, S>)
    requires forall id :: id in a ==> id in secs && p(secs[id])
    ensures Select(p, a, secs) == a
  {
    if a != [] {
      assert a == a[..|a| - 1] + [a[|a| - 1]];
      SelectAll(p, a[..|a| - 1], secs);
    }
  }

  lemma SelectNone<S>(p: S -> bool, a: seq<string>, secs: map<string, S>)
    requires forall id :: id in a ==> id in secs && !p(secs[id])
    ensures Select(p, a, secs) == []
  {
    EmptyIfNoMember(Select(p, a, secs));
  }

  lemma SelectSnoc<S>(p: S -> bool, ids: seq<string>, id: string, secs: map<string, S>)
    ensures Select(p, ids + [id], secs) == Select(p, ids, secs) + if id in secs && p(secs[id]) then [id] else []
  {
    assert (ids + [id])[..|ids|] == ids;
  }

  /** Listing within a listing, over sections that have not changed where it matters. */
  lemma {:induction false} SelectWithin<S(!new)>(p: S -> bool, q: S -> bool, order: seq<string>,
    secs: map<string, S>, later: map<string, S>)
    requires forall e :: p(e) ==> q(e)
    requires forall id :: id in order && id in secs && q(secs[id]) ==> id in later && later[id] == secs[id]
    ensures Select(p, Select(q, order, secs), later) == Select(p, order, secs)
  {
    if order != [] {
      var init, last := order[..|order| - 1], order[|order| - 1];
      assert order == init + [last];
      SelectWithin(p, q, init, secs, later);
      var r := Select(q, init, secs);
      SelectSnoc(q, init, last, secs);
      SelectSnoc(p, init, last, secs);
      if last in secs && q(secs[last]) {
        SelectSnoc(p, r, last, later);
      } else {
        assert r + [] == r && Select(p, init, secs) + [] == Select(p, init, secs);
      }
    }
  }

  lemma {:induction false} SelectSame<S(!new)>(p: S -> bool, q: S -> bool, order: seq<string>, secs: map<string, S>)
    requires forall e :: p(e) == q(e)
    ensures Select(p, order, secs) == Select(q, order, secs)
  {
    if order != [] {
      SelectSame(p, q, order[..|order| - 1], secs);
    }
  }

  /** The next section joins a listing or not. */
  function Joined(ids: seq<string>, joins: bool, id: string): seq<string> {
    if joins then ids + [id] else ids
  }

  lemma JoinedNext<S>(p: S -> bool, order: seq<string>, secs: map<string, S>, i: nat)
    requires i < |order| && order[i] in secs
    ensures Select(p, order[..i + 1], secs) == Joined(Select(p, order[..i], secs), p(secs[order[i]]), order[i])
  {
    SelectStep(p, order, secs, i);
  }
}
