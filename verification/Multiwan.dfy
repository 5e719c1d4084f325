/** The cascade from a removed network interface through members, policies and rules. */
module Multiwan {
  import opened Sequences
  import opened Uci
  import opened Wrappers

  datatype Entry =
    | Interface
    | Member(interface: Option<string>)
    | Policy(useMember: seq<string>)
    | Rule(usePolicy: seq<string>)
    | Other

  type Mwan = Config<Entry>

  predicate MemberOf(c: Mwan, id: string, x: string) {
    id in c.secs && c.secs[id] == Member(Some(x))
  }

  /** The list without the first occurrence of x. */
  function RemoveFirst(s: seq<string>, x: string): (r: seq<string>)
    ensures forall y :: y in r ==> y in s
    ensures forall y :: y in s && y != x ==> y in r
  {
    if s == [] then []
    else
      assert s == [s[0]] + s[1..];
      if s[0] == x then s[1..] else [s[0]] + RemoveFirst(s[1..], x)
  }

  function RemoveEach(s: seq<string>, xs: seq<string>): (r: seq<string>)
    ensures forall y :: y in r ==> y in s
    ensures forall y :: y in s && y !in xs ==> y in r
  {
    if xs == [] then s
    else
      assert xs == xs[..|xs| - 1] + [xs[|xs| - 1]];
      RemoveFirst(RemoveEach(s, xs[..|xs| - 1]), xs[|xs| - 1])
  }

  /** The elements that are in no list of removed ones, in order. */
  function Keep(s: seq<string>, kept: set<string>): (r: seq<string>)
    ensures forall y :: y in r <==> y in s && y in kept
  {
    if s == [] then []
    else
      assert s == s[..|s| - 1] + [s[|s| - 1]];
      Keep(s[..|s| - 1], kept) + if s[|s| - 1] in kept then [s[|s| - 1]] else []
  }

  // ----- the cascade

  function IsMemberOf(x: string): Entry -> bool {
    (e: Entry) => e == Member(Some(x))
  }

  function IsPolicy(): Entry -> bool {
    (e: Entry) => e.Policy?
  }

  /** The members of an interface in file order. */
  function MembersOf(c: Mwan, x: string): seq<string> {
    c.Ids(IsMemberOf(x))
  }

  predicate PolicyGone(c: Mwan, x: string, id: string) {
    id in c.secs && c.secs[id].Policy? && RemoveEach(c.secs[id].useMember, MembersOf(c, x)) == []
  }

  function IsGone(c: Mwan, x: string): Entry -> bool {
    (e: Entry) => e.Policy? && RemoveEach(e.useMember, MembersOf(c, x)) == []
  }

  function PoliciesGone(c: Mwan, x: string): seq<string> {
    c.Ids(IsGone(c, x))
  }

  predicate Survives(c: Mwan, x: string, id: string) {
    && id in c.secs && id != x
    && match c.secs[id]
       case Member(_) => !MemberOf(c, id, x)
       case Policy(ms) => RemoveEach(ms, MembersOf(c, x)) != []
       case Rule(ps) => RemoveEach(ps, PoliciesGone(c, x)) != []
       case _ => true
  }

  function Rewritten(c: Mwan, x: string, e: Entry): Entry {
    match e
    case Policy(ms) => Policy(RemoveEach(ms, MembersOf(c, x)))
    case _ => e
  }

  /** The configuration after one interface was removed. */
  function Cascade(c: Mwan, x: string): Mwan {
    var secs := map id | id in c.secs && Survives(c, x, id) :: Rewritten(c, x, c.secs[id]);
    Config(Keep(c.order, secs.Keys), secs)
  }

  // ----- references

  ghost predicate MembersResolve(c: Mwan) {
    forall id :: id in c.secs && c.secs[id].Member? && c.secs[id].interface.Some? ==>
      c.secs[id].interface.value in c.secs && c.secs[c.secs[id].interface.value].Interface?
  }

  ghost predicate PoliciesResolve(c: Mwan) {
    forall id, m :: id in c.secs && c.secs[id].Policy? && m in c.secs[id].useMember ==> m in c.secs && c.secs[m].Member?
  }

  ghost predicate RulesResolve(c: Mwan) {
    forall id, p :: id in c.secs && c.secs[id].Rule? && p in c.secs[id].usePolicy ==> p in c.secs && c.secs[p].Policy?
  }

  ghost predicate NoDangling(c: Mwan) {
    MembersResolve(c) && PoliciesResolve(c) && RulesResolve(c)
  }

  // ----- removing from a list

  lemma {:induction false} RemoveFirstOfNoDup(s: seq<string>, x: string)
    requires NoDup(s)
    ensures RemoveFirst(s, x) == Without(s, x)
  {
    if s != [] {
      WithoutCons(s[0], s[1..], x);
      assert s == [s[0]] + s[1..];
      if s[0] == x {
        WithoutAbsent(s[1..], x);
      } else {
        RemoveFirstOfNoDup(s[1..], x);
      }
    }
  }

  ghost function Others(s: seq<string>, xs: seq<string>): set<string> {
    set y | y in s && y !in xs
  }

  lemma WithoutCons(y: string, s: seq<string>, x: string)
    ensures Without([y] + s, x) == (if y != x then [y] else []) + Without(s, x)
  {
    WithoutConcat([y], s, x);
    assert [y][..0] == [];
  }

  /** For a list without repetition every listed element goes and the others keep their order. */
  lemma {:induction false} RemoveEachOfNoDup(s: seq<string>, xs: seq<string>)
    requires NoDup(s)
    ensures RemoveEach(s, xs) == Keep(s, Others(s, xs))
    ensures NoDup(RemoveEach(s, xs))
  {
    if xs == [] {
      KeepAll(s, Others(s, xs));
    } else {
      var init, last := xs[..|xs| - 1], xs[|xs| - 1];
      assert xs == init + [last];
      RemoveEachOfNoDup(s, init);
      RemoveFirstOfNoDup(RemoveEach(s, init), last);
      WithoutNoDup(RemoveEach(s, init), last);
      KeepWithout(s, Others(s, init), last);
      assert Others(s, init) - {last} == Others(s, xs);
    }
  }

  lemma {:induction false} KeepAll(s: seq<string>, kept: set<string>)
    requires forall y :: y in s ==> y in kept
    ensures Keep(s, kept) == s
  {
    if s != [] {
      assert s == s[..|s| - 1] + [s[|s| - 1]];
      KeepAll(s[..|s| - 1], kept);
    }
  }

  lemma {:induction false} KeepWithout(s: seq<string>, kept: set<string>, x: string)
    ensures Without(Keep(s, kept), x) == Keep(s, kept - {x})
  {
    if s != [] {
      var init, last := s[..|s| - 1], s[|s| - 1];
      KeepWithout(init, kept, x);
      assert Keep(init, kept) + [] == Keep(init, kept) && Keep(init, kept - {x}) + [] == Keep(init, kept - {x});
      if last in kept {
        WithoutSnoc(Keep(init, kept), last, x);
        assert Without(Keep(init, kept), x) + [] == Without(Keep(init, kept), x);
      }
    }
  }

  /** How often an element is listed. */
  function Count(s: seq<string>, x: string): nat {
    multiset(s)[x]
  }

  lemma {:induction false} RemoveFirstCount(s: seq<string>, x: string)
    ensures multiset(RemoveFirst(s, x)) == multiset(s) - multiset{x}
  {
    if s != [] {
      assert s == [s[0]] + s[1..];
      if s[0] != x {
        RemoveFirstCount(s[1..], x);
        assert multiset([s[0]] + RemoveFirst(s[1..], x)) == multiset{s[0]} + multiset(RemoveFirst(s[1..], x));
      }
    }
  }

  lemma {:induction false} RemoveEachCount(s: seq<string>, xs: seq<string>)
    ensures multiset(RemoveEach(s, xs)) == multiset(s) - multiset(xs)
  {
    if xs != [] {
      var init, last := xs[..|xs| - 1], xs[|xs| - 1];
      assert xs == init + [last];
      RemoveEachCount(s, init);
      RemoveFirstCount(RemoveEach(s, init), last);
    }
  }

  /** Removing different elements leaves one of them exactly if the list repeats it. */
  lemma LeftOver(s: seq<string>, xs: seq<string>, x: string)
    requires NoDup(xs) && x in xs
    ensures x in RemoveEach(s, xs) <==> Count(s, x) >= 2
  {
    RemoveEachCount(s, xs);
    NoDupCount(xs, x);
    assert x in RemoveEach(s, xs) <==> multiset(RemoveEach(s, xs))[x] > 0;
  }

  lemma {:induction false} NoDupCount(s: seq<string>, x: string)
    requires NoDup(s) && x in s
    ensures multiset(s)[x] == 1
  {
    var init, last := s[..|s| - 1], s[|s| - 1];
    assert s == init + [last];
    if last == x {
      assert x !in init;
    } else {
      NoDupCount(init, x);
    }
  }

  // ----- what the cascade leaves

  lemma MembersOfOnce(c: Mwan, x: string)
    requires c.Valid()
    ensures NoDup(MembersOf(c, x)) && forall id :: id in MembersOf(c, x) <==> MemberOf(c, id, x)
  {
    SelectNoDup(IsMemberOf(x), c.order, c.secs);
  }

  lemma PoliciesGoneOnce(c: Mwan, x: string)
    requires c.Valid()
    ensures NoDup(PoliciesGone(c, x)) && forall id :: id in PoliciesGone(c, x) <==> PolicyGone(c, x, id)
  {
    SelectNoDup(IsGone(c, x), c.order, c.secs);
  }

  /** All of a list's elements are among different given ones, none twice. */
  predicate Exhausted(s: seq<string>, xs: seq<string>) {
    forall y :: y in s ==> y in xs && Count(s, y) == 1
  }

  lemma RemoveEachEmpty(s: seq<string>, xs: seq<string>)
    requires NoDup(xs)
    ensures RemoveEach(s, xs) == [] <==> Exhausted(s, xs)
  {
    var r := RemoveEach(s, xs);
    EmptyIfNoMember(r);
    forall y | y in s ensures y in r <==> !(y in xs && Count(s, y) == 1) {
      if y in xs {
        LeftOver(s, xs, y);
        CountPositive(s, y);
      }
    }
  }

  lemma CountPositive(s: seq<string>, y: string)
    requires y in s
    ensures Count(s, y) >= 1
  {
    assert y in multiset(s);
  }

  /** No policy lists a member of the interface twice. */
  ghost predicate SingleUses(c: Mwan, x: string) {
    forall id, m :: id in c.secs && c.secs[id].Policy? && MemberOf(c, m, x) ==> Count(c.secs[id].useMember, m) <= 1
  }

  /** A policy loses all its members. */
  predicate Doomed(c: Mwan, x: string, id: string) {
    id in c.secs && c.secs[id].Policy? && Exhausted(c.secs[id].useMember, MembersOf(c, x))
  }

  /** Every rule uses no doomed policy, or nothing but doomed ones, each once. */
  ghost predicate PureRules(c: Mwan, x: string) {
    forall id :: id in c.secs && c.secs[id].Rule? ==>
      || (forall p :: p in c.secs[id].usePolicy ==> !Doomed(c, x, p))
      || (forall p :: p in c.secs[id].usePolicy ==> Doomed(c, x, p) && Count(c.secs[id].usePolicy, p) == 1)
  }

  lemma DoomedIsGone(c: Mwan, x: string, id: string)
    requires c.Valid()
    ensures Doomed(c, x, id) <==> PolicyGone(c, x, id)
    ensures Doomed(c, x, id) <==> id in PoliciesGone(c, x)
  {
    MembersOfOnce(c, x);
    PoliciesGoneOnce(c, x);
    if id in c.secs && c.secs[id].Policy? {
      RemoveEachEmpty(c.secs[id].useMember, MembersOf(c, x));
    }
  }

  /** What became of members, policies and rules, one by one. */
  ghost predicate Cascaded(c: Mwan, x: string, d: Mwan) {
    && (forall id :: id in d.secs ==> id in c.secs && SameKind(c.secs[id], d.secs[id]))
    && (forall id :: id in c.secs && c.secs[id].Interface? ==> (id in d.secs <==> id != x))
    && (forall id :: id in c.secs && c.secs[id].Member? ==> (id in d.secs <==> !MemberOf(c, id, x)))
    && (forall id :: id in c.secs && c.secs[id].Policy? ==> (id in d.secs <==> !Doomed(c, x, id)))
    && (forall id :: id in c.secs && c.secs[id].Rule? ==> (id in d.secs <==> !RuleDoomed(c, x, id)))
    && (forall id :: id in d.secs && !d.secs[id].Policy? ==> d.secs[id] == c.secs[id])
    && (forall id :: id in d.secs && d.secs[id].Policy? ==>
          forall m :: m in d.secs[id].useMember <==>
            m in c.secs[id].useMember && !(MemberOf(c, m, x) && Count(c.secs[id].useMember, m) == 1))
  }

  predicate SameKind(e: Entry, f: Entry) {
    (e.Member? == f.Member?) && (e.Policy? == f.Policy?) && (e.Rule? == f.Rule?) && (e.Interface? == f.Interface?)
  }

  /** A rule uses nothing but doomed policies, each once. */
  predicate RuleDoomed(c: Mwan, x: string, id: string) {
    id in c.secs && c.secs[id].Rule?
    && forall p :: p in c.secs[id].usePolicy ==> Doomed(c, x, p) && Count(c.secs[id].usePolicy, p) == 1
  }

  lemma RuleGoes(c: Mwan, x: string, id: string)
    requires c.Valid() && id in c.secs && c.secs[id].Rule?
    ensures RemoveEach(c.secs[id].usePolicy, PoliciesGone(c, x)) == [] <==> RuleDoomed(c, x, id)
  {
    PoliciesGoneOnce(c, x);
    RemoveEachEmpty(c.secs[id].usePolicy, PoliciesGone(c, x));
    forall p ensures Doomed(c, x, p) <==> p in PoliciesGone(c, x) {
      DoomedIsGone(c, x, p);
    }
  }

  lemma PolicyKeeps(c: Mwan, x: string, ms: seq<string>)
    requires c.Valid()
    ensures forall m :: m in RemoveEach(ms, MembersOf(c, x)) <==> m in ms && !(MemberOf(c, m, x) && Count(ms, m) == 1)
  {
    MembersOfOnce(c, x);
    forall m ensures m in RemoveEach(ms, MembersOf(c, x)) <==> m in ms && !(MemberOf(c, m, x) && Count(ms, m) == 1) {
      if m in ms && m in MembersOf(c, x) {
        LeftOver(ms, MembersOf(c, x), m);
        CountPositive(ms, m);
      }
    }
  }

  lemma WhoSurvives(c: Mwan, x: string, id: string)
    requires c.Valid() && x in c.secs && c.secs[x] == Interface && id in c.secs
    ensures c.secs[id].Policy? ==> (Survives(c, x, id) <==> !Doomed(c, x, id))
    ensures c.secs[id].Rule? ==> (Survives(c, x, id) <==> !RuleDoomed(c, x, id))
    ensures c.secs[id].Policy? ==>
              forall m :: m in Rewritten(c, x, c.secs[id]).useMember <==>
                m in c.secs[id].useMember && !(MemberOf(c, m, x) && Count(c.secs[id].useMember, m) == 1)
  {
    if c.secs[id].Policy? {
      DoomedIsGone(c, x, id);
      PolicyKeeps(c, x, c.secs[id].useMember);
    } else if c.secs[id].Rule? {
      RuleGoes(c, x, id);
    }
  }

  lemma CascadeFacts(c: Mwan, x: string)
    requires c.Valid() && x in c.secs && c.secs[x] == Interface
    ensures Cascaded(c, x, Cascade(c, x))
  {
    forall id | id in c.secs
      ensures c.secs[id].Policy? ==> (Survives(c, x, id) <==> !Doomed(c, x, id))
      ensures c.secs[id].Rule? ==> (Survives(c, x, id) <==> !RuleDoomed(c, x, id))
      ensures c.secs[id].Policy? ==>
                forall m :: m in Rewritten(c, x, c.secs[id]).useMember <==>
                  m in c.secs[id].useMember && !(MemberOf(c, m, x) && Count(c.secs[id].useMember, m) == 1)
    {
      WhoSurvives(c, x, id);
    }
  }

  lemma MemberUseStays(c: Mwan, x: string, d: Mwan, id: string, m: string)
    requires PoliciesResolve(c) && Cascaded(c, x, d) && SingleUses(c, x)
    requires id in d.secs && d.secs[id].Policy? && m in d.secs[id].useMember
    ensures m in d.secs && d.secs[m].Member?
  {
    assert id in c.secs && c.secs[id].Policy? && m in c.secs[id].useMember;
    assert m in c.secs && c.secs[m].Member?;
    CountPositive(c.secs[id].useMember, m);
  }

  lemma MemberUseDangles(c: Mwan, x: string, d: Mwan, id: string, m: string)
    requires Cascaded(c, x, d) && id in c.secs && c.secs[id].Policy? && MemberOf(c, m, x) &&
        Count(c.secs[id].useMember, m) > 1
    ensures id in d.secs && d.secs[id].Policy? && m in d.secs[id].useMember && m !in d.secs
  {
    assert m in c.secs[id].useMember;
    assert !Doomed(c, x, id);
  }

  lemma PoliciesStay(c: Mwan, x: string, d: Mwan)
    requires PoliciesResolve(c) && Cascaded(c, x, d) && SingleUses(c, x)
    ensures PoliciesResolve(d)
  {
    forall id, m | id in d.secs && d.secs[id].Policy? && m in d.secs[id].useMember
      ensures m in d.secs && d.secs[m].Member?
    {
      MemberUseStays(c, x, d, id, m);
    }
  }

  lemma PoliciesDangle(c: Mwan, x: string, d: Mwan)
    requires Cascaded(c, x, d) && !SingleUses(c, x)
    ensures !PoliciesResolve(d)
  {
    var id, m := RepeatedUse(c, x);
    MemberUseDangles(c, x, d, id, m);
    DanglingMember(d, id, m);
  }

  lemma RepeatedUse(c: Mwan, x: string) returns (id: string, m: string)
    requires !SingleUses(c, x)
    ensures id in c.secs && c.secs[id].Policy? && MemberOf(c, m, x) && Count(c.secs[id].useMember, m) > 1
  {
    id, m :| id in c.secs && c.secs[id].Policy? && MemberOf(c, m, x) && Count(c.secs[id].useMember, m) > 1;
  }

  /** The remaining policies name remaining members exactly if none listed a lost member twice. */
  lemma PoliciesResolveIff(c: Mwan, x: string, d: Mwan)
    requires PoliciesResolve(c) && Cascaded(c, x, d)
    ensures PoliciesResolve(d) <==> SingleUses(c, x)
  {
    if SingleUses(c, x) {
      PoliciesStay(c, x, d);
    } else {
      PoliciesDangle(c, x, d);
    }
  }

  lemma RuleUseStays(c: Mwan, x: string, d: Mwan, id: string, p: string)
    requires RulesResolve(c) && Cascaded(c, x, d) && PureRules(c, x)
    requires id in d.secs && d.secs[id].Rule? && p in d.secs[id].usePolicy
    ensures p in d.secs && d.secs[p].Policy?
  {
    assert id in c.secs && c.secs[id] == d.secs[id] && !RuleDoomed(c, x, id);
    assert p in c.secs && c.secs[p].Policy?;
    assert !Doomed(c, x, p);
  }

  lemma ImpureRule(c: Mwan, x: string) returns (id: string, p: string)
    requires !PureRules(c, x)
    ensures id in c.secs && c.secs[id].Rule? && !RuleDoomed(c, x, id) && p in c.secs[id].usePolicy && Doomed(c, x, p)
  {
    id :| id in c.secs && c.secs[id].Rule? && !RuleDoomed(c, x, id) &&
      exists p :: p in c.secs[id].usePolicy && Doomed(c, x, p);
    p :| p in c.secs[id].usePolicy && Doomed(c, x, p);
  }

  lemma RulesStay(c: Mwan, x: string, d: Mwan)
    requires RulesResolve(c) && Cascaded(c, x, d) && PureRules(c, x)
    ensures RulesResolve(d)
  {
    forall id, p | id in d.secs && d.secs[id].Rule? && p in d.secs[id].usePolicy
      ensures p in d.secs && d.secs[p].Policy?
    {
      RuleUseStays(c, x, d, id, p);
    }
  }

  lemma RulesDangle(c: Mwan, x: string, d: Mwan)
    requires Cascaded(c, x, d) && !PureRules(c, x)
    ensures !RulesResolve(d)
  {
    var id, p := ImpureRule(c, x);
    ImpureRuleDangles(c, x, d, id, p);
    DanglingPolicy(d, id, p);
  }

  lemma DanglingPolicy(d: Mwan, id: string, p: string)
    requires id in d.secs && d.secs[id].Rule? && p in d.secs[id].usePolicy && p !in d.secs
    ensures !RulesResolve(d)
  {
  }

  lemma DanglingMember(d: Mwan, id: string, m: string)
    requires id in d.secs && d.secs[id].Policy? && m in d.secs[id].useMember && m !in d.secs
    ensures !PoliciesResolve(d)
  {
  }

  /** The remaining rules use remaining policies exactly if no rule mixes doomed and other uses. */
  lemma RulesResolveIff(c: Mwan, x: string, d: Mwan)
    requires RulesResolve(c) && Cascaded(c, x, d)
    ensures RulesResolve(d) <==> PureRules(c, x)
  {
    if PureRules(c, x) {
      RulesStay(c, x, d);
    } else {
      RulesDangle(c, x, d);
    }
  }

  lemma ImpureRuleDangles(c: Mwan, x: string, d: Mwan, id: string, p: string)
    requires Cascaded(c, x, d)
    requires id in c.secs && c.secs[id].Rule? && !RuleDoomed(c, x, id) && p in c.secs[id].usePolicy && Doomed(c, x, p)
    ensures id in d.secs && d.secs[id] == c.secs[id] && p !in d.secs
  {
  }

  lemma MembersStayResolved(c: Mwan, x: string, d: Mwan)
    requires MembersResolve(c) && Cascaded(c, x, d)
    ensures MembersResolve(d)
  {
  }

  /**
   On a configuration without dangling references the cascade leaves none exactly when no policy
   lists a lost member twice and no rule mixes doomed policies with other uses.
   */
  lemma NoDanglingIff(c: Mwan, x: string)
    requires c.Valid() && x in c.secs && c.secs[x] == Interface && NoDangling(c)
    ensures NoDangling(Cascade(c, x)) <==> SingleUses(c, x) && PureRules(c, x)
  {
    var d := Cascade(c, x);
    CascadeFacts(c, x);
    MembersStayResolved(c, x, d);
    PoliciesResolveIff(c, x, d);
    RulesResolveIff(c, x, d);
  }

  /** Policies list their members once, and rules use one policy at most. */
  ghost predicate Simple(c: Mwan) {
    && (forall id :: id in c.secs && c.secs[id].Policy? ==> NoDup(c.secs[id].useMember))
    && (forall id :: id in c.secs && c.secs[id].Rule? ==> |c.secs[id].usePolicy| <= 1)
  }

  lemma {:induction false} NoDupCountAtMost(s: seq<string>, x: string)
    requires NoDup(s)
    ensures Count(s, x) <= 1
  {
    if x in s {
      NoDupCount(s, x);
    }
  }

  lemma SimpleIsClean(c: Mwan, x: string)
    requires Simple(c)
    ensures SingleUses(c, x) && PureRules(c, x)
  {
    forall id, m | id in c.secs && c.secs[id].Policy? && MemberOf(c, m, x) ensures Count(c.secs[id].useMember, m) <= 1 {
      NoDupCountAtMost(c.secs[id].useMember, m);
    }
    forall id | id in c.secs && c.secs[id].Rule?
      ensures (forall p :: p in c.secs[id].usePolicy ==> !Doomed(c, x, p))
           || (forall p :: p in c.secs[id].usePolicy ==> Doomed(c, x, p) && Count(c.secs[id].usePolicy, p) == 1)
    {
      var ps := c.secs[id].usePolicy;
      if ps != [] {
        assert ps == [ps[0]];
      }
    }
  }

  lemma MemberAfter(c: Mwan, x: string, m: string)
    requires x in c.secs && c.secs[x] == Interface && m in c.secs && c.secs[m].Member?
    ensures m in Cascade(c, x).secs <==> !MemberOf(c, m, x)
  {
  }

  lemma SurvivingPolicy(c: Mwan, x: string, id: string)
    requires id in Cascade(c, x).secs && c.secs[id].Policy?
    ensures var ms := RemoveEach(c.secs[id].useMember, MembersOf(c, x));
            Cascade(c, x).secs[id] == Policy(ms) && ms != []
  {
  }

  /** The lost members of a list without repetition go, the others stay in order. */
  lemma KeptMembers(c: Mwan, x: string, ms: seq<string>, left: set<string>)
    requires c.Valid() && NoDup(ms) && forall m :: m in ms ==> (m in left <==> !MemberOf(c, m, x))
    ensures RemoveEach(ms, MembersOf(c, x)) == Keep(ms, left) && NoDup(RemoveEach(ms, MembersOf(c, x)))
  {
    MembersOfOnce(c, x);
    RemoveEachOfNoDup(ms, MembersOf(c, x));
    KeepSame(ms, Others(ms, MembersOf(c, x)), left);
  }

  lemma PolicyAfter(c: Mwan, x: string, id: string)
    requires c.Valid() && x in c.secs && c.secs[x] == Interface && PoliciesResolve(c)
    requires id in Cascade(c, x).secs && c.secs[id].Policy? && NoDup(c.secs[id].useMember)
    ensures var d := Cascade(c, x);
            && d.secs[id].Policy? && d.secs[id].useMember != [] && NoDup(d.secs[id].useMember)
            && d.secs[id].useMember == Keep(c.secs[id].useMember, d.secs.Keys)
  {
    var ms := PolicyMembers(c, id);
    SurvivingPolicy(c, x, id);
    LeftMembers(c, x, ms);
    KeptMembers(c, x, ms, Cascade(c, x).secs.Keys);
  }

  lemma PolicyMembers(c: Mwan, id: string) returns (ms: seq<string>)
    requires PoliciesResolve(c) && id in c.secs && c.secs[id].Policy?
    ensures ms == c.secs[id].useMember && forall m :: m in ms ==> m in c.secs && c.secs[m].Member?
  {
    ms := c.secs[id].useMember;
  }

  lemma LeftMembers(c: Mwan, x: string, ms: seq<string>)
    requires x in c.secs && c.secs[x] == Interface && forall m :: m in ms ==> m in c.secs && c.secs[m].Member?
    ensures forall m :: m in ms ==> (m in Cascade(c, x).secs.Keys <==> !MemberOf(c, m, x))
  {
    forall m | m in ms ensures m in Cascade(c, x).secs.Keys <==> !MemberOf(c, m, x) {
      MemberAfter(c, x, m);
    }
  }

  lemma SimpleAfter(c: Mwan, x: string)
    requires c.Valid() && x in c.secs && c.secs[x] == Interface && PoliciesResolve(c) && Simple(c)
    ensures Simple(Cascade(c, x))
  {
    var d := Cascade(c, x);
    forall id | id in d.secs && d.secs[id].Policy? ensures NoDup(d.secs[id].useMember) {
      PolicyAfter(c, x, id);
    }
  }

  /**
   The documented result: no member of the interface is left, no policy is empty or names a lost
   member, no rule uses a lost policy, nothing dangles, and remaining policies keep their remaining
   members in order.
   */
  lemma CascadeClean(c: Mwan, x: string)
    requires c.Valid() && x in c.secs && c.secs[x] == Interface && NoDangling(c) && Simple(c)
    ensures NoDangling(Cascade(c, x)) && Simple(Cascade(c, x))
    ensures forall id :: !MemberOf(Cascade(c, x), id, x)
    ensures forall id :: id in Cascade(c, x).secs && Cascade(c, x).secs[id].Policy? ==>
              && id in c.secs && c.secs[id].Policy? && Cascade(c, x).secs[id].useMember != []
              && Cascade(c, x).secs[id].useMember == Keep(c.secs[id].useMember, Cascade(c, x).secs.Keys)
  {
    SimpleIsClean(c, x);
    NoDanglingIff(c, x);
    SimpleAfter(c, x);
    var d := Cascade(c, x);
    forall id | id in d.secs && d.secs[id].Policy?
      ensures id in c.secs && c.secs[id].Policy? && d.secs[id].useMember != []
      ensures d.secs[id].useMember == Keep(c.secs[id].useMember, d.secs.Keys)
    {
      PolicyAfter(c, x, id);
    }
  }

  lemma {:induction false} KeepSame(s: seq<string>, a: set<string>, b: set<string>)
    requires forall y :: y in s ==> (y in a <==> y in b)
    ensures Keep(s, a) == Keep(s, b)
  {
    if s != [] {
      assert s == s[..|s| - 1] + [s[|s| - 1]];
      KeepSame(s[..|s| - 1], a, b);
    }
  }

  /** Every member that the policy lists is one of the interface, listed once. */
  ghost predicate Drained(c: Mwan, x: string, p: string) {
    p in c.secs && c.secs[p].Policy? &&
      forall m :: m in c.secs[p].useMember ==>
        m in c.secs && c.secs[m] == Member(Some(x)) && Count(c.secs[p].useMember, m) == 1
  }

  /** What the cascade leaves: everything but the interface, its members, and what then refers to nothing. */
  ghost predicate Left(c: Mwan, x: string, id: string) {
    && id in c.secs && id != x
    && match c.secs[id]
       case Member(i) => i != Some(x)
       case Policy(_) => !Drained(c, x, id)
       case Rule(ps) => !forall p :: p in ps ==> Drained(c, x, p) && Count(ps, p) == 1
       case _ => true
  }

  /** The cascade deletes exactly that, keeps the file's order, and rewrites nothing but policies. */
  lemma CascadeLeaves(c: Mwan, x: string)
    requires c.Valid() && x in c.secs && c.secs[x] == Interface
    ensures var d := Cascade(c, x);
            && (forall id :: id in d.secs <==> Left(c, x, id))
            && d.order == Keep(c.order, d.secs.Keys)
            && (forall id :: id in d.secs && !c.secs[id].Policy? ==> d.secs[id] == c.secs[id])
            && (forall id :: id in d.secs && c.secs[id].Policy? ==>
                  d.secs[id].Policy? && forall m :: m in d.secs[id].useMember <==>
                    && m in c.secs[id].useMember
                    && !(m in c.secs && c.secs[m] == Member(Some(x)) && Count(c.secs[id].useMember, m) == 1))
  {
    CascadeFacts(c, x);
    forall p ensures Drained(c, x, p) <==> Doomed(c, x, p) {
    }
    forall id ensures id in Cascade(c, x).secs <==> Left(c, x, id) {
    }
  }
}
