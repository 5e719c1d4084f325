/** What the order of the firewall file promises, by the types and the options of its sections. */
module FirewallLaws {
  import opened FirewallExpand
  import opened FirewallOrder
  import opened FirewallRules
  import opened FirewallStore
  import opened Sequences
  import opened Uci
  import opened Wrappers

  /**
   The place of a section: zones, forwardings, rules without zones, rules between two zones, rules for what
   the firewall sends, rules for what it receives; everything else first.
   */
  function Rank(s: Section): nat {
    if s.kind == "rule" then
      if Binds(s, "src") then (if Binds(s, "dest") then 4 else 6)
      else if Binds(s, "dest") then 5
      else 3
    else if s.kind == "zone" then 1
    else if s.kind == "forwarding" then 2
    else 0
  }

  function HasRank(n: nat): Section -> bool {
    (s: Section) => Rank(s) == n
  }

  /** The sections of a place, in file order. */
  function OfRank(c: Firewall, n: nat): seq<string> {
    c.Ids(HasRank(n))
  }

  function ClassAt(n: nat): Class
    requires n < 7
  {
    CLASSES[n]
  }

  lemma IndexInClasses(n: nat)
    requires n < 7
    ensures IndexOf(CLASSES, ClassAt(n)) == n
  {
    EveryClass(ClassAt(n));
    var i := IndexOf(CLASSES, ClassAt(n));
    assert CLASSES[i] == CLASSES[n];
  }

  lemma ClassesAre()
    ensures ClassAt(0) == Defaults && ClassAt(1) == Zone && ClassAt(2) == Forwarding && ClassAt(3) == OtherRule
    ensures ClassAt(4) == ForwardRule && ClassAt(5) == OutputRule && ClassAt(6) == InputRule
  {
  }

  lemma BindsIsHas(s: Section, name: string)
    ensures Binds(s, name) <==> s.Has(name)
  {
  }

  lemma ClassIsAt(s: Section)
    ensures Rank(s) < 7 && ClassOf(s) == ClassAt(Rank(s))
  {
    ClassesAre();
    BindsIsHas(s, "src");
    BindsIsHas(s, "dest");
  }

  lemma ClassRank(s: Section)
    ensures Rank(s) < 7 && ClassOf(s) == ClassAt(Rank(s)) && IndexOf(CLASSES, ClassOf(s)) == Rank(s)
  {
    ClassIsAt(s);
    IndexInClasses(Rank(s));
  }

  lemma RankListing(c: Firewall, order: seq<string>, n: nat)
    requires n < 7
    ensures Select(HasRank(n), order, c.secs) == Select(Is(ClassAt(n)), order, c.secs)
  {
    forall s: Section ensures HasRank(n)(s) == Is(ClassAt(n))(s) {
      ClassRank(s);
      IndexInClasses(n);
    }
    SelectSame(HasRank(n), Is(ClassAt(n)), order, c.secs);
  }

  /** Reordering sorts the sections by place, and keeps the order within every place. */
  lemma ReorderSorts(c: Firewall)
    requires c.Valid()
    ensures var d := Reordered(c, Target(c));
            && d.secs == c.secs && d.Valid()
            && (forall i, j :: 0 <= i < j < |d.order| ==>
                  d.order[i] in d.secs && d.order[j] in d.secs &&
                  Rank(d.secs[d.order[i]]) <= Rank(d.secs[d.order[j]]))
            && forall n: nat :: n < 7 ==> OfRank(d, n) == OfRank(c, n)
  {
    var d := Reordered(c, Target(c));
    TargetIsStablePartition(c);
    ReorderRealises(c.order, Target(c));
    ReorderTwice(c);
    forall i, j | 0 <= i < j < |d.order|
      ensures d.order[i] in d.secs && d.order[j] in d.secs
      ensures Rank(d.secs[d.order[i]]) <= Rank(d.secs[d.order[j]])
    {
      ClassRank(d.secs[d.order[i]]);
      ClassRank(d.secs[d.order[j]]);
    }
    forall n: nat | n < 7 ensures OfRank(d, n) == OfRank(c, n) {
      RankListing(c, d.order, n);
      RankListing(c, c.order, n);
    }
  }

  lemma RankIds(c: Firewall, n: nat)
    requires n < 7
    ensures OfRank(c, n) == ClassIds(c, ClassAt(n))
  {
    RankListing(c, c.order, n);
  }

  /** The place of the rules of a type. */
  function PlaceOf(ruleType: string): Option<nat> {
    if ruleType == "forward" then Some(4)
    else if ruleType == "output" then Some(5)
    else if ruleType == "input" then Some(6)
    else None
  }

  lemma PlaceIsClass(ruleType: string)
    ensures PlaceOf(ruleType).None? <==> ClassNamed(ruleType).None?
    ensures PlaceOf(ruleType).Some? ==> PlaceOf(ruleType).value < 7
    ensures PlaceOf(ruleType).Some? ==> ClassNamed(ruleType) == Some(ClassAt(PlaceOf(ruleType).value))
  {
    ClassesAre();
  }

  lemma OrderedPlace(c: Firewall, k: nat, order: seq<string>, d: Firewall, m: nat)
    requires k < 7 && m < 7
    requires forall j :: ClassIds(d, j) == if j == ClassAt(k) then order else ClassIds(c, j)
    ensures OfRank(d, m) == if m == k then order else OfRank(c, m)
  {
    RankIds(d, m);
    RankIds(c, m);
    IndexInClasses(m);
    IndexInClasses(k);
  }

  /**
   An order is refused exactly if the type is none of three or a rule of the type is missing. An order of just
   these rules is realised, and the order in every other place stays.
   */
  lemma OrderRulesIff(c: Firewall, ruleType: string, order: seq<string>)
    requires c.Valid()
    ensures var d, n := OrderRules(c, ruleType, order), PlaceOf(ruleType);
            && (d.Some? <==> n.Some? && forall id :: id in OfRank(c, n.value) ==> id in order)
            && (d.Some? && Permutation(order, OfRank(c, n.value)) ==>
                  && d.value.secs == c.secs
                  && forall m: nat :: m < 7 ==> OfRank(d.value, m) == if m == n.value then order else OfRank(c, m))
  {
    var d, n := OrderRules(c, ruleType, order), PlaceOf(ruleType);
    PlaceIsClass(ruleType);
    if n.Some? {
      RankIds(c, n.value);
    }
    if d.Some? && Permutation(order, OfRank(c, n.value)) {
      OrderRulesExact(c, ruleType, order);
      forall m: nat | m < 7 ensures OfRank(d.value, m) == if m == n.value then order else OfRank(c, m) {
        OrderedPlace(c, n.value, order, d.value, m);
      }
    }
  }

  /**
   A new rule comes last in its place, or first if that is asked for and the rule names a zone; the order of
   all the others stays.
   */
  lemma AddRulePlaces(dir: Directory, c: Firewall, id: string, s: Section, addToTop: bool, m: nat)
    requires c.Valid() && id !in c.secs && s.kind == "rule" && AddRule(dir, c, id, s, addToTop).1 && m < 7
    ensures OfRank(AddRule(dir, c, id, s, addToTop).0, m) ==
              if m != Rank(s) then OfRank(c, m)
              else if addToTop && (Binds(s, "src") || Binds(s, "dest")) then [id] + OfRank(c, m)
              else OfRank(c, m) + [id]
  {
    AddRuleOrder(dir, c, id, s, addToTop);
    RankIds(AddRule(dir, c, id, s, addToTop).0, m);
    RankIds(c, m);
    ClassRank(s);
    IndexInClasses(m);
    IndexInClasses(3);
  }
}
