/** Ordering the rules of one class, and adding a rule at the top or at the bottom of its class. */
module FirewallRules {
  import opened FirewallExpand
  import opened FirewallOrder
  import opened FirewallStore
  import opened Sequences
  import opened Uci
  import opened Wrappers

  function ClassNamed(ruleType: string): Option<Class> {
    if ruleType == "input" then Some(InputRule)
    else if ruleType == "output" then Some(OutputRule)
    else if ruleType == "forward" then Some(ForwardRule)
    else None
  }

  predicate Covers(order: seq<string>, rules: seq<string>) {
    forall r :: r in rules ==> r in order
  }

  /** Refused when the type is unknown or a rule of the type is missing from the order. */
  function OrderRules(c: Firewall, ruleType: string, order: seq<string>): Option<Firewall> {
    match ClassNamed(ruleType)
    case None => None
    case Some(k) =>
      if !Covers(order, ClassIds(c, k)) then None
      else Some(Reordered(c, Arranged(Replaced(c, k, order), CLASSES)))
  }

  // ----- what an order has to be

  lemma {:induction false} ArrangedParts(listing: Class -> seq<string>, classes: seq<Class>, k: Class)
    requires NoDup(Arranged(listing, classes)) && k in classes
    ensures NoDup(listing(k))
    ensures forall id :: id in listing(k) ==> id in Arranged(listing, classes)
  {
    var first, rest := listing(classes[0]), Arranged(listing, classes[1..]);
    NoDupParts(first, rest);
    if k != classes[0] {
      assert classes == [classes[0]] + classes[1..];
      ArrangedParts(listing, classes[1..], k);
    }
  }

  lemma NoDupParts(a: seq<string>, b: seq<string>)
    requires NoDup(a + b)
    ensures NoDup(a) && NoDup(b) && forall id :: id in a ==> id !in b
  {
    forall i, j | 0 <= i < j < |a| ensures a[i] != a[j] {
      assert (a + b)[i] == a[i] && (a + b)[j] == a[j];
    }
    forall i, j | 0 <= i < j < |b| ensures b[i] != b[j] {
      assert (a + b)[|a| + i] == b[i] && (a + b)[|a| + j] == b[j];
    }
    forall i, j | 0 <= i < |a| && 0 <= j < |b| ensures a[i] != b[j] {
      assert (a + b)[i] == a[i] && (a + b)[|a| + j] == b[j];
    }
  }

  lemma {:induction false} ArrangedDisjoint(listing: Class -> seq<string>, classes: seq<Class>, k: Class, j: Class)
    requires NoDup(Arranged(listing, classes)) && NoDup(classes) && k in classes && j in classes && k != j
    ensures forall id :: id in listing(k) ==> id !in listing(j)
  {
    var first, rest := listing(classes[0]), Arranged(listing, classes[1..]);
    NoDupParts(first, rest);
    assert classes == [classes[0]] + classes[1..];
    if k == classes[0] {
      ArrangedParts(listing, classes[1..], j);
    } else if j == classes[0] {
      ArrangedParts(listing, classes[1..], k);
    } else {
      ArrangedDisjoint(listing, classes[1..], k, j);
    }
  }

  /** The listing with a permuted class is again a listing of the same file. */
  lemma ReplacedLists(c: Firewall, k: Class, order: seq<string>)
    requires c.Valid() && Permutation(order, ClassIds(c, k))
    ensures Lists(c, Replaced(c, k, order))
  {
    OwnListing(c);
    forall j
      ensures NoDup(Replaced(c, k, order)(j)) && Replaced(c, k, order)(j) == if j == k then order else Listing(c)(j)
    {
      assert NoDup(Listing(c)(j));
    }
  }

  /**
   The file ends up in the requested order exactly when the request is a permutation of the class.
   Then the class is ordered as requested and every other class is as it was. In any case no section
   is lost.
   */
  lemma OrderRulesExact(c: Firewall, ruleType: string, order: seq<string>)
    requires c.Valid() && OrderRules(c, ruleType, order).Some?
    ensures var d, k := OrderRules(c, ruleType, order).value, ClassNamed(ruleType).value;
            && d.secs == c.secs && Permutation(d.order, c.order)
            && (d.order == Arranged(Replaced(c, k, order), CLASSES) <==> Permutation(order, ClassIds(c, k)))
            && (Permutation(order, ClassIds(c, k)) ==>
              forall j :: ClassIds(d, j) == if j == k then order else ClassIds(c, j))
  {
    var d, k := OrderRules(c, ruleType, order).value, ClassNamed(ruleType).value;
    var listing := Replaced(c, k, order);
    MoveAllPermutes(c.order, Arranged(listing, CLASSES), |Arranged(listing, CLASSES)|);
    if Permutation(order, ClassIds(c, k)) {
      PermutedOrder(c, k, order);
    }
    if d.order == Arranged(listing, CLASSES) {
      OrderMustPermute(c, k, order);
    }
  }

  lemma PermutedOrder(c: Firewall, k: Class, order: seq<string>)
    requires c.Valid() && Permutation(order, ClassIds(c, k))
    ensures var target := Arranged(Replaced(c, k, order), CLASSES);
            && Permutation(c.order, target) && Reordered(c, target).order == target
            && forall j :: ClassIds(Reordered(c, target), j) == if j == k then order else ClassIds(c, j)
  {
    var listing := Replaced(c, k, order);
    var target := Arranged(listing, CLASSES);
    ReplacedLists(c, k, order);
    ArrangedPermutes(c, listing);
    ReorderRealises(c.order, target);
    forall j ensures ClassIds(Reordered(c, target), j) == if j == k then order else ClassIds(c, j) {
      EveryClass(j);
      ArrangedListing(c, listing, CLASSES, j);
    }
  }

  lemma InOwnClass(c: Firewall, id: string)
    requires c.Valid() && id in c.order
    ensures id in ClassIds(c, ClassOf(c.secs[id]))
  {
  }

  lemma OrderedIsOwn(c: Firewall, k: Class, order: seq<string>, id: string)
    requires c.Valid() && id in order && id in c.order && NoDup(Arranged(Replaced(c, k, order), CLASSES))
    ensures id in ClassIds(c, k)
  {
    var j := ClassOf(c.secs[id]);
    InOwnClass(c, id);
    if j != k {
      EveryClass(k);
      EveryClass(j);
      ArrangedDisjoint(Replaced(c, k, order), CLASSES, k, j);
    }
  }

  lemma OrderWithinClass(c: Firewall, k: Class, order: seq<string>)
    requires c.Valid() && Permutation(Arranged(Replaced(c, k, order), CLASSES), c.order)
    requires forall id :: id in order ==> id in Arranged(Replaced(c, k, order), CLASSES)
    ensures forall id :: id in order ==> id in ClassIds(c, k)
  {
    forall id | id in order ensures id in ClassIds(c, k) {
      OrderedIsOwn(c, k, order, id);
    }
  }

  lemma OrderMustPermute(c: Firewall, k: Class, order: seq<string>)
    requires c.Valid() && Covers(order, ClassIds(c, k))
    requires Permutation(Arranged(Replaced(c, k, order), CLASSES), c.order)
    ensures Permutation(order, ClassIds(c, k))
  {
    EveryClass(k);
    ArrangedParts(Replaced(c, k, order), CLASSES, k);
    assert Replaced(c, k, order)(k) == order;
    OrderWithinClass(c, k, order);
    SelectNoDup(Is(k), c.order, c.secs);
  }

  // ----- adding a rule

  function RuleTypeOf(s: Section): Option<string> {
    if IsForward(s) then Some("forward")
    else if IsInput(s) then Some("input")
    else if IsOutput(s) then Some("output")
    else None
  }

  /** The listed rules of a type, in file order. */
  function ListRules(c: Firewall, ruleType: string): seq<string> {
    match ClassNamed(ruleType)
    case Some(k) => ClassIds(c, k)
    case None => []
  }

  function AllButLast(s: seq<string>): seq<string> {
    if s == [] then [] else s[..|s| - 1]
  }

  /** The last step of an addition to the top; a rule of no ordered class stays where it is. */
  function ToTop(c: Firewall, id: string): (Firewall, bool)
    requires id in c.secs
  {
    match RuleTypeOf(c.secs[id])
    case None => (c, true)
    case Some(t) =>
      var r := OrderRules(c, t, [id] + AllButLast(ListRules(c, t)));
      (r.GetOr(c), r.Some?)
  }

  /** The configuration after an addition, and whether nothing raised. */
  function AddRule(dir: Directory, c: Firewall, id: string, s: Section, addToTop: bool): (Firewall, bool)
    requires c.Valid() && id !in c.secs && s.kind == "rule"
  {
    var appended := c.Set(id, s);
    var r := UpdateFirewallRules(dir, Reordered(appended, Target(appended)));
    if r.ok && addToTop then ToTop(r.config, id) else (r.config, r.ok)
  }

  /** The class of a new rule with the rule first or last in it. */
  function Extended(c: Firewall, id: string, s: Section, top: bool): Class -> seq<string> {
    k => if k != ClassOf(s) then ClassIds(c, k) else if top then [id] + ClassIds(c, k) else ClassIds(c, k) + [id]
  }

  /** A new rule is last in its class after the reorder, and every other class is as before. */
  lemma AddedLast(c: Firewall, id: string, s: Section)
    requires c.Valid() && id !in c.secs && s.kind == "rule"
    ensures var d := Reordered(c.Set(id, s), Target(c.Set(id, s)));
            && d.Valid() && d.secs == c.secs[id := s]
            && d.order == Target(d)
            && forall k :: ClassIds(d, k) == Extended(c, id, s, false)(k)
  {
    var appended := c.Set(id, s);
    SetValid(c, id, s);
    TargetIsStablePartition(appended);
    ReorderTwice(appended);
    var d := Reordered(appended, Target(appended));
    forall k ensures ClassIds(d, k) == Extended(c, id, s, false)(k) {
      IdsSetNew(c, Is(k), id, s);
    }
    SameListingSameArrangement(Listing(d), Listing(appended), CLASSES);
  }

  /** Expanding objects moves no rule to another class. */
  lemma UpdateKeepsClasses(dir: Directory, c: Firewall)
    requires c.Valid()
    ensures var d := UpdateFirewallRules(dir, c).config;
            && d.Valid() && d.order == c.order && d.secs.Keys == c.secs.Keys
            && (forall k :: ClassIds(d, k) == ClassIds(c, k))
            && forall id :: id in c.secs ==>
              ClassOf(d.secs[id]) == ClassOf(c.secs[id]) && d.secs[id].kind == c.secs[id].kind
  {
    var d := UpdateFirewallRules(dir, c).config;
    UpdateFrames(dir, c);
    forall id | id in c.secs ensures ClassOf(d.secs[id]) == ClassOf(c.secs[id]) {
      FramedClass(c.secs[id], d.secs[id]);
    }
    forall k ensures ClassIds(d, k) == ClassIds(c, k) {
      SelectCongruent(Is(k), c.order, c.secs, d.secs);
    }
  }

  lemma FramedClass(s: Section, t: Section)
    requires Framed(s, t)
    ensures ClassOf(s) == ClassOf(t)
  {
    assert s.Get("src") == t.Get("src") && s.Get("dest") == t.Get("dest");
  }

  lemma TopOfClass(s: Section)
    requires s.kind == "rule"
    ensures RuleTypeOf(s).Some? ==> ClassNamed(RuleTypeOf(s).value) == Some(ClassOf(s))
    ensures RuleTypeOf(s).None? <==> ClassOf(s) == OtherRule
  {
  }

  /** Dropping the last of the listed rules drops exactly the new one. */
  lemma MoveToTop(c: Firewall, id: string, k: Class, earlier: seq<string>)
    requires c.Valid() && ClassIds(c, k) == earlier + [id]
    ensures AllButLast(ClassIds(c, k)) == earlier && Permutation([id] + earlier, ClassIds(c, k)) &&
        Covers([id] + earlier, ClassIds(c, k))
  {
    SelectNoDup(Is(k), c.order, c.secs);
    var ids := ClassIds(c, k);
    assert AllButLast(earlier + [id]) == earlier;
    forall i, j | 0 <= i < j < |[id] + earlier| ensures ([id] + earlier)[i] != ([id] + earlier)[j] {
      assert ([id] + earlier)[j] == ids[j - 1];
      assert ids[|earlier|] == id;
      assert i > 0 ==> ([id] + earlier)[i] == ids[i - 1];
    }
  }

  /** Ordering the new rule before the others of its type. */
  lemma OrderedToTop(c: Firewall, ruleType: string, k: Class, id: string, earlier: seq<string>)
    requires c.Valid() && ClassNamed(ruleType) == Some(k) && ClassIds(c, k) == earlier + [id]
    ensures var r := OrderRules(c, ruleType, [id] + AllButLast(ListRules(c, ruleType)));
            r == Some(Reordered(c, Arranged(Replaced(c, k, [id] + earlier), CLASSES))) &&
              Permutation([id] + earlier, ClassIds(c, k))
  {
    MoveToTop(c, id, k, earlier);
  }

  /** The new rule is there and in its class. */
  ghost predicate HoldsNew(c: Firewall, id: string, s: Section, d: Firewall) {
    d.Valid() && d.secs.Keys == c.secs.Keys + {id} && d.secs[id].kind == "rule" && ClassOf(d.secs[id]) == ClassOf(s)
  }

  /** The file is arranged, with the new rule last in its class. */
  ghost predicate EndsWithNew(c: Firewall, id: string, s: Section, d: Firewall) {
    && d.order == Arranged(Extended(c, id, s, false), CLASSES)
    && forall k :: ClassIds(d, k) == Extended(c, id, s, false)(k)
  }

  lemma ArrangedEndsWithNew(c: Firewall, id: string, s: Section, d: Firewall)
    requires d.order == Target(d) && forall k :: ClassIds(d, k) == Extended(c, id, s, false)(k)
    ensures EndsWithNew(c, id, s, d)
  {
    SameListingSameArrangement(Listing(d), Extended(c, id, s, false), CLASSES);
  }

  lemma SameClassesEndsWithNew(c: Firewall, id: string, s: Section, p: Firewall, d: Firewall)
    requires EndsWithNew(c, id, s, p) && d.order == p.order && forall k :: ClassIds(d, k) == ClassIds(p, k)
    ensures EndsWithNew(c, id, s, d)
  {
  }

  lemma UpdateHoldsNew(dir: Directory, c: Firewall, id: string, s: Section, p: Firewall)
    requires p.Valid() && p.secs == c.secs[id := s] && s.kind == "rule"
    ensures HoldsNew(c, id, s, UpdateFirewallRules(dir, p).config)
  {
    UpdateKeepsClasses(dir, p);
  }

  /** The configuration that an addition orders in its last step. */
  lemma AddedAndUpdated(dir: Directory, c: Firewall, id: string, s: Section)
    requires c.Valid() && id !in c.secs && s.kind == "rule"
    ensures var d := UpdateFirewallRules(dir, Reordered(c.Set(id, s), Target(c.Set(id, s)))).config;
            HoldsNew(c, id, s, d) && EndsWithNew(c, id, s, d)
  {
    var p := Reordered(c.Set(id, s), Target(c.Set(id, s)));
    AddedLast(c, id, s);
    UpdateHoldsNew(dir, c, id, s, p);
    ArrangedEndsWithNew(c, id, s, p);
    UpdateKeepsClasses(dir, p);
    SameClassesEndsWithNew(c, id, s, p, UpdateFirewallRules(dir, p).config);
  }

  lemma ReplacedIsExtended(d: Firewall, c: Firewall, id: string, s: Section)
    requires forall k :: ClassIds(d, k) == Extended(c, id, s, false)(k)
    ensures var listing := Replaced(d, ClassOf(s), [id] + ClassIds(c, ClassOf(s)));
            && Arranged(listing, CLASSES) == Arranged(Extended(c, id, s, true), CLASSES)
            && forall k :: listing(k) == Extended(c, id, s, true)(k)
  {
    var listing := Replaced(d, ClassOf(s), [id] + ClassIds(c, ClassOf(s)));
    forall k ensures listing(k) == Extended(c, id, s, true)(k) {
      assert ClassIds(d, k) == Extended(c, id, s, false)(k);
    }
    SameListingSameArrangement(listing, Extended(c, id, s, true), CLASSES);
  }

  /** The file once the new rule is ordered before the others of its class. */
  lemma TopListing(d: Firewall, c: Firewall, id: string, s: Section, order: seq<string>)
    requires d.Valid() && order == [id] + ClassIds(c, ClassOf(s)) && Permutation(order, ClassIds(d, ClassOf(s)))
    requires forall k :: ClassIds(d, k) == Extended(c, id, s, false)(k)
    ensures var r := Reordered(d, Arranged(Replaced(d, ClassOf(s), order), CLASSES));
            && r.secs == d.secs && r.order == Arranged(Extended(c, id, s, true), CLASSES)
            && forall k :: ClassIds(r, k) == Extended(c, id, s, true)(k)
  {
    PermutedOrder(d, ClassOf(s), order);
    ReplacedIsExtended(d, c, id, s);
  }

  /** Moving the new rule from the last to the first place. */
  lemma AddedToTop(d: Firewall, c: Firewall, id: string, s: Section, t: string)
    requires d.Valid() && ClassNamed(t) == Some(ClassOf(s))
    requires forall k :: ClassIds(d, k) == Extended(c, id, s, false)(k)
    ensures var r := OrderRules(d, t, [id] + AllButLast(ListRules(d, t)));
            && r.Some? && r.value.secs == d.secs
            && r.value.order == Arranged(Extended(c, id, s, true), CLASSES)
            && forall k :: ClassIds(r.value, k) == Extended(c, id, s, true)(k)
  {
    var k := ClassOf(s);
    var earlier := ClassIds(c, k);
    assert ClassIds(d, k) == Extended(c, id, s, false)(k) == earlier + [id];
    OrderedToTop(d, t, k, id, earlier);
    TopListing(d, c, id, s, [id] + earlier);
  }

  /**
   A new rule ends up first or last in its class; all other rules of the class keep their order and
   so does every other class. A rule of no ordered class stays last.
   */
  lemma AddRuleOrder(dir: Directory, c: Firewall, id: string, s: Section, addToTop: bool)
    requires c.Valid() && id !in c.secs && s.kind == "rule" && AddRule(dir, c, id, s, addToTop).1
    ensures var d := AddRule(dir, c, id, s, addToTop).0;
            var listing := Extended(c, id, s, addToTop && ClassOf(s) != OtherRule);
            && d.secs.Keys == c.secs.Keys + {id}
            && d.order == Arranged(listing, CLASSES)
            && forall k :: ClassIds(d, k) == listing(k)
  {
    var d := UpdateFirewallRules(dir, Reordered(c.Set(id, s), Target(c.Set(id, s)))).config;
    AddedAndUpdated(dir, c, id, s);
    TopOfClass(d.secs[id]);
    if addToTop && ClassOf(s) != OtherRule {
      AddedToTop(d, c, id, s, RuleTypeOf(d.secs[id]).value);
    }
  }
}
