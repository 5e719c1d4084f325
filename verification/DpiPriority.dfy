/** The priority machine: every operation leaves the rules densely numbered, in the intended order. */
module DpiPriority {
  import opened Wrappers
  import opened Sequences
  import opened Uci
  import opened DpiStore
  import C = Criteria

  // ----- the stable sort

  ghost predicate Sorted(st: Store, s: seq<string>) {
    forall i, j :: 0 <= i < j < |s| ==> KeyLeq(Priority(st, s[i]), Priority(st, s[j]))
  }

  ghost predicate Before(s: seq<string>, x: string, y: string) {
    exists i, j :: 0 <= i < j < |s| && s[i] == x && s[j] == y
  }

  lemma {:induction false} InsertSorted(st: Store, s: seq<string>, x: string)
    requires Sorted(st, s)
    ensures Sorted(st, Insert(st, s, x))
  {
    if s != [] && !KeyLeq(Priority(st, s[|s| - 1]), Priority(st, x)) {
      var init := s[..|s| - 1];
      InsertSorted(st, init, x);
      forall y | y in Insert(st, init, x) ensures KeyLeq(Priority(st, y), Priority(st, s[|s| - 1])) {
        if y in init {
          var i :| 0 <= i < |init| && init[i] == y;
        }
      }
    }
  }

  lemma {:induction false} InsertNoDup(st: Store, s: seq<string>, x: string)
    requires NoDup(s) && x !in s
    ensures NoDup(Insert(st, s, x))
  {
    if s != [] && !KeyLeq(Priority(st, s[|s| - 1]), Priority(st, x)) {
      InsertNoDup(st, s[..|s| - 1], x);
      assert s[|s| - 1] !in s[..|s| - 1];
    }
  }

  lemma {:induction false} SortRulesSorted(st: Store, ids: seq<string>)
    ensures Sorted(st, SortRules(st, ids))
  {
    if ids != [] {
      SortRulesSorted(st, ids[..|ids| - 1]);
      InsertSorted(st, SortRules(st, ids[..|ids| - 1]), ids[|ids| - 1]);
    }
  }

  lemma {:induction false} SortRulesNoDup(st: Store, ids: seq<string>)
    requires NoDup(ids)
    ensures NoDup(SortRules(st, ids))
  {
    if ids != [] {
      SortRulesNoDup(st, ids[..|ids| - 1]);
      assert ids[|ids| - 1] !in ids[..|ids| - 1];
      InsertNoDup(st, SortRules(st, ids[..|ids| - 1]), ids[|ids| - 1]);
    }
  }

  /** Insertion keeps the order of what is there and puts x after everything not greater than it. */
  lemma {:induction false} InsertKeeps(st: Store, s: seq<string>, x: string, y: string, z: string)
    requires Sorted(st, s)
    requires Before(s, y, z) || (y in s && z == x && KeyLeq(Priority(st, y), Priority(st, x)))
    ensures Before(Insert(st, s, x), y, z)
  {
    var r := Insert(st, s, x);
    var last := s[|s| - 1];
    assert s == s[..|s| - 1] + [last];
    if KeyLeq(Priority(st, last), Priority(st, x)) {
      if Before(s, y, z) {
        var i, j :| 0 <= i < j < |s| && s[i] == y && s[j] == z;
        assert r[i] == y && r[j] == z;
      } else {
        var i :| 0 <= i < |s| && s[i] == y;
        assert r[i] == y && r[|s|] == z;
      }
    } else {
      var init := s[..|s| - 1];
      var r0 := Insert(st, init, x);
      assert r == r0 + [last];
      if Before(init, y, z) || (y in init && z == x && KeyLeq(Priority(st, y), Priority(st, x))) {
        InsertKeeps(st, init, x, y, z);
        var i, j :| 0 <= i < j < |r0| && r0[i] == y && r0[j] == z;
        assert r[i] == y && r[j] == z;
      } else if Before(s, y, z) {
        var i, j :| 0 <= i < j < |s| && s[i] == y && s[j] == z;
        assert init[i] == y;
        assert init[i] == y;
        assert y in r0;
        var k :| 0 <= k < |r0| && r0[k] == y;
        assert r[k] == y && r[|r0|] == z;
      }
    }
  }

  /** Two rules whose priorities do not say otherwise stay in file order. */
  lemma {:induction false} SortRulesStable(st: Store, ids: seq<string>, y: string, z: string)
    requires Before(ids, y, z) && KeyLeq(Priority(st, y), Priority(st, z))
    ensures Before(SortRules(st, ids), y, z)
  {
    var init, last := ids[..|ids| - 1], ids[|ids| - 1];
    SortRulesSorted(st, init);
    var i, j :| 0 <= i < j < |ids| && ids[i] == y && ids[j] == z;
    if j < |init| {
      assert init[i] == y && init[j] == z;
      SortRulesStable(st, init, y, z);
    } else {
      assert init[i] == y;
    }
    InsertKeeps(st, SortRules(st, init), last, y, z);
  }

  lemma {:induction false} InsertCongruent(st: Store, st': Store, s: seq<string>, x: string)
    requires forall y :: y in s || y == x ==> Priority(st, y) == Priority(st', y)
    ensures Insert(st, s, x) == Insert(st', s, x)
  {
    if s != [] {
      assert s[|s| - 1] in s;
      InsertCongruent(st, st', s[..|s| - 1], x);
    }
  }

  lemma {:induction false} SortRulesCongruent(st: Store, st': Store, ids: seq<string>)
    requires forall y :: y in ids ==> Priority(st, y) == Priority(st', y)
    ensures SortRules(st, ids) == SortRules(st', ids)
  {
    if ids != [] {
      SortRulesCongruent(st, st', ids[..|ids| - 1]);
      InsertCongruent(st, st', SortRules(st, ids[..|ids| - 1]), ids[|ids| - 1]);
    }
  }

  lemma {:induction false} InsertWithout(st: Store, s: seq<string>, y: string, x: string)
    requires Sorted(st, s)
    ensures Without(Insert(st, s, y), x) == if y == x then Without(s, x) else Insert(st, Without(s, x), y)
  {
    if s == [] {
      assert Insert(st, s, y) == [] + [y];
      WithoutSnoc([], y, x);
    } else {
      var init, last := s[..|s| - 1], s[|s| - 1];
      assert s == init + [last];
      WithoutSnoc(init, last, x);
      if KeyLeq(Priority(st, last), Priority(st, y)) {
        WithoutSnoc(s, y, x);
        LastOfWithout(st, s, y, x);
      } else {
        InsertWithout(st, init, y, x);
        WithoutSnoc(Insert(st, init, y), last, x);
        InsertSnoc(st, Without(init, x), last, y);
        assert last == x ==> Without(s, x) == Without(init, x);
      }
    }
  }

  lemma LastOfWithout(st: Store, s: seq<string>, y: string, x: string)
    requires s != [] && Sorted(st, s) && KeyLeq(Priority(st, s[|s| - 1]), Priority(st, y))
    ensures Insert(st, Without(s, x), y) == Without(s, x) + [y]
  {
    var r := Without(s, x);
    if r != [] {
      assert r[|r| - 1] in r;
      var i :| 0 <= i < |s| && s[i] == r[|r| - 1];
    }
  }

  lemma InsertSnoc(st: Store, s: seq<string>, last: string, y: string)
    requires !KeyLeq(Priority(st, last), Priority(st, y))
    ensures Insert(st, s + [last], y) == Insert(st, s, y) + [last]
  {
    assert (s + [last])[..|s|] == s;
  }

  /** Removing a rule and sorting is sorting and removing it. */
  lemma {:induction false} SortRulesWithout(st: Store, ids: seq<string>, x: string)
    ensures SortRules(st, Without(ids, x)) == Without(SortRules(st, ids), x)
  {
    if ids != [] {
      var init, last := ids[..|ids| - 1], ids[|ids| - 1];
      assert ids == init + [last];
      WithoutSnoc(init, last, x);
      SortRulesWithout(st, init, x);
      SortRulesSorted(st, init);
      InsertWithout(st, SortRules(st, init), last, x);
      if last == x {
        assert Without(init, x) + [] == Without(init, x);
      } else {
        assert (Without(init, x) + [last])[..|Without(init, x)|] == Without(init, x);
      }
    }
  }

  // ----- dense numbering

  predicate NumberAt(st: Store, order: seq<string>, i: nat)
    requires i < |order|
  {
    RuleIn(st, order[i]) && Priority(st, order[i]) == Some(i + 1)
  }

  ghost predicate Numbered(st: Store, order: seq<string>) {
    forall i: nat :: i < |order| ==> NumberAt(st, order, i)
  }

  /** The rules carry exactly the priorities 1..n, in evaluation order. */
  ghost predicate Dense(st: Store) {
    Numbered(st, SortedRules(st))
  }

  lemma NumberedSame(st: Store, st': Store, order: seq<string>)
    requires forall x :: RuleIn(st, x) == RuleIn(st', x) && Priority(st, x) == Priority(st', x)
    ensures Numbered(st, order) == Numbered(st', order)
  {
    forall i: nat | i < |order| ensures NumberAt(st, order, i) == NumberAt(st', order, i) {
    }
  }

  /** An increasing sequence of n numbers out of 1..n is 1, 2, .. n. */
  lemma {:induction false} IncreasingIsIdentity(f: seq<int>, n: int)
    requires |f| == n
    requires forall i :: 0 <= i < n ==> 1 <= f[i] <= n
    requires forall i, j :: 0 <= i < j < n ==> f[i] < f[j]
    ensures forall i :: 0 <= i < n ==> f[i] == i + 1
  {
    if n > 0 {
      IncreasingAtLeast(f);
      assert f[n - 1] == n;
      IncreasingIsIdentity(f[..n - 1], n - 1);
      forall i | 0 <= i < n ensures f[i] == i + 1 {
        if i < n - 1 {
          assert f[..n - 1][i] == f[i];
        }
      }
    }
  }

  lemma {:induction false} IncreasingAtLeast(f: seq<int>)
    requires forall i :: 0 <= i < |f| ==> 1 <= f[i]
    requires forall i, j :: 0 <= i < j < |f| ==> f[i] < f[j]
    ensures forall i :: 0 <= i < |f| ==> f[i] >= i + 1
  {
    if f != [] {
      var init := f[..|f| - 1];
      IncreasingAtLeast(init);
      assert forall i :: 0 <= i < |init| ==> f[i] == init[i];
      assert |f| > 1 ==> f[|f| - 2] < f[|f| - 1];
    }
  }

  /** Once the rules are numbered along an order, sorting them gives that order. */
  lemma SortOfNumbered(st: Store, ids: seq<string>, order: seq<string>)
    requires NoDup(ids) && NoDup(order) && SameMembers(ids, order)
    requires Numbered(st, order)
    ensures SortRules(st, ids) == order
  {
    var s := SortRules(st, ids);
    SortRulesSorted(st, ids);
    SortRulesNoDup(st, ids);
    SameMembersSameLength(s, order);
    SortedAlongOrder(st, s, order);
  }

  lemma SortedAlongOrder(st: Store, s: seq<string>, order: seq<string>)
    requires NoDup(s) && Sorted(st, s) && |s| == |order| && forall x :: x in s ==> x in order
    requires Numbered(st, order)
    ensures s == order
  {
    var f := seq(|s|, i requires 0 <= i < |s| => IndexOf(order, s[i]) + 1);
    forall i | 0 <= i < |s| ensures 1 <= f[i] <= |s| && order[f[i] - 1] == s[i] && Priority(st, s[i]) == Some(f[i]) {
      assert s[i] in s;
      assert NumberAt(st, order, f[i] - 1);
    }
    forall i, j | 0 <= i < j < |s| ensures f[i] < f[j] {
      assert KeyLeq(Priority(st, s[i]), Priority(st, s[j]));
      assert order[f[i] - 1] == s[i] != s[j] == order[f[j] - 1];
    }
    IncreasingIsIdentity(f, |s|);
  }

  /** The same sections, the rules equal up to their priority. */
  ghost predicate SameButPriority(st: Store, st': Store) {
    && st'.order == st.order
    && (forall id :: id in st'.secs <==> id in st.secs)
    && (forall id :: id in st.secs && !st.secs[id].RuleSection? ==> st'.secs[id] == st.secs[id])
    && (forall id :: RuleIn(st, id) ==> RuleIn(st', id))
    && (forall id :: RuleIn(st, id) ==> st'.secs[id].rule.(priority := None) == st.secs[id].rule.(priority := None))
  }

  lemma SetPriorityFrame(st: Store, id: string, priority: int)
    ensures SameButPriority(st, SetPriority(st, id, priority))
    ensures forall x :: x != id ==> Priority(SetPriority(st, id, priority), x) == Priority(st, x)
  {
  }

  lemma SameButPriorityTransitive(a: Store, b: Store, c: Store)
    requires SameButPriority(a, b) && SameButPriority(b, c)
    ensures SameButPriority(a, c)
  {
    forall id | RuleIn(a, id) ensures c.secs[id].rule.(priority := None) == a.secs[id].rule.(priority := None) {
      assert RuleIn(b, id);
    }
  }

  /** Renumbering writes the priorities of the listed rules and nothing else. */
  lemma {:induction false} RenumberedFrame(st: Store, order: seq<string>)
    ensures SameButPriority(st, Renumbered(st, order))
    ensures forall x :: x !in order ==> Priority(Renumbered(st, order), x) == Priority(st, x)
  {
    if order != [] {
      var init, last := order[..|order| - 1], order[|order| - 1];
      assert order == init + [last];
      RenumberedFrame(st, init);
      SetPriorityFrame(Renumbered(st, init), last, |order|);
      SameButPriorityTransitive(st, Renumbered(st, init), Renumbered(st, order));
    }
  }

  /** Giving the last rule its number keeps the numbers of the others. */
  lemma NumberedNext(st: Store, init: seq<string>, last: string)
    requires Numbered(st, init) && last !in init && RuleIn(st, last)
    ensures Numbered(SetPriority(st, last, |init| + 1), init + [last])
  {
    var order, next := init + [last], SetPriority(st, last, |init| + 1);
    SetPriorityFrame(st, last, |init| + 1);
    forall i: nat | i < |order| ensures NumberAt(next, order, i) {
      if i < |init| {
        assert order[i] == init[i] && init[i] in init && NumberAt(st, init, i);
      }
    }
  }

  lemma {:induction false} RenumberedNumbered(st: Store, order: seq<string>)
    requires NoDup(order) && forall id :: id in order ==> RuleIn(st, id)
    ensures Numbered(Renumbered(st, order), order)
  {
    if order != [] {
      var init, last := order[..|order| - 1], order[|order| - 1];
      assert order == init + [last];
      RenumberedFrame(st, init);
      RenumberedNumbered(st, init);
      assert last in order && RuleIn(Renumbered(st, init), last);
      NumberedNext(Renumbered(st, init), init, last);
    }
  }

  lemma SameButPriorityListing(st: Store, st': Store)
    requires SameButPriority(st, st')
    ensures RuleIds(st') == RuleIds(st)
    ensures st.Valid() ==> st'.Valid()
  {
    forall id | id in st.order ensures id in st.secs && IsRule(st.secs[id]) <==> id in st'.secs && IsRule(st'.secs[id])
    {
      assert id in st'.secs <==> id in st.secs;
      assert RuleIn(st, id) ==> RuleIn(st', id);
    }
    SelectCongruent(IsRule, st.order, st.secs, st'.secs);
  }

  lemma SameButPriorityGroups(st: Store, st': Store)
    requires SameButPriority(st, st')
    ensures Groups(st') == Groups(st)
  {
    var g, g' := Groups(st), Groups(st');
    forall id ensures id in g <==> id in g' {
      assert id in st'.secs <==> id in st.secs;
      assert RuleIn(st, id) ==> RuleIn(st', id);
    }
    forall id | id in g ensures g'[id] == g[id] {
      assert id in g';
    }
  }

  lemma RenumberedListing(st: Store, order: seq<string>)
    ensures RuleIds(Renumbered(st, order)) == RuleIds(st)
    ensures Groups(Renumbered(st, order)) == Groups(st)
    ensures st.Valid() ==> Renumbered(st, order).Valid()
  {
    RenumberedFrame(st, order);
    SameButPriorityListing(st, Renumbered(st, order));
    SameButPriorityGroups(st, Renumbered(st, order));
  }

  /** Renumbering along any listing of all the rules makes that listing the evaluation order. */
  lemma RenumberedRealises(st: Store, order: seq<string>)
    requires st.Valid()
    requires NoDup(order) && SameMembers(order, RuleIds(st))
    ensures SortedRules(Renumbered(st, order)) == order
    ensures Dense(Renumbered(st, order))
  {
    RenumberedNumbered(st, order);
    RenumberedListing(st, order);
    SelectNoDup(IsRule, st.order, st.secs);
    SortOfNumbered(Renumbered(st, order), RuleIds(st), order);
  }

  // ----- the operations

  lemma SortLast(st: Store, ids: seq<string>, id: string)
    requires Priority(st, id).None?
    ensures SortRules(st, ids + [id]) == SortRules(st, ids) + [id]
  {
    assert (ids + [id])[..|ids|] == ids;
  }

  lemma WithoutLast(s: seq<string>, x: string)
    requires x !in s
    ensures Without(s + [x], x) == s
  {
    WithoutSnoc(s, x, x);
    WithoutAbsent(s, x);
  }

  /** A rule just created has no priority yet, so it sorts after every other rule. */
  lemma SortedWithNew(st: Store, id: string, rule: Rule)
    requires st.Valid() && id !in st.secs && rule.priority.None?
    ensures var st1 := st.Set(id, RuleSection(rule));
      && st1.Valid()
      && RuleIds(st1) == RuleIds(st) + [id]
      && SortedRules(st1) == SortedRules(st) + [id]
      && Without(SortedRules(st1), id) == SortedRules(st)
  {
    var st1 := st.Set(id, RuleSection(rule));
    SetValid(st, id, RuleSection(rule));
    IdsSetNew(st, IsRule, id, RuleSection(rule));
    SortRulesCongruent(st, st1, RuleIds(st));
    SortLast(st1, RuleIds(st), id);
    WithoutLast(SortedRules(st), id);
  }

  lemma WithNewIsListing(st: Store, id: string, rule: Rule, top: bool)
    requires st.Valid() && id !in st.secs && rule.priority.None?
    ensures var st1 := st.Set(id, RuleSection(rule));
      && st1.Valid() && NoDup(WithNew(st1, id, top)) && SameMembers(WithNew(st1, id, top), RuleIds(st1))
      && WithNew(st1, id, top) == if top then [id] + SortedRules(st) else SortedRules(st) + [id]
  {
    var others := SortedRules(st);
    assert NoDup(others) by {
      SelectNoDup(IsRule, st.order, st.secs);
      SortRulesNoDup(st, RuleIds(st));
    }
    SortedWithNew(st, id, rule);
    ExtendListing(others, RuleIds(st), id);
  }

  lemma PlacedOrder(st: Store, id: string, rule: Rule, top: bool)
    requires st.Valid() && id !in st.secs && rule.priority.None?
    ensures var st' := Placed(st, id, rule, top);
      && st'.Valid() && Dense(st')
      && SortedRules(st') == if top then [id] + SortedRules(st) else SortedRules(st) + [id]
  {
    var st1 := st.Set(id, RuleSection(rule));
    WithNewIsListing(st, id, rule, top);
    RenumberedListing(st1, WithNew(st1, id, top));
    RenumberedRealises(st1, WithNew(st1, id, top));
  }

  /** From any configuration, a successful add numbers the rules 1..n, the new one first or last. */
  lemma AddRuleOrder(ip: C.IpText, st: Store, id: string, a: RuleArgs, position: string)
    requires st.Valid() && id !in st.secs
    ensures var r := AddRuleSpec(ip, st, id, a, position);
      if r.1.Refused? then r.0 == st
      else
        && r.0.Valid() && Dense(r.0)
        && SortedRules(r.0) == if position == "top" then [id] + SortedRules(st) else SortedRules(st) + [id]
  {
    var checked := CheckedRule(ip, st, a, Some(position));
    if checked.Done? {
      PlacedOrder(st, id, Saved(BLANK_RULE, checked.value), position == "top");
    }
  }

  /** A successful delete numbers the rules 1..n and keeps the order of the others. */
  lemma DeleteRuleOrder(st: Store, id: string)
    requires st.Valid()
    ensures var r := DeleteRuleSpec(st, id);
      if r.1.Refused? then r.0 == st
      else r.0.Valid() && Dense(r.0) && SortedRules(r.0) == Without(SortedRules(st), id)
  {
    if RuleIn(st, id) {
      var st1 := st.Delete(id);
      DeleteValid(st, id);
      IdsDelete(st, IsRule, id);
      SortRulesCongruent(st, st1, Without(RuleIds(st), id));
      SortRulesWithout(st, RuleIds(st), id);
      SelectNoDup(IsRule, st1.order, st1.secs);
      SortRulesNoDup(st1, RuleIds(st1));
      RenumberedListing(st1, SortedRules(st1));
      RenumberedRealises(st1, SortedRules(st1));
    }
  }

  /** order_rules is accepted exactly for permutations of the rules, and realises the permutation. */
  lemma OrderRulesOrder(st: Store, order: seq<string>)
    requires st.Valid()
    ensures var r := OrderRulesSpec(st, order);
      && (r.1.Done? <==> NoDup(order) && SameMembers(order, RuleIds(st)))
      && if r.1.Refused? then r.0 == st else r.0.Valid() && Dense(r.0) && SortedRules(r.0) == order
  {
    SelectNoDup(IsRule, st.order, st.secs);
    SortRulesNoDup(st, RuleIds(st));
    if NoDup(order) && SameMembers(order, RuleIds(st)) {
      SameMembersSameLength(order, SortedRules(st));
    }
    if OrderRulesSpec(st, order).1.Done? {
      SubsetOfSameLength(order, SortedRules(st));
      RenumberedListing(st, order);
      RenumberedRealises(st, order);
    }
  }

  lemma SubsetOfSameLength(a: seq<string>, b: seq<string>)
    requires NoDup(a) && NoDup(b) && |a| == |b| && forall x :: x in a ==> x in b
    ensures SameMembers(a, b)
  {
    var s, t := set x | x in a, set x | x in b;
    NoDupSize(a);
    NoDupSize(b);
    SubsetSize(s, t);
    forall x | x in b ensures x in a {
      assert x in t;
    }
  }

  /** Edit, rename, enable and disable leave every priority and the evaluation order alone. */
  lemma SetRuleOrder(st: Store, id: string, rule: Rule)
    requires st.Valid() && RuleIn(st, id) && rule.priority == st.secs[id].rule.priority
    ensures var st' := st.Set(id, RuleSection(rule));
      st'.Valid() && SortedRules(st') == SortedRules(st) && (Dense(st) ==> Dense(st'))
  {
    var st' := st.Set(id, RuleSection(rule));
    SetValid(st, id, RuleSection(rule));
    IdsSetSame(st, IsRule, id, RuleSection(rule));
    SortRulesCongruent(st, st', RuleIds(st));
    NumberedSame(st, st', SortedRules(st));
  }

  // ----- first match

  /** How the engine reads a hand-written criteria, and the address library behind sources. */
  datatype Engine = Engine(ip: C.IpText, reading: (string, C.Flow) -> bool)

  ghost predicate Matches(e: Engine, groups: C.Groups, rule: Rule, flow: C.Flow) {
    if rule.criteria.Some? then e.reading(rule.criteria.value, flow)
    else C.RuleMatches(e.ip, groups, rule.target, flow)
  }

  ghost predicate Fires(e: Engine, st: Store, id: string, flow: C.Flow) {
    RuleIn(st, id) && st.secs[id].rule.enabled && Matches(e, Groups(st), st.secs[id].rule, flow)
  }

  /** The first rule of a list, in order, that is enabled and matches. */
  ghost function FirstOf(e: Engine, st: Store, order: seq<string>, flow: C.Flow): Option<string> {
    if order == [] then None
    else if Fires(e, st, order[0], flow) then Some(order[0])
    else FirstOf(e, st, order[1..], flow)
  }

  ghost function FirstMatch(e: Engine, st: Store, flow: C.Flow): Option<string> {
    FirstOf(e, st, SortedRules(st), flow)
  }

  lemma {:induction false} FirstOfConcat(e: Engine, st: Store, a: seq<string>, b: seq<string>, flow: C.Flow)
    ensures FirstOf(e, st, a + b, flow) ==
              if FirstOf(e, st, a, flow).Some? then FirstOf(e, st, a, flow) else FirstOf(e, st, b, flow)
  {
    if a == [] {
      assert a + b == b;
    } else {
      assert (a + b)[1..] == a[1..] + b;
      FirstOfConcat(e, st, a[1..], b, flow);
    }
  }

  lemma {:induction false} FirstOfCongruent(e: Engine, st: Store, st': Store, order: seq<string>, flow: C.Flow)
    requires forall id :: id in order ==> Fires(e, st, id, flow) == Fires(e, st', id, flow)
    ensures FirstOf(e, st, order, flow) == FirstOf(e, st', order, flow)
  {
    if order != [] {
      FirstOfCongruent(e, st, st', order[1..], flow);
    }
  }

  /** A rule that does not fire can be dropped from the list. */
  lemma {:induction false} FirstOfWithout(e: Engine, st: Store, order: seq<string>, x: string, flow: C.Flow)
    requires FirstOf(e, st, order, flow) != Some(x)
    ensures FirstOf(e, st, Without(order, x), flow) == FirstOf(e, st, order, flow)
  {
    if order != [] {
      assert order == [order[0]] + order[1..];
      WithoutConcat([order[0]], order[1..], x);
      assert [order[0]][..0] == [];
      var head := Without([order[0]], x);
      assert head == if order[0] != x then [order[0]] else [];
      FirstOfConcat(e, st, head, Without(order[1..], x), flow);
      if !Fires(e, st, order[0], flow) {
        FirstOfWithout(e, st, order[1..], x, flow);
      }
    }
  }

  /** Renumbering changes no verdict on a given list of rules. */
  lemma RenumberedFires(e: Engine, st: Store, order: seq<string>, x: string, flow: C.Flow)
    ensures Fires(e, Renumbered(st, order), x, flow) == Fires(e, st, x, flow)
  {
    RenumberedFrame(st, order);
    RenumberedListing(st, order);
    if RuleIn(st, x) {
      assert Renumbered(st, order).secs[x].rule.(priority := None) == st.secs[x].rule.(priority := None);
    }
  }

  /** Adding or removing other rules changes no rule's verdict. */
  lemma FiresFrame(e: Engine, st: Store, st1: Store, x: string, flow: C.Flow)
    requires Groups(st1) == Groups(st)
    requires RuleIn(st, x) && RuleIn(st1, x) && st1.secs[x] == st.secs[x]
    ensures Fires(e, st1, x, flow) == Fires(e, st, x, flow)
  {
  }

  lemma GroupsOfSetRule(st: Store, id: string, rule: Rule)
    requires id !in Groups(st)
    ensures Groups(st.Set(id, RuleSection(rule))) == Groups(st)
  {
  }

  lemma GroupsOfDeleteRule(st: Store, id: string)
    requires id !in Groups(st)
    ensures Groups(st.Delete(id)) == Groups(st)
  {
  }

  lemma PlacedFirstMatch(e: Engine, st: Store, id: string, rule: Rule, top: bool, flow: C.Flow)
    requires st.Valid() && id !in st.secs && rule.priority.None?
    ensures var st' := Placed(st, id, rule, top);
      var was := FirstMatch(e, st, flow);
      FirstMatch(e, st', flow) ==
        if top then (if Fires(e, st', id, flow) then Some(id) else was)
        else if was.Some? then was
        else if Fires(e, st', id, flow) then Some(id)
        else None
  {
    var st1 := st.Set(id, RuleSection(rule));
    var st', order := Placed(st, id, rule, top), SortedRules(st);
    PlacedOrder(st, id, rule, top);
    GroupsOfSetRule(st, id, rule);
    forall x | x in order ensures Fires(e, st', x, flow) == Fires(e, st, x, flow) {
      FiresFrame(e, st, st1, x, flow);
      RenumberedFires(e, st1, WithNew(st1, id, top), x, flow);
    }
    FirstOfCongruent(e, st, st', order, flow);
    FirstOfConcat(e, st', [id], order, flow);
    FirstOfConcat(e, st', order, [id], flow);
  }

  /** A rule added at the bottom decides only flows no enabled rule matched; at the top, those it matches. */
  lemma AddRuleFirstMatch(e: Engine, st: Store, id: string, a: RuleArgs, position: string, flow: C.Flow)
    requires st.Valid() && id !in st.secs
    requires AddRuleSpec(e.ip, st, id, a, position).1.Done?
    ensures var st' := AddRuleSpec(e.ip, st, id, a, position).0;
      var was := FirstMatch(e, st, flow);
      FirstMatch(e, st', flow) ==
        if position == "top" then (if Fires(e, st', id, flow) then Some(id) else was)
        else if was.Some? then was
        else if Fires(e, st', id, flow) then Some(id)
        else None
  {
    var b := CheckedRule(e.ip, st, a, Some(position)).value;
    PlacedFirstMatch(e, st, id, Saved(BLANK_RULE, b), position == "top", flow);
  }

  /** Deleting a rule changes the verdict only of flows whose first match was that rule. */
  lemma DeleteRuleFirstMatch(e: Engine, st: Store, id: string, flow: C.Flow)
    requires st.Valid() && DeleteRuleSpec(st, id).1.Done?
    ensures var st' := DeleteRuleSpec(st, id).0;
      && FirstMatch(e, st', flow) == FirstOf(e, st, Without(SortedRules(st), id), flow)
      && (FirstMatch(e, st, flow) != Some(id) ==> FirstMatch(e, st', flow) == FirstMatch(e, st, flow))
  {
    var st1, st' := st.Delete(id), Closed(st, id);
    var order := Without(SortedRules(st), id);
    DeleteRuleOrder(st, id);
    GroupsOfDeleteRule(st, id);
    forall x | x in order ensures Fires(e, st', x, flow) == Fires(e, st, x, flow) {
      FiresFrame(e, st, st1, x, flow);
      RenumberedFires(e, st1, SortedRules(st1), x, flow);
    }
    FirstOfCongruent(e, st, st', order, flow);
    if FirstMatch(e, st, flow) != Some(id) {
      FirstOfWithout(e, st, SortedRules(st), id, flow);
    }
  }

  /** Disabling a rule is, for every flow, deciding as if the rule were not listed. */
  lemma DisableRuleFirstMatch(e: Engine, st: Store, id: string, flow: C.Flow)
    requires st.Valid() && RuleIn(st, id)
    ensures var st' := SwitchRuleSpec(st, id, false).0;
      && FirstMatch(e, st', flow) == FirstOf(e, st, Without(SortedRules(st), id), flow)
      && (FirstMatch(e, st, flow) != Some(id) ==> FirstMatch(e, st', flow) == FirstMatch(e, st, flow))
  {
    var st' := SwitchRuleSpec(st, id, false).0;
    var order := SortedRules(st);
    SetRuleOrder(st, id, st.secs[id].rule.(enabled := false));
    GroupsOfSetRule(st, id, st.secs[id].rule.(enabled := false));
    FirstOfFires(e, st', order, flow);
    FirstOfWithout(e, st', order, id, flow);
    forall x | x in Without(order, id) ensures Fires(e, st', x, flow) == Fires(e, st, x, flow) {
      FiresFrame(e, st, st', x, flow);
    }
    FirstOfCongruent(e, st, st', Without(order, id), flow);
    if FirstMatch(e, st, flow) != Some(id) {
      FirstOfWithout(e, st, order, id, flow);
    }
  }

  lemma {:induction false} FirstOfFires(e: Engine, st: Store, order: seq<string>, flow: C.Flow)
    ensures FirstOf(e, st, order, flow).Some? ==> Fires(e, st, FirstOf(e, st, order, flow).value, flow)
  {
    if order != [] {
      FirstOfFires(e, st, order[1..], flow);
    }
  }
}
