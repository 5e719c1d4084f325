/** What runs of operations do to the evaluation order, the priorities and the names of groups. */
module DpiRuns {
  import opened Wrappers
  import opened Sequences
  import opened Text
  import opened Uci
  import opened DpiStore
  import opened DpiPriority
  import opened DpiInvariant
  import C = Criteria

  // ----- the evaluation order

  /** The operation is not refused. */
  ghost predicate Accepted(ip: C.IpText, st: Store, op: Op) {
    match op
    case AddAppgroup(id, name, lists, vocabulary) => AddAppgroupSpec(st, id, name, lists, vocabulary).1.Done?
    case EditAppgroup(id, name, lists, vocabulary) => EditAppgroupSpec(st, id, name, lists, vocabulary).1.Done?
    case DeleteAppgroup(id) => DeleteAppgroupSpec(st, id).1.Done?
    case AddRule(id, args, position) => AddRuleSpec(ip, st, id, args, position).1.Done?
    case EditRule(id, args) => EditRuleSpec(ip, st, id, args).1.Done?
    case DeleteRule(id) => DeleteRuleSpec(st, id).1.Done?
    case RenameRule(id, name) => RenameRuleSpec(st, id, name).1.Done?
    case SwitchRule(id, enabled) => SwitchRuleSpec(st, id, enabled).1.Done?
    case OrderRules(order) => OrderRulesSpec(st, order).1.Done?
  }

  /** The evaluation order of a store, and whether its priorities are 1..n. */
  datatype View = View(order: seq<string>, dense: bool)

  ghost function ViewOf(st: Store): View {
    View(SortedRules(st), Dense(st))
  }

  /** What an accepted operation does to a plain list of rules; it numbers them whenever it changes the list. */
  function Next(op: Op, v: View): View {
    match op
    case AddRule(id, _, position) => View(if position == "top" then [id] + v.order else v.order + [id], true)
    case DeleteRule(id) => View(Without(v.order, id), true)
    case OrderRules(order) => View(order, true)
    case _ => v
  }

  function NextIf(accepted: bool, op: Op, v: View): View {
    if accepted then Next(op, v) else v
  }

  predicate Renumbers(op: Op) {
    op.AddRule? || op.DeleteRule? || op.OrderRules?
  }

  /** The two stores have the same rules in file order, with the same priorities. */
  lemma SameRulesSameView(st: Store, st': Store)
    requires RuleIds(st') == RuleIds(st)
    requires forall x :: RuleIn(st, x) == RuleIn(st', x) && Priority(st, x) == Priority(st', x)
    ensures ViewOf(st') == ViewOf(st)
  {
    SortRulesCongruent(st, st', RuleIds(st));
    NumberedSame(st, st', SortedRules(st));
  }

  lemma SetGroupView(st: Store, id: string, name: string, m: C.Members)
    requires st.Valid() && !RuleIn(st, id)
    ensures ViewOf(st.Set(id, AppGroup(name, m))) == ViewOf(st)
  {
    var group := AppGroup(name, m);
    if id in st.secs {
      IdsSetSame(st, IsRule, id, group);
    } else {
      IdsSetNew(st, IsRule, id, group);
      assert RuleIds(st) + [] == RuleIds(st);
    }
    SameRulesSameView(st, st.Set(id, group));
  }

  lemma DeleteGroupView(st: Store, id: string)
    requires st.Valid() && !RuleIn(st, id)
    ensures ViewOf(st.Delete(id)) == ViewOf(st)
  {
    IdsDelete(st, IsRule, id);
    WithoutAbsent(RuleIds(st), id);
    SameRulesSameView(st, st.Delete(id));
  }

  lemma SetRuleView(st: Store, id: string, rule: Rule)
    requires st.Valid() && RuleIn(st, id) && rule.priority == st.secs[id].rule.priority
    ensures ViewOf(st.Set(id, RuleSection(rule))) == ViewOf(st)
  {
    IdsSetSame(st, IsRule, id, RuleSection(rule));
    SameRulesSameView(st, st.Set(id, RuleSection(rule)));
  }

  // One lemma for the specification of each operation.

  lemma AddAppgroupView(st: Store, id: string, name: string, lists: C.Members, vocabulary: Vocabulary)
    requires st.Valid() && id !in st.secs
    ensures AddAppgroupSpec(st, id, name, lists, vocabulary).0.Valid()
    ensures ViewOf(AddAppgroupSpec(st, id, name, lists, vocabulary).0) == ViewOf(st)
  {
    var checked := CheckedGroup(st, name, lists, vocabulary, None);
    if checked.Done? {
      SetValid(st, id, AppGroup(checked.value.0, checked.value.1));
      SetGroupView(st, id, checked.value.0, checked.value.1);
    }
  }

  lemma EditAppgroupView(st: Store, id: string, name: string, lists: C.Members, vocabulary: Vocabulary)
    requires st.Valid()
    ensures EditAppgroupSpec(st, id, name, lists, vocabulary).0.Valid()
    ensures ViewOf(EditAppgroupSpec(st, id, name, lists, vocabulary).0) == ViewOf(st)
  {
    var checked := CheckedGroup(st, name, lists, vocabulary, Some(id));
    if GroupIn(st, id) && checked.Done? {
      SetValid(st, id, AppGroup(checked.value.0, checked.value.1));
      SetGroupView(st, id, checked.value.0, checked.value.1);
    }
  }

  lemma DeleteAppgroupView(st: Store, id: string)
    requires st.Valid()
    ensures DeleteAppgroupSpec(st, id).0.Valid() && ViewOf(DeleteAppgroupSpec(st, id).0) == ViewOf(st)
  {
    if GroupIn(st, id) {
      DeleteValid(st, id);
      DeleteGroupView(st, id);
    }
  }

  lemma EditRuleView(ip: C.IpText, st: Store, id: string, args: RuleArgs)
    requires st.Valid()
    ensures EditRuleSpec(ip, st, id, args).0.Valid() && ViewOf(EditRuleSpec(ip, st, id, args).0) == ViewOf(st)
  {
    if EditRuleSpec(ip, st, id, args).1.Done? {
      var rule := Saved(st.secs[id].rule, CheckedRule(ip, st, args, None).value);
      SetValid(st, id, RuleSection(rule));
      SetRuleView(st, id, rule);
    }
  }

  lemma RenameRuleView(st: Store, id: string, name: string)
    requires st.Valid()
    ensures RenameRuleSpec(st, id, name).0.Valid() && ViewOf(RenameRuleSpec(st, id, name).0) == ViewOf(st)
  {
    if RuleIn(st, id) && CheckedName(name).Done? {
      var rule := st.secs[id].rule.(name := CheckedName(name).value);
      SetValid(st, id, RuleSection(rule));
      SetRuleView(st, id, rule);
    }
  }

  lemma SwitchRuleView(st: Store, id: string, enabled: bool)
    requires st.Valid()
    ensures SwitchRuleSpec(st, id, enabled).0.Valid() && ViewOf(SwitchRuleSpec(st, id, enabled).0) == ViewOf(st)
  {
    if RuleIn(st, id) {
      var rule := st.secs[id].rule.(enabled := enabled);
      SetValid(st, id, RuleSection(rule));
      SetRuleView(st, id, rule);
    }
  }

  lemma PlacedView(st: Store, id: string, rule: Rule, top: bool)
    requires st.Valid() && id !in st.secs && rule.priority.None?
    ensures ViewOf(Placed(st, id, rule, top)) ==
              View(if top then [id] + SortedRules(st) else SortedRules(st) + [id], true)
  {
    PlacedOrder(st, id, rule, top);
  }

  lemma ClosedView(st: Store, id: string)
    requires st.Valid() && RuleIn(st, id)
    ensures ViewOf(Closed(st, id)) == View(Without(SortedRules(st), id), true)
  {
    DeleteRuleOrder(st, id);
  }

  lemma OrderedView(st: Store, order: seq<string>)
    requires st.Valid() && OrderRulesSpec(st, order).1.Done?
    ensures ViewOf(OrderRulesSpec(st, order).0) == View(order, true)
  {
    OrderRulesOrder(st, order);
  }

  lemma RenumberStepView(ip: C.IpText, st: Store, op: Op)
    requires st.Valid() && Fresh(st, op) && Renumbers(op) && Accepted(ip, st, op)
    ensures ViewOf(Step(ip, st, op)) == Next(op, ViewOf(st))
  {
    match op
    case AddRule(id, args, position) =>
      PlacedView(st, id, Saved(BLANK_RULE, CheckedRule(ip, st, args, Some(position)).value), position == "top");
    case DeleteRule(id) => ClosedView(st, id);
    case OrderRules(order) => OrderedView(st, order);
  }

  lemma RenumberStepValid(ip: C.IpText, st: Store, op: Op)
    requires st.Valid() && Fresh(st, op) && Renumbers(op) && Accepted(ip, st, op)
    ensures Step(ip, st, op).Valid()
  {
    match op
    case AddRule(id, args, position) => AddRuleOrder(ip, st, id, args, position);
    case DeleteRule(id) => DeleteRuleOrder(st, id);
    case OrderRules(order) => OrderRulesOrder(st, order);
  }

  lemma GroupStepView(ip: C.IpText, st: Store, op: Op)
    requires st.Valid() && Fresh(st, op) && (op.AddAppgroup? || op.EditAppgroup? || op.DeleteAppgroup?)
    ensures Step(ip, st, op).Valid() && ViewOf(Step(ip, st, op)) == ViewOf(st)
  {
    match op
    case AddAppgroup(id, name, lists, vocabulary) => AddAppgroupView(st, id, name, lists, vocabulary);
    case EditAppgroup(id, name, lists, vocabulary) => EditAppgroupView(st, id, name, lists, vocabulary);
    case DeleteAppgroup(id) => DeleteAppgroupView(st, id);
  }

  lemma RewriteStepView(ip: C.IpText, st: Store, op: Op)
    requires st.Valid() && (op.EditRule? || op.RenameRule? || op.SwitchRule?)
    ensures Step(ip, st, op).Valid() && ViewOf(Step(ip, st, op)) == ViewOf(st)
  {
    match op
    case EditRule(id, args) => EditRuleView(ip, st, id, args);
    case RenameRule(id, name) => RenameRuleView(st, id, name);
    case SwitchRule(id, enabled) => SwitchRuleView(st, id, enabled);
  }

  /** A refused operation changes nothing. */
  lemma RefusedStep(ip: C.IpText, st: Store, op: Op)
    requires !Accepted(ip, st, op)
    ensures Step(ip, st, op) == st
  {
  }

  /** Every operation does to the evaluation order what it does to a plain list; changing the list numbers the rules. */
  lemma StepView(ip: C.IpText, st: Store, op: Op)
    requires st.Valid() && Fresh(st, op)
    ensures Step(ip, st, op).Valid()
    ensures ViewOf(Step(ip, st, op)) == NextIf(Accepted(ip, st, op), op, ViewOf(st))
  {
    if !Accepted(ip, st, op) {
      RefusedStep(ip, st, op);
    } else if Renumbers(op) {
      RenumberStepValid(ip, st, op);
      RenumberStepView(ip, st, op);
    } else if op.EditRule? || op.RenameRule? || op.SwitchRule? {
      RewriteStepView(ip, st, op);
    } else {
      GroupStepView(ip, st, op);
    }
  }

  /** The view after a run, which only the accepted operations change. */
  ghost function ViewAfter(ip: C.IpText, st: Store, ops: seq<Op>): View {
    if ops == [] then ViewOf(st)
    else
      var n := |ops| - 1;
      NextIf(Accepted(ip, Run(ip, st, ops[..n]), ops[n]), ops[n], ViewAfter(ip, st, ops[..n]))
  }

  /** Some operation of the run was accepted and renumbered the rules. */
  ghost predicate SomeRenumbering(ip: C.IpText, st: Store, ops: seq<Op>) {
    if ops == [] then false
    else
      var n := |ops| - 1;
      SomeRenumbering(ip, st, ops[..n]) || (Renumbers(ops[n]) && Accepted(ip, Run(ip, st, ops[..n]), ops[n]))
  }

  lemma FreshRunPrefix(ip: C.IpText, st: Store, ops: seq<Op>)
    requires FreshRun(ip, st, ops) && ops != []
    ensures FreshRun(ip, st, ops[..|ops| - 1])
    ensures Fresh(Run(ip, st, ops[..|ops| - 1]), ops[|ops| - 1])
  {
    var init := ops[..|ops| - 1];
    forall i | 0 <= i < |init| ensures Fresh(Run(ip, st, init[..i]), init[i]) {
      assert init[..i] == ops[..i];
    }
  }

  /** Over every run the evaluation order is the plain list that the accepted operations make. */
  lemma {:induction false} RunView(ip: C.IpText, st: Store, ops: seq<Op>)
    requires st.Valid() && FreshRun(ip, st, ops)
    ensures Run(ip, st, ops).Valid() && ViewOf(Run(ip, st, ops)) == ViewAfter(ip, st, ops)
  {
    if ops != [] {
      var n := |ops| - 1;
      FreshRunPrefix(ip, st, ops);
      RunView(ip, st, ops[..n]);
      StepView(ip, Run(ip, st, ops[..n]), ops[n]);
    }
  }

  lemma NextDense(op: Op, accepted: bool, v: View)
    ensures NextIf(accepted, op, v).dense <==> v.dense || (Renumbers(op) && accepted)
  {
  }

  lemma {:induction false} ViewDense(ip: C.IpText, st: Store, ops: seq<Op>)
    ensures ViewAfter(ip, st, ops).dense <==> ViewOf(st).dense || SomeRenumbering(ip, st, ops)
  {
    if ops != [] {
      var n := |ops| - 1;
      ViewDense(ip, st, ops[..n]);
      NextDense(ops[n], Accepted(ip, Run(ip, st, ops[..n]), ops[n]), ViewAfter(ip, st, ops[..n]));
    }
  }

  /**
   After a run the priorities are 1..n exactly when they were at the start, or an addition, a deletion or an
   order was accepted on the way.
   */
  lemma RunDenseIff(ip: C.IpText, st: Store, ops: seq<Op>)
    requires st.Valid() && FreshRun(ip, st, ops)
    ensures Dense(Run(ip, st, ops)) <==> Dense(st) || SomeRenumbering(ip, st, ops)
  {
    RunView(ip, st, ops);
    ViewDense(ip, st, ops);
  }

  // ----- the names of groups

  /** A name as two of them are compared. */
  function Folded(name: string): string {
    Lower(Strip(IsSpace, name))
  }

  /** No two groups have the same name, up to case and blanks at the ends. */
  ghost predicate DistinctNames(st: Store) {
    forall a, b :: GroupIn(st, a) && GroupIn(st, b) && Folded(st.secs[a].name) == Folded(st.secs[b].name) ==> a == b
  }

  lemma CheckedGroupNew(st: Store, name: string, lists: C.Members, vocabulary: Vocabulary, except: Option<string>)
    requires CheckedGroup(st, name, lists, vocabulary, except).Done?
    ensures var n := CheckedGroup(st, name, lists, vocabulary, except).value.0;
      Folded(n) == Lower(n) && !NameTaken(st, n, except)
  {
    StripTrims(IsSpace, name);
    StripIdentity(IsSpace, Strip(IsSpace, name));
  }

  lemma SetGroupNames(st: Store, id: string, name: string, m: C.Members, except: Option<string>)
    requires DistinctNames(st) && (except == Some(id) || (except == None && id !in st.secs))
    requires Folded(name) == Lower(name) && !NameTaken(st, name, except)
    ensures DistinctNames(st.Set(id, AppGroup(name, m)))
  {
    var st' := st.Set(id, AppGroup(name, m));
    forall a | GroupIn(st', a) && a != id ensures Folded(st'.secs[a].name) != Folded(name) {
      assert st'.secs[a] == st.secs[a] && Some(a) != except;
    }
  }

  /** The groups of the second store are groups of the first one, with the same names. */
  lemma FewerGroupsNames(st: Store, st': Store)
    requires DistinctNames(st)
    requires forall id :: GroupIn(st', id) ==> GroupIn(st, id) && st'.secs[id].name == st.secs[id].name
    ensures DistinctNames(st')
  {
  }

  lemma RenumberedGroups(st: Store, order: seq<string>)
    ensures forall id :: GroupIn(Renumbered(st, order), id) ==>
        GroupIn(st, id) && Renumbered(st, order).secs[id] == st.secs[id]
  {
    RenumberedFrame(st, order);
  }

  lemma AddRuleNames(ip: C.IpText, st: Store, id: string, args: RuleArgs, position: string)
    requires DistinctNames(st) && id !in st.secs
    ensures DistinctNames(AddRuleSpec(ip, st, id, args, position).0)
  {
    if CheckedRule(ip, st, args, Some(position)).Done? {
      var st1 := st.Set(id, RuleSection(Saved(BLANK_RULE, CheckedRule(ip, st, args, Some(position)).value)));
      RenumberedGroups(st1, WithNew(st1, id, position == "top"));
      FewerGroupsNames(st, AddRuleSpec(ip, st, id, args, position).0);
    }
  }

  lemma RuleStepNames(ip: C.IpText, st: Store, op: Op)
    requires DistinctNames(st) && Fresh(st, op) && !op.AddAppgroup? && !op.EditAppgroup? && !op.AddRule?
    ensures DistinctNames(Step(ip, st, op))
  {
    if op.DeleteRule? {
      RenumberedGroups(st.Delete(op.id), SortedRules(st.Delete(op.id)));
    } else if op.OrderRules? {
      RenumberedGroups(st, op.order);
    }
    FewerGroupsNames(st, Step(ip, st, op));
  }

  lemma StepNames(ip: C.IpText, st: Store, op: Op)
    requires DistinctNames(st) && Fresh(st, op)
    ensures DistinctNames(Step(ip, st, op))
  {
    match op
    case AddAppgroup(id, name, lists, vocabulary) =>
      if CheckedGroup(st, name, lists, vocabulary, None).Done? {
        CheckedGroupNew(st, name, lists, vocabulary, None);
        var g := CheckedGroup(st, name, lists, vocabulary, None).value;
        SetGroupNames(st, id, g.0, g.1, None);
      }
    case EditAppgroup(id, name, lists, vocabulary) =>
      if GroupIn(st, id) && CheckedGroup(st, name, lists, vocabulary, Some(id)).Done? {
        CheckedGroupNew(st, name, lists, vocabulary, Some(id));
        var g := CheckedGroup(st, name, lists, vocabulary, Some(id)).value;
        SetGroupNames(st, id, g.0, g.1, Some(id));
      }
    case AddRule(id, args, position) =>
      AddRuleNames(ip, st, id, args, position);
    case _ =>
      RuleStepNames(ip, st, op);
  }

  /** Over every run no two groups get the same name. */
  lemma {:induction false} RunNames(ip: C.IpText, st: Store, ops: seq<Op>)
    requires DistinctNames(st) && FreshRun(ip, st, ops)
    ensures DistinctNames(Run(ip, st, ops))
  {
    if ops != [] {
      FreshRunPrefix(ip, st, ops);
      RunNames(ip, st, ops[..|ops| - 1]);
      StepNames(ip, Run(ip, st, ops[..|ops| - 1]), ops[|ops| - 1]);
    }
  }
}
