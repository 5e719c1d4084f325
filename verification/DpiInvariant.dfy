/** What every run of application-group and rule operations keeps, and what it means for the criteria. */
module DpiInvariant {
  import opened Wrappers
  import opened Sequences
  import opened Text
  import opened Uci
  import opened DpiStore
  import opened DpiPriority
  import C = Criteria

  predicate GoodMembers(m: C.Members) {
    !m.Empty() && forall k, v :: v in m.Of(k) ==> CleanMember(v)
  }

  ghost predicate GoodGroups(groups: C.Groups) {
    forall id :: id in groups ==> GoodMembers(groups[id])
  }

  /** A managed rule has no criteria of its own, names existing groups or is match-all, and its sources are readable. */
  ghost predicate GoodRule(ip: C.IpText, groups: C.Groups, rule: Rule) {
    rule.managed ==>
      && rule.criteria.None?
      && C.WellGrouped(groups, rule.target)
      && forall s :: s in rule.target.source ==> C.ValidSource(ip, s)
  }

  ghost predicate Good(ip: C.IpText, st: Store) {
    && st.Valid()
    && GoodGroups(Groups(st))
    && forall id :: RuleIn(st, id) ==> GoodRule(ip, Groups(st), st.secs[id].rule)
  }

  // ----- what validation guarantees

  lemma {:induction false} CheckedMembersClean(k: C.Kind, values: seq<string>, vocabulary: Option<set<string>>)
    requires CheckedMembers(k, values, vocabulary).Done?
    ensures forall m :: m in CheckedMembers(k, values, vocabulary).value ==> CleanMember(m)
  {
    if values != [] {
      CheckedMembersClean(k, values[..|values| - 1], vocabulary);
    }
  }

  lemma CheckedGroupGood(st: Store, name: string, lists: C.Members, vocabulary: Vocabulary, except: Option<string>)
    requires CheckedGroup(st, name, lists, vocabulary, except).Done?
    ensures GoodMembers(CheckedGroup(st, name, lists, vocabulary, except).value.1)
  {
    CheckedMembersClean(C.App, lists.app, vocabulary(C.App));
    CheckedMembersClean(C.AppCategory, lists.appCategory, vocabulary(C.AppCategory));
    CheckedMembersClean(C.Proto, lists.proto, vocabulary(C.Proto));
    CheckedMembersClean(C.ProtoCategory, lists.protoCategory, vocabulary(C.ProtoCategory));
  }

  lemma CheckedRuleGood(ip: C.IpText, st: Store, a: RuleArgs, position: Option<string>, rule: Rule)
    requires Good(ip, st) && CheckedRule(ip, st, a, position).Done? && rule.criteria.None?
    ensures GoodRule(ip, Groups(st), Saved(rule, CheckedRule(ip, st, a, position).value))
  {
    CheckedSourceMeaning(ip, a.source);
    var b := CheckedRule(ip, st, a, position).value;
    forall name | name in b.appgroups ensures name in Groups(st) {
      var i :| 0 <= i < |a.appgroups| && a.appgroups[i] == name;
      assert GroupIn(st, name);
    }
    assert a.appgroups != [] ==> a.appgroups[0] in b.appgroups;
  }

  // ----- one operation

  lemma SetRuleGood(ip: C.IpText, st: Store, id: string, rule: Rule)
    requires Good(ip, st) && !GroupIn(st, id) && GoodRule(ip, Groups(st), rule)
    ensures Good(ip, st.Set(id, RuleSection(rule)))
  {
    SetValid(st, id, RuleSection(rule));
    GroupsOfSetRule(st, id, rule);
  }

  lemma RenumberedGood(ip: C.IpText, st: Store, order: seq<string>)
    requires Good(ip, st)
    ensures Good(ip, Renumbered(st, order))
  {
    var st' := Renumbered(st, order);
    RenumberedFrame(st, order);
    RenumberedListing(st, order);
    forall id | RuleIn(st', id) ensures GoodRule(ip, Groups(st'), st'.secs[id].rule) {
      assert id in st'.secs <==> id in st.secs;
      assert st'.secs[id].rule.(priority := None) == st.secs[id].rule.(priority := None);
    }
  }

  lemma DeleteRuleGood(ip: C.IpText, st: Store, id: string)
    requires Good(ip, st) && !GroupIn(st, id)
    ensures Good(ip, st.Delete(id))
  {
    DeleteValid(st, id);
    GroupsOfDeleteRule(st, id);
  }

  lemma GroupsOfSetGroup(st: Store, id: string, name: string, m: C.Members)
    ensures Groups(st.Set(id, AppGroup(name, m))) == Groups(st)[id := m]
  {
  }

  /** A rule stays good when a group is added or replaced by one with members. */
  lemma GoodRuleMoreGroups(ip: C.IpText, groups: C.Groups, id: string, m: C.Members, rule: Rule)
    requires GoodRule(ip, groups, rule) && GoodMembers(m)
    ensures GoodRule(ip, groups[id := m], rule)
  {
  }

  /** Writing a group, new or existing, with good members. */
  lemma SetGroupGood(ip: C.IpText, st: Store, id: string, name: string, m: C.Members)
    requires Good(ip, st) && !RuleIn(st, id) && GoodMembers(m)
    ensures Good(ip, st.Set(id, AppGroup(name, m)))
  {
    var st' := st.Set(id, AppGroup(name, m));
    SetValid(st, id, AppGroup(name, m));
    GroupsOfSetGroup(st, id, name, m);
    forall x | RuleIn(st', x) ensures GoodRule(ip, Groups(st'), st'.secs[x].rule) {
      assert RuleIn(st, x);
      GoodRuleMoreGroups(ip, Groups(st), id, m, st.secs[x].rule);
    }
  }

  lemma GroupsOfDeleteGroup(st: Store, id: string)
    ensures Groups(st.Delete(id)) == Groups(st) - {id}
  {
  }

  lemma NotUsed(st: Store, id: string, x: string)
    requires st.Valid() && UsersOf(st, id) == [] && RuleIn(st, x)
    ensures id !in st.secs[x].rule.target.appgroups
  {
    assert NamesGroup(id)(st.secs[x]) ==> x in UsersOf(st, id);
  }

  /** A group is deleted only when no rule names it. */
  lemma DeleteGroupGood(ip: C.IpText, st: Store, id: string)
    requires Good(ip, st) && GroupIn(st, id) && UsersOf(st, id) == []
    ensures Good(ip, st.Delete(id))
  {
    var st' := st.Delete(id);
    DeleteValid(st, id);
    GroupsOfDeleteGroup(st, id);
    forall x | RuleIn(st', x) ensures GoodRule(ip, Groups(st'), st'.secs[x].rule) {
      NotUsed(st, id, x);
    }
  }

  // ----- runs

  datatype Op =
    | AddAppgroup(newId: string, name: string, lists: C.Members, vocabulary: Vocabulary)
    | EditAppgroup(id: string, name: string, lists: C.Members, vocabulary: Vocabulary)
    | DeleteAppgroup(id: string)
    | AddRule(newId: string, args: RuleArgs, position: string)
    | EditRule(id: string, args: RuleArgs)
    | DeleteRule(id: string)
    | RenameRule(id: string, name: string)
    | SwitchRule(id: string, enabled: bool)
    | OrderRules(order: seq<string>)

  ghost function Step(ip: C.IpText, st: Store, op: Op): Store {
    match op
    case AddAppgroup(id, name, lists, vocabulary) => AddAppgroupSpec(st, id, name, lists, vocabulary).0
    case EditAppgroup(id, name, lists, vocabulary) => EditAppgroupSpec(st, id, name, lists, vocabulary).0
    case DeleteAppgroup(id) => DeleteAppgroupSpec(st, id).0
    case AddRule(id, args, position) => AddRuleSpec(ip, st, id, args, position).0
    case EditRule(id, args) => EditRuleSpec(ip, st, id, args).0
    case DeleteRule(id) => DeleteRuleSpec(st, id).0
    case RenameRule(id, name) => RenameRuleSpec(st, id, name).0
    case SwitchRule(id, enabled) => SwitchRuleSpec(st, id, enabled).0
    case OrderRules(order) => OrderRulesSpec(st, order).0
  }

  /** Generated identifiers are new. */
  predicate Fresh(st: Store, op: Op) {
    match op
    case AddAppgroup(id, _, _, _) => id !in st.secs
    case AddRule(id, _, _) => id !in st.secs
    case _ => true
  }

  lemma StepGood(ip: C.IpText, st: Store, op: Op)
    requires Good(ip, st) && Fresh(st, op)
    ensures Good(ip, Step(ip, st, op))
  {
    match op
    case AddAppgroup(id, name, lists, vocabulary) =>
      if CheckedGroup(st, name, lists, vocabulary, None).Done? {
        CheckedGroupGood(st, name, lists, vocabulary, None);
        var g := CheckedGroup(st, name, lists, vocabulary, None).value;
        SetGroupGood(ip, st, id, g.0, g.1);
      }
    case EditAppgroup(id, name, lists, vocabulary) =>
      if GroupIn(st, id) && CheckedGroup(st, name, lists, vocabulary, Some(id)).Done? {
        CheckedGroupGood(st, name, lists, vocabulary, Some(id));
        var g := CheckedGroup(st, name, lists, vocabulary, Some(id)).value;
        SetGroupGood(ip, st, id, g.0, g.1);
      }
    case DeleteAppgroup(id) =>
      if GroupIn(st, id) && UsersOf(st, id) == [] {
        DeleteGroupGood(ip, st, id);
      }
    case AddRule(id, args, position) =>
      AddRuleGood(ip, st, id, args, position);
    case EditRule(id, args) =>
      if EditRuleSpec(ip, st, id, args).1.Done? {
        CheckedRuleGood(ip, st, args, None, st.secs[id].rule);
        SetRuleGood(ip, st, id, Saved(st.secs[id].rule, CheckedRule(ip, st, args, None).value));
      }
    case DeleteRule(id) =>
      if RuleIn(st, id) {
        DeleteRuleGood(ip, st, id);
        RenumberedGood(ip, st.Delete(id), SortedRules(st.Delete(id)));
      }
    case RenameRule(id, name) =>
      if RuleIn(st, id) && CheckedName(name).Done? {
        SetRuleGood(ip, st, id, st.secs[id].rule.(name := CheckedName(name).value));
      }
    case SwitchRule(id, enabled) =>
      if RuleIn(st, id) {
        SetRuleGood(ip, st, id, st.secs[id].rule.(enabled := enabled));
      }
    case OrderRules(order) =>
      if OrderRulesSpec(st, order).1.Done? {
        RenumberedGood(ip, st, order);
      }
  }

  lemma AddRuleGood(ip: C.IpText, st: Store, id: string, a: RuleArgs, position: string)
    requires Good(ip, st) && id !in st.secs
    ensures Good(ip, AddRuleSpec(ip, st, id, a, position).0)
  {
    if CheckedRule(ip, st, a, Some(position)).Done? {
      var rule := Saved(BLANK_RULE, CheckedRule(ip, st, a, Some(position)).value);
      CheckedRuleGood(ip, st, a, Some(position), BLANK_RULE);
      SetRuleGood(ip, st, id, rule);
      var st1 := st.Set(id, RuleSection(rule));
      RenumberedGood(ip, st1, WithNew(st1, id, position == "top"));
    }
  }

  /** The store after a run of operations. */
  ghost function Run(ip: C.IpText, st: Store, ops: seq<Op>): Store {
    if ops == [] then st else Step(ip, Run(ip, st, ops[..|ops| - 1]), ops[|ops| - 1])
  }

  ghost predicate FreshRun(ip: C.IpText, st: Store, ops: seq<Op>) {
    forall i :: 0 <= i < |ops| ==> Fresh(Run(ip, st, ops[..i]), ops[i])
  }

  lemma {:induction false} RunGood(ip: C.IpText, st: Store, ops: seq<Op>)
    requires Good(ip, st) && FreshRun(ip, st, ops)
    ensures Good(ip, Run(ip, st, ops))
  {
    if ops != [] {
      var init := ops[..|ops| - 1];
      forall i | 0 <= i < |init| ensures Fresh(Run(ip, st, init[..i]), init[i]) {
        assert init[..i] == ops[..i];
      }
      RunGood(ip, st, init);
      StepGood(ip, Run(ip, st, init), ops[|ops| - 1]);
    }
  }

  lemma GoodGroupsUnquoted(groups: C.Groups, names: seq<string>)
    requires GoodGroups(groups)
    ensures C.Unquoted(groups, names)
  {
    forall name, v | name in names && name in groups && C.Holds(groups[name], v) ensures '\'' !in v {
      C.HoldsByKind(groups[name], v);
      assert CleanMember(v);
    }
  }

  /** After any run, the criteria of a managed rule is a text, and never the empty one. */
  lemma CriteriaNeverEmpty(ip: C.IpText, st: Store, ops: seq<Op>, id: string)
    requires C.Lawful(ip) && Good(ip, st) && FreshRun(ip, st, ops)
    requires RuleIn(Run(ip, st, ops), id) && Run(ip, st, ops).secs[id].rule.managed
    ensures var st' := Run(ip, st, ops);
      var text := C.BuildRuleCriteria(ip, Groups(st'), st'.secs[id].rule.target);
      text.Some? && text.value != ""
  {
    RunGood(ip, st, ops);
    C.WellGroupedNotEmpty(ip, Groups(Run(ip, st, ops)), Run(ip, st, ops).secs[id].rule.target);
  }

  /**
   After any run, the criteria of a managed rule is the print of an expression that is true of exactly
   the flows the rule matches. It reads back as that expression exactly when no source but a range
   holds a blank or a closing parenthesis, which the validation of sources does not ensure; the engine then
   matches exactly those flows.
   */
  lemma CriteriaAfterRun(e: Engine, st: Store, ops: seq<Op>, id: string, flow: C.Flow)
    requires C.Lawful(e.ip) && Good(e.ip, st) && FreshRun(e.ip, st, ops) && C.Reported(flow)
    requires RuleIn(Run(e.ip, st, ops), id) && Run(e.ip, st, ops).secs[id].rule.managed
    ensures var st' := Run(e.ip, st, ops);
      var rule := st'.secs[id].rule;
      var compiled := C.Compiled(e.ip, Groups(st'), rule.target);
      && compiled.Some?
      && C.BuildRuleCriteria(e.ip, Groups(st'), rule.target) == Some(C.Print(compiled.value))
      && (C.Eval(e.ip, compiled.value, flow) <==> Matches(e, Groups(st'), rule, flow))
      && (C.Read(C.Print(compiled.value)) == compiled <==> C.BareSources(rule.target.source))
      && (C.BareSources(rule.target.source) ==>
        C.ReadAs(e.ip, C.BuildRuleCriteria(e.ip, Groups(st'), rule.target), flow, Matches(e, Groups(st'), rule, flow)))
  {
    RunGood(e.ip, st, ops);
    var st' := Run(e.ip, st, ops);
    var target := st'.secs[id].rule.target;
    GoodGroupsUnquoted(Groups(st'), target.appgroups);
    C.CriteriaMeaning(e.ip, Groups(st'), target, flow);
  }
}
