/**
 What the operations on rules and groups promise their callers, in the terms of the interface: when a
 request is accepted, what is stored then, and what stays as it was.
 */
module DpiRuleLaws {
  import opened Wrappers
  import opened Sequences
  import opened Text
  import opened Uci
  import opened DpiStore
  import opened DpiPriority
  import C = Criteria

  // ----- texts and lists

  function Stripped(values: seq<string>): (r: seq<string>)
    ensures |r| == |values| && forall i :: 0 <= i < |values| ==> r[i] == Strip(IsSpace, values[i])
  {
    seq(|values|, i requires 0 <= i < |values| => Strip(IsSpace, values[i]))
  }

  /** A name of a rule or a group: something besides blanks, at most 64 characters without them. */
  predicate NameOk(name: string) {
    1 <= |Strip(IsSpace, name)| <= 64
  }

  predicate ActionOk(action: string) {
    action in ["block", "allow"]
  }

  /** Every entry is an address, a network or a range once blanks are off. */
  predicate SourceOk(ip: C.IpText, source: seq<string>) {
    forall v :: v in source ==> Strip(IsSpace, v) != "" && C.ValidSource(ip, Strip(IsSpace, v))
  }

  /** Match-all or at least one group, not both, and every group exists. */
  predicate GroupsOk(st: Store, appgroups: seq<string>, matchAll: bool) {
    && matchAll == (appgroups == [])
    && forall g :: g in appgroups ==> g in st.secs && st.secs[g].AppGroup?
  }

  predicate ArgsOk(ip: C.IpText, st: Store, a: RuleArgs) {
    NameOk(a.name) && ActionOk(a.action) && SourceOk(ip, a.source) && GroupsOk(st, a.appgroups, a.matchAll)
  }

  lemma CheckedNameIff(name: string)
    ensures CheckedName(name).Done? <==> NameOk(name)
    ensures CheckedName(name).Done? ==> CheckedName(name).value == Strip(IsSpace, name)
  {
  }

  /** An accepted source list is stored without blanks and without repetition, in order of first mention. */
  lemma {:induction false} CheckedSourceIs(ip: C.IpText, values: seq<string>)
    requires CheckedSource(ip, values).Done?
    ensures CheckedSource(ip, values).value == Dedup(Stripped(values))
  {
    if values != [] {
      var init, last := values[..|values| - 1], values[|values| - 1];
      CheckedSourceIs(ip, init);
      assert Stripped(values) == Stripped(init) + [Strip(IsSpace, last)];
      DedupSnoc(Stripped(init), Strip(IsSpace, last));
    } else {
      assert Stripped(values) == [];
    }
  }

  lemma AllGroupsIff(st: Store, names: seq<string>)
    ensures AllGroups(st, names) <==> forall g :: g in names ==> g in st.secs && st.secs[g].AppGroup?
  {
  }

  lemma CheckedRuleIff(ip: C.IpText, st: Store, a: RuleArgs, position: Option<string>)
    ensures CheckedRule(ip, st, a, position).Done? <==>
              ArgsOk(ip, st, a) && (position.Some? ==> position.value in ["top", "bottom"])
    ensures CheckedRule(ip, st, a, position).Done? ==>
              CheckedRule(ip, st, a, position).value ==
                RuleArgs(Strip(IsSpace, a.name), a.enabled, a.action, Dedup(Stripped(a.source)), Dedup(a.appgroups),
                         a.matchAll)
  {
    CheckedNameIff(a.name);
    CheckedSourceAccepts(ip, a.source);
    AllGroupsIff(st, a.appgroups);
    if CheckedSource(ip, a.source).Done? {
      CheckedSourceIs(ip, a.source);
    }
  }

  // ----- rules

  /** The target that a request stands for. */
  function Target(a: RuleArgs): C.Rule {
    C.Rule(Dedup(a.appgroups), Dedup(Stripped(a.source)), a.matchAll)
  }

  /** The same sections but for one, the rules among them up to their priority. */
  ghost predicate OthersKept(st: Store, st': Store, id: string) {
    && (forall x :: x != id ==> (x in st'.secs <==> x in st.secs))
    && forall x :: x != id && x in st.secs ==>
      if st.secs[x].RuleSection? then
        st'.secs[x].RuleSection? && st'.secs[x].rule.(priority := None) == st.secs[x].rule.(priority := None)
      else st'.secs[x] == st.secs[x]
  }

  lemma RenumberedOthers(st: Store, order: seq<string>, x: string)
    ensures x in Renumbered(st, order).secs <==> x in st.secs
    ensures x in st.secs ==>
      if st.secs[x].RuleSection? then
        && Renumbered(st, order).secs[x].RuleSection?
        && Renumbered(st, order).secs[x].rule.(priority := None) == st.secs[x].rule.(priority := None)
      else Renumbered(st, order).secs[x] == st.secs[x]
  {
    RenumberedFrame(st, order);
    assert RuleIn(st, x) ==> RuleIn(Renumbered(st, order), x);
  }

  lemma PlacedStores(st: Store, id: string, rule: Rule, top: bool)
    requires id !in st.secs
    ensures var st' := Placed(st, id, rule, top);
      && RuleIn(st', id) && OthersKept(st, st', id)
      && st'.secs[id].rule.(priority := None) == rule.(priority := None)
  {
    var st1 := st.Set(id, RuleSection(rule));
    SetOthers(st, id, RuleSection(rule));
    RenumberedKept(st1, WithNew(st1, id, top), id);
    RenumberedOthers(st1, WithNew(st1, id, top), id);
    KeptTwice(st, st1, Placed(st, id, rule, top), id);
  }

  lemma SetOthers(st: Store, id: string, s: Section)
    ensures OthersKept(st, st.Set(id, s), id)
  {
  }

  lemma RenumberedKept(st: Store, order: seq<string>, id: string)
    ensures OthersKept(st, Renumbered(st, order), id)
  {
    forall x {
      RenumberedOthers(st, order, x);
    }
  }

  lemma KeptTwice(a: Store, b: Store, c: Store, id: string)
    requires OthersKept(a, b, id) && OthersKept(b, c, id)
    ensures OthersKept(a, c, id)
  {
  }

  /**
   A rule is added exactly if its name, action, position, source and groups are as they should be. It is
   then stored with just what was asked for, managed by the interface; the others change in priority only.
   */
  lemma AddRuleIff(ip: C.IpText, st: Store, id: string, a: RuleArgs, position: string)
    requires st.Valid() && id !in st.secs
    ensures var (st', reply) := AddRuleSpec(ip, st, id, a, position);
      && (reply == Done(id) <==> ArgsOk(ip, st, a) && position in ["top", "bottom"])
      && (reply.Refused? ==> st' == st)
      && (reply.Done? ==>
            && RuleIn(st', id) && OthersKept(st, st', id)
            && st'.secs[id].rule.(priority := None) ==
              Rule(Strip(IsSpace, a.name), true, a.enabled, a.action, Target(a), None, None,
                   Legacy(None, None, None, None, false, false)))
  {
    CheckedRuleIff(ip, st, a, Some(position));
    var checked := CheckedRule(ip, st, a, Some(position));
    if checked.Done? {
      PlacedStores(st, id, Saved(BLANK_RULE, checked.value), position == "top");
    }
  }

  /** A managed rule is rewritten the same way; its priority and a criteria of its own stay. */
  lemma EditRuleIff(ip: C.IpText, st: Store, id: string, a: RuleArgs)
    ensures var (st', reply) := EditRuleSpec(ip, st, id, a);
      && (reply == Done(id) <==> RuleIn(st, id) && st.secs[id].rule.managed && ArgsOk(ip, st, a))
      && (reply.Refused? ==> st' == st)
      && (reply.Done? ==>
            var was := st.secs[id].rule;
            && st'.order == st.order
            && st'.secs == st.secs[id := RuleSection(
              Rule(Strip(IsSpace, a.name), true, a.enabled, a.action, Target(a), was.criteria, was.priority,
                   was.legacy))])
  {
    CheckedRuleIff(ip, st, a, None);
  }

  lemma DeleteRuleIff(st: Store, id: string)
    requires st.Valid()
    ensures var (st', reply) := DeleteRuleSpec(st, id);
      && (reply == Done(id) <==> RuleIn(st, id))
      && (reply.Refused? ==> st' == st)
      && (reply.Done? ==> id !in st'.secs && OthersKept(st, st', id))
  {
    var st1 := st.Delete(id);
    RenumberedKept(st1, SortedRules(st1), id);
    RenumberedOthers(st1, SortedRules(st1), id);
  }

  /** A rule with other values for its name and for whether it is enabled. */
  ghost predicate Relabelled(st: Store, st': Store, id: string, name: string, enabled: bool)
    requires RuleIn(st, id)
  {
    var was := st.secs[id].rule;
    && st'.order == st.order
    && st'.secs == st.secs[id := RuleSection(
      Rule(name, was.managed, enabled, was.action, was.target, was.criteria, was.priority, was.legacy))]
  }

  lemma RelabelIff(st: Store, id: string, name: string, enabled: bool)
    ensures var (st', reply) := RenameRuleSpec(st, id, name);
      && (reply == Done(id) <==> RuleIn(st, id) && NameOk(name))
      && (reply.Refused? ==> st' == st)
      && (reply.Done? ==> Relabelled(st, st', id, Strip(IsSpace, name), st.secs[id].rule.enabled))
    ensures var (st', reply) := SwitchRuleSpec(st, id, enabled);
      && (reply == Done(id) <==> RuleIn(st, id))
      && (reply.Refused? ==> st' == st)
      && (reply.Done? ==> Relabelled(st, st', id, st.secs[id].rule.name, enabled))
  {
    CheckedNameIff(name);
  }

  /** The first reason that applies, in the order in which the interface looks for one. */
  lemma WhyRuleRefused(ip: C.IpText, st: Store, id: string, a: RuleArgs, position: string)
    requires AddRuleSpec(ip, st, id, a, position).1.Refused?
    ensures AddRuleSpec(ip, st, id, a, position).1.why ==
              if Strip(IsSpace, a.name) == "" then NameRequired
              else if !NameOk(a.name) then NameTooLong
              else if !ActionOk(a.action) then InvalidAction
              else if position !in ["top", "bottom"] then InvalidPosition
              else if !SourceOk(ip, a.source) then InvalidSource
              else if exists g :: g in a.appgroups && !GroupIn(st, g) then AppgroupDoesNotExist
              else if a.matchAll then AppgroupsNotAllowedWithMatchAll
              else AppgroupsRequired
  {
    CheckedNameIff(a.name);
    CheckedSourceAccepts(ip, a.source);
    CheckedSourceWhy(ip, a.source);
    AllGroupsIff(st, a.appgroups);
  }

  lemma {:induction false} CheckedSourceWhy(ip: C.IpText, values: seq<string>)
    ensures CheckedSource(ip, values).Refused? ==> CheckedSource(ip, values).why == InvalidSource
  {
    if values != [] {
      CheckedSourceWhy(ip, values[..|values| - 1]);
    }
  }

  /** Enabling a rule hands it exactly the flows that it matches and no enabled rule before it does. */
  lemma EnableRuleFirstMatch(e: Engine, st: Store, id: string, before: seq<string>, after: seq<string>, flow: C.Flow)
    requires st.Valid() && RuleIn(st, id) && SortedRules(st) == before + [id] + after
    requires id !in before && id !in after
    ensures var st' := SwitchRuleSpec(st, id, true).0;
      FirstMatch(e, st', flow) ==
        if FirstOf(e, st, before, flow).Some? then FirstOf(e, st, before, flow)
        else if Matches(e, Groups(st), st.secs[id].rule, flow) then Some(id)
        else FirstOf(e, st, after, flow)
  {
    var rule := st.secs[id].rule.(enabled := true);
    var st' := SwitchRuleSpec(st, id, true).0;
    SetRuleOrder(st, id, rule);
    GroupsOfSetRule(st, id, rule);
    forall x | x in before + after ensures Fires(e, st', x, flow) == Fires(e, st, x, flow) {
      assert x != id;
    }
    FirstOfCongruent(e, st, st', before, flow);
    FirstOfCongruent(e, st, st', after, flow);
    FirstOfConcat(e, st', before + [id], after, flow);
    FirstOfConcat(e, st', before, [id], flow);
    assert [id][1..] == [];
  }

  // ----- groups

  /** A member that can stand in a quoted literal: not empty, no quote, backslash, semicolon, parenthesis or control. */
  predicate MemberOk(m: string) {
    m != "" && forall i :: 0 <= i < |m| ==> (m[i] as int) !in [39, 34, 92, 59, 40, 41, 10, 13, 9]
  }

  predicate MembersOk(values: seq<string>, vocabulary: Option<set<string>>) {
    forall v :: v in values ==>
      MemberOk(Strip(IsSpace, v)) && (vocabulary.Some? ==> Lower(Strip(IsSpace, v)) in vocabulary.value)
  }

  /** The members that are kept: of every member the spelling that comes first. */
  ghost predicate FirstSpellings(values: seq<string>, members: seq<string>) {
    && (forall i, j :: 0 <= i < j < |members| ==> Lower(members[i]) != Lower(members[j]))
    && (forall v :: v in values ==> exists m :: m in members && Lower(m) == Lower(Strip(IsSpace, v)))
    && forall m :: m in members ==> exists i: nat :: i < |values| && IsFirstSpelling(values, m, i)
  }

  predicate IsFirstSpelling(values: seq<string>, m: string, i: nat)
    requires i < |values|
  {
    m == Strip(IsSpace, values[i]) && forall j :: 0 <= j < i ==> Lower(Strip(IsSpace, values[j])) != Lower(m)
  }

  lemma MemberOkIff(m: string)
    ensures MemberOk(m) <==> CleanMember(m)
  {
    forall i | 0 <= i < |m| ensures (m[i] as int) in [39, 34, 92, 59, 40, 41, 10, 13, 9] <==> Forbidden(m[i]) {
      ForbiddenCode(m[i]);
    }
  }

  lemma ForbiddenCode(c: char)
    ensures (c as int) in [39, 34, 92, 59, 40, 41, 10, 13, 9] <==> Forbidden(c)
  {
  }

  lemma {:induction false} CheckedMembersIff(k: C.Kind, values: seq<string>, vocabulary: Option<set<string>>)
    ensures CheckedMembers(k, values, vocabulary).Done? <==> MembersOk(values, vocabulary)
    ensures CheckedMembers(k, values, vocabulary).Refused? ==>
        CheckedMembers(k, values, vocabulary).why == InvalidMember(k)
  {
    if values != [] {
      var init, last := values[..|values| - 1], values[|values| - 1];
      assert values == init + [last];
      CheckedMembersIff(k, init, vocabulary);
      MemberOkIff(Strip(IsSpace, last));
      assert MembersOk(values, vocabulary) <==>
        MembersOk(init, vocabulary) && KnownMember(Strip(IsSpace, last), vocabulary);
    }
  }

  lemma FirstSpellingSnoc(init: seq<string>, last: string, m: string, i: nat)
    requires i < |init|
    ensures IsFirstSpelling(init + [last], m, i) <==> IsFirstSpelling(init, m, i)
  {
    assert forall j :: 0 <= j < |init| ==> (init + [last])[j] == init[j];
  }

  lemma SpelledBefore(init: seq<string>, members: seq<string>, last: string)
    requires FirstSpellings(init, members)
    requires exists e :: e in members && Lower(e) == Lower(Strip(IsSpace, last))
    ensures FirstSpellings(init + [last], members)
  {
    forall m | m in members ensures exists i: nat :: i < |init + [last]| && IsFirstSpelling(init + [last], m, i) {
      var i: nat :| i < |init| && IsFirstSpelling(init, m, i);
      FirstSpellingSnoc(init, last, m, i);
    }
  }

  lemma SpelledFirst(init: seq<string>, members: seq<string>, last: string)
    requires FirstSpellings(init, members)
    requires forall e :: e in members ==> Lower(e) != Lower(Strip(IsSpace, last))
    ensures FirstSpellings(init + [last], members + [Strip(IsSpace, last)])
  {
    var values, all := init + [last], members + [Strip(IsSpace, last)];
    forall m | m in all ensures exists i: nat :: i < |values| && IsFirstSpelling(values, m, i) {
      if m in members {
        var i: nat :| i < |init| && IsFirstSpelling(init, m, i);
        FirstSpellingSnoc(init, last, m, i);
      } else {
        forall j | 0 <= j < |init| ensures Lower(Strip(IsSpace, init[j])) != Lower(m) {
          assert init[j] in init;
        }
        assert IsFirstSpelling(values, m, |init|);
      }
    }
    forall v | v in values ensures exists m :: m in all && Lower(m) == Lower(Strip(IsSpace, v)) {
      if v in init {
        var m :| m in members && Lower(m) == Lower(Strip(IsSpace, v));
        assert m in all;
      } else {
        assert all[|members|] in all;
      }
    }
    forall i, j | 0 <= i < j < |all| ensures Lower(all[i]) != Lower(all[j]) {
      if j == |members| {
        assert all[i] == members[i] && members[i] in members;
      }
    }
  }

  lemma SpelledNext(init: seq<string>, members: seq<string>, last: string, next: seq<string>)
    requires FirstSpellings(init, members)
    requires var m := Strip(IsSpace, last);
      next == if exists e :: e in members && Lower(e) == Lower(m) then members else members + [m]
    ensures FirstSpellings(init + [last], next)
  {
    if exists e :: e in members && Lower(e) == Lower(Strip(IsSpace, last)) {
      SpelledBefore(init, members, last);
    } else {
      SpelledFirst(init, members, last);
    }
  }

  /** Of an accepted list the first spelling of every member is kept. */
  lemma {:induction false} CheckedMembersKeeps(k: C.Kind, values: seq<string>, vocabulary: Option<set<string>>)
    requires CheckedMembers(k, values, vocabulary).Done?
    ensures FirstSpellings(values, CheckedMembers(k, values, vocabulary).value)
  {
    if values != [] {
      var n := |values| - 1;
      assert values == values[..n] + [values[n]];
      CheckedMembersKeeps(k, values[..n], vocabulary);
      SpelledNext(values[..n], CheckedMembers(k, values[..n], vocabulary).value, values[n],
                  CheckedMembers(k, values, vocabulary).value);
    }
  }

  /** No other group has the name, up to case and blanks at the ends. */
  ghost predicate NameFree(st: Store, name: string, except: Option<string>) {
    forall x :: x in st.secs && st.secs[x].AppGroup? && Some(x) != except ==>
      Lower(Strip(IsSpace, st.secs[x].name)) != Lower(Strip(IsSpace, name))
  }

  ghost predicate GroupArgsOk(st: Store, name: string, lists: C.Members, vocabulary: Vocabulary,
    except: Option<string>)
  {
    && NameOk(name) && NameFree(st, name, except)
    && MembersOk(lists.app, vocabulary(C.App))
    && MembersOk(lists.appCategory, vocabulary(C.AppCategory))
    && MembersOk(lists.proto, vocabulary(C.Proto))
    && MembersOk(lists.protoCategory, vocabulary(C.ProtoCategory))
    && lists != C.Members([], [], [], [])
  }

  /** The section is the group that was asked for. */
  ghost predicate IsGroupOf(s: Section, name: string, lists: C.Members) {
    && s.AppGroup? && s.name == Strip(IsSpace, name)
    && FirstSpellings(lists.app, s.members.app)
    && FirstSpellings(lists.appCategory, s.members.appCategory)
    && FirstSpellings(lists.proto, s.members.proto)
    && FirstSpellings(lists.protoCategory, s.members.protoCategory)
  }

  lemma EmptySpellings(values: seq<string>, members: seq<string>)
    requires FirstSpellings(values, members)
    ensures values == [] <==> members == []
  {
    if values != [] {
      assert values[0] in values;
    }
    if members != [] {
      assert members[0] in members;
    }
  }

  lemma KindIff(k: C.Kind, values: seq<string>, vocabulary: Option<set<string>>)
    ensures var r := CheckedMembers(k, values, vocabulary);
      && (r.Done? <==> MembersOk(values, vocabulary))
      && (r.Done? ==> FirstSpellings(values, r.value) && (values == [] <==> r.value == []))
  {
    CheckedMembersIff(k, values, vocabulary);
    if CheckedMembers(k, values, vocabulary).Done? {
      CheckedMembersKeeps(k, values, vocabulary);
      EmptySpellings(values, CheckedMembers(k, values, vocabulary).value);
    }
  }

  lemma CheckedGroupIff(st: Store, name: string, lists: C.Members, vocabulary: Vocabulary, except: Option<string>)
    ensures var r := CheckedGroup(st, name, lists, vocabulary, except);
      && (r.Done? <==> GroupArgsOk(st, name, lists, vocabulary, except))
      && (r.Done? ==> IsGroupOf(AppGroup(r.value.0, r.value.1), name, lists))
  {
    CheckedNameIff(name);
    KindIff(C.App, lists.app, vocabulary(C.App));
    KindIff(C.AppCategory, lists.appCategory, vocabulary(C.AppCategory));
    KindIff(C.Proto, lists.proto, vocabulary(C.Proto));
    KindIff(C.ProtoCategory, lists.protoCategory, vocabulary(C.ProtoCategory));
    assert NameOk(name) ==> (NameFree(st, name, except) <==> !NameTaken(st, Strip(IsSpace, name), except));
  }

  /**
   A group is added, or an existing one edited, exactly if its name is free and as it should be, every
   member can be matched, and there is one. It is then stored under the name without blanks, with the first
   spelling of every member; nothing else changes.
   */
  lemma SaveGroupIff(st: Store, id: string, name: string, lists: C.Members, vocabulary: Vocabulary)
    ensures var (st', reply) := AddAppgroupSpec(st, id, name, lists, vocabulary);
      && (reply == Done(id) <==> GroupArgsOk(st, name, lists, vocabulary, None))
      && (reply.Refused? ==> st' == st)
      && (reply.Done? ==> id in st'.secs && IsGroupOf(st'.secs[id], name, lists) && st' == st.Set(id, st'.secs[id]))
    ensures var (st', reply) := EditAppgroupSpec(st, id, name, lists, vocabulary);
      && (reply == Done(id) <==> GroupIn(st, id) && GroupArgsOk(st, name, lists, vocabulary, Some(id)))
      && (reply.Refused? ==> st' == st)
      && (reply.Done? ==> id in st'.secs && IsGroupOf(st'.secs[id], name, lists) && st' == st.Set(id, st'.secs[id]))
  {
    CheckedGroupIff(st, name, lists, vocabulary, None);
    CheckedGroupIff(st, name, lists, vocabulary, Some(id));
  }

  /** A group is deleted exactly if it exists and no rule names it. */
  lemma DeleteGroupIff(st: Store, id: string)
    requires st.Valid()
    ensures var (st', reply) := DeleteAppgroupSpec(st, id);
      && (reply == Done(id) <==>
        GroupIn(st, id) && forall r :: RuleIn(st, r) ==> id !in st.secs[r].rule.target.appgroups)
      && (reply.Refused? ==> st' == st)
      && (reply.Done? ==>
            && st'.order == Without(st.order, id)
            && (forall x :: x in st'.secs <==> x in st.secs && x != id)
            && forall x :: x in st'.secs ==> st'.secs[x] == st.secs[x])
  {
    if UsersOf(st, id) == [] {
      forall r | RuleIn(st, r) ensures id !in st.secs[r].rule.target.appgroups {
        assert r !in UsersOf(st, id);
      }
    } else {
      var r := UsersOf(st, id)[0];
      assert r in UsersOf(st, id);
    }
  }
}
