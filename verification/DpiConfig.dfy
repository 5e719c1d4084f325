/** The operations as the program runs them, on a configuration held in memory. */
module DpiConfig {
  import opened Wrappers
  import opened Sequences
  import opened Text
  import opened Uci
  import opened DpiStore
  import M = DpiMigration
  import C = Criteria
  import F = DpiFreeze

  class Dpi {
    var st: Store

    constructor (st: Store)
      ensures this.st == st
    {
      this.st := st;
    }

    /** Give the listed rules the priorities 1, 2, 3, .. one at a time. */
    method Renumber(order: seq<string>)
      modifies this
      ensures st == Renumbered(old(st), order)
    {
      for i := 0 to |order|
        invariant st == Renumbered(old(st), order[..i])
      {
        assert order[..i + 1][..i] == order[..i];
        st := SetPriority(st, order[i], i + 1);
      }
      assert order[..|order|] == order;
    }

    method NameExists(name: string, except: Option<string>) returns (taken: bool)
      requires st.Valid()
      ensures taken == NameTaken(st, name, except)
    {
      var groups := st.Ids(IsGroup);
      for i := 0 to |groups|
        invariant forall j :: 0 <= j < i ==>
            Some(groups[j]) == except || Lower(Strip(IsSpace, st.secs[groups[j]].name)) != Lower(name)
      {
        assert groups[i] in groups;
        if Some(groups[i]) != except && Lower(Strip(IsSpace, st.secs[groups[i]].name)) == Lower(name) {
          return true;
        }
      }
      assert forall id :: GroupIn(st, id) ==> id in groups;
      return false;
    }

    method ValidateAppgroup(name: string, lists: C.Members, vocabulary: Vocabulary, except: Option<string>)
      returns (r: Reply<(string, C.Members)>)
      requires st.Valid()
      ensures r == CheckedGroup(st, name, lists, vocabulary, except)
    {
      var checked := CheckedName(name);
      if checked.Refused? { return Refused(checked.why); }
      var taken := NameExists(checked.value, except);
      if taken { return Refused(NameAlreadyExists); }
      var app := ValidateMembers(C.App, lists.app, vocabulary(C.App));
      if app.Refused? { return Refused(app.why); }
      var appCategory := ValidateMembers(C.AppCategory, lists.appCategory, vocabulary(C.AppCategory));
      if appCategory.Refused? { return Refused(appCategory.why); }
      var proto := ValidateMembers(C.Proto, lists.proto, vocabulary(C.Proto));
      if proto.Refused? { return Refused(proto.why); }
      var protoCategory := ValidateMembers(C.ProtoCategory, lists.protoCategory, vocabulary(C.ProtoCategory));
      if protoCategory.Refused? { return Refused(protoCategory.why); }
      var members := C.Members(app.value, appCategory.value, proto.value, protoCategory.value);
      return if members.Empty() then Refused(AppgroupIsEmpty) else Done((checked.value, members));
    }

    method AddAppgroup(newId: string, name: string, lists: C.Members, vocabulary: Vocabulary) returns (r: Reply<string>)
      requires st.Valid() && newId !in st.secs
      modifies this
      ensures (st, r) == AddAppgroupSpec(old(st), newId, name, lists, vocabulary)
    {
      var g := ValidateAppgroup(name, lists, vocabulary, None);
      if g.Refused? { return Refused(g.why); }
      st := st.Set(newId, AppGroup(g.value.0, g.value.1));
      return Done(newId);
    }

    method EditAppgroup(id: string, name: string, lists: C.Members, vocabulary: Vocabulary) returns (r: Reply<string>)
      requires st.Valid()
      modifies this
      ensures (st, r) == EditAppgroupSpec(old(st), id, name, lists, vocabulary)
    {
      if !GroupIn(st, id) { return Refused(AppgroupDoesNotExist); }
      var g := ValidateAppgroup(name, lists, vocabulary, Some(id));
      if g.Refused? { return Refused(g.why); }
      st := st.Set(id, AppGroup(g.value.0, g.value.1));
      return Done(id);
    }

    method DeleteAppgroup(id: string) returns (r: Reply<string>)
      modifies this
      ensures (st, r) == DeleteAppgroupSpec(old(st), id)
    {
      if !GroupIn(st, id) { return Refused(AppgroupDoesNotExist); }
      var matches := IsUsedAppgroup(id);
      if |matches| > 0 { return Refused(AppgroupIsUsed(matches)); }
      st := st.Delete(id);
      return Done(id);
    }

    /** The rules that name a group, in file order. */
    method IsUsedAppgroup(id: string) returns (matches: seq<string>)
      ensures matches == UsersOf(st, id)
    {
      matches := [];
      for i := 0 to |st.order|
        invariant matches == Select(NamesGroup(id), st.order[..i], st.secs)
      {
        SelectStep(NamesGroup(id), st.order, st.secs, i);
        var section := st.order[i];
        if section in st.secs && NamesGroup(id)(st.secs[section]) {
          matches := matches + [section];
        }
      }
      assert st.order[..|st.order|] == st.order;
    }

    method CheckRule(ip: C.IpText, a: RuleArgs, position: Option<string>) returns (r: Reply<RuleArgs>)
      ensures r == CheckedRule(ip, st, a, position)
    {
      var name := CheckedName(a.name);
      if name.Refused? { return Refused(name.why); }
      if !KnownAction(a.action) { return Refused(InvalidAction); }
      if position.Some? && position.value != "top" && position.value != "bottom" { return Refused(InvalidPosition); }
      var source := ValidateSource(ip, a.source);
      if source.Refused? { return Refused(source.why); }
      var appgroups := ValidateAppgroups(st, a.appgroups, a.matchAll);
      if appgroups.Refused? { return Refused(appgroups.why); }
      return Done(a.(name := name.value, source := source.value, appgroups := appgroups.value));
    }

    method AddRule(ip: C.IpText, newId: string, a: RuleArgs, position: string) returns (r: Reply<string>)
      requires newId !in st.secs
      modifies this
      ensures (st, r) == AddRuleSpec(ip, old(st), newId, a, position)
    {
      var checked := CheckRule(ip, a, Some(position));
      if checked.Refused? { return Refused(checked.why); }
      st := st.Set(newId, RuleSection(Saved(BLANK_RULE, checked.value)));
      var order := Without(SortedRules(st), newId);
      order := if position == "top" then [newId] + order else order + [newId];
      Renumber(order);
      return Done(newId);
    }

    method EditRule(ip: C.IpText, id: string, a: RuleArgs) returns (r: Reply<string>)
      modifies this
      ensures (st, r) == EditRuleSpec(ip, old(st), id, a)
    {
      if !RuleIn(st, id) { return Refused(RuleNotFound); }
      if !st.secs[id].rule.managed { return Refused(RuleNotManaged); }
      var checked := CheckRule(ip, a, None);
      if checked.Refused? { return Refused(checked.why); }
      st := st.Set(id, RuleSection(Saved(st.secs[id].rule, checked.value)));
      return Done(id);
    }

    method DeleteRule(id: string) returns (r: Reply<string>)
      modifies this
      ensures (st, r) == DeleteRuleSpec(old(st), id)
    {
      if !RuleIn(st, id) { return Refused(RuleNotFound); }
      st := st.Delete(id);
      Renumber(SortedRules(st));
      return Done(id);
    }

    method RenameRule(id: string, name: string) returns (r: Reply<string>)
      modifies this
      ensures (st, r) == RenameRuleSpec(old(st), id, name)
    {
      if !RuleIn(st, id) { return Refused(RuleNotFound); }
      var n := CheckedName(name);
      if n.Refused? { return Refused(n.why); }
      st := st.Set(id, RuleSection(st.secs[id].rule.(name := n.value)));
      return Done(id);
    }

    method SwitchRule(id: string, enabled: bool) returns (r: Reply<string>)
      modifies this
      ensures (st, r) == SwitchRuleSpec(old(st), id, enabled)
    {
      if !RuleIn(st, id) { return Refused(RuleNotFound); }
      st := st.Set(id, RuleSection(st.secs[id].rule.(enabled := enabled)));
      return Done(id);
    }

    method OrderRules(order: seq<string>) returns (r: Reply<seq<string>>)
      modifies this
      ensures (st, r) == OrderRulesSpec(old(st), order)
    {
      var refusal := CheckOrder(SortedRules(st), order);
      if refusal.Some? { return Refused(refusal.value); }
      Renumber(order);
      return Done(order);
    }

    /** Replace the exemptions by rules, one at a time; false when a lookup raises or a source is refused half-way. */
    method ReplaceExemptions(env: F.Env, exemptions: seq<string>, ids: seq<string>) returns (ok: bool)
      requires M.NewIds(st, exemptions, ids) && st.Valid()
      modifies this
      ensures ok <==> M.ExemptionSteps(env, old(st), exemptions, ids).Some?
      ensures ok ==> Some(st) == M.ExemptionSteps(env, old(st), exemptions, ids)
    {
      ghost var st0 := st;
      var sections := st.secs;
      for i := 0 to |exemptions|
        invariant M.AllExemptions(st0, exemptions[..i])
        invariant M.ExemptionSteps(env, st0, exemptions[..i], ids[..i]) == Some(st)
      {
        M.ExemptionStepsUnfold(env, st0, exemptions, ids, i);
        var e := sections[exemptions[i]];
        var source := M.ExemptionSource(env, Strip(IsSpace, e.criteria));
        M.NewIdsStayNew(env, st0, exemptions, ids, i);
        if M.LookupRaises(env, Strip(IsSpace, e.criteria)) {
          M.ExemptionStepsFail(env, st0, exemptions, ids, i + 1);
          return false;
        }
        st := st.Delete(exemptions[i]);
        if source.Some? {
          var r := AddRule(env.ip, ids[i], M.ExemptionArgs(e, i + 1, source.value), "bottom");
          if r.Refused? {
            M.ExemptionStepsFail(env, st0, exemptions, ids, i + 1);
            return false;
          }
        } else {
          st := st.Set(ids[i], RuleSection(M.VerbatimRule(e, i + 1)));
        }
      }
      assert exemptions[..|exemptions|] == exemptions && ids[..|ids|] == ids;
      return true;
    }

    /** Keep, drop or freeze one rule of the snapshot; false when freezing it raises. */
    method ReplaceRule(env: F.Env, section: string, rule: Rule, count: nat) returns (ok: bool)
      modifies this
      ensures ok <==> M.LegacyStep(env, old(st), section, rule, count).Some?
      ensures ok ==> Some(st) == M.LegacyStep(env, old(st), section, rule, count)
    {
      match M.FateOf(rule) {
        case Keep =>
        case Drop =>
          st := st.Delete(section);
        case Freeze =>
          var criteria := F.FreezeLegacyCriteria(env, rule);
          if criteria.None? {
            return false;
          }
          if RuleIn(st, section) {
            var kept := st.secs[section].rule;
            st := st.Set(section, RuleSection(kept.(legacy := NO_LEGACY, target := kept.target.(source := []),
              criteria := criteria, name := "Migrated rule " + M.ShowNat(count))));
          }
      }
      return true;
    }

    /** Freeze or drop the legacy rules of the snapshot and list the survivors; false when freezing one raises. */
    method ReplaceLegacy(env: F.Env, ghost st0: Store, snapshot: map<string, Section>, rules: seq<string>)
      returns (ok: bool, survivors: seq<string>)
      requires snapshot == st0.secs && forall i :: 0 <= i < |rules| ==> RuleIn(st0, rules[i])
      modifies this
      ensures ok <==> M.LegacySteps(env, st0, old(st), rules).Some?
      ensures ok ==> Some(st) == M.LegacySteps(env, st0, old(st), rules) && survivors == M.Survivors(st0, rules)
    {
      survivors := [];
      var count := 0;
      for i := 0 to |rules|
        invariant M.LegacyLoop(env, st0, old(st), rules[..i], st, survivors, count)
      {
        M.LegacyLoopStep(env, st0, old(st), rules, i, st, survivors, count);
        var rule := snapshot[rules[i]].rule;
        if M.FateOf(rule) == M.Freeze {
          count := count + 1;
        }
        ok := ReplaceRule(env, rules[i], rule, count);
        if !ok {
          M.LegacyStepsFail(env, st0, old(st), rules, i + 1);
          return;
        }
        if M.FateOf(rule) != M.Drop {
          survivors := survivors + [rules[i]];
        }
      }
      assert rules[..|rules|] == rules;
      ok := true;
    }

    method MigrateSchema(env: F.Env, ids: seq<string>) returns (ok: bool)
      requires st.Valid() && M.NewIds(st, st.Ids(M.IsExemption), ids)
      modifies this
      ensures ok <==> M.MigrateSpec(env, old(st), ids).Some?
      ensures ok ==> Some(st) == M.MigrateSpec(env, old(st), ids)
    {
      if !M.Outdated(st) {
        return true;
      }
      ghost var st0 := st;
      var snapshot, exemptions, rules := st.secs, st.Ids(M.IsExemption), RuleIds(st);
      forall i | 0 <= i < |rules| ensures RuleIn(st, rules[i]) {
        assert rules[i] in rules;
      }
      ok := ReplaceExemptions(env, exemptions, ids);
      if ok {
        var survivors;
        ok, survivors := ReplaceLegacy(env, st0, snapshot, rules);
        if ok {
          Renumber(ids + survivors);
          st := M.DropFilters(st);
        }
      }
    }
  }
}
