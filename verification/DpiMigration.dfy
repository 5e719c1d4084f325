/**
 The one-time migration to the schema with application groups: exemptions become rules at the top,
 legacy rules are frozen or dropped, and the rules are renumbered.
 */
module DpiMigration {
  import opened Wrappers
  import opened Sequences
  import opened Text
  import opened Uci
  import opened DpiStore
  import opened DpiFreeze
  import opened DpiPriority
  import C = Criteria

  predicate IsExemption(s: Section) {
    s.Exemption?
  }

  predicate LegacyRule(rule: Rule) {
    rule.legacy.device.Some? || rule.legacy.application.Some? || rule.legacy.protocol.Some? ||
      rule.legacy.category.Some?
  }

  predicate IsLegacy(s: Section) {
    s.RuleSection? && LegacyRule(s.rule)
  }

  // ----- exemptions

  function ShowNat(n: nat): (r: string)
    ensures r != "" && forall i :: 0 <= i < |r| ==> '0' <= r[i] <= '9'
  {
    var digit := ('0' as int + n % 10) as char;
    if n < 10 then [digit] else ShowNat(n / 10) + [digit]
  }

  function Pow10(k: nat): (p: nat)
    ensures p >= 1
  {
    if k == 0 then 1 else 10 * Pow10(k - 1)
  }

  lemma {:induction false} ShowNatLength(n: nat, k: nat)
    requires n < Pow10(k) && k > 0
    ensures |ShowNat(n)| <= k
  {
    if n >= 10 {
      ShowNatLength(n / 10, k - 1);
    }
  }

  const FALLBACK_NAME := "Migrated exception "

  function ExemptionName(description: string, count: nat): string {
    var d := Strip(IsSpace, description);
    var n := Strip(IsSpace, if |d| > NAME_MAX_LENGTH then d[..NAME_MAX_LENGTH] else d);
    if n == "" then FALLBACK_NAME + ShowNat(count) else n
  }

  /** The expansion of a firewall object raises, and with it the migration. */
  predicate LookupRaises(env: Env, criteria: string) {
    criteria != "" && env.isObject(criteria) && env.objectIps(criteria).None?
  }

  /** The source an exemption turns into, or None when it is kept as a hand-written criteria. */
  function ExemptionSource(env: Env, criteria: string): Option<seq<string>> {
    if criteria == "" then None
    else if env.isObject(criteria) then
      if env.objectIps(criteria) == Some([]) then None else env.objectIps(criteria)
    else
      var checked := CheckedSource(env.ip, [criteria]);
      if checked.Done? then Some(checked.value) else None
  }

  function ExemptionArgs(e: Section, count: nat, source: seq<string>): RuleArgs
    requires e.Exemption?
  {
    RuleArgs(ExemptionName(e.description, count), e.enabled, "allow", source, [], true)
  }

  function VerbatimRule(e: Section, count: nat): Rule
    requires e.Exemption?
  {
    var criteria := Strip(IsSpace, e.criteria);
    BLANK_RULE.(name := ExemptionName(e.description, count), enabled := e.enabled, action := "allow",
    criteria := Some(if criteria != "" && criteria[|criteria| - 1] == ';' then criteria else criteria + ";"))
  }

  /** One exemption replaced by its rule; None when the lookup raises or add_rule refuses the source. */
  function ExemptionStep(env: Env, st: Store, section: string, e: Section, id: string, count: nat): Option<Store>
    requires e.Exemption?
  {
    var source := ExemptionSource(env, Strip(IsSpace, e.criteria));
    if LookupRaises(env, Strip(IsSpace, e.criteria)) then None
    else if source.Some? then
      var r := AddRuleSpec(env.ip, st.Delete(section), id, ExemptionArgs(e, count, source.value), "bottom");
      if r.1.Done? then Some(r.0) else None
    else
      Some(st.Delete(section).Set(id, RuleSection(VerbatimRule(e, count))))
  }

  ghost predicate AllExemptions(st: Store, sections: seq<string>) {
    forall i :: 0 <= i < |sections| ==> sections[i] in st.secs && st.secs[sections[i]].Exemption?
  }

  function ExemptionSteps(env: Env, st: Store, sections: seq<string>, ids: seq<string>): Option<Store>
    requires |ids| == |sections| && AllExemptions(st, sections)
  {
    if sections == [] then Some(st)
    else
      var n := |sections| - 1;
      var before :- ExemptionSteps(env, st, sections[..n], ids[..n]);
      ExemptionStep(env, before, sections[n], st.secs[sections[n]], ids[n], n + 1)
  }

  // ----- legacy rules

  datatype Fate = Keep | Drop | Freeze

  predicate Present<T>(l: Option<seq<T>>) {
    l.Some? && l.value != []
  }

  function FateOf(rule: Rule): Fate {
    if !LegacyRule(rule) then Keep
    else if rule.action != "block" then Drop
    else if Present(rule.criteria) || rule.target.source != [] || Present(rule.legacy.application)
         || Present(rule.legacy.protocol) || Present(rule.legacy.category) then Freeze
    else Drop
  }

  /** The rule a section becomes, if freezing does not raise. */
  function Frozen(env: Env, rule: Rule, snapshot: Rule, count: nat): Rule {
    rule.(legacy := NO_LEGACY, target := rule.target.(source := []),
      criteria := Some(FreezeCriteria(env, snapshot).GetOr("")),
    name := "Migrated rule " + ShowNat(count))
  }

  /** The rules of the snapshot that are not dropped, in file order. */
  function Survivors(st: Store, sections: seq<string>): (r: seq<string>)
    ensures forall x :: x in r <==> x in sections && RuleIn(st, x) && FateOf(st.secs[x].rule) != Drop
  {
    if sections == [] then []
    else
      var init, last := sections[..|sections| - 1], sections[|sections| - 1];
      assert sections == init + [last];
      Survivors(st, init) + if RuleIn(st, last) && FateOf(st.secs[last].rule) != Drop then [last] else []
  }

  /** How many rules have been frozen so far. */
  function FrozenCount(st: Store, sections: seq<string>): nat {
    if sections == [] then 0
    else
      var init, last := sections[..|sections| - 1], sections[|sections| - 1];
      FrozenCount(st, init) + if RuleIn(st, last) && FateOf(st.secs[last].rule) == Freeze then 1 else 0
  }

  /** Freezing the rule, if that is what becomes of it, does not raise. */
  predicate Freezable(env: Env, rule: Rule) {
    FateOf(rule) == Freeze ==> FreezeCriteria(env, rule).Some?
  }

  /** What becomes of the store once it is known that nothing raises. */
  function LegacyEffect(env: Env, st: Store, section: string, snapshot: Rule, count: nat): Store {
    match FateOf(snapshot)
    case Keep => st
    case Drop => st.Delete(section)
    case Freeze =>
      if RuleIn(st, section) then
        st.Set(section, RuleSection(Frozen(env, st.secs[section].rule, snapshot, count)))
      else
        st
  }

  /** One rule of the snapshot; None when freezing it raises. */
  function LegacyStep(env: Env, st: Store, section: string, snapshot: Rule, count: nat): Option<Store> {
    if Freezable(env, snapshot) then Some(LegacyEffect(env, st, section, snapshot, count)) else None
  }

  /** The legacy loop over a snapshot of the rules taken before the exemptions were replaced. */
  function LegacySteps(env: Env, st0: Store, st: Store, sections: seq<string>): Option<Store>
    requires forall i :: 0 <= i < |sections| ==> RuleIn(st0, sections[i])
  {
    if sections == [] then Some(st)
    else
      var n := |sections| - 1;
      assert RuleIn(st0, sections[n]);
      var before :- LegacySteps(env, st0, st, sections[..n]);
      LegacyStep(env, before, sections[n], st0.secs[sections[n]].rule, FrozenCount(st0, sections))
  }

  function DropFilters(st: Store): Store {
    if "config" in st.secs && st.secs["config"].Other? then st.Set("config", Other(false)) else st
  }

  /** The rules after the migration, in order: one per exemption, then the survivors. */
  function MigratedOrder(st: Store, ids: seq<string>): seq<string> {
    ids + Survivors(st, RuleIds(st))
  }

  predicate Outdated(st: Store) {
    st.Ids(IsExemption) != [] || st.Ids(IsLegacy) != []
  }

  /** None when the migration stops with an exception. */
  function MigrateSpec(env: Env, st: Store, ids: seq<string>): Option<Store>
    requires |ids| == |st.Ids(IsExemption)|
  {
    if !Outdated(st) then Some(st)
    else
      assert forall x :: x in st.Ids(IsExemption) ==> st.secs[x].Exemption?;
      assert forall x :: x in RuleIds(st) ==> RuleIn(st, x);
      var st1 :- ExemptionSteps(env, st, st.Ids(IsExemption), ids);
      var st2 :- LegacySteps(env, st, st1, RuleIds(st));
      Some(DropFilters(Renumbered(st2, MigratedOrder(st, ids))))
  }

  // ----- the sections with priorities left out

  function Unnumbered(s: Section): Section {
    if s.RuleSection? then RuleSection(s.rule.(priority := None)) else s
  }

  function Bare(st: Store): map<string, Section> {
    map id | id in st.secs :: Unnumbered(st.secs[id])
  }

  lemma BareSet(st: Store, id: string, s: Section)
    ensures Bare(st.Set(id, s)) == Bare(st)[id := Unnumbered(s)]
  {
  }

  lemma BareDelete(st: Store, id: string)
    ensures Bare(st.Delete(id)) == Bare(st) - {id}
  {
  }

  lemma BareRenumbered(st: Store, order: seq<string>)
    ensures Bare(Renumbered(st, order)) == Bare(st)
  {
    var st' := Renumbered(st, order);
    RenumberedFrame(st, order);
    forall id ensures id in Bare(st') <==> id in Bare(st) {
      assert id in st'.secs <==> id in st.secs;
    }
    forall id | id in Bare(st) ensures Bare(st')[id] == Bare(st)[id] {
      if RuleIn(st, id) {
        assert RuleIn(st', id);
        assert st'.secs[id].rule.(priority := None) == st.secs[id].rule.(priority := None);
      }
    }
  }

  // ----- which exemptions are accepted

  const NAME_ROOM := 45

  /** The object can be looked up, and every address it stands for is one a rule source accepts. */
  predicate Accepts(env: Env, e: Section)
    requires e.Exemption?
  {
    var source := ExemptionSource(env, Strip(IsSpace, e.criteria));
    !LookupRaises(env, Strip(IsSpace, e.criteria)) &&
      (source.Some? ==> forall v :: v in source.value ==> GoodEntry(env.ip, v))
  }

  lemma FallbackNameTrimmed(count: nat)
    ensures var n := FALLBACK_NAME + ShowNat(count);
      n != "" && Trimmed(IsSpace, n)
  {
    var n, d := FALLBACK_NAME + ShowNat(count), ShowNat(count);
    assert n[0] == FALLBACK_NAME[0] == 'M';
    assert n[|n| - 1] == d[|d| - 1];
  }

  lemma ExemptionNameAccepted(description: string, count: nat)
    requires count < Pow10(NAME_ROOM)
    ensures CheckedName(ExemptionName(description, count)) == Done(ExemptionName(description, count))
  {
    var d := Strip(IsSpace, description);
    var cut := if |d| > NAME_MAX_LENGTH then d[..NAME_MAX_LENGTH] else d;
    StripTrims(IsSpace, cut);
    StripIdentity(IsSpace, ExemptionName(description, count));
    FallbackNameTrimmed(count);
    ShowNatLength(count, NAME_ROOM);
    assert |FALLBACK_NAME| == 19;
  }

  /** The rule an accepted exemption becomes. */
  function NewRule(env: Env, e: Section, count: nat): Rule
    requires e.Exemption?
  {
    var source := ExemptionSource(env, Strip(IsSpace, e.criteria));
    if source.None? then VerbatimRule(e, count)
    else
      var checked := CheckedSource(env.ip, source.value);
      Saved(BLANK_RULE, ExemptionArgs(e, count, if checked.Done? then checked.value else []))
  }

  lemma ExemptionChecked(env: Env, st: Store, e: Section, count: nat)
    requires e.Exemption? && count < Pow10(NAME_ROOM)
    requires !LookupRaises(env, Strip(IsSpace, e.criteria)) && ExemptionSource(env, Strip(IsSpace, e.criteria)).Some?
    ensures var source := ExemptionSource(env, Strip(IsSpace, e.criteria)).value;
      var checked := CheckedRule(env.ip, st, ExemptionArgs(e, count, source), Some("bottom"));
      && (checked.Done? <==> Accepts(env, e))
      && (checked.Done? ==> Saved(BLANK_RULE, checked.value) == NewRule(env, e, count))
  {
    var source := ExemptionSource(env, Strip(IsSpace, e.criteria)).value;
    ExemptionNameAccepted(e.description, count);
    CheckedSourceAccepts(env.ip, source);
    assert CheckedGroups(st, [], true) == Done([]);
  }

  lemma PlacedBare(st: Store, id: string, rule: Rule, top: bool)
    requires st.Valid() && id !in st.secs && rule.priority.None?
    ensures Placed(st, id, rule, top).Valid()
    ensures Bare(Placed(st, id, rule, top)) == Bare(st)[id := RuleSection(rule)]
  {
    var st1 := st.Set(id, RuleSection(rule));
    PlacedOrder(st, id, rule, top);
    BareSet(st, id, RuleSection(rule));
    BareRenumbered(st1, WithNew(st1, id, top));
  }

  /** One exemption is replaced exactly when its addresses are acceptable, by exactly its rule. */
  lemma ExemptionStepBare(env: Env, st: Store, section: string, e: Section, id: string, count: nat)
    requires st.Valid() && e.Exemption? && id !in st.secs && count < Pow10(NAME_ROOM)
    ensures var r := ExemptionStep(env, st, section, e, id, count);
      && (r.Some? <==> Accepts(env, e))
      && (r.Some? ==>
        r.value.Valid() && Bare(r.value) == (Bare(st) - {section})[id := RuleSection(NewRule(env, e, count))])
  {
    var st1 := st.Delete(section);
    var source := ExemptionSource(env, Strip(IsSpace, e.criteria));
    DeleteValid(st, section);
    BareDelete(st, section);
    if LookupRaises(env, Strip(IsSpace, e.criteria)) {
    } else if source.Some? {
      ExemptionChecked(env, st1, e, count);
      PlacedBare(st1, id, NewRule(env, e, count), false);
    } else {
      BareSet(st1, id, RuleSection(VerbatimRule(e, count)));
      SetValid(st1, id, RuleSection(VerbatimRule(e, count)));
    }
  }

  /** Take the listed keys out, and put the others in with their values, one pair at a time. */
  function Replace<V>(m: map<string, V>, removed: seq<string>, added: seq<string>, values: seq<V>): map<string, V>
    requires |removed| == |added| == |values|
  {
    if removed == [] then m
    else
      var n := |removed| - 1;
      (Replace(m, removed[..n], added[..n], values[..n]) - {removed[n]})[added[n] := values[n]]
  }

  lemma {:induction false} ReplaceKeys<V>(m: map<string, V>, removed: seq<string>, added: seq<string>, values: seq<V>)
    requires |removed| == |added| == |values|
    requires forall x :: x in removed ==> x !in added
    ensures var r := Replace(m, removed, added, values);
      && (forall x :: x in r <==> (x in m && x !in removed) || x in added)
      && (forall x :: x in m && x !in removed && x !in added ==> r[x] == m[x])
  {
    if removed != [] {
      var n := |removed| - 1;
      assert removed == removed[..n] + [removed[n]] && added == added[..n] + [added[n]];
      assert forall x :: x in removed[..n] ==> x in removed && x !in added;
      ReplaceKeys(m, removed[..n], added[..n], values[..n]);
    }
  }

  lemma {:induction false} ReplaceValue<V>(m: map<string, V>, removed: seq<string>, added: seq<string>,
    values: seq<V>, i: nat)
    requires |removed| == |added| == |values| && i < |added|
    requires NoDup(added) && forall x :: x in removed ==> x !in added
    ensures added[i] in Replace(m, removed, added, values) && Replace(m, removed, added, values)[added[i]] == values[i]
  {
    var n := |removed| - 1;
    assert removed == removed[..n] + [removed[n]] && added == added[..n] + [added[n]];
    assert forall x :: x in removed[..n] ==> x in removed && x !in added;
    if i < n {
      ReplaceValue(m, removed[..n], added[..n], values[..n], i);
      assert added[..n][i] == added[i] != added[n];
      assert removed[n] in removed && added[i] in added;
    }
  }

  /** The rules the listed exemptions become. */
  function NewRules(env: Env, st: Store, sections: seq<string>): (r: seq<Section>)
    requires AllExemptions(st, sections)
    ensures |r| == |sections|
    ensures forall i :: 0 <= i < |sections| ==>
              sections[i] in st.secs && st.secs[sections[i]].Exemption?
              && r[i] == RuleSection(NewRule(env, st.secs[sections[i]], i + 1))
  {
    assert forall i :: 0 <= i < |sections| ==> sections[i] in st.secs && st.secs[sections[i]].Exemption?;
    seq(|sections|, i requires 0 <= i < |sections| => RuleSection(NewRule(env, st.secs[sections[i]], i + 1)))
  }

  function ExemptionMap(env: Env, st: Store, sections: seq<string>, ids: seq<string>): map<string, Section>
    requires |ids| == |sections| && AllExemptions(st, sections)
  {
    Replace(Bare(st), sections, ids, NewRules(env, st, sections))
  }

  lemma NewRulesPrefix(env: Env, st: Store, sections: seq<string>, n: nat)
    requires AllExemptions(st, sections) && n <= |sections|
    ensures AllExemptions(st, sections[..n]) && NewRules(env, st, sections)[..n] == NewRules(env, st, sections[..n])
  {
    forall i | 0 <= i < n ensures sections[..n][i] in st.secs && st.secs[sections[..n][i]].Exemption? {
      assert sections[i] in st.secs;
    }
  }

  lemma ExemptionMapStep(env: Env, st: Store, sections: seq<string>, ids: seq<string>)
    requires |ids| == |sections| && AllExemptions(st, sections) && sections != []
    ensures var n := |sections| - 1;
      && sections[n] in st.secs && st.secs[sections[n]].Exemption?
      && AllExemptions(st, sections[..n])
      && ExemptionMap(env, st, sections, ids) ==
         (ExemptionMap(env, st, sections[..n], ids[..n]) - {sections[n]})
           [ids[n] := RuleSection(NewRule(env, st.secs[sections[n]], n + 1))]
  {
    var n := |sections| - 1;
    assert sections[n] in st.secs;
    NewRulesPrefix(env, st, sections, n);
  }

  lemma NoIdsNeeded(st: Store)
    ensures NewIds(st, [], [])
  {
    var room := NAME_ROOM;
    assert Pow10(room) >= 1;
  }

  ghost predicate NewIds(st: Store, sections: seq<string>, ids: seq<string>) {
    && |ids| == |sections| && AllExemptions(st, sections)
    && NoDup(ids) && (forall i :: 0 <= i < |ids| ==> ids[i] !in st.secs)
    && |ids| < Pow10(NAME_ROOM)
  }

  lemma ExemptionStepsSnoc(env: Env, st: Store, sections: seq<string>, ids: seq<string>, before: Store)
    requires NewIds(st, sections, ids) && sections != []
    requires var n := |sections| - 1;
      && ExemptionSteps(env, st, sections[..n], ids[..n]) == Some(before)
      && before.Valid() && Bare(before) == ExemptionMap(env, st, sections[..n], ids[..n])
    ensures var n := |sections| - 1;
      var r := ExemptionSteps(env, st, sections, ids);
      && sections[n] in st.secs && st.secs[sections[n]].Exemption?
      && (r.Some? <==> Accepts(env, st.secs[sections[n]]))
      && (r.Some? ==> r.value.Valid() && Bare(r.value) == ExemptionMap(env, st, sections, ids))
  {
    var n := |sections| - 1;
    ExemptionMapStep(env, st, sections, ids);
    assert ids[n] !in before.secs by {
      NewIdsPrefix(st, sections, ids, n);
      NewIdsApart(st, sections[..n], ids[..n]);
      ReplaceKeys(Bare(st), sections[..n], ids[..n], NewRules(env, st, sections[..n]));
      assert ids[n] !in ids[..n];
      assert ids[n] !in Bare(before);
    }
    ExemptionStepBare(env, before, sections[n], st.secs[sections[n]], ids[n], n + 1);
  }

  lemma NewIdsApart(st: Store, sections: seq<string>, ids: seq<string>)
    requires NewIds(st, sections, ids)
    ensures forall x :: x in sections ==> x in st.secs && x !in ids
  {
    forall x | x in sections ensures x in st.secs && x !in ids {
      var i :| 0 <= i < |sections| && sections[i] == x;
      assert sections[i] in st.secs;
    }
  }

  lemma NewIdsPrefix(st: Store, sections: seq<string>, ids: seq<string>, n: nat)
    requires NewIds(st, sections, ids) && n <= |sections|
    ensures NewIds(st, sections[..n], ids[..n])
  {
    forall i | 0 <= i < n ensures sections[..n][i] in st.secs && st.secs[sections[..n][i]].Exemption? {
      assert sections[i] in st.secs;
    }
  }

  ghost predicate AllAccepted(env: Env, st: Store, sections: seq<string>)
    requires AllExemptions(st, sections)
  {
    forall i :: 0 <= i < |sections| ==> Accepts(env, st.secs[sections[i]])
  }

  lemma AllAcceptedSnoc(env: Env, st: Store, init: seq<string>, last: string)
    requires AllExemptions(st, init + [last])
    ensures AllExemptions(st, init) && last in st.secs && st.secs[last].Exemption?
    ensures AllAccepted(env, st, init + [last]) <==> AllAccepted(env, st, init) && Accepts(env, st.secs[last])
  {
    var s := init + [last];
    assert s[|init|] == last;
    forall i | 0 <= i < |init| ensures s[i] == init[i] && init[i] in st.secs && st.secs[init[i]].Exemption? {
      assert s[i] in st.secs;
    }
  }

  /** The exemption loop runs through exactly when every exemption is acceptable. */
  lemma {:induction false} ExemptionStepsBare(env: Env, st: Store, sections: seq<string>, ids: seq<string>)
    requires st.Valid() && NewIds(st, sections, ids)
    ensures var r := ExemptionSteps(env, st, sections, ids);
      && (r.Some? <==> AllAccepted(env, st, sections))
      && (r.Some? ==> r.value.Valid() && Bare(r.value) == ExemptionMap(env, st, sections, ids))
  {
    if sections != [] {
      var n := |sections| - 1;
      assert sections == sections[..n] + [sections[n]];
      AllAcceptedSnoc(env, st, sections[..n], sections[n]);
      NewIdsPrefix(st, sections, ids, n);
      ExemptionStepsBare(env, st, sections[..n], ids[..n]);
      var before := ExemptionSteps(env, st, sections[..n], ids[..n]);
      if before.Some? {
        ExemptionStepsSnoc(env, st, sections, ids, before.value);
      }
    }
  }

  /** One more turn of the exemption loop. */
  lemma ExemptionStepsUnfold(env: Env, st: Store, sections: seq<string>, ids: seq<string>, n: nat)
    requires NewIds(st, sections, ids) && n < |sections|
    ensures AllExemptions(st, sections[..n]) && AllExemptions(st, sections[..n + 1])
    ensures sections[n] in st.secs && st.secs[sections[n]].Exemption?
    ensures var before := ExemptionSteps(env, st, sections[..n], ids[..n]);
      ExemptionSteps(env, st, sections[..n + 1], ids[..n + 1]) ==
        if before.None? then None
        else ExemptionStep(env, before.value, sections[n], st.secs[sections[n]], ids[n], n + 1)
  {
    NewIdsPrefix(st, sections, ids, n);
    NewIdsPrefix(st, sections, ids, n + 1);
    assert sections[..n + 1][..n] == sections[..n] && ids[..n + 1][..n] == ids[..n];
    assert sections[n] in st.secs;
  }

  lemma {:induction false} ExemptionStepsFail(env: Env, st: Store, sections: seq<string>, ids: seq<string>, n: nat)
    requires NewIds(st, sections, ids) && n <= |sections|
    requires AllExemptions(st, sections[..n]) && ExemptionSteps(env, st, sections[..n], ids[..n]).None?
    ensures ExemptionSteps(env, st, sections, ids).None?
    decreases |sections| - n
  {
    if n == |sections| {
      assert sections[..n] == sections && ids[..n] == ids;
    } else {
      ExemptionStepsUnfold(env, st, sections, ids, n);
      ExemptionStepsFail(env, st, sections, ids, n + 1);
    }
  }

  /** The identifiers still to be used are not sections yet. */
  lemma NewIdsStayNew(env: Env, st: Store, sections: seq<string>, ids: seq<string>, n: nat)
    requires st.Valid() && NewIds(st, sections, ids) && n < |sections| && AllExemptions(st, sections[..n])
    requires ExemptionSteps(env, st, sections[..n], ids[..n]).Some?
    ensures ids[n] !in ExemptionSteps(env, st, sections[..n], ids[..n]).value.secs
  {
    NewIdsPrefix(st, sections, ids, n);
    NewIdsApart(st, sections[..n], ids[..n]);
    ExemptionStepsBare(env, st, sections[..n], ids[..n]);
    ReplaceKeys(Bare(st), sections[..n], ids[..n], NewRules(env, st, sections[..n]));
    assert ids[n] !in ids[..n];
    assert ids[n] !in Bare(ExemptionSteps(env, st, sections[..n], ids[..n]).value);
  }

  // ----- the legacy loop on bare sections

  function LegacyMap(env: Env, st0: Store, m: map<string, Section>, sections: seq<string>): map<string, Section>
    requires forall i :: 0 <= i < |sections| ==> RuleIn(st0, sections[i])
  {
    if sections == [] then m
    else
      var n := |sections| - 1;
      assert RuleIn(st0, sections[n]);
      var rule := st0.secs[sections[n]].rule;
      var before := LegacyMap(env, st0, m, sections[..n]);
      match FateOf(rule)
      case Keep => before
      case Drop => before - {sections[n]}
      case Freeze => before[sections[n] := Unnumbered(RuleSection(Frozen(env, rule, rule, FrozenCount(st0, sections))))]
  }

  /** The rule a section of the snapshot ends up as. */
  function Outcome(env: Env, st0: Store, sections: seq<string>, i: nat): Section
    requires i < |sections| && RuleIn(st0, sections[i])
  {
    var rule := st0.secs[sections[i]].rule;
    if FateOf(rule) == Freeze then Unnumbered(RuleSection(Frozen(env, rule, rule, FrozenCount(st0, sections[..i + 1]))))
    else Unnumbered(RuleSection(rule))
  }

  /** The listed rules of the snapshot are all there, unchanged up to their priority. */
  ghost predicate Untouched(st0: Store, m: map<string, Section>, sections: seq<string>) {
    forall i :: 0 <= i < |sections| ==>
      RuleIn(st0, sections[i]) && sections[i] in m && m[sections[i]] == Unnumbered(st0.secs[sections[i]])
  }

  lemma {:induction false} LegacyMapKeys(env: Env, st0: Store, m: map<string, Section>, sections: seq<string>)
    requires Untouched(st0, m, sections)
    ensures var r := LegacyMap(env, st0, m, sections);
      && (forall x :: x in r <==> x in m && (x in sections ==> FateOf(st0.secs[x].rule) != Drop))
      && (forall x :: x in m && x !in sections ==> r[x] == m[x])
  {
    if sections != [] {
      var n := |sections| - 1;
      assert sections == sections[..n] + [sections[n]];
      assert RuleIn(st0, sections[n]);
      LegacyMapKeys(env, st0, m, sections[..n]);
    }
  }

  lemma OutcomePrefix(env: Env, st0: Store, sections: seq<string>, n: nat, i: nat)
    requires i < n <= |sections| && RuleIn(st0, sections[i])
    ensures Outcome(env, st0, sections[..n], i) == Outcome(env, st0, sections, i)
  {
    assert sections[..n][..i + 1] == sections[..i + 1];
  }

  /** The last rule of the list disturbs no other. */
  lemma LegacyMapInit(env: Env, st0: Store, m: map<string, Section>, sections: seq<string>)
    requires Untouched(st0, m, sections) && sections != []
    ensures var n := |sections| - 1;
      var r, before := LegacyMap(env, st0, m, sections), LegacyMap(env, st0, m, sections[..n]);
      forall x :: x in before && x != sections[n] ==> x in r && r[x] == before[x]
  {
    assert RuleIn(st0, sections[|sections| - 1]);
  }

  /** The last rule of the list ends up as its outcome. */
  lemma LegacyMapLast(env: Env, st0: Store, m: map<string, Section>, sections: seq<string>)
    requires Untouched(st0, m, sections) && NoDup(sections) && sections != []
    ensures var n := |sections| - 1;
      var r := LegacyMap(env, st0, m, sections);
      && RuleIn(st0, sections[n])
      && (FateOf(st0.secs[sections[n]].rule) != Drop ==>
        sections[n] in r && r[sections[n]] == Outcome(env, st0, sections, n))
  {
    var n := |sections| - 1;
    assert RuleIn(st0, sections[n]);
    LegacyMapKeys(env, st0, m, sections[..n]);
    assert sections[n] !in sections[..n];
    assert sections[..n + 1] == sections;
  }

  lemma {:induction false} LegacyMapValues(env: Env, st0: Store, m: map<string, Section>, sections: seq<string>, i: nat)
    requires Untouched(st0, m, sections) && NoDup(sections)
    requires i < |sections| && RuleIn(st0, sections[i]) && FateOf(st0.secs[sections[i]].rule) != Drop
    ensures sections[i] in LegacyMap(env, st0, m, sections)
    ensures LegacyMap(env, st0, m, sections)[sections[i]] == Outcome(env, st0, sections, i)
  {
    var n := |sections| - 1;
    LegacyMapLast(env, st0, m, sections);
    LegacyMapInit(env, st0, m, sections);
    if i < n {
      assert sections[..n][i] == sections[i] != sections[n];
      LegacyMapValues(env, st0, m, sections[..n], i);
      OutcomePrefix(env, st0, sections, n, i);
    }
  }

  lemma LegacyEffectBare(env: Env, st: Store, section: string, snapshot: Rule, count: nat)
    requires st.Valid()
    requires section in Bare(st) && Bare(st)[section] == Unnumbered(RuleSection(snapshot))
    ensures var st' := LegacyEffect(env, st, section, snapshot, count);
      && st'.Valid()
      && Bare(st') == match FateOf(snapshot)
        case Keep => Bare(st)
        case Drop => Bare(st) - {section}
        case Freeze => Bare(st)[section := Unnumbered(RuleSection(Frozen(env, snapshot, snapshot, count)))]
  {
    DeleteValid(st, section);
    BareDelete(st, section);
    assert RuleIn(st, section);
    var frozen := RuleSection(Frozen(env, st.secs[section].rule, snapshot, count));
    SetValid(st, section, frozen);
    BareSet(st, section, frozen);
  }

  ghost predicate AllFreezable(env: Env, st: Store, sections: seq<string>) {
    forall id :: id in sections && RuleIn(st, id) ==> Freezable(env, st.secs[id].rule)
  }

  /** The legacy loop runs through exactly when every rule to be frozen can be. */
  lemma {:induction false} LegacyStepsBare(env: Env, st0: Store, st: Store, sections: seq<string>)
    requires st.Valid() && NoDup(sections) && Untouched(st0, Bare(st), sections)
    ensures var r := LegacySteps(env, st0, st, sections);
      && (r.Some? <==> AllFreezable(env, st0, sections))
      && (r.Some? ==> r.value.Valid() && Bare(r.value) == LegacyMap(env, st0, Bare(st), sections))
  {
    if sections != [] {
      var n := |sections| - 1;
      var init := sections[..n];
      assert sections == init + [sections[n]];
      LegacyStepsBare(env, st0, st, init);
      var before := LegacySteps(env, st0, st, init);
      if before.Some? {
        LegacyMapKeys(env, st0, Bare(st), init);
        assert sections[n] !in init;
        LegacyEffectBare(env, before.value, sections[n], st0.secs[sections[n]].rule, FrozenCount(st0, sections));
      }
    }
  }

  /** The legacy loop's state after the listed rules: the store, the rules kept and how many were frozen. */
  ghost predicate LegacyLoop(env: Env, st0: Store, start: Store, sections: seq<string>, st: Store,
    survivors: seq<string>, count: nat)
  {
    && (forall i :: 0 <= i < |sections| ==> RuleIn(st0, sections[i]))
    && LegacySteps(env, st0, start, sections) == Some(st)
    && survivors == Survivors(st0, sections) && count == FrozenCount(st0, sections)
  }

  /** One more rule in the counts of the loop. */
  lemma CountsStep(st0: Store, sections: seq<string>, n: nat)
    requires n < |sections| && RuleIn(st0, sections[n])
    ensures var rule, upto := st0.secs[sections[n]].rule, sections[..n + 1];
      && Survivors(st0, upto) == Survivors(st0, sections[..n]) + (if FateOf(rule) == Drop then [] else [sections[n]])
      && FrozenCount(st0, upto) == FrozenCount(st0, sections[..n]) + (if FateOf(rule) == Freeze then 1 else 0)
  {
    var upto := sections[..n + 1];
    assert upto[..|upto| - 1] == sections[..n] && upto[|upto| - 1] == sections[n];
  }

  /** One more step of the loop. */
  lemma StepsStep(env: Env, st0: Store, start: Store, sections: seq<string>, n: nat, st: Store)
    requires n < |sections| && forall i :: 0 <= i < |sections| ==> RuleIn(st0, sections[i])
    requires LegacySteps(env, st0, start, sections[..n]) == Some(st)
    ensures RuleIn(st0, sections[n])
    ensures LegacySteps(env, st0, start, sections[..n + 1])
         == LegacyStep(env, st, sections[n], st0.secs[sections[n]].rule, FrozenCount(st0, sections[..n + 1]))
  {
    var upto := sections[..n + 1];
    assert upto[..|upto| - 1] == sections[..n] && upto[|upto| - 1] == sections[n];
  }

  /** One more turn of the legacy loop. */
  lemma LegacyLoopStep(env: Env, st0: Store, start: Store, sections: seq<string>, n: nat, st: Store,
    survivors: seq<string>, count: nat)
    requires n < |sections| && forall i :: 0 <= i < |sections| ==> RuleIn(st0, sections[i])
    requires LegacyLoop(env, st0, start, sections[..n], st, survivors, count)
    ensures RuleIn(st0, sections[n])
    ensures var rule, id := st0.secs[sections[n]].rule, sections[n];
      var next := if FateOf(rule) == Freeze then count + 1 else count;
      var step := LegacyStep(env, st, id, rule, next);
      if step.None? then LegacySteps(env, st0, start, sections[..n + 1]).None?
      else LegacyLoop(env, st0, start, sections[..n + 1], step.value,
                      if FateOf(rule) == Drop then survivors else survivors + [id], next)
  {
    StepsStep(env, st0, start, sections, n, st);
    CountsStep(st0, sections, n);
    assert survivors + [] == survivors;
  }

  /** Once freezing has raised, the loop has. */
  lemma {:induction false} LegacyStepsFail(env: Env, st0: Store, start: Store, sections: seq<string>, n: nat)
    requires n <= |sections| && forall i :: 0 <= i < |sections| ==> RuleIn(st0, sections[i])
    requires LegacySteps(env, st0, start, sections[..n]).None?
    ensures LegacySteps(env, st0, start, sections).None?
  {
    if n == |sections| {
      assert sections[..n] == sections;
    } else {
      assert sections[..|sections| - 1][..n] == sections[..n];
      LegacyStepsFail(env, st0, start, sections[..|sections| - 1], n);
    }
  }

  // ----- the whole migration

  function DropFilter(id: string, s: Section): Section {
    if id == "config" && s.Other? then Other(false) else s
  }

  /** The exemptions and rules found at the start, and an identifier for every exemption. */
  datatype Snapshot = Snapshot(st: Store, exemptions: seq<string>, rules: seq<string>, ids: seq<string>) {
    ghost predicate Taken() {
      && st.Valid() && exemptions == st.Ids(IsExemption) && rules == RuleIds(st)
      && NewIds(st, exemptions, ids)
      && NoDup(rules)
      && (forall x :: x in exemptions <==> x in st.secs && st.secs[x].Exemption?)
      && (forall x :: x in rules <==> RuleIn(st, x))
    }
  }

  function SnapshotOf(st: Store, ids: seq<string>): Snapshot {
    Snapshot(st, st.Ids(IsExemption), RuleIds(st), ids)
  }

  lemma TakeSnapshot(st: Store, ids: seq<string>)
    requires st.Valid() && NewIds(st, st.Ids(IsExemption), ids)
    ensures SnapshotOf(st, ids).Taken()
  {
    SelectNoDup(IsRule, st.order, st.secs);
  }

  /** What every section is after the migration, priorities aside; `last` once the filters are dropped too. */
  ghost predicate Migrated(env: Env, s: Snapshot, m: map<string, Section>, last: bool)
    requires s.Taken()
  {
    && (forall x :: x in m <==>
      x in s.ids || (x in s.st.secs && x !in s.exemptions && (x in s.rules ==> FateOf(s.st.secs[x].rule) != Drop)))
    && (forall i :: 0 <= i < |s.ids| ==> NewAt(env, s, m, i))
    && (forall i :: 0 <= i < |s.rules| ==> RuleAt(env, s, m, i))
    && (forall x :: x in s.st.secs && x !in s.exemptions && x !in s.rules ==>
          m[x] == if last then DropFilter(x, s.st.secs[x]) else s.st.secs[x])
  }

  /** The rule the i-th exemption became. */
  ghost predicate NewAt(env: Env, s: Snapshot, m: map<string, Section>, i: nat)
    requires s.Taken() && i < |s.ids|
  {
    assert s.exemptions[i] in s.exemptions;
    s.ids[i] in m && m[s.ids[i]] == RuleSection(NewRule(env, s.st.secs[s.exemptions[i]], i + 1))
  }

  /** What the i-th rule became, unless it was dropped. */
  ghost predicate RuleAt(env: Env, s: Snapshot, m: map<string, Section>, i: nat)
    requires s.Taken() && i < |s.rules|
  {
    assert s.rules[i] in s.rules;
    FateOf(s.st.secs[s.rules[i]].rule) != Drop ==> s.rules[i] in m && m[s.rules[i]] == Outcome(env, s.st, s.rules, i)
  }

  /** The exemption loop leaves the rules of the snapshot alone. */
  lemma RulesUntouched(env: Env, s: Snapshot)
    requires s.Taken()
    ensures Untouched(s.st, ExemptionMap(env, s.st, s.exemptions, s.ids), s.rules)
  {
    NewIdsApart(s.st, s.exemptions, s.ids);
    ReplaceKeys(Bare(s.st), s.exemptions, s.ids, NewRules(env, s.st, s.exemptions));
    forall i | 0 <= i < |s.rules| ensures RuleIn(s.st, s.rules[i]) && s.rules[i] !in s.exemptions {
      assert s.rules[i] in s.rules;
    }
  }

  lemma RulesAreRules(s: Snapshot)
    requires s.Taken()
    ensures forall i :: 0 <= i < |s.rules| ==> RuleIn(s.st, s.rules[i])
  {
    forall i | 0 <= i < |s.rules| ensures RuleIn(s.st, s.rules[i]) {
      assert s.rules[i] in s.rules;
    }
  }

  /** Both loops run through exactly when no rule that is to be frozen makes them raise. */
  lemma BothLoops(env: Env, s: Snapshot)
    requires s.Taken() && AllAccepted(env, s.st, s.exemptions)
    ensures ExemptionSteps(env, s.st, s.exemptions, s.ids).Some?
    ensures forall i :: 0 <= i < |s.rules| ==> RuleIn(s.st, s.rules[i])
    ensures var st2 := LegacySteps(env, s.st, ExemptionSteps(env, s.st, s.exemptions, s.ids).value, s.rules);
      && (st2.Some? <==> AllFreezable(env, s.st, s.rules))
      && (st2.Some? ==> st2.value.Valid() && Migrated(env, s, Bare(st2.value), false))
  {
    RulesAreRules(s);
    ExemptionStepsBare(env, s.st, s.exemptions, s.ids);
    var st1 := ExemptionSteps(env, s.st, s.exemptions, s.ids).value;
    RulesUntouched(env, s);
    LegacyStepsBare(env, s.st, st1, s.rules);
    LegacyContents(env, s, Bare(st1));
  }

  lemma ReplacedKeys(env: Env, s: Snapshot, m: map<string, Section>)
    requires s.Taken() && m == ExemptionMap(env, s.st, s.exemptions, s.ids)
    ensures forall x :: x in m <==> (x in s.st.secs && x !in s.exemptions) || x in s.ids
    ensures forall x :: x in s.ids ==> x !in s.st.secs
    ensures forall x :: x in s.st.secs && x !in s.exemptions ==> m[x] == Unnumbered(s.st.secs[x])
  {
    NewIdsApart(s.st, s.exemptions, s.ids);
    ReplaceKeys(Bare(s.st), s.exemptions, s.ids, NewRules(env, s.st, s.exemptions));
  }

  lemma NewRuleThere(env: Env, s: Snapshot, m: map<string, Section>, i: nat)
    requires s.Taken() && m == ExemptionMap(env, s.st, s.exemptions, s.ids) && Untouched(s.st, m, s.rules) &&
        i < |s.ids|
    ensures NewAt(env, s, LegacyMap(env, s.st, m, s.rules), i)
  {
    assert s.ids[i] !in s.st.secs;
    NewIdsApart(s.st, s.exemptions, s.ids);
    ReplaceValue(Bare(s.st), s.exemptions, s.ids, NewRules(env, s.st, s.exemptions), i);
    LegacyMapKeys(env, s.st, m, s.rules);
  }

  lemma OldRuleThere(env: Env, s: Snapshot, m: map<string, Section>, i: nat)
    requires s.Taken() && Untouched(s.st, m, s.rules) && i < |s.rules|
    ensures RuleAt(env, s, LegacyMap(env, s.st, m, s.rules), i)
  {
    assert s.rules[i] in s.rules;
    if FateOf(s.st.secs[s.rules[i]].rule) != Drop {
      LegacyMapValues(env, s.st, m, s.rules, i);
    }
  }

  lemma LegacyContents(env: Env, s: Snapshot, m: map<string, Section>)
    requires s.Taken() && m == ExemptionMap(env, s.st, s.exemptions, s.ids) && Untouched(s.st, m, s.rules)
    ensures Migrated(env, s, LegacyMap(env, s.st, m, s.rules), false)
  {
    var r := LegacyMap(env, s.st, m, s.rules);
    ReplacedKeys(env, s, m);
    LegacyMapKeys(env, s.st, m, s.rules);
    forall i | 0 <= i < |s.rules| ensures RuleAt(env, s, r, i) {
      OldRuleThere(env, s, m, i);
    }
    forall i | 0 <= i < |s.ids| ensures NewAt(env, s, r, i) {
      NewRuleThere(env, s, m, i);
    }
  }

  /** Every section left is a rule in the new schema, or was neither a rule nor an exemption. */
  lemma MigratedSection(env: Env, s: Snapshot, m: map<string, Section>, last: bool, x: string)
    requires s.Taken() && Migrated(env, s, m, last) && x in m
    ensures m[x].RuleSection? <==> x in s.ids || x in s.rules
    ensures !m[x].Exemption? && !IsLegacy(m[x])
  {
    if x in s.ids {
      var i := IndexOf(s.ids, x);
      assert NewAt(env, s, m, i);
    } else if x in s.rules {
      var i := IndexOf(s.rules, x);
      assert RuleAt(env, s, m, i);
    }
  }

  lemma MigratedIsCurrent(env: Env, s: Snapshot, st': Store)
    requires s.Taken() && Migrated(env, s, Bare(st'), true)
    ensures !Outdated(st')
  {
    forall x | x in st'.secs ensures !st'.secs[x].Exemption? && !IsLegacy(st'.secs[x]) {
      MigratedSection(env, s, Bare(st'), true, x);
    }
    EmptyIfNoMember(st'.Ids(IsExemption));
    EmptyIfNoMember(st'.Ids(IsLegacy));
  }

  lemma {:induction false} SurvivorsNoDup(st: Store, sections: seq<string>)
    requires NoDup(sections)
    ensures NoDup(Survivors(st, sections))
  {
    if sections != [] {
      SurvivorsNoDup(st, sections[..|sections| - 1]);
      assert sections[|sections| - 1] !in sections[..|sections| - 1];
    }
  }

  /** The order lists every rule left after both loops, once. */
  lemma MigratedOrderListing(env: Env, s: Snapshot, st2: Store)
    requires s.Taken() && st2.Valid() && Migrated(env, s, Bare(st2), false)
    ensures NoDup(MigratedOrder(s.st, s.ids)) && SameMembers(MigratedOrder(s.st, s.ids), RuleIds(st2))
  {
    var survivors := Survivors(s.st, s.rules);
    SurvivorsNoDup(s.st, s.rules);
    forall i | 0 <= i < |s.ids| ensures s.ids[i] !in survivors {
      assert s.ids[i] !in s.st.secs;
    }
    NoDupConcat(s.ids, survivors);
    forall x ensures x in MigratedOrder(s.st, s.ids) <==> x in RuleIds(st2) {
      assert x in RuleIds(st2) <==> x in Bare(st2) && Bare(st2)[x].RuleSection?;
      if x in Bare(st2) {
        MigratedSection(env, s, Bare(st2), false, x);
      }
    }
  }

  lemma NewAtFiltered(env: Env, s: Snapshot, m: map<string, Section>, m': map<string, Section>, i: nat)
    requires s.Taken() && i < |s.ids| && NewAt(env, s, m, i)
    requires forall x :: x in m ==> x in m' && m'[x] == DropFilter(x, m[x])
    ensures NewAt(env, s, m', i)
  {
  }

  lemma RuleAtFiltered(env: Env, s: Snapshot, m: map<string, Section>, m': map<string, Section>, i: nat)
    requires s.Taken() && i < |s.rules| && RuleAt(env, s, m, i)
    requires forall x :: x in m ==> x in m' && m'[x] == DropFilter(x, m[x])
    ensures RuleAt(env, s, m', i)
  {
  }

  lemma FilteredMigrated(env: Env, s: Snapshot, m: map<string, Section>, m': map<string, Section>)
    requires s.Taken() && Migrated(env, s, m, false)
    requires m'.Keys == m.Keys && forall x :: x in m ==> m'[x] == DropFilter(x, m[x])
    ensures Migrated(env, s, m', true)
  {
    forall x ensures x in m' <==> x in m {
      assert x in m'.Keys <==> x in m.Keys;
    }
    forall i | 0 <= i < |s.ids| ensures NewAt(env, s, m', i) {
      NewAtFiltered(env, s, m, m', i);
    }
    forall i | 0 <= i < |s.rules| ensures RuleAt(env, s, m', i) {
      RuleAtFiltered(env, s, m, m', i);
    }
  }

  lemma DropFilterMap(env: Env, s: Snapshot, m: map<string, Section>)
    requires s.Taken() && Migrated(env, s, m, false)
    ensures Migrated(env, s, map x | x in m :: DropFilter(x, m[x]), true)
  {
    FilteredMigrated(env, s, m, map x | x in m :: DropFilter(x, m[x]));
  }

  lemma DropFiltersBare(st: Store)
    ensures Bare(DropFilters(st)) == map x | x in Bare(st) :: DropFilter(x, Bare(st)[x])
  {
    if "config" in st.secs && st.secs["config"].Other? {
      BareSet(st, "config", Other(false));
    }
  }

  lemma SetOtherOrder(st: Store, id: string, filters: bool)
    requires st.Valid() && id in st.secs && st.secs[id].Other?
    ensures var st' := st.Set(id, Other(filters));
      st'.Valid() && SortedRules(st') == SortedRules(st) && (Dense(st) ==> Dense(st'))
  {
    var st' := st.Set(id, Other(filters));
    SetValid(st, id, Other(filters));
    IdsSetSame(st, IsRule, id, Other(filters));
    SortRulesCongruent(st, st', RuleIds(st));
    NumberedSame(st, st', SortedRules(st));
  }

  /** Dropping the popular filters touches no rule. */
  lemma DropFiltersFrame(st: Store)
    requires st.Valid()
    ensures var st' := DropFilters(st);
      && st'.Valid() && SortedRules(st') == SortedRules(st) && (Dense(st) ==> Dense(st'))
      && Bare(st') == map x | x in Bare(st) :: DropFilter(x, Bare(st)[x])
  {
    DropFiltersBare(st);
    if "config" in st.secs && st.secs["config"].Other? {
      SetOtherOrder(st, "config", false);
    }
  }

  lemma FinishMigration(env: Env, s: Snapshot, st2: Store)
    requires s.Taken() && st2.Valid() && Migrated(env, s, Bare(st2), false)
    ensures var st' := DropFilters(Renumbered(st2, MigratedOrder(s.st, s.ids)));
      && st'.Valid() && !Outdated(st') && Dense(st')
      && SortedRules(st') == MigratedOrder(s.st, s.ids)
      && Migrated(env, s, Bare(st'), true)
  {
    var order := MigratedOrder(s.st, s.ids);
    var st3 := Renumbered(st2, order);
    MigratedOrderListing(env, s, st2);
    BareRenumbered(st2, order);
    RenumberedListing(st2, order);
    RenumberedRealises(st2, order);
    DropFiltersFrame(st3);
    DropFilterMap(env, s, Bare(st3));
    MigratedIsCurrent(env, s, DropFilters(st3));
  }

  lemma SnapshotOutcome(env: Env, s: Snapshot)
    requires s.Taken()
    ensures var r := MigrateSpec(env, s.st, s.ids);
      && (r.Some? <==> !Outdated(s.st) || (AllAccepted(env, s.st, s.exemptions) && AllFreezable(env, s.st, s.rules)))
      && (!Outdated(s.st) ==> r == Some(s.st))
      && (Outdated(s.st) && r.Some? ==>
            && r.value.Valid() && !Outdated(r.value) && Dense(r.value)
            && SortedRules(r.value) == s.ids + Survivors(s.st, s.rules)
            && Migrated(env, s, Bare(r.value), true))
  {
    RulesAreRules(s);
    if Outdated(s.st) {
      ExemptionStepsBare(env, s.st, s.exemptions, s.ids);
      if AllAccepted(env, s.st, s.exemptions) {
        BothLoops(env, s);
        var st2 := LegacySteps(env, s.st, ExemptionSteps(env, s.st, s.exemptions, s.ids).value, s.rules);
        if st2.Some? {
          FinishMigration(env, s, st2.value);
        }
      }
    }
  }

  /**
   The migration fails exactly when there is something to migrate and some exemption names an object
   that cannot be looked up or that expands to an address no rule source accepts, or freezing some rule
   raises. Otherwise, unless there was nothing to do, no exemption and no legacy field is left, the rules
   are one per exemption followed by the surviving rules in file order, numbered 1..n, and every section
   is what Migrated says.
   */
  lemma MigrationOutcome(env: Env, st: Store, ids: seq<string>)
    requires st.Valid() && NewIds(st, st.Ids(IsExemption), ids)
    ensures SnapshotOf(st, ids).Taken()
    ensures var r := MigrateSpec(env, st, ids);
      && (r.None? <==>
        Outdated(st) && !(AllAccepted(env, st, st.Ids(IsExemption)) && AllFreezable(env, st, RuleIds(st))))
      && (!Outdated(st) ==> r == Some(st))
      && (Outdated(st) && r.Some? ==>
            && r.value.Valid() && !Outdated(r.value) && Dense(r.value)
            && SortedRules(r.value) == ids + Survivors(st, RuleIds(st))
            && Migrated(env, SnapshotOf(st, ids), Bare(r.value), true))
  {
    TakeSnapshot(st, ids);
    SnapshotOutcome(env, SnapshotOf(st, ids));
  }

  /** A second run changes nothing. */
  lemma MigrationTwice(env: Env, st: Store, ids: seq<string>)
    requires st.Valid() && NewIds(st, st.Ids(IsExemption), ids) && MigrateSpec(env, st, ids).Some?
    ensures var st' := MigrateSpec(env, st, ids).value;
      st'.Ids(IsExemption) == [] && MigrateSpec(env, st', []) == Some(st')
  {
    MigrationOutcome(env, st, ids);
  }
}
