/**
 What the migration does to what the user sees: every exemption goes on letting through what it covered,
 ahead of every other rule, and every old rule goes on blocking under a text of its own, or is dropped.
 */
module DpiMigrationLaws {
  import opened Wrappers
  import opened Sequences
  import opened Text
  import opened Uci
  import opened DpiStore
  import opened DpiPriority
  import opened DpiFreeze
  import opened DpiMigration
  import opened DpiRuleLaws
  import C = Criteria

  // ----- numbers in names

  /** The number that digits denote. */
  function Denoted(s: string): int {
    if s == "" then 0 else 10 * Denoted(s[..|s| - 1]) + (s[|s| - 1] as int - 48)
  }

  /** Numbers are written in decimal, without leading zeros. */
  lemma {:induction false} ShowNatDenotes(n: nat)
    ensures Denoted(ShowNat(n)) == n
    ensures ShowNat(n)[0] as int == 48 ==> n == 0
  {
    if n < 10 {
      assert ShowNat(n)[..0] == "";
    } else {
      ShowNatDenotes(n / 10);
      var s := ShowNat(n);
      assert s[..|s| - 1] == ShowNat(n / 10);
      assert s[0] == ShowNat(n / 10)[0];
    }
  }

  // ----- the rule of an exemption

  /** The exemption names addresses that a rule can hold: it is an object that stands for some, or one source. */
  predicate NamesAddresses(env: Env, criteria: string) {
    if env.isObject(criteria) then env.objectIps(criteria) != Some([])
    else C.ValidSource(env.ip, criteria)
  }

  /** What such an exemption covers. */
  ghost predicate Covers(env: Env, criteria: string, a: C.Address) {
    if env.isObject(criteria) then
      env.objectIps(criteria).Some? && C.AnySource(env.ip, Stripped(env.objectIps(criteria).value), a)
    else C.ValidSource(env.ip, criteria) && C.SourceContains(env.ip, criteria, a)
  }

  /** The description cut to 64 characters, or a number in the order of the exemptions. */
  predicate IsExemptionName(name: string, description: string, count: nat) {
    var d := Strip(IsSpace, description);
    var cut := Strip(IsSpace, if |d| > 64 then d[..64] else d);
    name == if cut != "" then cut else "Migrated exception " + ShowNat(count)
  }

  /** A text that ends in a semicolon, added only where there is none. */
  predicate IsClosed(text: string, criteria: string) {
    text == criteria + ";" || (text == criteria && criteria != "" && criteria[|criteria| - 1] == ';')
  }

  /** The rule lets through what the exemption let through. */
  ghost predicate LetsThrough(env: Env, rule: Rule, e: Section, count: nat)
    requires e.Exemption?
  {
    var criteria := Strip(IsSpace, e.criteria);
    && rule.action == "allow" && rule.enabled == e.enabled && IsExemptionName(rule.name, e.description, count)
    && rule.legacy == Legacy(None, None, None, None, false, false)
    && rule.target.appgroups == []
    && if criteria != "" && NamesAddresses(env, criteria) then
         && rule.managed && rule.criteria == None && rule.target.matchAll && rule.target.source != []
         && (forall s :: s in rule.target.source ==> C.ValidSource(env.ip, s))
         && forall a :: C.AnySource(env.ip, rule.target.source, a) <==> Covers(env, criteria, a)
       else
         && !rule.managed && !rule.target.matchAll && rule.target.source == []
         && rule.criteria.Some? && IsClosed(rule.criteria.value, criteria)
         && (criteria != "" && criteria[|criteria| - 1] == ';' ==> rule.criteria.value == criteria)
  }

  lemma AnySourceDedup(ip: C.IpText, values: seq<string>, a: C.Address)
    ensures C.AnySource(ip, Dedup(values), a) <==> C.AnySource(ip, values, a)
  {
  }

  lemma OneStripped(s: string)
    ensures Stripped([Strip(IsSpace, s)]) == [Strip(IsSpace, s)] && Dedup([Strip(IsSpace, s)]) == [Strip(IsSpace, s)]
  {
    var t := Strip(IsSpace, s);
    StripTrims(IsSpace, s);
    StripIdentity(IsSpace, t);
    OneAlone(t);
    assert Stripped([t]) == [Strip(IsSpace, t)];
  }

  lemma OneAlone(t: string)
    ensures Dedup([t]) == [t]
  {
    DedupOfNoDup([t]);
  }

  /** The source of an exemption that is no object. */
  lemma PlainSource(env: Env, text: string)
    requires Strip(IsSpace, text) != "" && !env.isObject(Strip(IsSpace, text))
    ensures var c := Strip(IsSpace, text);
      ExemptionSource(env, c) == if C.ValidSource(env.ip, c) then Some([c]) else None
    ensures var c := Strip(IsSpace, text);
      C.ValidSource(env.ip, c) ==> CheckedSource(env.ip, [c]) == Done([c])
  {
    var c := Strip(IsSpace, text);
    OneStripped(text);
    CheckedSourceAccepts(env.ip, [c]);
    assert Stripped([c])[0] == Strip(IsSpace, c);
    assert GoodEntry(env.ip, c) <==> C.ValidSource(env.ip, c);
    if C.ValidSource(env.ip, c) {
      CheckedSourceIs(env.ip, [c]);
    }
  }

  lemma OneSourceMeans(ip: C.IpText, c: string, a: C.Address)
    requires C.ValidSource(ip, c)
    ensures C.AnySource(ip, [c], a) <==> C.SourceContains(ip, c, a)
  {
    assert c in [c];
  }

  /** A list of good sources, as a rule keeps it. */
  lemma KeptSource(ip: C.IpText, values: seq<string>)
    requires values != [] && forall v :: v in values ==> GoodEntry(ip, v)
    ensures CheckedSource(ip, values) == Done(Dedup(Stripped(values))) && Dedup(Stripped(values)) != []
    ensures forall s :: s in Dedup(Stripped(values)) ==> C.ValidSource(ip, s)
  {
    CheckedSourceAccepts(ip, values);
    CheckedSourceIs(ip, values);
    CheckedSourceMeaning(ip, values);
    assert Strip(IsSpace, values[0]) in CheckedSource(ip, values).value;
  }

  /** The sources that an exemption turns into, and what they cover. */
  lemma SourceCovers(env: Env, text: string, a: C.Address)
    requires var c := Strip(IsSpace, text); c != "" && NamesAddresses(env, c) && !LookupRaises(env, c)
    ensures var c := Strip(IsSpace, text);
      && ExemptionSource(env, c).Some? && ExemptionSource(env, c).value != []
      && (C.AnySource(env.ip, Dedup(Stripped(ExemptionSource(env, c).value)), a) <==> Covers(env, c, a))
  {
    var c := Strip(IsSpace, text);
    if env.isObject(c) {
      AnySourceDedup(env.ip, Stripped(env.objectIps(c).value), a);
    } else {
      PlainSource(env, text);
      OneStripped(text);
      OneSourceMeans(env.ip, c, a);
    }
  }

  lemma NewRuleManaged(env: Env, e: Section, count: nat)
    requires e.Exemption? && Accepts(env, e)
    requires Strip(IsSpace, e.criteria) != "" && NamesAddresses(env, Strip(IsSpace, e.criteria))
    ensures LetsThrough(env, NewRule(env, e, count), e, count)
  {
    var c := Strip(IsSpace, e.criteria);
    forall a {
      SourceCovers(env, e.criteria, a);
    }
    SourceCovers(env, e.criteria, C.Address(C.V4, 0, None));
    KeptSource(env.ip, ExemptionSource(env, c).value);
  }

  lemma NewRuleVerbatim(env: Env, e: Section, count: nat)
    requires e.Exemption?
    requires Strip(IsSpace, e.criteria) == "" || !NamesAddresses(env, Strip(IsSpace, e.criteria))
    ensures LetsThrough(env, NewRule(env, e, count), e, count)
  {
    var c := Strip(IsSpace, e.criteria);
    if c != "" && !env.isObject(c) {
      PlainSource(env, e.criteria);
    }
  }

  lemma NewRuleLetsThrough(env: Env, e: Section, count: nat)
    requires e.Exemption? && Accepts(env, e)
    ensures LetsThrough(env, NewRule(env, e, count), e, count)
  {
    if Strip(IsSpace, e.criteria) != "" && NamesAddresses(env, Strip(IsSpace, e.criteria)) {
      NewRuleManaged(env, e, count);
    } else {
      NewRuleVerbatim(env, e, count);
    }
  }

  /** The migration had something to do and got through. */
  ghost predicate MigratedTo(env: Env, st: Store, ids: seq<string>, st': Store) {
    && st.Valid() && Outdated(st) && NewIds(st, st.Ids(IsExemption), ids) && MigrateSpec(env, st, ids) == Some(st')
  }

  /** The i-th exemption is a rule that lets the same through, at place i of the evaluation order. */
  lemma ExemptionLetsThrough(env: Env, st: Store, ids: seq<string>, st': Store, i: nat)
    requires MigratedTo(env, st, ids, st') && i < |ids|
    ensures var x := st.Ids(IsExemption)[i];
      && x in st.secs && st.secs[x].Exemption?
      && RuleIn(st', ids[i]) && LetsThrough(env, st'.secs[ids[i]].rule, st.secs[x], i + 1)
    ensures i < |SortedRules(st')| && SortedRules(st')[i] == ids[i]
  {
    MigrationOutcome(env, st, ids);
    var s, x := SnapshotOf(st, ids), st.Ids(IsExemption)[i];
    assert x in st.Ids(IsExemption);
    assert NewAt(env, s, Bare(st'), i);
    assert Accepts(env, st.secs[x]);
    NewRuleLetsThrough(env, st.secs[x], i + 1);
    assert st'.secs[ids[i]].rule.(priority := None) == NewRule(env, st.secs[x], i + 1);
  }

  // ----- what the flows see

  /** The exemption is enabled and covers the flow, by its addresses or by the text it is. */
  ghost predicate Exempts(e: Engine, env: Env, x: Section, flow: C.Flow)
    requires x.Exemption?
  {
    var c := Strip(IsSpace, x.criteria);
    && x.enabled
    && if c != "" && NamesAddresses(env, c) then Covers(env, c, flow.local)
       else e.reading(if c != "" && c[|c| - 1] == ';' then c else c + ";", flow)
  }

  lemma LetsThroughFires(e: Engine, env: Env, st': Store, id: string, x: Section, count: nat, flow: C.Flow)
    requires e.ip == env.ip && RuleIn(st', id) && x.Exemption? && LetsThrough(env, st'.secs[id].rule, x, count)
    ensures Fires(e, st', id, flow) <==> Exempts(e, env, x, flow)
  {
  }

  /** The first rule of a list that fires. */
  lemma {:induction false} FirstOfAt(e: Engine, st: Store, order: seq<string>, i: nat, flow: C.Flow)
    requires i < |order| && Fires(e, st, order[i], flow)
    requires forall j :: 0 <= j < i ==> !Fires(e, st, order[j], flow)
    ensures FirstOf(e, st, order, flow) == Some(order[i])
  {
    if i > 0 {
      assert order[1..][i - 1] == order[i];
      assert forall j :: 0 <= j < i - 1 ==> order[1..][j] == order[j + 1];
      FirstOfAt(e, st, order[1..], i - 1, flow);
    }
  }

  lemma {:induction false} FirstOfNone(e: Engine, st: Store, order: seq<string>, flow: C.Flow)
    requires forall j :: 0 <= j < |order| ==> !Fires(e, st, order[j], flow)
    ensures FirstOf(e, st, order, flow) == None
  {
    if order != [] {
      assert forall j :: 0 <= j < |order| - 1 ==> order[1..][j] == order[j + 1];
      FirstOfNone(e, st, order[1..], flow);
    }
  }

  ghost predicate ExemptsAt(e: Engine, env: Env, st: Store, i: nat, flow: C.Flow)
    requires i < |st.Ids(IsExemption)|
  {
    var x := st.Ids(IsExemption)[i];
    assert x in st.Ids(IsExemption);
    Exempts(e, env, st.secs[x], flow)
  }

  /** The i-th exemption covers the flow, and none before it does. */
  ghost predicate FirstExempting(e: Engine, env: Env, st: Store, i: nat, flow: C.Flow)
    requires i < |st.Ids(IsExemption)|
  {
    ExemptsAt(e, env, st, i, flow) && forall j: nat :: j < i ==> !ExemptsAt(e, env, st, j, flow)
  }

  lemma FiresAt(e: Engine, env: Env, st: Store, ids: seq<string>, st': Store, i: nat, flow: C.Flow)
    requires MigratedTo(env, st, ids, st') && e.ip == env.ip && i < |ids|
    ensures Fires(e, st', ids[i], flow) <==> ExemptsAt(e, env, st, i, flow)
  {
    ExemptionLetsThrough(env, st, ids, st', i);
    LetsThroughFires(e, env, st', ids[i], st.secs[st.Ids(IsExemption)[i]], i + 1, flow);
  }

  /**
   After the migration a flow that some enabled exemption covers is decided by the rule of the first one
   that does, which allows it; every other flow is decided by the rules that were there before.
   */
  lemma ExemptionsDecideFirst(e: Engine, env: Env, st: Store, ids: seq<string>, st': Store, flow: C.Flow)
    requires MigratedTo(env, st, ids, st') && e.ip == env.ip
    ensures forall i: nat :: i < |ids| && FirstExempting(e, env, st, i, flow) ==>
      && FirstMatch(e, st', flow) == Some(ids[i])
      && RuleIn(st', ids[i]) && st'.secs[ids[i]].rule.action == "allow"
    ensures (forall i: nat :: i < |ids| ==> !ExemptsAt(e, env, st, i, flow)) ==>
              FirstMatch(e, st', flow) == FirstOf(e, st', Survivors(st, RuleIds(st)), flow)
  {
    var rest := Survivors(st, RuleIds(st));
    MigrationOutcome(env, st, ids);
    FirstOfConcat(e, st', ids, rest, flow);
    forall i: nat | i < |ids| ensures Fires(e, st', ids[i], flow) <==> ExemptsAt(e, env, st, i, flow) {
      FiresAt(e, env, st, ids, st', i, flow);
    }
    forall i: nat | i < |ids| && FirstExempting(e, env, st, i, flow)
      ensures FirstMatch(e, st', flow) == Some(ids[i]) && RuleIn(st', ids[i])
      ensures st'.secs[ids[i]].rule.action == "allow"
    {
      FirstOfAt(e, st', ids, i, flow);
      ExemptionLetsThrough(env, st, ids, st', i);
    }
    if forall i: nat :: i < |ids| ==> !ExemptsAt(e, env, st, i, flow) {
      FirstOfNone(e, st', ids, flow);
    }
  }

  // ----- what becomes of the rules

  predicate OldFields(rule: Rule) {
    rule.legacy.device != None || rule.legacy.application != None || rule.legacy.protocol != None ||
      rule.legacy.category != None
  }

  /** There is nothing that the old rule could match. */
  predicate MatchesNothing(rule: Rule) {
    && rule.criteria in {None, Some("")} && rule.target.source == []
    && rule.legacy.application in {None, Some([])} && rule.legacy.protocol in {None, Some([])}
    && rule.legacy.category in {None, Some([])}
  }

  /** The old rules of a list that stay, frozen. */
  function KeptOld(st: Store, sections: seq<string>): nat {
    if sections == [] then 0
    else
      var last := sections[|sections| - 1];
      KeptOld(st, sections[..|sections| - 1]) +
      if RuleIn(st, last) && OldFields(st.secs[last].rule) && st.secs[last].rule.action == "block" &&
         !MatchesNothing(st.secs[last].rule) then 1 else 0
  }

  lemma FateIs(rule: Rule)
    ensures FateOf(rule) == if !OldFields(rule) then Keep
                            else if rule.action != "block" || MatchesNothing(rule) then Drop
                            else Freeze
  {
  }

  lemma {:induction false} KeptOldIs(st: Store, sections: seq<string>)
    ensures FrozenCount(st, sections) == KeptOld(st, sections)
  {
    if sections != [] {
      var last := sections[|sections| - 1];
      KeptOldIs(st, sections[..|sections| - 1]);
      if RuleIn(st, last) {
        FateIs(st.secs[last].rule);
      }
    }
  }

  /**
   A rule of the new schema stays as it is. A rule of the old one is dropped if it does not block or matches
   nothing; otherwise it goes on blocking, renamed and with its old fields frozen into a criteria of its own.
   */
  lemma OldRuleFate(env: Env, st: Store, ids: seq<string>, st': Store, n: nat)
    requires MigratedTo(env, st, ids, st') && n < |RuleIds(st)|
    ensures var id := RuleIds(st)[n];
      RuleIn(st, id) && var was := st.secs[id].rule;
      && (id in st'.secs <==> !OldFields(was) || (was.action == "block" && !MatchesNothing(was)))
      && (id in st'.secs ==> RuleIn(st', id))
      && (!OldFields(was) ==> st'.secs[id].rule.(priority := None) == was.(priority := None))
      && (OldFields(was) && id in st'.secs ==>
            && FreezeCriteria(env, was).Some?
            && st'.secs[id].rule.(priority := None) ==
              Rule("Migrated rule " + ShowNat(KeptOld(st, RuleIds(st)[..n + 1])), was.managed, was.enabled, "block",
                   C.Rule(was.target.appgroups, [], was.target.matchAll), FreezeCriteria(env, was), None,
                   Legacy(None, None, None, None, false, false)))
  {
    MigrationOutcome(env, st, ids);
    var s, id := SnapshotOf(st, ids), RuleIds(st)[n];
    assert id in RuleIds(st);
    var was := st.secs[id].rule;
    assert RuleAt(env, s, Bare(st'), n);
    FateIs(was);
    KeptOldIs(st, RuleIds(st)[..n + 1]);
    assert id in st'.secs <==> id in Bare(st');
    assert Freezable(env, was);
  }
}
