/** A migrated store is good, so the guarantees of the new schema hold from the migration on. */
module DpiUpgrade {
  import opened Wrappers
  import opened Sequences
  import opened Text
  import opened Uci
  import opened DpiFreeze
  import opened DpiStore
  import opened DpiPriority
  import opened DpiInvariant
  import opened DpiMigration
  import opened DpiRuns
  import C = Criteria
  import O = Objects
  import I = ObjectIps

  // ----- the invariant

  /** The rule of an accepted exemption is good, whatever the groups. */
  lemma NewRuleGood(env: Env, groups: C.Groups, e: Section, count: nat)
    requires e.Exemption? && Accepts(env, e)
    ensures GoodRule(env.ip, groups, NewRule(env, e, count))
  {
    var source := ExemptionSource(env, Strip(IsSpace, e.criteria));
    if source.Some? {
      CheckedSourceAccepts(env.ip, source.value);
      CheckedSourceMeaning(env.ip, source.value);
    }
  }

  lemma MigratedGroup(env: Env, s: Snapshot, st': Store, x: string)
    requires s.Taken() && Migrated(env, s, Bare(st'), true)
    ensures x in st'.secs && st'.secs[x].AppGroup? <==> x in s.st.secs && s.st.secs[x].AppGroup?
    ensures x in st'.secs && st'.secs[x].AppGroup? ==> st'.secs[x] == s.st.secs[x]
  {
    if x in Bare(st') {
      MigratedSection(env, s, Bare(st'), true, x);
    }
  }

  lemma MigratedGroups(env: Env, s: Snapshot, st': Store)
    requires s.Taken() && Migrated(env, s, Bare(st'), true)
    ensures Groups(st') == Groups(s.st)
  {
    forall x ensures x in Groups(st') <==> x in Groups(s.st) {
      MigratedGroup(env, s, st', x);
    }
    forall x | x in Groups(st') ensures Groups(st')[x] == Groups(s.st)[x] {
      MigratedGroup(env, s, st', x);
    }
  }

  /** Freezing gives a rule a criteria of its own, which no managed rule may have. */
  ghost predicate FreezesManaged(st: Store) {
    exists id :: RuleIn(st, id) && FateOf(st.secs[id].rule) == Freeze && st.secs[id].rule.managed
  }

  lemma MigratedNewGood(env: Env, s: Snapshot, st': Store, i: nat)
    requires s.Taken() && AllAccepted(env, s.st, s.exemptions) && Migrated(env, s, Bare(st'), true)
    requires i < |s.ids|
    ensures RuleIn(st', s.ids[i]) && GoodRule(env.ip, Groups(s.st), st'.secs[s.ids[i]].rule)
  {
    assert s.exemptions[i] in s.exemptions;
    assert NewAt(env, s, Bare(st'), i);
    NewRuleGood(env, Groups(s.st), s.st.secs[s.exemptions[i]], i + 1);
    assert st'.secs[s.ids[i]].rule.(priority := None) == NewRule(env, s.st.secs[s.exemptions[i]], i + 1);
  }

  lemma MigratedOldGood(env: Env, s: Snapshot, st': Store, i: nat)
    requires s.Taken() && Good(env.ip, s.st) && Migrated(env, s, Bare(st'), true)
    requires i < |s.rules| && RuleIn(s.st, s.rules[i]) && FateOf(s.st.secs[s.rules[i]].rule) != Drop
    ensures RuleIn(st', s.rules[i])
    ensures var before := s.st.secs[s.rules[i]].rule;
      GoodRule(env.ip, Groups(s.st), st'.secs[s.rules[i]].rule) <==> !(FateOf(before) == Freeze && before.managed)
  {
    assert RuleAt(env, s, Bare(st'), i);
    var before := s.st.secs[s.rules[i]].rule;
    var rule := st'.secs[s.rules[i]].rule;
    assert RuleSection(rule.(priority := None)) == Outcome(env, s.st, s.rules, i);
    assert GoodRule(env.ip, Groups(s.st), before);
  }

  lemma MigratedGood(env: Env, s: Snapshot, st': Store)
    requires s.Taken() && AllAccepted(env, s.st, s.exemptions) && Migrated(env, s, Bare(st'), true)
    requires Good(env.ip, s.st) && st'.Valid() && !FreezesManaged(s.st)
    ensures Good(env.ip, st')
  {
    MigratedGroups(env, s, st');
    forall x | RuleIn(st', x) ensures GoodRule(env.ip, Groups(st'), st'.secs[x].rule) {
      MigratedSection(env, s, Bare(st'), true, x);
      if x in s.ids {
        MigratedNewGood(env, s, st', IndexOf(s.ids, x));
      } else {
        assert x in Bare(st') && x in s.rules;
        MigratedOldGood(env, s, st', IndexOf(s.rules, x));
      }
    }
  }

  lemma FrozenManagedNotGood(env: Env, s: Snapshot, st': Store)
    requires s.Taken() && Migrated(env, s, Bare(st'), true) && Good(env.ip, s.st) && FreezesManaged(s.st)
    ensures !Good(env.ip, st')
  {
    MigratedGroups(env, s, st');
    var x :| RuleIn(s.st, x) && FateOf(s.st.secs[x].rule) == Freeze && s.st.secs[x].rule.managed;
    MigratedOldGood(env, s, st', IndexOf(s.rules, x));
  }

  /** The migration of a good store ends in a good store exactly when no rule it freezes was managed. */
  lemma MigrationGoodIff(env: Env, st: Store, ids: seq<string>)
    requires Good(env.ip, st) && NewIds(st, st.Ids(IsExemption), ids) && MigrateSpec(env, st, ids).Some?
    ensures Good(env.ip, MigrateSpec(env, st, ids).value) <==> !FreezesManaged(st)
  {
    MigrationOutcome(env, st, ids);
    var s, st' := SnapshotOf(st, ids), MigrateSpec(env, st, ids).value;
    if !Outdated(st) {
      assert forall id :: RuleIn(st, id) ==> id !in st.Ids(IsLegacy);
    } else if FreezesManaged(st) {
      FrozenManagedNotGood(env, s, st');
    } else {
      MigratedGood(env, s, st');
    }
  }

  /** A store of the old schema: valid groups, if any, and nothing managed. */
  ghost predicate OldSchema(st: Store) {
    st.Valid() && GoodGroups(Groups(st)) && forall id :: RuleIn(st, id) ==> !st.secs[id].rule.managed
  }

  /** After the migration of an old store and any run of operations, no managed rule has an empty criteria. */
  lemma CriteriaSinceMigration(env: Env, st: Store, ids: seq<string>, ops: seq<Op>, id: string)
    requires C.Lawful(env.ip) && OldSchema(st)
    requires NewIds(st, st.Ids(IsExemption), ids) && MigrateSpec(env, st, ids).Some?
    requires FreshRun(env.ip, MigrateSpec(env, st, ids).value, ops)
    requires var last := Run(env.ip, MigrateSpec(env, st, ids).value, ops);
      RuleIn(last, id) && last.secs[id].rule.managed
    ensures var last := Run(env.ip, MigrateSpec(env, st, ids).value, ops);
      var text := C.BuildRuleCriteria(env.ip, Groups(last), last.secs[id].rule.target);
      Good(env.ip, last) && text.Some? && text.value != ""
  {
    MigrationGoodIff(env, st, ids);
    RunGood(env.ip, MigrateSpec(env, st, ids).value, ops);
    CriteriaNeverEmpty(env.ip, MigrateSpec(env, st, ids).value, ops, id);
  }

  /** The migration keeps the names of groups distinct, and so does every run after it. */
  lemma NamesSinceMigration(env: Env, st: Store, ids: seq<string>, ops: seq<Op>)
    requires st.Valid() && DistinctNames(st)
    requires NewIds(st, st.Ids(IsExemption), ids) && MigrateSpec(env, st, ids).Some?
    requires FreshRun(env.ip, MigrateSpec(env, st, ids).value, ops)
    ensures DistinctNames(Run(env.ip, MigrateSpec(env, st, ids).value, ops))
  {
    var st' := MigrateSpec(env, st, ids).value;
    MigrationOutcome(env, st, ids);
    if Outdated(st) {
      forall x | GroupIn(st', x) ensures GroupIn(st, x) && st'.secs[x] == st.secs[x] {
        MigratedGroup(env, SnapshotOf(st, ids), st', x);
      }
    }
    FewerGroupsNames(st, st');
    RunNames(env.ip, st', ops);
  }

  /** After a migration that had something to do, the priorities are 1..n over every run. */
  lemma DenseSinceMigration(env: Env, st: Store, ids: seq<string>, ops: seq<Op>)
    requires st.Valid() && Outdated(st)
    requires NewIds(st, st.Ids(IsExemption), ids) && MigrateSpec(env, st, ids).Some?
    requires FreshRun(env.ip, MigrateSpec(env, st, ids).value, ops)
    ensures Dense(Run(env.ip, MigrateSpec(env, st, ids).value, ops))
  {
    MigrationOutcome(env, st, ids);
    RunDenseIff(env.ip, MigrateSpec(env, st, ids).value, ops);
  }

  // ----- the object store behind the exemptions and the frozen rules

  /** The migration over an object store and a network configuration. */
  ghost function EnvOf(ip: C.IpText, objects: O.Store, devices: Option<seq<Device>>): Env
    requires O.Loopless(objects)
  {
    Env(ip, O.IsObjectId, name => I.Addresses(objects, name), devices)
  }

  /** The exemption names an object that cannot be expanded, or that stands for something no rule source accepts. */
  ghost predicate BadObject(ip: C.IpText, objects: O.Store, e: Section)
    requires O.Loopless(objects) && e.Exemption?
  {
    var name := Strip(IsSpace, e.criteria);
    O.IsObjectId(name) &&
      (I.Fails(objects, name) ||
        exists a :: I.Tree(objects, name).Some? && a in I.Tree(objects, name).value && !GoodEntry(ip, a))
  }

  /** A plain address is checked before it is used, so it never fails the migration. */
  lemma PlainSourceAccepted(ip: C.IpText, criteria: string)
    requires CheckedSource(ip, [criteria]).Done?
    ensures forall v :: v in CheckedSource(ip, [criteria]).value ==> GoodEntry(ip, v)
  {
    CheckedSourceMeaning(ip, [criteria]);
    CheckedSourceAccepts(ip, [criteria]);
    forall v | v in CheckedSource(ip, [criteria]).value ensures GoodEntry(ip, v) {
      var w :| w in [criteria] && v == Strip(IsSpace, w);
      StripTrims(IsSpace, w);
      StripIdentity(IsSpace, v);
    }
  }

  lemma AcceptsIff(ip: C.IpText, objects: O.Store, devices: Option<seq<Device>>, e: Section)
    requires O.Loopless(objects) && e.Exemption?
    ensures Accepts(EnvOf(ip, objects, devices), e) <==> !BadObject(ip, objects, e)
  {
    var env, name := EnvOf(ip, objects, devices), Strip(IsSpace, e.criteria);
    if O.IsObjectId(name) {
      I.ExpansionFailsIff(objects, name);
      if I.Addresses(objects, name).Some? {
        I.AddressesDistinct(objects, name);
      }
    } else if name != "" && CheckedSource(ip, [name]).Done? {
      PlainSourceAccepted(ip, name);
    }
  }

  /** A rule without a criteria of its own has a source that is an object and cannot be expanded. */
  ghost predicate BadSource(objects: O.Store, rule: Rule) {
    rule.criteria.None? && exists s :: s in rule.target.source && O.IsObjectId(s) && I.Fails(objects, s)
  }

  /** The rule is to be frozen, and freezing it raises. */
  ghost predicate FreezeRaises(objects: O.Store, devices: Option<seq<Device>>, rule: Rule) {
    FateOf(rule) == Freeze && (BadSource(objects, rule) || devices.None?)
  }

  lemma FreezableIff(ip: C.IpText, objects: O.Store, devices: Option<seq<Device>>, rule: Rule)
    requires O.Loopless(objects)
    ensures Freezable(EnvOf(ip, objects, devices), rule) <==> !FreezeRaises(objects, devices, rule)
  {
    var env := EnvOf(ip, objects, devices);
    FreezeFailsIff(env, rule);
    forall s ensures env.objectIps(s).None? <==> I.Fails(objects, s) {
      I.ExpansionFailsIff(objects, s);
    }
    assert SourceRaises(env, rule) <==> BadSource(objects, rule);
  }

  ghost predicate SomeBadExemption(ip: C.IpText, objects: O.Store, st: Store)
    requires O.Loopless(objects)
  {
    exists id :: id in st.secs && st.secs[id].Exemption? && BadObject(ip, objects, st.secs[id])
  }

  ghost predicate SomeFreezeRaises(objects: O.Store, devices: Option<seq<Device>>, st: Store) {
    exists id :: RuleIn(st, id) && FreezeRaises(objects, devices, st.secs[id].rule)
  }

  lemma AllAcceptedIff(ip: C.IpText, objects: O.Store, devices: Option<seq<Device>>, st: Store)
    requires O.Loopless(objects) && st.Valid() && AllExemptions(st, st.Ids(IsExemption))
    ensures AllAccepted(EnvOf(ip, objects, devices), st, st.Ids(IsExemption)) <==> !SomeBadExemption(ip, objects, st)
  {
    var env, exemptions := EnvOf(ip, objects, devices), st.Ids(IsExemption);
    forall id | id in st.secs && st.secs[id].Exemption?
      ensures Accepts(env, st.secs[id]) <==> !BadObject(ip, objects, st.secs[id])
    {
      AcceptsIff(ip, objects, devices, st.secs[id]);
    }
    forall id | AllAccepted(env, st, exemptions) && id in st.secs && st.secs[id].Exemption?
      ensures Accepts(env, st.secs[id])
    {
      assert exemptions[IndexOf(exemptions, id)] == id;
    }
  }

  lemma AllFreezableIff(ip: C.IpText, objects: O.Store, devices: Option<seq<Device>>, st: Store)
    requires O.Loopless(objects) && st.Valid()
    ensures AllFreezable(EnvOf(ip, objects, devices), st, RuleIds(st)) <==> !SomeFreezeRaises(objects, devices, st)
  {
    forall id | RuleIn(st, id)
      ensures Freezable(EnvOf(ip, objects, devices), st.secs[id].rule) <==>
          !FreezeRaises(objects, devices, st.secs[id].rule)
    {
      FreezableIff(ip, objects, devices, st.secs[id].rule);
    }
  }

  /**
   Over any acyclic object store, the migration fails exactly when some exemption names an object that
   holds something malformed, or that stands for something no rule source accepts; or when some rule is
   to be frozen and the network configuration cannot be read, or the rule has no criteria of its own and
   a source that is an object which holds something malformed.
   */
  lemma MigrationFailsIff(ip: C.IpText, objects: O.Store, devices: Option<seq<Device>>, st: Store, ids: seq<string>)
    requires O.Loopless(objects) && st.Valid() && NewIds(st, st.Ids(IsExemption), ids)
    ensures MigrateSpec(EnvOf(ip, objects, devices), st, ids).None? <==>
              SomeBadExemption(ip, objects, st) || SomeFreezeRaises(objects, devices, st)
  {
    MigrationOutcome(EnvOf(ip, objects, devices), st, ids);
    AllAcceptedIff(ip, objects, devices, st);
    AllFreezableIff(ip, objects, devices, st);
    forall id | RuleIn(st, id) && FreezeRaises(objects, devices, st.secs[id].rule) ensures Outdated(st) {
      assert id in st.Ids(IsLegacy);
    }
    forall id | id in st.secs && st.secs[id].Exemption? ensures Outdated(st) {
      assert id in st.Ids(IsExemption);
    }
  }

  // ----- a legacy rule that stops the migration

  /** `objects/a/b`, the name of an object with two slashes. */
  const TWO_SLASHES := O.Ref("a/b")

  /** A rule for one device whose only source is such a name. */
  function BlockedSource(): Rule {
    BLANK_RULE.(action := "block", target := C.Rule([], [TWO_SLASHES], false),
      legacy := NO_LEGACY.(device := Some("eth0")))
  }

  /** A store with nothing but this rule. */
  function BlockedStore(): Store {
    Config(["r"], map["r" := RuleSection(BlockedSource())])
  }

  const NO_OBJECTS := O.Store(map[], map[], [])

  lemma NoObjectsNoPath(p: seq<string>)
    requires |p| >= 2
    ensures !O.IsPath(NO_OBJECTS, p)
  {
    assert !O.Edge(NO_OBJECTS, p[0], p[0 + 1]);
  }

  lemma NoObjectsLoopless()
    ensures O.Loopless(NO_OBJECTS)
  {
    forall p: seq<string> | |p| >= 2 ensures !O.IsPath(NO_OBJECTS, p) {
      NoObjectsNoPath(p);
    }
  }

  lemma SlashedRefFails(objects: O.Store, id: string)
    requires '/' in id
    ensures O.IsObjectId(O.Ref(id)) && I.Fails(objects, O.Ref(id))
  {
    var r := O.Ref(id);
    IndexOfConcat(O.OBJECTS, '/', id);
    assert O.OBJECTS + ['/'] + id == r;
    assert r[..8] == "objects/" && r[8..] == id;
  }

  lemma BlockedStoreShape()
    ensures BlockedStore().Valid() && BlockedStore().Ids(IsExemption) == [] && RuleIn(BlockedStore(), "r")
    ensures FateOf(BlockedSource()) == Freeze && BlockedSource().criteria.None?
    ensures BlockedSource().target.source == [TWO_SLASHES]
  {
    EmptyIfNoMember(BlockedStore().Ids(IsExemption));
  }

  /** Without a single exemption, one source of one rule makes the migration fail. */
  lemma OneSourceStopsMigration(ip: C.IpText, objects: O.Store, devices: Option<seq<Device>>, st: Store, id: string,
    source: string)
    requires O.Loopless(objects) && st.Valid() && st.Ids(IsExemption) == []
    requires RuleIn(st, id) && FateOf(st.secs[id].rule) == Freeze && st.secs[id].rule.criteria.None?
    requires source in st.secs[id].rule.target.source && O.IsObjectId(source) && I.Fails(objects, source)
    ensures MigrateSpec(EnvOf(ip, objects, devices), st, []).None?
  {
    assert FreezeRaises(objects, devices, st.secs[id].rule);
    NoIdsNeeded(st);
    MigrationFailsIff(ip, objects, devices, st, []);
  }

  lemma BlockedSourceStopsMigration(ip: C.IpText, devices: Option<seq<Device>>)
    ensures O.Loopless(NO_OBJECTS) && BlockedStore().Ids(IsExemption) == []
    ensures MigrateSpec(EnvOf(ip, NO_OBJECTS, devices), BlockedStore(), []).None?
  {
    NoObjectsLoopless();
    BlockedStoreShape();
    SlashInside();
    SlashedRefFails(NO_OBJECTS, "a/b");
    OneSourceStopsMigration(ip, NO_OBJECTS, devices, BlockedStore(), "r", TWO_SLASHES);
  }

  lemma SlashInside()
    ensures '/' in "a/b"
  {
    assert "a/b"[1] == '/';
  }
}
