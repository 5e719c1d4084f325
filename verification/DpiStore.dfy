/** The DPI configuration: its sections, the validation of what is written to it, its operations. */
module DpiStore {
  import opened Wrappers
  import opened Sequences
  import opened Text
  import opened Uci
  import C = Criteria

  /** Fields only the schema before application groups wrote. */
  datatype Legacy = Legacy(
    device: Option<string>,
    application: Option<seq<string>>,
    protocol: Option<seq<string>>,
    category: Option<seq<string>>,
    exemption: bool,
    log: bool)

  const NO_LEGACY := Legacy(None, None, None, None, false, false)

  datatype Rule = Rule(
    name: string,
    managed: bool,
    enabled: bool,
    action: string,
    target: C.Rule,
    criteria: Option<string>,
    priority: Option<int>,
    legacy: Legacy)

  const BLANK_RULE := Rule("", false, true, "", C.Rule([], [], false), None, None, NO_LEGACY)

  datatype Section =
    | AppGroup(name: string, members: C.Members)
    | RuleSection(rule: Rule)
    | Exemption(description: string, enabled: bool, criteria: string)
    | Other(popularFilters: bool)

  type Store = Config<Section>

  datatype Refusal =
    | NameRequired | NameTooLong | NameAlreadyExists
    | InvalidMember(kind: C.Kind) | AppgroupIsEmpty | AppgroupDoesNotExist | AppgroupIsUsed(rules: seq<string>)
    | InvalidAction | InvalidPosition | InvalidSource | AppgroupsNotAllowedWithMatchAll | AppgroupsRequired
    | RuleNotFound | RuleNotManaged | InvalidOrder

  datatype Reply<+T> = Done(value: T) | Refused(why: Refusal)

  predicate IsRule(s: Section) {
    s.RuleSection?
  }

  predicate IsGroup(s: Section) {
    s.AppGroup?
  }

  predicate RuleIn(st: Store, id: string) {
    id in st.secs && st.secs[id].RuleSection?
  }

  predicate GroupIn(st: Store, id: string) {
    id in st.secs && st.secs[id].AppGroup?
  }

  function RuleIds(st: Store): seq<string> {
    st.Ids(IsRule)
  }

  function Groups(st: Store): C.Groups {
    map id | id in st.secs && st.secs[id].AppGroup? :: st.secs[id].members
  }

  // ----- evaluation order

  function Priority(st: Store, id: string): Option<int> {
    if RuleIn(st, id) then st.secs[id].rule.priority else None
  }

  /** Rules without a priority sort after all the others. */
  predicate KeyLeq(a: Option<int>, b: Option<int>) {
    b.None? || (a.Some? && a.value <= b.value)
  }

  function Insert(st: Store, s: seq<string>, x: string): (r: seq<string>)
    ensures forall y :: y in r <==> y in s || y == x
  {
    if s == [] || KeyLeq(Priority(st, s[|s| - 1]), Priority(st, x)) then
      s + [x]
    else
      assert s == s[..|s| - 1] + [s[|s| - 1]];
      Insert(st, s[..|s| - 1], x) + [s[|s| - 1]]
  }

  /** A stable sort by priority. */
  function SortRules(st: Store, ids: seq<string>): (r: seq<string>)
    ensures forall y :: y in r <==> y in ids
  {
    if ids == [] then []
    else
      assert ids == ids[..|ids| - 1] + [ids[|ids| - 1]];
      Insert(st, SortRules(st, ids[..|ids| - 1]), ids[|ids| - 1])
  }

  function SortedRules(st: Store): seq<string> {
    SortRules(st, RuleIds(st))
  }

  function SetPriority(st: Store, id: string, priority: int): Store {
    if RuleIn(st, id) then st.Set(id, RuleSection(st.secs[id].rule.(priority := Some(priority)))) else st
  }

  function Renumbered(st: Store, order: seq<string>): Store {
    if order == [] then st
    else SetPriority(Renumbered(st, order[..|order| - 1]), order[|order| - 1], |order|)
  }

  // ----- validation

  const NAME_MAX_LENGTH := 64

  predicate Forbidden(c: char) {
    c in {'\'', '\"', '\\', ';', '(', ')', '\n', '\r', '\t'}
  }

  predicate CleanMember(m: string) {
    m != "" && forall i :: 0 <= i < |m| ==> !Forbidden(m[i])
  }

  type Vocabulary = C.Kind -> Option<set<string>>

  predicate KnownMember(m: string, vocabulary: Option<set<string>>) {
    CleanMember(m) && (vocabulary.Some? ==> Lower(m) in vocabulary.value)
  }

  /** Members of one kind: trimmed, free of characters that end a literal, known, distinct up to case. */
  function CheckedMembers(k: C.Kind, values: seq<string>, vocabulary: Option<set<string>>): Reply<seq<string>> {
    if values == [] then Done([])
    else
      match CheckedMembers(k, values[..|values| - 1], vocabulary)
      case Refused(why) => Refused(why)
      case Done(members) =>
        var m := Strip(IsSpace, values[|values| - 1]);
        if !KnownMember(m, vocabulary) then
          Refused(InvalidMember(k))
        else if exists e :: e in members && Lower(e) == Lower(m) then
          Done(members)
        else
          Done(members + [m])
  }

  lemma {:induction false} CheckedMembersRefuses(k: C.Kind, values: seq<string>, vocabulary: Option<set<string>>,
    n: nat)
    requires n <= |values| && CheckedMembers(k, values[..n], vocabulary) == Refused(InvalidMember(k))
    ensures CheckedMembers(k, values, vocabulary) == Refused(InvalidMember(k))
  {
    if n == |values| {
      assert values[..n] == values;
    } else {
      assert values[..|values| - 1][..n] == values[..n];
      CheckedMembersRefuses(k, values[..|values| - 1], vocabulary, n);
    }
  }

  /** The loop state of the validation: the members kept so far, and their lower-cased texts. */
  ghost predicate SeenAre(members: seq<string>, seen: set<string>) {
    forall l :: l in seen <==> exists e :: e in members && Lower(e) == l
  }

  lemma SeenStep(members: seq<string>, seen: set<string>, m: string)
    requires SeenAre(members, seen)
    ensures Lower(m) in seen <==> exists e :: e in members && Lower(e) == Lower(m)
    ensures SeenAre(members + [m], seen + {Lower(m)})
  {
    forall l ensures l in seen + {Lower(m)} <==> exists e :: e in members + [m] && Lower(e) == l {
      if l == Lower(m) {
        assert m in members + [m];
      } else if l in seen {
        var e :| e in members && Lower(e) == l;
        assert e in members + [m];
      }
    }
  }

  lemma CheckedMembersStep(k: C.Kind, values: seq<string>, vocabulary: Option<set<string>>, i: nat,
    members: seq<string>)
    requires i < |values| && CheckedMembers(k, values[..i], vocabulary) == Done(members)
    ensures var m := Strip(IsSpace, values[i]);
      CheckedMembers(k, values[..i + 1], vocabulary) ==
        if !KnownMember(m, vocabulary) then Refused(InvalidMember(k))
        else if exists e :: e in members && Lower(e) == Lower(m) then Done(members)
        else Done(members + [m])
  {
    assert values[..i + 1][..i] == values[..i];
  }

  method ValidateMembers(k: C.Kind, values: seq<string>, vocabulary: Option<set<string>>)
    returns (r: Reply<seq<string>>)
    ensures r == CheckedMembers(k, values, vocabulary)
  {
    var members: seq<string> := [];
    var seen: set<string> := {};
    for i := 0 to |values|
      invariant CheckedMembers(k, values[..i], vocabulary) == Done(members)
      invariant SeenAre(members, seen)
    {
      var member := Strip(IsSpace, values[i]);
      CheckedMembersStep(k, values, vocabulary, i, members);
      SeenStep(members, seen, member);
      if !KnownMember(member, vocabulary) {
        CheckedMembersRefuses(k, values, vocabulary, i + 1);
        return Refused(InvalidMember(k));
      }
      if Lower(member) !in seen {
        seen := seen + {Lower(member)};
        members := members + [member];
      }
    }
    assert values[..|values|] == values;
    return Done(members);
  }

  /** A single clean member is accepted as it is written, whatever its case. */
  lemma OneMember(k: C.Kind, m: string, vocabulary: Option<set<string>>)
    requires KnownMember(m, vocabulary) && Trimmed(IsSpace, m)
    ensures CheckedMembers(k, [m], vocabulary) == Done([m])
  {
    var values := [m];
    assert values[..|values| - 1] == [] && [] + [m] == [m];
    StripIdentity(IsSpace, m);
  }

  /**
   An application that the vocabulary knows in lower case only is accepted in any other case, and
   the criteria of its group then misses a flow of that application.
   */
  lemma AcceptedAppMissed(ip: C.IpText, m: string, vocabulary: set<string>) returns (flow: C.Flow)
    requires CleanMember(m) && Trimmed(IsSpace, m)
    requires Lower(m) in vocabulary && Lower(m) != m
    ensures CheckedMembers(C.App, [m], Some(vocabulary)) == Done([m])
    ensures var groups: C.Groups := map["g" := C.Members([m], [], [], [])];
      && C.InLowerCase(flow) && C.AnyGroupIgnoringCase(groups, ["g"], flow)
      && !C.EvalBlock(ip, C.GroupTerms(groups, ["g"]), flow)
  {
    OneMember(C.App, m, Some(vocabulary));
    var groups: C.Groups := map["g" := C.Members([m], [], [], [])];
    assert "g" in ["g"] && C.HasApp(groups, ["g"], m);
    flow := C.MissedFlow(ip, groups, ["g"], m);
  }

  function CheckedName(name: string): Reply<string> {
    var n := Strip(IsSpace, name);
    if n == "" then Refused(NameRequired)
    else if |n| > NAME_MAX_LENGTH then Refused(NameTooLong)
    else Done(n)
  }

  ghost predicate NameTaken(st: Store, name: string, except: Option<string>) {
    exists id :: id in st.secs && st.secs[id].AppGroup? && Some(id) != except &&
      Lower(Strip(IsSpace, st.secs[id].name)) == Lower(name)
  }

  ghost function CheckedGroup(st: Store, name: string, lists: C.Members, vocabulary: Vocabulary, except: Option<string>)
    : Reply<(string, C.Members)>
  {
    match CheckedName(name)
    case Refused(why) => Refused(why)
    case Done(n) =>
      if NameTaken(st, n, except) then Refused(NameAlreadyExists) else
      match CheckedMembers(C.App, lists.app, vocabulary(C.App))
      case Refused(why) => Refused(why)
      case Done(app) =>
        match CheckedMembers(C.AppCategory, lists.appCategory, vocabulary(C.AppCategory))
        case Refused(why) => Refused(why)
        case Done(appCategory) =>
          match CheckedMembers(C.Proto, lists.proto, vocabulary(C.Proto))
          case Refused(why) => Refused(why)
          case Done(proto) =>
            match CheckedMembers(C.ProtoCategory, lists.protoCategory, vocabulary(C.ProtoCategory))
            case Refused(why) => Refused(why)
            case Done(protoCategory) =>
              var m := C.Members(app, appCategory, proto, protoCategory);
              if m.Empty() then Refused(AppgroupIsEmpty) else Done((n, m))
  }

  function CheckedSource(ip: C.IpText, values: seq<string>): Reply<seq<string>> {
    if values == [] then Done([])
    else
      match CheckedSource(ip, values[..|values| - 1])
      case Refused(why) => Refused(why)
      case Done(sources) =>
        var s := Strip(IsSpace, values[|values| - 1]);
        if s == "" || !C.ValidSource(ip, s) then Refused(InvalidSource)
        else if s in sources then Done(sources)
        else Done(sources + [s])
  }

  lemma {:induction false} CheckedSourceRefuses(ip: C.IpText, values: seq<string>, n: nat)
    requires n <= |values| && CheckedSource(ip, values[..n]) == Refused(InvalidSource)
    ensures CheckedSource(ip, values) == Refused(InvalidSource)
  {
    if n == |values| {
      assert values[..n] == values;
    } else {
      assert values[..|values| - 1][..n] == values[..n];
      CheckedSourceRefuses(ip, values[..|values| - 1], n);
    }
  }

  method ValidateSource(ip: C.IpText, values: seq<string>) returns (r: Reply<seq<string>>)
    ensures r == CheckedSource(ip, values)
  {
    var sources: seq<string> := [];
    for i := 0 to |values|
      invariant CheckedSource(ip, values[..i]) == Done(sources)
    {
      assert values[..i + 1][..i] == values[..i];
      var source := Strip(IsSpace, values[i]);
      if source == "" || !C.ValidSource(ip, source) {
        CheckedSourceRefuses(ip, values, i + 1);
        return Refused(InvalidSource);
      }
      if source !in sources {
        sources := sources + [source];
      }
    }
    assert values[..|values|] == values;
    return Done(sources);
  }

  /** The validation lets the source with a scope id pass. */
  lemma ScopedSourceAccepted(ip: C.IpText)
    requires ip.parseNetwork(C.SCOPED).Some?
    ensures CheckedSource(ip, [C.SCOPED]) == Done([C.SCOPED])
  {
    var x, y := "fe80::1%a", "::";
    C.SplicedHasNoDash(x, y);
    SplicedTrimmed(x, y);
    StripIdentity(IsSpace, C.SCOPED);
    var values := [C.SCOPED];
    assert values[..|values| - 1] == [] && [] + [C.SCOPED] == [C.SCOPED];
  }

  lemma SplicedTrimmed(x: string, y: string)
    requires x != "" && y != "" && !IsSpace(x[0]) && !IsSpace(y[|y| - 1])
    ensures Trimmed(IsSpace, C.Spliced(x, y))
  {
    var s := C.Spliced(x, y);
    assert s[0] == x[0] && s[|s| - 1] == y[|y| - 1];
  }

  predicate GoodEntry(ip: C.IpText, value: string) {
    Strip(IsSpace, value) != "" && C.ValidSource(ip, Strip(IsSpace, value))
  }

  /** A source list is accepted exactly when every entry is readable once trimmed. */
  lemma {:induction false} CheckedSourceAccepts(ip: C.IpText, values: seq<string>)
    ensures CheckedSource(ip, values).Done? <==> forall v :: v in values ==> GoodEntry(ip, v)
  {
    if values != [] {
      var init, last := values[..|values| - 1], values[|values| - 1];
      assert values == init + [last];
      CheckedSourceAccepts(ip, init);
      assert CheckedSource(ip, values).Done? <==> CheckedSource(ip, init).Done? && GoodEntry(ip, last);
      assert (forall v :: v in values ==> GoodEntry(ip, v)) <==>
        (forall v :: v in init ==> GoodEntry(ip, v)) && GoodEntry(ip, last);
    }
  }

  /** What an accepted source list becomes: the trimmed entries, without repetition. */
  lemma {:induction false} CheckedSourceMeaning(ip: C.IpText, values: seq<string>)
    requires CheckedSource(ip, values).Done?
    ensures NoDup(CheckedSource(ip, values).value)
    ensures forall v :: v in values ==> Strip(IsSpace, v) in CheckedSource(ip, values).value
    ensures forall s :: s in CheckedSource(ip, values).value ==>
              C.ValidSource(ip, s) && exists v :: v in values && s == Strip(IsSpace, v)
  {
    if values != [] {
      var init, last := values[..|values| - 1], values[|values| - 1];
      assert values == init + [last];
      CheckedSourceMeaning(ip, init);
    }
  }

  predicate AllGroups(st: Store, names: seq<string>) {
    forall i :: 0 <= i < |names| ==> GroupIn(st, names[i])
  }

  function CheckedGroups(st: Store, names: seq<string>, matchAll: bool): Reply<seq<string>> {
    if !AllGroups(st, names) then Refused(AppgroupDoesNotExist)
    else if matchAll && names != [] then Refused(AppgroupsNotAllowedWithMatchAll)
    else if !matchAll && names == [] then Refused(AppgroupsRequired)
    else Done(Dedup(names))
  }

  lemma AllGroupsStep(st: Store, names: seq<string>, i: nat)
    requires i < |names|
    ensures AllGroups(st, names[..i + 1]) <==> AllGroups(st, names[..i]) && GroupIn(st, names[i])
    ensures AllGroups(st, names) ==> AllGroups(st, names[..i + 1])
  {
  }

  method CollectAppgroups(st: Store, names: seq<string>) returns (ok: bool, appgroups: seq<string>)
    ensures ok <==> AllGroups(st, names)
    ensures ok ==> appgroups == Dedup(names)
  {
    appgroups := [];
    for i := 0 to |names|
      invariant AllGroups(st, names[..i])
      invariant appgroups == Dedup(names[..i])
    {
      AllGroupsStep(st, names, i);
      if !GroupIn(st, names[i]) {
        return false, appgroups;
      }
      DedupPrefix(names, i);
      if names[i] !in appgroups {
        appgroups := appgroups + [names[i]];
      }
    }
    assert names[..|names|] == names;
    ok := true;
  }

  method ValidateAppgroups(st: Store, names: seq<string>, matchAll: bool) returns (r: Reply<seq<string>>)
    ensures r == CheckedGroups(st, names, matchAll)
  {
    var ok, appgroups := CollectAppgroups(st, names);
    if !ok {
      return Refused(AppgroupDoesNotExist);
    }
    assert names != [] ==> names[0] in appgroups;
    if matchAll && appgroups != [] {
      return Refused(AppgroupsNotAllowedWithMatchAll);
    }
    if !matchAll && appgroups == [] {
      return Refused(AppgroupsRequired);
    }
    return Done(appgroups);
  }

  datatype RuleArgs = RuleArgs(name: string, enabled: bool, action: string, source: seq<string>,
    appgroups: seq<string>, matchAll: bool)

  predicate KnownAction(action: string) {
    action == "block" || action == "allow"
  }

  /** What add_rule and edit_rule check, in their order; position is None for edit_rule. */
  function CheckedRule(ip: C.IpText, st: Store, a: RuleArgs, position: Option<string>): Reply<RuleArgs> {
    match CheckedName(a.name)
    case Refused(why) => Refused(why)
    case Done(name) =>
      if !KnownAction(a.action) then Refused(InvalidAction)
      else if position.Some? && position.value != "top" && position.value != "bottom" then Refused(InvalidPosition)
      else
        match CheckedSource(ip, a.source)
        case Refused(why) => Refused(why)
        case Done(source) =>
          match CheckedGroups(st, a.appgroups, a.matchAll)
          case Refused(why) => Refused(why)
          case Done(appgroups) => Done(a.(name := name, source := source, appgroups := appgroups))
  }

  method CheckOrder(rules: seq<string>, order: seq<string>) returns (r: Option<Refusal>)
    ensures r == OrderRefusal(rules, order)
  {
    for i := 0 to |order|
      invariant forall j :: 0 <= j < i ==> order[j] in rules
    {
      if order[i] !in rules {
        return Some(RuleNotFound);
      }
    }
    NoDupIffSize(order);
    if |order| != |set id | id in order| || |order| != |rules| {
      return Some(InvalidOrder);
    }
    return None;
  }

  // ----- operations, as functions of the store

  function Saved(rule: Rule, a: RuleArgs): Rule {
    rule.(name := a.name, managed := true, enabled := a.enabled, action := a.action,
    target := C.Rule(a.appgroups, a.source, a.matchAll))
  }

  /** The order a new rule leads to: first or last, the others as they were. */
  function WithNew(st: Store, id: string, top: bool): seq<string> {
    var others := Without(SortedRules(st), id);
    if top then [id] + others else others + [id]
  }

  /** The store with a new rule placed first or last. */
  function Placed(st: Store, id: string, rule: Rule, top: bool): Store {
    var st1 := st.Set(id, RuleSection(rule));
    Renumbered(st1, WithNew(st1, id, top))
  }

  /** The store without a rule, the gap its priority leaves closed. */
  function Closed(st: Store, id: string): Store {
    Renumbered(st.Delete(id), SortedRules(st.Delete(id)))
  }

  function AddRuleSpec(ip: C.IpText, st: Store, id: string, a: RuleArgs, position: string): (Store, Reply<string>) {
    match CheckedRule(ip, st, a, Some(position))
    case Refused(why) => (st, Refused(why))
    case Done(b) =>
      (Placed(st, id, Saved(BLANK_RULE, b), position == "top"), Done(id))
  }

  function EditRuleSpec(ip: C.IpText, st: Store, id: string, a: RuleArgs): (Store, Reply<string>) {
    if !RuleIn(st, id) then (st, Refused(RuleNotFound))
    else if !st.secs[id].rule.managed then (st, Refused(RuleNotManaged))
    else
      match CheckedRule(ip, st, a, None)
      case Refused(why) => (st, Refused(why))
      case Done(b) => (st.Set(id, RuleSection(Saved(st.secs[id].rule, b))), Done(id))
  }

  function DeleteRuleSpec(st: Store, id: string): (Store, Reply<string>) {
    if !RuleIn(st, id) then (st, Refused(RuleNotFound))
    else (Closed(st, id), Done(id))
  }

  function RenameRuleSpec(st: Store, id: string, name: string): (Store, Reply<string>) {
    if !RuleIn(st, id) then (st, Refused(RuleNotFound))
    else
      match CheckedName(name)
      case Refused(why) => (st, Refused(why))
      case Done(n) => (st.Set(id, RuleSection(st.secs[id].rule.(name := n))), Done(id))
  }

  function SwitchRuleSpec(st: Store, id: string, enabled: bool): (Store, Reply<string>) {
    if !RuleIn(st, id) then (st, Refused(RuleNotFound))
    else (st.Set(id, RuleSection(st.secs[id].rule.(enabled := enabled))), Done(id))
  }

  /** Why an order is refused, if it is: it must name every rule exactly once. */
  ghost function OrderRefusal(rules: seq<string>, order: seq<string>): Option<Refusal> {
    if exists i :: 0 <= i < |order| && order[i] !in rules then Some(RuleNotFound)
    else if !NoDup(order) || |order| != |rules| then Some(InvalidOrder)
    else None
  }

  ghost function OrderRulesSpec(st: Store, order: seq<string>): (Store, Reply<seq<string>>) {
    var refusal := OrderRefusal(SortedRules(st), order);
    if refusal.Some? then (st, Refused(refusal.value)) else (Renumbered(st, order), Done(order))
  }

  function NamesGroup(id: string): Section -> bool {
    (s: Section) => s.RuleSection? && id in s.rule.target.appgroups
  }

  function UsersOf(st: Store, id: string): seq<string> {
    st.Ids(NamesGroup(id))
  }

  ghost function AddAppgroupSpec(st: Store, id: string, name: string, lists: C.Members, vocabulary: Vocabulary)
    : (Store, Reply<string>)
  {
    match CheckedGroup(st, name, lists, vocabulary, None)
    case Refused(why) => (st, Refused(why))
    case Done(g) => (st.Set(id, AppGroup(g.0, g.1)), Done(id))
  }

  ghost function EditAppgroupSpec(st: Store, id: string, name: string, lists: C.Members, vocabulary: Vocabulary)
    : (Store, Reply<string>)
  {
    if !GroupIn(st, id) then (st, Refused(AppgroupDoesNotExist))
    else
      match CheckedGroup(st, name, lists, vocabulary, Some(id))
      case Refused(why) => (st, Refused(why))
      case Done(g) => (st.Set(id, AppGroup(g.0, g.1)), Done(id))
  }

  function DeleteAppgroupSpec(st: Store, id: string): (Store, Reply<string>) {
    if !GroupIn(st, id) then (st, Refused(AppgroupDoesNotExist))
    else if UsersOf(st, id) != [] then (st, Refused(AppgroupIsUsed(UsersOf(st, id))))
    else (st.Delete(id), Done(id))
  }
}
