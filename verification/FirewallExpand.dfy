/**
 Expansion of the objects that rules are bound to: addresses are copied into the rule, domain sets
 become an ipset. A value is written only where it differs from the stored one.
 */
module FirewallExpand {
  import opened FirewallStore
  import opened Sequences
  import opened Uci
  import opened Wrappers

  /** What the other configurations say about a bound object. */
  datatype Directory = Directory(
    isDomainSet: string -> bool,
    /** None when the lookup raises. */
    addresses: string -> Option<seq<string>>,
    /** The interpreter's rendering of a list. */
    showList: seq<string> -> string
  )

  datatype Change = Write(section: string, option: string) | Erase(section: string, option: string)

  // ----- one rule

  /** A rule under update, the options changed so far, and whether nothing raised yet. */
  datatype Progress = Progress(rule: Section, changed: seq<Edit>, keepIpset: bool, ok: bool)

  datatype Edit = SetEdit(option: string) | DeleteEdit(option: string)

  /** A list equals a stored text that is its only item. */
  predicate Stored(s: Section, name: string, v: Value) {
    && name in s.options
    && (if v.List? then s.options[name].AsList() == v.items else s.options[name] == v)
  }

  function SetIfChanged(g: Progress, name: string, v: Value): Progress {
    if Stored(g.rule, name, v) then g
    else g.(rule := g.rule.(options := g.rule.options[name := v]), changed := g.changed + [SetEdit(name)])
  }

  function DeleteIfPresent(g: Progress, name: string): Progress {
    if name in g.rule.options then
      g.(rule := g.rule.(options := g.rule.options - {name}), changed := g.changed + [DeleteEdit(name)])
    else g
  }

  function IsIpsetFor(link: string): Section -> bool {
    (s: Section) => s.kind == "ipset" && s.Get("ns_link") == Some(Scalar(link))
  }

  /** The name of the first ipset linked to a domain set, as it is formatted. */
  function IpsetName(dir: Directory, c: Firewall, link: string): string {
    var found := c.Ids(IsIpsetFor(link));
    if found == [] then "None"
    else
      match c.secs[found[0]].Get("name")
      case None => ""
      case Some(Scalar(t)) => t
      case Some(List(l)) => dir.showList(l)
  }

  /** The two ends of a rule. */
  datatype End = Source | Destination {
    function Link(): string { if Source? then "ns_src" else "ns_dst" }
    function Address(): string { if Source? then "src_ip" else "dest_ip" }
    function Suffix(): string { if Source? then " src" else " dst" }
  }

  /** The object an end is bound to; a list of objects makes the lookup raise. */
  function Bound(s: Section, end: End): Option<Value> {
    if s.Has(end.Link()) then s.Get(end.Link()) else None
  }

  predicate BoundToDomains(dir: Directory, s: Section, end: End) {
    match Bound(s, end)
    case Some(Scalar(x)) => dir.isDomainSet(x)
    case _ => false
  }

  function UpdateEnd(dir: Directory, c: Firewall, g: Progress, end: End): Progress {
    if !g.ok then g
    else
      match Bound(g.rule, end)
      case None => g
      case Some(List(_)) => g.(ok := false)
      case Some(Scalar(x)) =>
        if dir.isDomainSet(x) then
          var named := SetIfChanged(g.(keepIpset := true), "ipset", Scalar(IpsetName(dir, c, x) + end.Suffix()));
          DeleteIfPresent(named, end.Address())
        else
          match dir.addresses(x)
          case None => g.(ok := false)
          case Some(ips) => if ips != [] then SetIfChanged(g, end.Address(), List(ips)) else g
  }

  function UpdateRule(dir: Directory, c: Firewall, s: Section): Progress {
    var both := UpdateEnd(dir, c, UpdateEnd(dir, c, Progress(s, [], false, true), Source), Destination);
    if both.ok && !both.keepIpset then DeleteIfPresent(both, "ipset") else both
  }

  /** What an end of an updated rule looks like. */
  ghost predicate Expanded(dir: Directory, s: Section, end: End) {
    match Bound(s, end)
    case None => true
    case Some(List(_)) => false
    case Some(Scalar(x)) =>
      if dir.isDomainSet(x) then end.Address() !in s.options
      else
        match dir.addresses(x)
        case None => false
        case Some(ips) => ips != [] ==> end.Address() in s.options && s.options[end.Address()].AsList() == ips
  }

  /** An end that is not bound, or bound to an object without addresses, keeps its own. */
  ghost predicate Untouched(dir: Directory, s: Section, t: Section, end: End) {
    match Bound(s, end)
    case None => t.Get(end.Address()) == s.Get(end.Address())
    case Some(List(_)) => true
    case Some(Scalar(x)) =>
      !dir.isDomainSet(x) && dir.addresses(x) == Some([]) ==> t.Get(end.Address()) == s.Get(end.Address())
  }

  /** The destination's domain set wins over the source's; without domain sets there is no ipset. */
  ghost predicate IpsetRight(dir: Directory, c: Firewall, s: Section) {
    if BoundToDomains(dir, s, Destination) then
      s.Get("ipset") == Some(Scalar(IpsetName(dir, c, s.options["ns_dst"].text) + " dst"))
    else if BoundToDomains(dir, s, Source) then
      s.Get("ipset") == Some(Scalar(IpsetName(dir, c, s.options["ns_src"].text) + " src"))
    else "ipset" !in s.options
  }

  /** An update keeps the type and every option but three. */
  ghost predicate Framed(s: Section, t: Section) {
    s.kind == t.kind
    && forall name :: name != "ipset" && name != "src_ip" && name != "dest_ip" ==> s.Get(name) == t.Get(name)
  }

  lemma EndFrames(dir: Directory, c: Firewall, g: Progress, end: End)
    ensures Framed(g.rule, UpdateEnd(dir, c, g, end).rule)
  {
  }

  lemma EndTouches(dir: Directory, c: Firewall, g: Progress, end: End)
    ensures var t := UpdateEnd(dir, c, g, end).rule;
            && Untouched(dir, g.rule, t, end)
            && forall other: End :: other != end ==> t.Get(other.Address()) == g.rule.Get(other.Address())
  {
  }

  lemma FramedBound(s: Section, t: Section, end: End)
    requires Framed(s, t)
    ensures Bound(s, end) == Bound(t, end)
  {
    assert s.Get(end.Link()) == t.Get(end.Link());
  }

  lemma SourceStep(dir: Directory, c: Firewall, s: Section)
    ensures var g := UpdateEnd(dir, c, Progress(s, [], false, true), Source);
            && Framed(s, g.rule)
            && (g.ok ==> Expanded(dir, g.rule, Source) && g.keepIpset == BoundToDomains(dir, s, Source))
            && (g.ok && g.keepIpset ==>
                  g.rule.Get("ipset") == Some(Scalar(IpsetName(dir, c, g.rule.options["ns_src"].text) + " src")))
  {
    EndFrames(dir, c, Progress(s, [], false, true), Source);
    FramedBound(s, UpdateEnd(dir, c, Progress(s, [], false, true), Source).rule, Source);
  }

  lemma DestinationStep(dir: Directory, c: Firewall, g: Progress)
    requires g.ok && Expanded(dir, g.rule, Source) && g.keepIpset == BoundToDomains(dir, g.rule, Source)
    requires g.keepIpset ==>
               g.rule.Get("ipset") == Some(Scalar(IpsetName(dir, c, g.rule.options["ns_src"].text) + " src"))
    ensures var h := UpdateEnd(dir, c, g, Destination);
            && Framed(g.rule, h.rule)
            && (h.ok ==> Expanded(dir, h.rule, Source) && Expanded(dir, h.rule, Destination))
            && (h.ok ==>
              h.keepIpset == (BoundToDomains(dir, h.rule, Source) || BoundToDomains(dir, h.rule, Destination)))
            && (h.ok && h.keepIpset ==> IpsetRight(dir, c, h.rule))
  {
    var h := UpdateEnd(dir, c, g, Destination);
    EndFrames(dir, c, g, Destination);
    FramedBound(g.rule, h.rule, Source);
    FramedBound(g.rule, h.rule, Destination);
  }

  lemma UpdateRuleExpands(dir: Directory, c: Firewall, s: Section)
    ensures var g := UpdateRule(dir, c, s);
            && Framed(s, g.rule) && Untouched(dir, s, g.rule, Source) && Untouched(dir, s, g.rule, Destination)
            && (g.ok ==>
              Expanded(dir, g.rule, Source) && Expanded(dir, g.rule, Destination) && IpsetRight(dir, c, g.rule))
  {
    var one := UpdateEnd(dir, c, Progress(s, [], false, true), Source);
    SourceStep(dir, c, s);
    EndTouches(dir, c, Progress(s, [], false, true), Source);
    EndTouches(dir, c, one, Destination);
    if one.ok {
      FramedBound(s, one.rule, Source);
      FramedBound(s, one.rule, Destination);
      DestinationStep(dir, c, one);
      var two := UpdateEnd(dir, c, one, Destination);
      var g := UpdateRule(dir, c, s);
      assert Framed(two.rule, g.rule);
      FramedBound(two.rule, g.rule, Source);
      FramedBound(two.rule, g.rule, Destination);
    }
  }

  // ----- what an updated rule holds, option by option

  /** The option binds to something: it is there, and neither the empty text nor the empty list. */
  predicate Binds(s: Section, link: string) {
    link in s.options && s.options[link] != Scalar("") && s.options[link] != List([])
  }

  /**
   What the update of `s` into `t` does to one end, by the names of its options: the addresses of the object
   are copied, those of a domain set are deleted, and without an object or an address nothing is touched.
   */
  ghost predicate EndHolds(dir: Directory, s: Section, t: Section, link: string, address: string) {
    if !Binds(s, link) then
      t.Get(address) == s.Get(address)
    else if s.options[link].List? then
      false
    else if dir.isDomainSet(s.options[link].text) then
      address !in t.options
    else
      match dir.addresses(s.options[link].text)
      case None => false
      case Some(ips) =>
        if ips == [] then t.Get(address) == s.Get(address)
        else
          address in t.options
          && (t.options[address] == List(ips) || (|ips| == 1 && t.options[address] == Scalar(ips[0])))
  }

  predicate BindsDomains(dir: Directory, s: Section, link: string) {
    Binds(s, link) && s.options[link].Scalar? && dir.isDomainSet(s.options[link].text)
  }

  predicate IsLinked(s: Section, link: string) {
    s.kind == "ipset" && "ns_link" in s.options && s.options["ns_link"] == Scalar(link)
  }

  /** What a section is called, as it is formatted. */
  predicate IsCalled(dir: Directory, s: Section, name: string) {
    match s.Get("name")
    case None => name == ""
    case Some(Scalar(t)) => name == t
    case Some(List(l)) => name == dir.showList(l)
  }

  /** The text is the name of the first ipset in the file that is linked to the domain set. */
  ghost predicate NamesIpset(dir: Directory, c: Firewall, link: string, name: string) {
    || (name == "None" && forall x :: x in c.order && x in c.secs ==> !IsLinked(c.secs[x], link))
    || (exists i: nat :: i < |c.order| && FirstLinked(c, link, i) && IsCalled(dir, c.secs[c.order[i]], name))
  }

  ghost predicate FirstLinked(c: Firewall, link: string, i: nat)
    requires i < |c.order|
  {
    && c.order[i] in c.secs && IsLinked(c.secs[c.order[i]], link)
    && forall j: nat :: j < i && c.order[j] in c.secs ==> !IsLinked(c.secs[c.order[j]], link)
  }

  /** The ipset of an updated rule: the destination's domain set wins over the source's. */
  ghost predicate IpsetHolds(dir: Directory, c: Firewall, s: Section, t: Section) {
    if BindsDomains(dir, s, "ns_dst") then
      exists name :: NamesIpset(dir, c, s.options["ns_dst"].text, name) && t.Get("ipset") == Some(Scalar(name + " dst"))
    else if BindsDomains(dir, s, "ns_src") then
      exists name :: NamesIpset(dir, c, s.options["ns_src"].text, name) && t.Get("ipset") == Some(Scalar(name + " src"))
    else "ipset" !in t.options
  }

  /** The rule is updated at both ends, and keeps everything but two addresses and the ipset. */
  ghost predicate RuleHolds(dir: Directory, c: Firewall, s: Section, t: Section) {
    && EndHolds(dir, s, t, "ns_src", "src_ip")
    && EndHolds(dir, s, t, "ns_dst", "dest_ip")
    && IpsetHolds(dir, c, s, t)
    && t.kind == s.kind
    && forall name :: name !in ["ipset", "src_ip", "dest_ip"] ==> t.Get(name) == s.Get(name)
  }

  lemma {:induction false} SelectedFirst(p: Section -> bool, order: seq<string>, secs: map<string, Section>)
    ensures Select(p, order, secs) == [] ==> forall x :: x in order && x in secs ==> !p(secs[x])
    ensures Select(p, order, secs) != [] ==>
              exists i: nat ::
                i < |order| && order[i] == Select(p, order, secs)[0] && order[i] in secs && p(secs[order[i]])
                && forall j: nat :: j < i && order[j] in secs ==> !p(secs[order[j]])
  {
    if order != [] {
      var init, last := order[..|order| - 1], order[|order| - 1];
      assert order == init + [last];
      SelectedFirst(p, init, secs);
      if Select(p, init, secs) != [] {
        var i: nat :| i < |init| && init[i] == Select(p, init, secs)[0] && init[i] in secs && p(secs[init[i]])
          && forall j: nat :: j < i && init[j] in secs ==> !p(secs[init[j]]);
        assert order[i] == Select(p, order, secs)[0];
        assert forall j: nat :: j < i ==> order[j] == init[j];
      } else if last in secs && p(secs[last]) {
        assert order[|init|] == Select(p, order, secs)[0];
        assert forall j: nat :: j < |init| ==> order[j] == init[j] && init[j] in init;
      }
    }
  }

  lemma IpsetNameNames(dir: Directory, c: Firewall, link: string)
    ensures NamesIpset(dir, c, link, IpsetName(dir, c, link))
  {
    var p := IsIpsetFor(link);
    SelectedFirst(p, c.order, c.secs);
    assert forall x :: x in c.secs ==> (p(c.secs[x]) <==> IsLinked(c.secs[x], link));
    if c.Ids(p) != [] {
      var i: nat :| i < |c.order| && c.order[i] == c.Ids(p)[0] && c.order[i] in c.secs && p(c.secs[c.order[i]])
        && forall j: nat :: j < i && c.order[j] in c.secs ==> !p(c.secs[c.order[j]]);
      assert FirstLinked(c, link, i);
    }
  }

  lemma EndHoldsOf(dir: Directory, s: Section, t: Section, end: End)
    requires Framed(s, t) && Expanded(dir, t, end) && Untouched(dir, s, t, end)
    ensures end == Source ==> EndHolds(dir, s, t, "ns_src", "src_ip")
    ensures end == Destination ==> EndHolds(dir, s, t, "ns_dst", "dest_ip")
  {
    FramedBound(s, t, end);
  }

  lemma IpsetHoldsOf(dir: Directory, c: Firewall, s: Section, t: Section)
    requires Framed(s, t) && IpsetRight(dir, c, t)
    ensures IpsetHolds(dir, c, s, t)
  {
    FramedBound(s, t, Source);
    FramedBound(s, t, Destination);
    if BindsDomains(dir, s, "ns_dst") {
      assert t.Get("ns_dst") == s.Get("ns_dst");
      IpsetNameNames(dir, c, s.options["ns_dst"].text);
    } else if BindsDomains(dir, s, "ns_src") {
      assert t.Get("ns_src") == s.Get("ns_src");
      IpsetNameNames(dir, c, s.options["ns_src"].text);
    }
  }

  /** Either the update raises, or the rule ends up with exactly what its objects denote. */
  lemma UpdateRuleHolds(dir: Directory, c: Firewall, s: Section)
    ensures UpdateRule(dir, c, s).ok ==> RuleHolds(dir, c, s, UpdateRule(dir, c, s).rule)
  {
    var g := UpdateRule(dir, c, s);
    UpdateRuleExpands(dir, c, s);
    if g.ok {
      EndHoldsOf(dir, s, g.rule, Source);
      EndHoldsOf(dir, s, g.rule, Destination);
      IpsetHoldsOf(dir, c, s, g.rule);
    }
  }

  lemma SuffixesDiffer(a: string, b: string)
    ensures a + " src" != b + " dst"
  {
    assert (a + " src")[|a + " src"| - 1] == 'c';
    assert (b + " dst")[|b + " dst"| - 1] == 't';
  }

  predicate BothEndsDomains(dir: Directory, s: Section) {
    BoundToDomains(dir, s, Source) && BoundToDomains(dir, s, Destination)
  }

  lemma OverwriteTwice(m: map<string, Value>, name: string, v: Value, w: Value)
    requires name in m && m[name] == w
    ensures m[name := v][name := w] == m
  {
  }

  /** The source step on an updated rule writes only an ipset that the destination wrote over. */
  lemma SourceAgain(dir: Directory, c: Firewall, t: Section)
    requires Expanded(dir, t, Source) && IpsetRight(dir, c, t)
    ensures var g := UpdateEnd(dir, c, Progress(t, [], false, true), Source);
            && g.ok && g.keepIpset == BoundToDomains(dir, t, Source)
            && (!BothEndsDomains(dir, t) ==> g.rule == t && g.changed == [])
            && (BothEndsDomains(dir, t) ==>
                  && g.changed == [SetEdit("ipset")]
                  && exists v :: g.rule == t.(options := t.options["ipset" := v]) && v.Scalar?
                                 && v.text == IpsetName(dir, c, t.options["ns_src"].text) + " src")
  {
    if BothEndsDomains(dir, t) {
      var v := Scalar(IpsetName(dir, c, t.options["ns_src"].text) + " src");
      SuffixesDiffer(IpsetName(dir, c, t.options["ns_src"].text), IpsetName(dir, c, t.options["ns_dst"].text));
      assert UpdateEnd(dir, c, Progress(t, [], false, true), Source).rule == t.(options := t.options["ipset" := v]);
    }
  }

  lemma DestinationAgain(dir: Directory, c: Firewall, t: Section, g: Progress)
    requires g.ok && g.rule == t && Expanded(dir, t, Destination) && IpsetRight(dir, c, t)
    ensures UpdateEnd(dir, c, g, Destination) == g.(keepIpset := g.keepIpset || BoundToDomains(dir, t, Destination))
  {
  }

  lemma DestinationRestores(dir: Directory, c: Firewall, t: Section, g: Progress, v: Value)
    requires g.ok && BoundToDomains(dir, t, Destination) && Expanded(dir, t, Destination) && IpsetRight(dir, c, t)
    requires g.rule == t.(options := t.options["ipset" := v]) && v.Scalar?
    requires exists a :: v.text == a + " src"
    ensures UpdateEnd(dir, c, g, Destination) ==
        g.(rule := t, keepIpset := true, changed := g.changed + [SetEdit("ipset")])
  {
    var name := IpsetName(dir, c, t.options["ns_dst"].text);
    var a :| v.text == a + " src";
    SuffixesDiffer(a, name);
    OverwriteTwice(t.options, "ipset", v, Scalar(name + " dst"));
    var h := UpdateEnd(dir, c, g, Destination);
    assert h.rule == t;
  }

  /** A second update changes nothing, and writes nothing exactly when not both ends are domain sets. */
  lemma UpdateRuleTwice(dir: Directory, c: Firewall, s: Section)
    requires UpdateRule(dir, c, s).ok
    ensures var t := UpdateRule(dir, c, s).rule;
            var again := UpdateRule(dir, c, t);
            again.ok && again.rule == t && (again.changed == [] <==> !BothEndsDomains(dir, s))
  {
    var t := UpdateRule(dir, c, s).rule;
    UpdateRuleExpands(dir, c, s);
    FramedBound(s, t, Source);
    FramedBound(s, t, Destination);
    var one := UpdateEnd(dir, c, Progress(t, [], false, true), Source);
    SourceAgain(dir, c, t);
    if BothEndsDomains(dir, t) {
      var v :| one.rule == t.(options := t.options["ipset" := v]) && v.Scalar?
               && v.text == IpsetName(dir, c, t.options["ns_src"].text) + " src";
      DestinationRestores(dir, c, t, one, v);
    } else {
      DestinationAgain(dir, c, t, one);
    }
  }

  // ----- the whole configuration

  function IsRule(): Section -> bool {
    (s: Section) => s.kind == "rule"
  }

  /** The configuration, the changes recorded so far, and whether nothing raised yet. */
  datatype Outcome = Outcome(config: Firewall, changes: seq<Change>, ok: bool)

  function Tag(id: string, e: Edit): Change {
    match e
    case SetEdit(option) => Write(id, option)
    case DeleteEdit(option) => Erase(id, option)
  }

  function Tagged(id: string, edits: seq<Edit>): (r: seq<Change>)
    ensures r == [] <==> edits == []
  {
    if edits == [] then [] else [Tag(id, edits[0])] + Tagged(id, edits[1..])
  }

  function UpdateOne(dir: Directory, r: Outcome, id: string): Outcome
    requires id in r.config.secs
  {
    if !r.ok then r
    else
      var g := UpdateRule(dir, r.config, r.config.secs[id]);
      Outcome(r.config.(secs := r.config.secs[id := g.rule]), r.changes + Tagged(id, g.changed), g.ok)
  }

  function UpdateFrom(dir: Directory, c: Firewall, ids: seq<string>): (r: Outcome)
    requires forall id :: id in ids ==> id in c.secs
    ensures r.config.order == c.order && r.config.secs.Keys == c.secs.Keys
  {
    if ids == [] then Outcome(c, [], true)
    else
      assert ids == ids[..|ids| - 1] + [ids[|ids| - 1]];
      UpdateOne(dir, UpdateFrom(dir, c, ids[..|ids| - 1]), ids[|ids| - 1])
  }

  /** Every rule in file order, until one raises. */
  function UpdateFirewallRules(dir: Directory, c: Firewall): Outcome {
    UpdateFrom(dir, c, c.Ids(IsRule()))
  }

  /** The two configurations differ in rules only, and there as far as an update may. */
  ghost predicate RulesOnly(c: Firewall, d: Firewall) {
    && c.order == d.order && c.secs.Keys == d.secs.Keys
    && forall id :: id in c.secs ==>
      Framed(c.secs[id], d.secs[id]) && (c.secs[id].kind != "rule" ==> c.secs[id] == d.secs[id])
  }

  lemma FramedIpset(s: Section, t: Section, x: string)
    requires Framed(s, t) && (s.kind != "rule" ==> s == t)
    ensures IsIpsetFor(x)(s) == IsIpsetFor(x)(t) && (IsIpsetFor(x)(s) ==> s == t)
  {
    assert "rule"[0] == 'r' && "ipset"[0] == 'i';
  }

  lemma RulesOnlyIpset(dir: Directory, c: Firewall, d: Firewall, x: string)
    requires RulesOnly(c, d)
    ensures IpsetName(dir, c, x) == IpsetName(dir, d, x)
  {
    var p := IsIpsetFor(x);
    forall id | id in c.secs ensures p(c.secs[id]) == p(d.secs[id]) && (p(c.secs[id]) ==> c.secs[id] == d.secs[id]) {
      FramedIpset(c.secs[id], d.secs[id], x);
    }
    SameIpsetSections(dir, c, d, x);
  }

  lemma SameIpsetSections(dir: Directory, c: Firewall, d: Firewall, x: string)
    requires c.order == d.order && c.secs.Keys == d.secs.Keys
    requires forall id :: id in c.secs ==>
               IsIpsetFor(x)(c.secs[id]) == IsIpsetFor(x)(d.secs[id]) &&
                 (IsIpsetFor(x)(c.secs[id]) ==> c.secs[id] == d.secs[id])
    ensures IpsetName(dir, c, x) == IpsetName(dir, d, x)
  {
    SelectCongruent(IsIpsetFor(x), c.order, c.secs, d.secs);
    var found := c.Ids(IsIpsetFor(x));
    if found != [] {
      assert found[0] in found;
      assert c.secs[found[0]] == d.secs[found[0]];
    }
  }

  lemma RulesOnlyIpsets(dir: Directory, c: Firewall, d: Firewall)
    requires RulesOnly(c, d)
    ensures forall x :: IpsetName(dir, c, x) == IpsetName(dir, d, x)
  {
    forall x ensures IpsetName(dir, c, x) == IpsetName(dir, d, x) {
      RulesOnlyIpset(dir, c, d, x);
    }
  }

  lemma RulesOnlyIds(c: Firewall, d: Firewall)
    requires RulesOnly(c, d)
    ensures c.Ids(IsRule()) == d.Ids(IsRule())
  {
    SelectCongruent(IsRule(), c.order, c.secs, d.secs);
  }

  lemma SameIpsetsSameUpdate(dir: Directory, c: Firewall, d: Firewall, s: Section)
    requires forall x :: IpsetName(dir, c, x) == IpsetName(dir, d, x)
    ensures UpdateRule(dir, c, s) == UpdateRule(dir, d, s)
  {
    var start := Progress(s, [], false, true);
    assert UpdateEnd(dir, c, start, Source) == UpdateEnd(dir, d, start, Source);
    var one := UpdateEnd(dir, c, start, Source);
    assert UpdateEnd(dir, c, one, Destination) == UpdateEnd(dir, d, one, Destination);
  }

  /** Rules do not influence one another: what became of the first ones. */
  ghost predicate UpdatedExactly(dir: Directory, c: Firewall, ids: seq<string>, r: Outcome)
    requires r.config.secs.Keys == c.secs.Keys
  {
    && (forall id :: id in c.secs && id !in ids ==> r.config.secs[id] == c.secs[id])
    && (r.ok ==> forall id :: id in c.secs && id in ids ==>
          UpdateRule(dir, c, c.secs[id]).ok && r.config.secs[id] == UpdateRule(dir, c, c.secs[id]).rule)
    && (r.ok ==> (r.changes == [] <==>
      forall id :: id in c.secs && id in ids ==> UpdateRule(dir, c, c.secs[id]).changed == []))
  }

  lemma {:induction false} UpdateFromEffect(dir: Directory, c: Firewall, ids: seq<string>)
    requires NoDup(ids) && forall id :: id in ids ==> id in c.secs && c.secs[id].kind == "rule"
    ensures RulesOnly(c, UpdateFrom(dir, c, ids).config)
    ensures UpdatedExactly(dir, c, ids, UpdateFrom(dir, c, ids))
  {
    if ids != [] {
      var init, last := ids[..|ids| - 1], ids[|ids| - 1];
      assert ids == init + [last];
      UpdateFromEffect(dir, c, init);
      UpdateOneEffect(dir, c, init, last, UpdateFrom(dir, c, init));
    }
  }

  lemma UpdateOneEffect(dir: Directory, c: Firewall, init: seq<string>, last: string, r: Outcome)
    requires last in c.secs && last !in init && c.secs[last].kind == "rule"
    requires RulesOnly(c, r.config) && UpdatedExactly(dir, c, init, r)
    ensures RulesOnly(c, UpdateOne(dir, r, last).config)
    ensures UpdatedExactly(dir, c, init + [last], UpdateOne(dir, r, last))
  {
    RulesOnlyIpsets(dir, c, r.config);
    SameIpsetsSameUpdate(dir, c, r.config, c.secs[last]);
    OneStaysFramed(dir, c, last, r);
  }

  lemma OneStaysFramed(dir: Directory, c: Firewall, last: string, r: Outcome)
    requires last in c.secs && c.secs[last].kind == "rule" && RulesOnly(c, r.config)
    ensures RulesOnly(c, UpdateOne(dir, r, last).config)
  {
    UpdateRuleExpands(dir, r.config, r.config.secs[last]);
  }

  /** Nothing but the rules' own address and ipset options changes; every rule is updated by itself. */
  lemma UpdateFrames(dir: Directory, c: Firewall)
    requires c.Valid()
    ensures RulesOnly(c, UpdateFirewallRules(dir, c).config)
    ensures UpdatedExactly(dir, c, c.Ids(IsRule()), UpdateFirewallRules(dir, c))
  {
    SelectNoDup(IsRule(), c.order, c.secs);
    UpdateFromEffect(dir, c, c.Ids(IsRule()));
  }

  /** An end is bound to nothing, or to one object whose lookup does not raise. */
  predicate Resolvable(dir: Directory, s: Section, end: End) {
    match Bound(s, end)
    case None => true
    case Some(List(_)) => false
    case Some(Scalar(x)) => dir.isDomainSet(x) || dir.addresses(x).Some?
  }

  predicate BothResolvable(dir: Directory, s: Section) {
    Resolvable(dir, s, Source) && Resolvable(dir, s, Destination)
  }

  lemma UpdateRuleOkIff(dir: Directory, c: Firewall, s: Section)
    ensures UpdateRule(dir, c, s).ok <==> BothResolvable(dir, s)
  {
    var start := Progress(s, [], false, true);
    EndFrames(dir, c, start, Source);
    FramedBound(s, UpdateEnd(dir, c, start, Source).rule, Destination);
  }

  lemma {:induction false} UpdateFromOkIff(dir: Directory, c: Firewall, ids: seq<string>)
    requires NoDup(ids) && forall id :: id in ids ==> id in c.secs && c.secs[id].kind == "rule"
    ensures UpdateFrom(dir, c, ids).ok <==> forall id :: id in ids ==> BothResolvable(dir, c.secs[id])
  {
    if ids != [] {
      var init, last := ids[..|ids| - 1], ids[|ids| - 1];
      assert ids == init + [last];
      UpdateFromOkIff(dir, c, init);
      UpdateFromEffect(dir, c, init);
      UpdateRuleOkIff(dir, UpdateFrom(dir, c, init).config, c.secs[last]);
    }
  }

  /** An update raises exactly when some rule is bound to a list, or to an object whose lookup raises. */
  lemma UpdateOkIff(dir: Directory, c: Firewall)
    requires c.Valid()
    ensures UpdateFirewallRules(dir, c).ok <==>
              forall id :: id in c.secs && c.secs[id].kind == "rule" ==> BothResolvable(dir, c.secs[id])
  {
    SelectNoDup(IsRule(), c.order, c.secs);
    UpdateFromOkIff(dir, c, c.Ids(IsRule()));
  }

  /** After an update that did not raise, every rule holds what its objects denote. */
  lemma UpdatedRulesExpanded(dir: Directory, c: Firewall, id: string)
    requires c.Valid() && UpdateFirewallRules(dir, c).ok && id in c.secs && c.secs[id].kind == "rule"
    ensures var d := UpdateFirewallRules(dir, c).config;
            id in d.secs && RuleHolds(dir, c, c.secs[id], d.secs[id])
  {
    var d := RuleUpdated(dir, c, id);
    UpdateRuleHolds(dir, c, c.secs[id]);
  }

  /** Every option that differs from the rule as it was is recorded, as written or as erased. */
  ghost predicate Recorded(s: Section, g: Progress) {
    forall name :: s.Get(name) != g.rule.Get(name) ==>
      if name in g.rule.options then SetEdit(name) in g.changed else DeleteEdit(name) in g.changed
  }

  lemma SetRecorded(s: Section, g: Progress, name: string, v: Value)
    requires Recorded(s, g)
    ensures Recorded(s, SetIfChanged(g, name, v))
  {
    var h := SetIfChanged(g, name, v);
    forall x | s.Get(x) != h.rule.Get(x)
      ensures if x in h.rule.options then SetEdit(x) in h.changed else DeleteEdit(x) in h.changed
    {
      if x != name {
        assert h.rule.Get(x) == g.rule.Get(x);
      }
    }
  }

  lemma DeleteRecorded(s: Section, g: Progress, name: string)
    requires Recorded(s, g)
    ensures Recorded(s, DeleteIfPresent(g, name))
  {
    var h := DeleteIfPresent(g, name);
    forall x | s.Get(x) != h.rule.Get(x)
      ensures if x in h.rule.options then SetEdit(x) in h.changed else DeleteEdit(x) in h.changed
    {
      if x != name {
        assert h.rule.Get(x) == g.rule.Get(x);
      }
    }
  }

  lemma EndRecorded(dir: Directory, c: Firewall, s: Section, g: Progress, end: End)
    requires Recorded(s, g)
    ensures Recorded(s, UpdateEnd(dir, c, g, end))
  {
    if g.ok && Bound(g.rule, end).Some? && Bound(g.rule, end).value.Scalar? {
      var x := Bound(g.rule, end).value.text;
      if dir.isDomainSet(x) {
        var v, kept := Scalar(IpsetName(dir, c, x) + end.Suffix()), g.(keepIpset := true);
        SetRecorded(s, kept, "ipset", v);
        DeleteRecorded(s, SetIfChanged(kept, "ipset", v), end.Address());
      } else if dir.addresses(x).Some? {
        SetRecorded(s, g, end.Address(), List(dir.addresses(x).value));
      }
    }
  }

  /** Whatever an update changes in a rule is recorded, whether or not it raises. */
  lemma ChangesRecorded(dir: Directory, c: Firewall, s: Section)
    ensures Recorded(s, UpdateRule(dir, c, s))
  {
    var start := Progress(s, [], false, true);
    EndRecorded(dir, c, s, start, Source);
    EndRecorded(dir, c, s, UpdateEnd(dir, c, start, Source), Destination);
    DeleteRecorded(s, UpdateEnd(dir, c, UpdateEnd(dir, c, start, Source), Destination), "ipset");
  }

  lemma RuleUpdated(dir: Directory, c: Firewall, id: string) returns (d: Firewall)
    requires c.Valid() && UpdateFirewallRules(dir, c).ok && id in c.secs && c.secs[id].kind == "rule"
    ensures d == UpdateFirewallRules(dir, c).config && id in d.secs
    ensures UpdateRule(dir, c, c.secs[id]).ok && d.secs[id] == UpdateRule(dir, c, c.secs[id]).rule
    ensures forall x :: IpsetName(dir, c, x) == IpsetName(dir, d, x)
  {
    d := UpdateFirewallRules(dir, c).config;
    UpdateFrames(dir, c);
    RulesOnlyIpsets(dir, c, d);
    assert id in c.Ids(IsRule());
  }

  ghost predicate SomeBothEnds(dir: Directory, c: Firewall) {
    exists id :: id in c.secs && c.secs[id].kind == "rule" && BothEndsDomains(dir, c.secs[id])
  }

  /** One rule of an updated configuration, updated again. */
  lemma RuleAgain(dir: Directory, c: Firewall, id: string)
    requires c.Valid() && UpdateFirewallRules(dir, c).ok && id in c.secs && c.secs[id].kind == "rule"
    ensures var once := UpdateFirewallRules(dir, c).config;
            id in once.secs && var again := UpdateRule(dir, once, once.secs[id]);
            again.ok && again.rule == once.secs[id] && (again.changed == [] <==> !BothEndsDomains(dir, c.secs[id]))
  {
    var once := RuleUpdated(dir, c, id);
    UpdateRuleTwice(dir, c, c.secs[id]);
    SameIpsetsSameUpdate(dir, c, once, once.secs[id]);
  }

  /** Rules whose update changes nothing, updated in turn. */
  lemma {:induction false} RunAgain(dir: Directory, c: Firewall, ids: seq<string>)
    requires forall id :: id in ids ==>
               id in c.secs && UpdateRule(dir, c, c.secs[id]).ok && UpdateRule(dir, c, c.secs[id]).rule == c.secs[id]
    ensures var r := UpdateFrom(dir, c, ids);
            && r.ok && r.config == c
            && (r.changes == [] <==> forall id :: id in ids ==> UpdateRule(dir, c, c.secs[id]).changed == [])
  {
    if ids != [] {
      var init, last := ids[..|ids| - 1], ids[|ids| - 1];
      assert ids == init + [last];
      RunAgain(dir, c, init);
      assert c.secs[last := c.secs[last]] == c.secs;
    }
  }

  /**
   Updating twice is updating once; the second run records no change exactly when no rule has domain
   sets at both ends.
   */
  lemma UpdateTwice(dir: Directory, c: Firewall)
    requires c.Valid() && UpdateFirewallRules(dir, c).ok
    ensures var once := UpdateFirewallRules(dir, c).config;
            var twice := UpdateFirewallRules(dir, once);
            twice.ok && twice.config == once && (twice.changes == [] <==> !SomeBothEnds(dir, c))
  {
    var once := UpdateFirewallRules(dir, c).config;
    UpdateFrames(dir, c);
    RulesOnlyIds(c, once);
    forall id | id in once.Ids(IsRule())
      ensures UpdateRule(dir, once, once.secs[id]).ok && UpdateRule(dir, once, once.secs[id]).rule == once.secs[id]
      ensures UpdateRule(dir, once, once.secs[id]).changed == [] <==> !BothEndsDomains(dir, c.secs[id])
    {
      RuleAgain(dir, c, id);
    }
    RunAgain(dir, once, once.Ids(IsRule()));
    BothEndsListed(dir, c);
  }

  lemma BothEndsListed(dir: Directory, c: Firewall)
    requires c.Valid()
    ensures SomeBothEnds(dir, c) <==> exists id :: id in c.Ids(IsRule()) && BothEndsDomains(dir, c.secs[id])
  {
  }
}
