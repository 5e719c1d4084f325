/** The firewall configuration as the program changes it: moves, option writes and deletions. */
module FirewallConfig {
  import E = FirewallExpand
  import opened FirewallExpand
  import opened FirewallOrder
  import R = FirewallRules
  import Sequences
  import opened FirewallStore
  import opened Uci
  import opened Wrappers

  lemma {:induction false} TaggedSnoc(id: string, edits: seq<Edit>, e: Edit)
    ensures Tagged(id, edits + [e]) == Tagged(id, edits) + [Tag(id, e)]
  {
    if edits == [] {
      assert [] + [e] == [e];
    } else {
      assert (edits + [e])[1..] == edits[1..] + [e];
      TaggedSnoc(id, edits[1..], e);
    }
  }

  class FirewallConfig {
    var config: Firewall
    /** The changes recorded for the configuration, oldest first. */
    var changes: seq<Change>

    constructor (config: Firewall)
      ensures this.config == config && changes == []
    {
      this.config := config;
      changes := [];
    }

    // ----- order

    /** One pass over the file that appends every section to the list of its class. */
    method SplitFirewallConfig()
      returns (defaults: seq<string>, zones: seq<string>, forwardings: seq<string>, otherRules: seq<string>,
        forwardRules: seq<string>, outputRules: seq<string>, inputRules: seq<string>)
      requires config.Valid()
      ensures defaults == ClassIds(config, Defaults) && zones == ClassIds(config, Zone)
      ensures forwardings == ClassIds(config, Forwarding) && otherRules == ClassIds(config, OtherRule)
      ensures forwardRules == ClassIds(config, ForwardRule) && outputRules == ClassIds(config, OutputRule)
      ensures inputRules == ClassIds(config, InputRule)
    {
      defaults, zones, forwardings, otherRules, forwardRules, outputRules, inputRules := [], [], [], [], [], [], [];
      var order, secs := config.order, config.secs;
      for i := 0 to |order|
        invariant Split(order[..i], secs, defaults, zones, forwardings, otherRules, forwardRules, outputRules,
            inputRules)
      {
        var section := order[i];
        var record := secs[section];
        SplitNext(order, secs, i, defaults, zones, forwardings, otherRules, forwardRules, outputRules, inputRules);
        if record.kind == "rule" {
          if IsForward(record) {
            forwardRules := forwardRules + [section];
          } else if IsInput(record) {
            inputRules := inputRules + [section];
          } else if IsOutput(record) {
            outputRules := outputRules + [section];
          } else {
            otherRules := otherRules + [section];
          }
        } else if record.kind == "zone" {
          zones := zones + [section];
        } else if record.kind == "forwarding" {
          forwardings := forwardings + [section];
        } else {
          defaults := defaults + [section];
        }
      }
      assert order[..|order|] == order;
    }

    /** Move the sections of the target to positions 0, 1, ... */
    method Enforce(target: seq<string>)
      modifies `config
      ensures config == Reordered(old(config), target)
    {
      var index := 0;
      while index < |target|
        invariant 0 <= index <= |target|
        invariant config == old(config).(order := MoveAll(old(config).order, target, index))
      {
        config := config.(order := Move(config.order, target[index], index));
        index := index + 1;
      }
    }

    method ReorderFirewallConfig()
      requires config.Valid()
      modifies `config
      ensures config == Reordered(old(config), Target(old(config)))
    {
      var defaults, zones, forwardings, otherRules, forwardRules, outputRules, inputRules := SplitFirewallConfig();
      ArrangedIsSum(Listing(config));
      Enforce(defaults + zones + forwardings + otherRules + forwardRules + outputRules + inputRules);
    }

    /** Refused without a change when the type is unknown or a rule of the type is missing. */
    method OrderRules(ruleType: string, order: seq<string>) returns (ok: bool)
      requires config.Valid()
      modifies `config
      ensures ok <==> R.OrderRules(old(config), ruleType, order).Some?
      ensures config == R.OrderRules(old(config), ruleType, order).GetOr(old(config))
    {
      var named := R.ClassNamed(ruleType);
      if named.None? {
        return false;
      }
      var defaults, zones, forwardings, otherRules, forwardRules, outputRules, inputRules := SplitFirewallConfig();
      var rules :=
        if ruleType == "input" then inputRules else if ruleType == "output" then outputRules else forwardRules;
      var covered := AllIn(rules, order);
      if covered {
        ReplacedSum(config, named.value, order);
        var front := defaults + zones + forwardings + otherRules;
        if ruleType == "input" {
          Enforce(front + forwardRules + outputRules + order);
        } else if ruleType == "output" {
          Enforce(front + forwardRules + order + inputRules);
        } else {
          Enforce(front + order + outputRules + inputRules);
        }
      }
      ok := covered;
    }

    // ----- expansion of objects

    /** The state while one rule is updated: the rule's progress on top of where its update started. */
    ghost predicate At(c: Firewall, recorded: seq<Change>, id: string, g: Progress)
      reads this
    {
      config == c.(secs := c.secs[id := g.rule]) && changes == recorded + Tagged(id, g.changed)
    }

    method SetIfChanged(id: string, name: string, v: Value, ghost c: Firewall, ghost recorded: seq<Change>,
      ghost g: Progress)
      requires At(c, recorded, id, g)
      modifies this
      ensures At(c, recorded, id, E.SetIfChanged(g, name, v))
    {
      var rule := config.secs[id];
      if !Stored(rule, name, v) {
        TaggedSnoc(id, g.changed, SetEdit(name));
        config := config.(secs := config.secs[id := rule.(options := rule.options[name := v])]);
        changes := changes + [Write(id, name)];
      }
    }

    /** Deleting an option that is not there raises, and the exception is swallowed. */
    method DeleteIfPresent(id: string, name: string, ghost c: Firewall, ghost recorded: seq<Change>, ghost g: Progress)
      requires At(c, recorded, id, g)
      modifies this
      ensures At(c, recorded, id, E.DeleteIfPresent(g, name))
    {
      var rule := config.secs[id];
      if name in rule.options {
        TaggedSnoc(id, g.changed, DeleteEdit(name));
        config := config.(secs := config.secs[id := rule.(options := rule.options - {name})]);
        changes := changes + [Erase(id, name)];
      }
    }

    /** The first ipset section linked to a domain set. */
    method FindIpsetName(dir: Directory, link: string) returns (name: string)
      requires config.Valid()
      ensures name == IpsetName(dir, config, link)
    {
      var order, secs := config.order, config.secs;
      ghost var p := IsIpsetFor(link);
      for i := 0 to |order|
        invariant Select(p, order[..i], secs) == []
      {
        SelectStep(p, order, secs, i);
        var section := secs[order[i]];
        if section.kind == "ipset" && section.Get("ns_link") == Some(Scalar(link)) {
          FirstSelected(p, order, secs, i);
          match section.Get("name") {
            case None => return "";
            case Some(Scalar(t)) => return t;
            case Some(List(l)) => return dir.showList(l);
          }
        }
      }
      assert order[..|order|] == order;
      return "None";
    }

    /** One end of a rule: an ipset for a domain set, addresses for any other object. */
    method UpdateEnd(dir: Directory, id: string, end: End, keepIpset: bool, ghost c: Firewall,
      ghost recorded: seq<Change>, ghost g: Progress)
      returns (keep: bool, ok: bool)
      requires c.Valid() && id in c.secs && c.secs[id].kind == "rule" && Framed(c.secs[id], g.rule)
      requires At(c, recorded, id, g) && g.ok && g.keepIpset == keepIpset
      modifies this
      ensures At(c, recorded, id, E.UpdateEnd(dir, c, g, end))
      ensures keep == E.UpdateEnd(dir, c, g, end).keepIpset && ok == E.UpdateEnd(dir, c, g, end).ok
    {
      keep, ok := keepIpset, true;
      match Bound(config.secs[id], end) {
        case None =>
        case Some(List(_)) => ok := false;
        case Some(Scalar(x)) =>
          if dir.isDomainSet(x) {
            keep := true;
            RuleKeepsIpset(dir, c, id, g.rule, x);
            var name := FindIpsetName(dir, x);
            ghost var kept := g.(keepIpset := true);
            SetIfChanged(id, "ipset", Scalar(name + end.Suffix()), c, recorded, kept);
            DeleteIfPresent(id, end.Address(), c, recorded, E.SetIfChanged(kept, "ipset", Scalar(name + end.Suffix())));
          } else {
            var ips := dir.addresses(x);
            if ips.None? {
              ok := false;
            } else if ips.value != [] {
              SetIfChanged(id, end.Address(), List(ips.value), c, recorded, g);
            }
          }
      }
    }

    method UpdateRule(dir: Directory, id: string) returns (ok: bool)
      requires config.Valid() && id in config.secs && config.secs[id].kind == "rule"
      modifies this
      ensures Outcome(config, changes, ok) == UpdateOne(dir, Outcome(old(config), old(changes), true), id)
    {
      ghost var c, recorded := config, changes;
      ghost var g := Progress(config.secs[id], [], false, true);
      assert At(c, recorded, id, g) by {
        assert c.secs[id := c.secs[id]] == c.secs;
      }
      var keep;
      keep, ok := UpdateEnd(dir, id, Source, false, c, recorded, g);
      ghost var one := E.UpdateEnd(dir, c, g, Source);
      EndFrames(dir, c, g, Source);
      if ok {
        keep, ok := UpdateEnd(dir, id, Destination, keep, c, recorded, one);
        if ok && !keep {
          DeleteIfPresent(id, "ipset", c, recorded, E.UpdateEnd(dir, c, one, Destination));
        }
      }
    }

    /** Every rule in file order; an exception stops the loop and leaves what was changed so far. */
    method UpdateFirewallRules(dir: Directory) returns (ok: bool)
      requires config.Valid()
      modifies this
      ensures var r := E.UpdateFirewallRules(dir, old(config));
              config == r.config && changes == old(changes) + r.changes && ok == r.ok
    {
      var ids := config.Ids(IsRule());
      ghost var c, recorded := config, changes;
      ghost var r := Outcome(c, [], true);
      ok := true;
      var i := 0;
      while i < |ids| && ok
        invariant 0 <= i <= |ids| && r == UpdateFrom(dir, c, ids[..i]) && config.Valid()
        invariant config == r.config && changes == recorded + r.changes && ok == r.ok
        decreases |ids| - i
      {
        UpdateNext(dir, c, ids, i, recorded);
        ok := UpdateRule(dir, ids[i]);
        r := UpdateOne(dir, r, ids[i]);
        i := i + 1;
      }
      UpdateStopped(dir, c, ids, i);
    }

    method MoveToTop(id: string) returns (ok: bool)
      requires config.Valid() && id in config.secs
      modifies `config
      ensures (config, ok) == R.ToTop(old(config), id)
    {
      ok := true;
      var ruleType := R.RuleTypeOf(config.secs[id]);
      if ruleType.Some? {
        var ids := R.ListRules(config, ruleType.value);
        ok := OrderRules(ruleType.value, [id] + R.AllButLast(ids));
      }
    }

    /** Append the rule, reorder, expand objects, and order the rule's type once more for the top. */
    method AddRule(dir: Directory, id: string, s: Section, addToTop: bool) returns (ok: bool)
      requires config.Valid() && id !in config.secs && s.kind == "rule"
      modifies this
      ensures (config, ok) == R.AddRule(dir, old(config), id, s, addToTop)
    {
      SetValid(config, id, s);
      ReorderTwice(config.Set(id, s));
      config := config.Set(id, s);
      ReorderFirewallConfig();
      R.UpdateKeepsClasses(dir, config);
      ok := UpdateFirewallRules(dir);
      if ok && addToTop {
        ok := MoveToTop(id);
      }
    }
  }

  /** The ipsets are the same while a rule is being updated. */
  lemma RuleKeepsIpset(dir: Directory, c: Firewall, id: string, rule: Section, x: string)
    requires id in c.secs && c.secs[id].kind == "rule" && Framed(c.secs[id], rule)
    ensures IpsetName(dir, c, x) == IpsetName(dir, c.(secs := c.secs[id := rule]), x)
  {
    RulesOnlyIpset(dir, c, c.(secs := c.secs[id := rule]), x);
  }

  method AllIn(rules: seq<string>, order: seq<string>) returns (ok: bool)
    ensures ok <==> R.Covers(order, rules)
  {
    for i := 0 to |rules|
      invariant forall j :: 0 <= j < i ==> rules[j] in order
    {
      if rules[i] !in order {
        assert rules[i] in rules;
        return false;
      }
    }
    return true;
  }

  lemma UpdateNext(dir: Directory, c: Firewall, ids: seq<string>, i: nat, recorded: seq<Change>)
    requires c.Valid() && ids == c.Ids(IsRule()) && i < |ids|
    ensures var r, id := UpdateFrom(dir, c, ids[..i]), ids[i];
            && id in r.config.secs && r.config.secs[id].kind == "rule"
            && UpdateFrom(dir, c, ids[..i + 1]) == UpdateOne(dir, r, id)
            && UpdateOne(dir, r, id).config.Valid()
            && var recordedOne := UpdateOne(dir, r.(changes := recorded + r.changes), id);
               recordedOne == UpdateOne(dir, r, id).(changes := recorded + UpdateOne(dir, r, id).changes)
  {
    var r, id := UpdateFrom(dir, c, ids[..i]), ids[i];
    assert id in ids;
    assert ids[..i + 1][..i] == ids[..i];
    UpdateStartsFramed(dir, c, ids, i);
    RecordedAfter(dir, r, id, recorded);
  }

  lemma UpdateStartsFramed(dir: Directory, c: Firewall, ids: seq<string>, i: nat)
    requires c.Valid() && ids == c.Ids(IsRule()) && i <= |ids|
    ensures RulesOnly(c, UpdateFrom(dir, c, ids[..i]).config)
  {
    SelectNoDup(IsRule(), c.order, c.secs);
    UpdateFromEffect(dir, c, ids[..i]);
  }

  lemma RecordedAfter(dir: Directory, r: Outcome, id: string, recorded: seq<Change>)
    requires id in r.config.secs
    ensures var recordedOne := UpdateOne(dir, r.(changes := recorded + r.changes), id);
            recordedOne == UpdateOne(dir, r, id).(changes := recorded + UpdateOne(dir, r, id).changes)
  {
    var more := Tagged(id, UpdateRule(dir, r.config, r.config.secs[id]).changed);
    Sequences.Assoc(recorded, r.changes, more);
  }

  /** Nothing happens after an exception. */
  lemma {:induction false} UpdateStopped(dir: Directory, c: Firewall, ids: seq<string>, i: nat)
    requires i <= |ids| && forall id :: id in ids ==> id in c.secs
    requires i < |ids| ==> !UpdateFrom(dir, c, ids[..i]).ok
    ensures UpdateFrom(dir, c, ids) == UpdateFrom(dir, c, ids[..i])
  {
    if i == |ids| {
      assert ids[..i] == ids;
    } else {
      var init := ids[..|ids| - 1];
      assert init[..i] == ids[..i];
      UpdateStopped(dir, c, init, i);
    }
  }

  lemma FirstSelected(p: Section -> bool, order: seq<string>, secs: map<string, Section>, i: nat)
    requires i < |order| && order[i] in secs && p(secs[order[i]]) && Select(p, order[..i], secs) == []
    ensures Select(p, order, secs) != [] && Select(p, order, secs)[0] == order[i]
  {
    SelectStep(p, order, secs, i);
    assert order == order[..i + 1] + order[i + 1..];
    SelectConcat(p, order[..i + 1], order[i + 1..], secs);
  }

  /** The seven lists are those of the sections seen. */
  ghost predicate Split(order: seq<string>, secs: map<string, Section>, defaults: seq<string>, zones: seq<string>,
    forwardings: seq<string>, otherRules: seq<string>, forwardRules: seq<string>, outputRules: seq<string>,
      inputRules: seq<string>)
  {
    && defaults == Select(Is(Defaults), order, secs) && zones == Select(Is(Zone), order, secs)
    && forwardings == Select(Is(Forwarding), order, secs) && otherRules == Select(Is(OtherRule), order, secs)
    && forwardRules == Select(Is(ForwardRule), order, secs) && outputRules == Select(Is(OutputRule), order, secs)
    && inputRules == Select(Is(InputRule), order, secs)
  }

  lemma SplitNext(order: seq<string>, secs: map<string, Section>, i: nat, d: seq<string>, z: seq<string>,
    f: seq<string>, o: seq<string>, fr: seq<string>, or: seq<string>, ir: seq<string>)
    requires i < |order| && order[i] in secs && Split(order[..i], secs, d, z, f, o, fr, or, ir)
    ensures ClassOf(secs[order[i]]) == Defaults ==> Split(order[..i + 1], secs, d + [order[i]], z, f, o, fr, or, ir)
    ensures ClassOf(secs[order[i]]) == Zone ==> Split(order[..i + 1], secs, d, z + [order[i]], f, o, fr, or, ir)
    ensures ClassOf(secs[order[i]]) == Forwarding ==> Split(order[..i + 1], secs, d, z, f + [order[i]], o, fr, or, ir)
    ensures ClassOf(secs[order[i]]) == OtherRule ==> Split(order[..i + 1], secs, d, z, f, o + [order[i]], fr, or, ir)
    ensures ClassOf(secs[order[i]]) == ForwardRule ==> Split(order[..i + 1], secs, d, z, f, o, fr + [order[i]], or, ir)
    ensures ClassOf(secs[order[i]]) == OutputRule ==> Split(order[..i + 1], secs, d, z, f, o, fr, or + [order[i]], ir)
    ensures ClassOf(secs[order[i]]) == InputRule ==> Split(order[..i + 1], secs, d, z, f, o, fr, or, ir + [order[i]])
  {
    JoinedNext(Is(Defaults), order, secs, i);
    JoinedNext(Is(Zone), order, secs, i);
    JoinedNext(Is(Forwarding), order, secs, i);
    JoinedNext(Is(OtherRule), order, secs, i);
    JoinedNext(Is(ForwardRule), order, secs, i);
    JoinedNext(Is(OutputRule), order, secs, i);
    JoinedNext(Is(InputRule), order, secs, i);
  }

  lemma ReplacedSum(c: Firewall, k: Class, order: seq<string>)
    ensures var target := Arranged(Replaced(c, k, order), CLASSES);
            var front := ClassIds(c, Defaults) + ClassIds(c, Zone) + ClassIds(c, Forwarding) + ClassIds(c, OtherRule);
            && (k == InputRule ==> target == front + ClassIds(c, ForwardRule) + ClassIds(c, OutputRule) + order)
            && (k == OutputRule ==> target == front + ClassIds(c, ForwardRule) + order + ClassIds(c, InputRule))
            && (k == ForwardRule ==> target == front + order + ClassIds(c, OutputRule) + ClassIds(c, InputRule))
  {
    ArrangedIsSum(Replaced(c, k, order));
  }

  lemma ArrangedIsSum(listing: Class -> seq<string>)
    ensures Arranged(listing, CLASSES) ==
              listing(Defaults) + listing(Zone) + listing(Forwarding) + listing(OtherRule) + listing(ForwardRule)
              + listing(OutputRule) + listing(InputRule)
  {
    ArrangedFrom(listing, 0);
    ArrangedFrom(listing, 1);
    ArrangedFrom(listing, 2);
    ArrangedFrom(listing, 3);
    ArrangedFrom(listing, 4);
    ArrangedFrom(listing, 5);
    ArrangedFrom(listing, 6);
    SumOfSeven(listing(Defaults), listing(Zone), listing(Forwarding), listing(OtherRule), listing(ForwardRule),
               listing(OutputRule), listing(InputRule));
  }

  lemma ArrangedFrom(listing: Class -> seq<string>, i: nat)
    requires i < |CLASSES|
    ensures Arranged(listing, CLASSES[i..]) == listing(CLASSES[i]) + Arranged(listing, CLASSES[i + 1..])
    ensures CLASSES[0..] == CLASSES && Arranged(listing, CLASSES[|CLASSES|..]) == []
  {
    assert CLASSES[i..][1..] == CLASSES[i + 1..];
  }

  lemma SumOfSeven(a: seq<string>, b: seq<string>, c: seq<string>, d: seq<string>, e: seq<string>, f: seq<string>,
    g: seq<string>)
    ensures a + (b + (c + (d + (e + (f + (g + [])))))) == a + b + c + d + e + f + g
  {
  }
}
