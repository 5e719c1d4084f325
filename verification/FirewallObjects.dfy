/** Rules bound to objects: what the expansion of the object graph puts into the firewall. */
module FirewallObjects {
  import opened FirewallExpand
  import opened FirewallStore
  import opened ObjectIps
  import opened Objects
  import opened Sequences
  import opened Wrappers

  /** The object store as rule updates see it. */
  ghost function DirectoryOf(s: Store, showList: seq<string> -> string): Directory
    requires Loopless(s)
  {
    Directory(name => IsDomainSet(s, name), name => Addresses(s, name), showList)
  }

  /** The option holds just these texts, as a list or as the one text there is. */
  predicate Lists(s: Section, option: string, texts: seq<string>) {
    option in s.options &&
      (s.options[option] == List(texts) || (|texts| == 1 && s.options[option] == Scalar(texts[0])))
  }

  lemma EndHoldsTree(s: Store, showList: seq<string> -> string, was: Section, now: Section, link: string,
    address: string)
    requires Loopless(s) && EndHolds(DirectoryOf(s, showList), was, now, link, address)
    requires link in was.options && was.options[link].Scalar? && was.options[link].text != ""
    requires !IsDomainSet(s, was.options[link].text)
    ensures var tree := Tree(s, was.options[link].text);
            && tree.Some?
            && (tree.value != [] ==> Lists(now, address, Dedup(tree.value)))
            && (tree.value == [] ==> now.Get(address) == was.Get(address))
  {
    var tree := Tree(s, was.options[link].text);
    if tree.Some? && tree.value != [] {
      assert tree.value[0] in Dedup(tree.value);
    }
  }

  /**
   On any acyclic object store, after an update that did not raise, a rule whose `ns_src` names an object
   other than a domain set has the deduplicated reference tree of that object in `src_ip`, and one whose
   `ns_dst` does has it in `dest_ip`; an object without addresses leaves the option alone.
   */
  lemma RuleHoldsTree(s: Store, showList: seq<string> -> string, c: Firewall, id: string, name: string)
    requires Loopless(s) && c.Valid() && id in c.secs && c.secs[id].kind == "rule"
    requires UpdateFirewallRules(DirectoryOf(s, showList), c).ok && name != "" && !IsDomainSet(s, name)
    ensures var d := UpdateFirewallRules(DirectoryOf(s, showList), c).config;
            && id in d.secs
            && (c.secs[id].Get("ns_src") == Some(Scalar(name)) ==>
                  Tree(s, name).Some? &&
                  if Tree(s, name).value != [] then Lists(d.secs[id], "src_ip", Dedup(Tree(s, name).value))
                  else d.secs[id].Get("src_ip") == c.secs[id].Get("src_ip"))
            && (c.secs[id].Get("ns_dst") == Some(Scalar(name)) ==>
                  Tree(s, name).Some? &&
                  if Tree(s, name).value != [] then Lists(d.secs[id], "dest_ip", Dedup(Tree(s, name).value))
                  else d.secs[id].Get("dest_ip") == c.secs[id].Get("dest_ip"))
  {
    var dir := DirectoryOf(s, showList);
    var d := UpdateFirewallRules(dir, c).config;
    UpdatedRulesExpanded(dir, c, id);
    if c.secs[id].Get("ns_src") == Some(Scalar(name)) {
      EndHoldsTree(s, showList, c.secs[id], d.secs[id], "ns_src", "src_ip");
    }
    if c.secs[id].Get("ns_dst") == Some(Scalar(name)) {
      EndHoldsTree(s, showList, c.secs[id], d.secs[id], "ns_dst", "dest_ip");
    }
  }

  /** An end bound to a list of objects, or to one that is malformed or stands above something malformed. */
  ghost predicate Unresolvable(s: Store, rule: Section, end: End) {
    match Bound(rule, end)
    case None => false
    case Some(List(_)) => true
    case Some(Scalar(name)) => !IsDomainSet(s, name) && Fails(s, name)
  }

  lemma UnresolvableIff(s: Store, showList: seq<string> -> string, rule: Section, end: End)
    requires Loopless(s)
    ensures Unresolvable(s, rule, end) <==> !Resolvable(DirectoryOf(s, showList), rule, end)
  {
    if Bound(rule, end).Some? && Bound(rule, end).value.Scalar? {
      ExpansionFailsIff(s, Bound(rule, end).value.text);
    }
  }

  lemma EitherUnresolvableIff(s: Store, showList: seq<string> -> string, rule: Section)
    requires Loopless(s)
    ensures Unresolvable(s, rule, Source) || Unresolvable(s, rule, Destination) <==>
              !BothResolvable(DirectoryOf(s, showList), rule)
  {
    UnresolvableIff(s, showList, rule, Source);
    UnresolvableIff(s, showList, rule, Destination);
  }

  ghost predicate SomeUnresolvable(s: Store, c: Firewall) {
    exists id :: id in c.secs && c.secs[id].kind == "rule" &&
      (Unresolvable(s, c.secs[id], Source) || Unresolvable(s, c.secs[id], Destination))
  }

  /** The exact condition for an update to raise, over any acyclic object store. */
  lemma UpdateRaisesIff(s: Store, showList: seq<string> -> string, c: Firewall)
    requires Loopless(s) && c.Valid()
    ensures !UpdateFirewallRules(DirectoryOf(s, showList), c).ok <==> SomeUnresolvable(s, c)
  {
    var dir := DirectoryOf(s, showList);
    UpdateOkIff(dir, c);
    forall id | id in c.secs
      ensures Unresolvable(s, c.secs[id], Source) || Unresolvable(s, c.secs[id], Destination) <==>
          !BothResolvable(dir, c.secs[id])
    {
      EitherUnresolvableIff(s, showList, c.secs[id]);
    }
  }
}
