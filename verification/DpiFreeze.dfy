/** The criteria that a rule of the old schema is frozen into, and when building it raises. */
module DpiFreeze {
  import opened Wrappers
  import opened Sequences
  import opened Text
  import opened DpiStore
  import C = Criteria

  /** A device section of the network configuration. */
  datatype Device = Device(name: string, vid: Option<string>, ifname: Option<string>)

  /** The firewall objects, whose expansion may raise, and the devices, None where they cannot be read. */
  datatype Env = Env(
    ip: C.IpText,
    isObject: string -> bool,
    objectIps: string -> Option<seq<string>>,
    devices: Option<seq<Device>>)

  function Replaced(s: string, a: char, b: char): (r: string)
    ensures |r| == |s| && forall i :: 0 <= i < |s| ==> r[i] == if s[i] == a then b else s[i]
  {
    seq(|s|, i requires 0 <= i < |s| => if s[i] == a then b else s[i])
  }

  const ANY_DEVICE := "*"

  function DeviceOf(rule: Rule): string {
    rule.legacy.device.GetOr(ANY_DEVICE)
  }

  // ----- the terms

  /** The addresses of one source; None where the object lookup raises. */
  function SourceIps(env: Env, source: string): Option<seq<string>> {
    if env.isObject(source) then env.objectIps(source) else Some([source])
  }

  function SourceTerms(env: Env, sources: seq<string>): Option<seq<string>> {
    if sources == [] then Some([])
    else
      var init :- SourceTerms(env, sources[..|sources| - 1]);
      var ips :- SourceIps(env, sources[|sources| - 1]);
      Some(init + C.SourceTexts(ips))
  }

  /** Terms of one kind, `kind == 'value'`. */
  function Quoted(kind: string, values: seq<string>): (r: seq<string>)
    ensures |r| == |values|
    ensures forall i :: 0 <= i < |values| ==> r[i] == kind + " == '" + values[i] + "'"
  {
    seq(|values|, i requires 0 <= i < |values| => kind + " == '" + values[i] + "'")
  }

  function LowerAll(values: seq<string>): (r: seq<string>)
    ensures |r| == |values| && forall i :: 0 <= i < |values| ==> r[i] == Lower(values[i])
  {
    seq(|values|, i requires 0 <= i < |values| => Lower(values[i]))
  }

  function MemberTerms(legacy: Legacy): seq<string> {
    Quoted("app", legacy.application.GetOr([]))
    + Quoted("proto", LowerAll(legacy.protocol.GetOr([])))
    + Quoted("category", LowerAll(legacy.category.GetOr([])))
  }

  // ----- the text

  function Narrowed(device: string): string {
    "(iface_nfq_src == '" + device + "' or iface_nfq_dst == '" + device + "') && "
  }

  const OR := " or "

  function Assembled(device: string, sources: seq<string>, members: seq<string>): string {
    Narrowed(device) +
    if sources == [] then "(" + Join(OR, members) + ") ;"
    else if members == [] then "(" + Join(OR, sources) + ") ;"
    else "(" + Join(OR, sources) + ") && (" + Join(OR, members) + ") ;"
  }

  predicate IsVlan(d: Device, device: string) {
    d.vid.Some? && d.name == device
  }

  /** The first device section with a VLAN id and the name, or the number of sections. */
  function VlanIndex(devices: seq<Device>, device: string): (i: nat)
    ensures i <= |devices|
    ensures i < |devices| ==> IsVlan(devices[i], device)
    ensures forall j :: 0 <= j < i ==> !IsVlan(devices[j], device)
  {
    if devices == [] || IsVlan(devices[0], device) then 0 else 1 + VlanIndex(devices[1..], device)
  }

  /** The restriction to the VLAN that the device names, if its section has a base interface. */
  function VlanPrefix(devices: seq<Device>, device: string): string {
    var i := VlanIndex(devices, device);
    if i < |devices| && devices[i].ifname.Some? then "vlan_id == " + devices[i].vid.value + " && " else ""
  }

  /** The criteria before the VLAN is looked up: the rule's own, or one built from its fields. */
  function Body(env: Env, rule: Rule): Option<string> {
    if rule.criteria.Some? then Some(Replaced(rule.criteria.value, '\"', '\''))
    else
      var sources :- SourceTerms(env, rule.target.source);
      Some(Assembled(DeviceOf(rule), sources, MemberTerms(rule.legacy)))
  }

  /** The frozen criteria; None where an object lookup raises or the devices cannot be read. */
  function FreezeCriteria(env: Env, rule: Rule): Option<string> {
    var body :- Body(env, rule);
    var devices :- env.devices;
    Some(VlanPrefix(devices, DeviceOf(rule)) + body)
  }

  // ----- the program

  lemma SourceTermsStep(env: Env, sources: seq<string>, i: nat)
    requires i < |sources|
    ensures var init, ips := SourceTerms(env, sources[..i]), SourceIps(env, sources[i]);
      SourceTerms(env, sources[..i + 1]) ==
        if init.None? || ips.None? then None else Some(init.value + C.SourceTexts(ips.value))
  {
    assert sources[..i + 1][..i] == sources[..i];
  }

  lemma {:induction false} SourceTermsFail(env: Env, sources: seq<string>, n: nat)
    requires n <= |sources| && SourceTerms(env, sources[..n]).None?
    ensures SourceTerms(env, sources).None?
  {
    if n == |sources| {
      assert sources[..n] == sources;
    } else {
      assert sources[..|sources| - 1][..n] == sources[..n];
      SourceTermsFail(env, sources[..|sources| - 1], n);
    }
  }

  lemma SourceTextsSnoc(done: seq<string>, ips: seq<string>, k: nat)
    requires k < |ips|
    ensures done + C.SourceTexts(ips[..k + 1]) == done + C.SourceTexts(ips[..k]) + [C.LOCAL_IP + ips[k]]
  {
  }

  /** Append a term for every address of an object. */
  method AppendIps(terms: seq<string>, ips: seq<string>) returns (sources: seq<string>)
    ensures sources == terms + C.SourceTexts(ips)
  {
    sources := terms;
    for k := 0 to |ips|
      invariant sources == terms + C.SourceTexts(ips[..k])
    {
      SourceTextsSnoc(terms, ips, k);
      sources := sources + [C.LOCAL_IP + ips[k]];
    }
    assert ips[..|ips|] == ips;
  }

  method CollectSources(env: Env, values: seq<string>) returns (sources: Option<seq<string>>)
    ensures sources == SourceTerms(env, values)
  {
    var terms: seq<string> := [];
    for i := 0 to |values|
      invariant SourceTerms(env, values[..i]) == Some(terms)
    {
      SourceTermsStep(env, values, i);
      if env.isObject(values[i]) {
        var ips := env.objectIps(values[i]);
        if ips.None? {
          SourceTermsFail(env, values, i + 1);
          return None;
        }
        terms := AppendIps(terms, ips.value);
      } else {
        assert C.SourceTexts([values[i]]) == [C.LOCAL_IP + values[i]];
        terms := terms + [C.LOCAL_IP + values[i]];
      }
    }
    assert values[..|values|] == values;
    return Some(terms);
  }

  method AppendQuoted(terms: seq<string>, kind: string, values: seq<string>) returns (r: seq<string>)
    ensures r == terms + Quoted(kind, values)
  {
    r := terms;
    for k := 0 to |values|
      invariant r == terms + Quoted(kind, values[..k])
    {
      r := r + [kind + " == '" + values[k] + "'"];
    }
    assert values[..|values|] == values;
  }

  /** The search through the device sections stops at the first match. */
  method FindVlan(devices: seq<Device>, device: string) returns (prefix: string)
    ensures prefix == VlanPrefix(devices, device)
  {
    for i := 0 to |devices|
      invariant forall j :: 0 <= j < i ==> !IsVlan(devices[j], device)
    {
      if devices[i].vid.Some? && devices[i].name == device {
        return if devices[i].ifname.Some? then "vlan_id == " + devices[i].vid.value + " && " else "";
      }
    }
    return "";
  }

  method FreezeLegacyCriteria(env: Env, rule: Rule) returns (criteria: Option<string>)
    ensures criteria == FreezeCriteria(env, rule)
  {
    var device := rule.legacy.device.GetOr(ANY_DEVICE);
    var body: string;
    if rule.criteria.Some? {
      body := Replaced(rule.criteria.value, '\"', '\'');
    } else {
      var sources := CollectSources(env, rule.target.source);
      if sources.None? {
        return None;
      }
      var applications := AppendQuoted([], "app", rule.legacy.application.GetOr([]));
      assert applications == Quoted("app", rule.legacy.application.GetOr([]));
      applications := AppendQuoted(applications, "proto", LowerAll(rule.legacy.protocol.GetOr([])));
      applications := AppendQuoted(applications, "category", LowerAll(rule.legacy.category.GetOr([])));
      body := Assembled(device, sources.value, applications);
    }
    if env.devices.None? {
      return None;
    }
    var prefix := FindVlan(env.devices.value, device);
    return Some(prefix + body);
  }

  // ----- when it raises, and what the text is

  /** Some source of a rule without a criteria of its own is an object whose lookup raises. */
  predicate SourceRaises(env: Env, rule: Rule) {
    rule.criteria.None? && exists s :: s in rule.target.source && env.isObject(s) && env.objectIps(s).None?
  }

  lemma {:induction false} SourceTermsIff(env: Env, sources: seq<string>)
    ensures SourceTerms(env, sources).None? <==> exists s :: s in sources && env.isObject(s) && env.objectIps(s).None?
  {
    if sources != [] {
      var init, last := sources[..|sources| - 1], sources[|sources| - 1];
      assert sources == init + [last];
      SourceTermsIff(env, init);
    }
  }

  /** Freezing raises exactly when a lookup it makes does, or the network configuration cannot be read. */
  lemma FreezeFailsIff(env: Env, rule: Rule)
    ensures FreezeCriteria(env, rule).None? <==> SourceRaises(env, rule) || env.devices.None?
  {
    SourceTermsIff(env, rule.target.source);
  }

  predicate Terminated(s: string) {
    s != "" && s[|s| - 1] == ';'
  }

  lemma AssembledTerminated(device: string, sources: seq<string>, members: seq<string>)
    ensures Terminated(Assembled(device, sources, members))
  {
  }

  lemma PrefixedTerminated(prefix: string, body: string)
    requires prefix == "" || prefix[|prefix| - 1] == ' '
    ensures Terminated(prefix + body) <==> Terminated(body)
  {
    if body == "" {
      assert prefix + body == prefix;
    } else {
      assert (prefix + body)[|prefix + body| - 1] == body[|body| - 1];
    }
  }

  /** The text ends in a semicolon exactly when the rule has no criteria of its own, or one that does. */
  lemma FrozenTerminatedIff(env: Env, rule: Rule)
    requires FreezeCriteria(env, rule).Some?
    ensures Terminated(FreezeCriteria(env, rule).value) <==> rule.criteria.None? || Terminated(rule.criteria.value)
  {
    var body, prefix := Body(env, rule).value, VlanPrefix(env.devices.value, DeviceOf(rule));
    PrefixedTerminated(prefix, body);
    if rule.criteria.None? {
      AssembledTerminated(DeviceOf(rule), SourceTerms(env, rule.target.source).value, MemberTerms(rule.legacy));
    }
  }

  predicate NoMembers(legacy: Legacy) {
    legacy.application.GetOr([]) == [] && legacy.protocol.GetOr([]) == [] && legacy.category.GetOr([]) == []
  }

  /** Every source is an object that stands for no address. */
  predicate NoIps(env: Env, sources: seq<string>) {
    forall s :: s in sources ==> env.isObject(s) && env.objectIps(s) == Some([])
  }

  lemma {:induction false} SourceTermsEmptyIff(env: Env, sources: seq<string>)
    requires SourceTerms(env, sources).Some?
    ensures SourceTerms(env, sources).value == [] <==> NoIps(env, sources)
  {
    if sources != [] {
      var init, last := sources[..|sources| - 1], sources[|sources| - 1];
      assert sources == init + [last];
      SourceTermsEmptyIff(env, init);
    }
  }

  /**
   A rule without a criteria of its own is frozen into the empty parentheses exactly when it names no
   application, protocol or category and every source is an object that stands for no address.
   */
  lemma FrozenEmptyIff(env: Env, rule: Rule)
    requires rule.criteria.None? && FreezeCriteria(env, rule).Some?
    ensures SourceTerms(env, rule.target.source).Some?
    ensures (SourceTerms(env, rule.target.source).value == [] && MemberTerms(rule.legacy) == []) <==>
              NoMembers(rule.legacy) && NoIps(env, rule.target.source)
    ensures NoMembers(rule.legacy) && NoIps(env, rule.target.source) ==>
              Body(env, rule) == Some(Narrowed(DeviceOf(rule)) + "() ;")
  {
    SourceTermsEmptyIff(env, rule.target.source);
    assert "(" + "" + ") ;" == "() ;";
  }
}
