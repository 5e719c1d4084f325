/**
 Enabling the rules that the enabled rules depend on. A rule depends on the rules that set the bits
 it tests; the resolver keeps enabling until nothing changes.
 */
module Flowbits {
  import opened Wrappers
  import opened Sequences

  /** A flowbit option split at its first comma. */
  function ParseFlowbit(flowbit: string): (string, Option<string>) {
    var i := IndexOf(flowbit, ',');
    if i == |flowbit| then (flowbit, None) else (flowbit[..i], Some(flowbit[i + 1..]))
  }

  predicate IsSetter(option: string) {
    option == "set" || option == "setx" || option == "unset" || option == "toggle"
  }

  predicate IsGetter(option: string) {
    option == "isset" || option == "isnotset"
  }

  type Bit = Option<string>

  /** The value of a flowbits option; None where the option has none, and parsing it raises. */
  type Flowbit = Option<string>

  /** The text is the command, alone or before a comma and the name of a bit. */
  predicate Says(f: string, command: string, bit: Bit) {
    f == if bit.None? then command else command + "," + bit.value
  }

  /** The text writes the bit. */
  predicate Writes(f: string, bit: Bit) {
    Says(f, "set", bit) || Says(f, "setx", bit) || Says(f, "unset", bit) || Says(f, "toggle", bit)
  }

  /** The text tests the bit. */
  predicate Reads(f: string, bit: Bit) {
    Says(f, "isset", bit) || Says(f, "isnotset", bit)
  }

  ghost predicate SetsBit(flowbits: seq<Flowbit>, bit: Bit) {
    exists f: string :: Some(f) in flowbits && Writes(f, bit)
  }

  ghost predicate TestsBit(flowbits: seq<Flowbit>, bit: Bit) {
    exists f: string :: Some(f) in flowbits && Reads(f, bit)
  }

  lemma ParsedAs(f: string, command: string, bit: Bit)
    requires ',' !in command
    ensures ParseFlowbit(f) == (command, bit) <==> Says(f, command, bit)
  {
    if bit.Some? {
      IndexOfConcat(command, ',', bit.value);
      var g := command + [','] + bit.value;
      assert g == command + "," + bit.value;
      assert g[..|command|] == command && g[|command| + 1..] == bit.value;
    }
    var i := IndexOf(f, ',');
    if i < |f| {
      assert f == f[..i] + [','] + f[i + 1..];
      assert f[..i] + [','] + f[i + 1..] == f[..i] + "," + f[i + 1..];
    }
  }

  lemma ParsedAsAny(f: string, bit: Bit, a: string, b: string)
    requires ',' !in a && ',' !in b
    ensures (ParseFlowbit(f).0 == a || ParseFlowbit(f).0 == b) && ParseFlowbit(f).1 == bit <==>
              Says(f, a, bit) || Says(f, b, bit)
  {
    ParsedAs(f, a, bit);
    ParsedAs(f, b, bit);
  }

  /** Splitting at the first comma recognises exactly the texts that write a bit. */
  lemma ParsedWrites(f: string, bit: Bit)
    ensures IsSetter(ParseFlowbit(f).0) && ParseFlowbit(f).1 == bit <==> Writes(f, bit)
  {
    ParsedAsAny(f, bit, "set", "setx");
    ParsedAsAny(f, bit, "unset", "toggle");
  }

  /** And exactly those that test one. */
  lemma ParsedReads(f: string, bit: Bit)
    ensures IsGetter(ParseFlowbit(f).0) && ParseFlowbit(f).1 == bit <==> Reads(f, bit)
  {
    ParsedAsAny(f, bit, "isset", "isnotset");
  }

  /** Every flowbits option has a value. */
  predicate AllValued(flowbits: seq<Flowbit>) {
    None !in flowbits
  }

  // ----- the specification

  /** Generator and signature number of a rule. */
  type Key = (int, int)

  /** The flowbit options of every rule. */
  type Bits = map<Key, seq<Flowbit>>

  /** The second rule sets a bit the first one tests. */
  ghost predicate Depends(testing: seq<Flowbit>, setting: seq<Flowbit>) {
    exists bit :: TestsBit(testing, bit) && SetsBit(setting, bit)
  }

  /** Every rule that a member depends on is a member. */
  ghost predicate Closed(bits: Bits, s: set<Key>) {
    forall a, b :: a in s && a in bits && b in bits && Depends(bits[a], bits[b]) ==> b in s
  }

  /** The least closed set over a starting set. */
  ghost predicate IsLeastClosed(bits: Bits, start: set<Key>, s: set<Key>) {
    && start <= s && Closed(bits, s)
    && forall t :: start <= t && Closed(bits, t) ==> s <= t
  }

  /** The rules that some member depends on. */
  ghost function Needed(bits: Bits, s: set<Key>): set<Key> {
    set b | b in bits && exists a :: a in s && a in bits && Depends(bits[a], bits[b])
  }

  /** There is only one least closed set, so the result does not depend on any order. */
  lemma LeastClosedUnique(bits: Bits, start: set<Key>, s: set<Key>, t: set<Key>)
    requires IsLeastClosed(bits, start, s) && IsLeastClosed(bits, start, t)
    ensures s == t
  {
  }

  /** One round does not change the least closed set. */
  lemma LeastClosedRound(bits: Bits, start: set<Key>, mid: set<Key>, s: set<Key>)
    requires mid == start + Needed(bits, start) && IsLeastClosed(bits, mid, s)
    ensures IsLeastClosed(bits, start, s) && start <= mid <= s
  {
    forall t | start <= t && Closed(bits, t) ensures s <= t {
      assert Needed(bits, start) <= t;
    }
  }

  lemma LeastClosedDone(bits: Bits, start: set<Key>)
    requires Needed(bits, start) <= start
    ensures IsLeastClosed(bits, start, start)
  {
    forall a, b | a in start && a in bits && b in bits && Depends(bits[a], bits[b]) ensures b in start {
      assert b in Needed(bits, start);
    }
  }

  // ----- the program

  /**
   A rule as the resolver sees it: a dictionary entry "enabled", and an attribute of the same name
   that hides it once assigned.
   */
  class Rule {
    const flowbits: seq<Flowbit>
    var entry: bool
    var attribute: Option<bool>

    constructor (entry: bool, flowbits: seq<Flowbit>)
      ensures this.entry == entry && this.flowbits == flowbits && attribute == None
    {
      this.entry := entry;
      this.flowbits := flowbits;
      attribute := None;
    }

    predicate Enabled()
      reads this
    {
      attribute.GetOr(entry)
    }
  }

  type RuleMap = map<Key, Rule>

  ghost function BitsOf(rules: RuleMap): Bits {
    map k | k in rules :: rules[k].flowbits
  }

  ghost function EnabledKeys(rules: RuleMap): set<Key>
    reads rules.Values
  {
    set k | k in rules && rules[k].Enabled()
  }

  /** The dictionary entries, which resolving leaves alone. */
  ghost function Entries(rules: RuleMap): map<Key, bool>
    reads rules.Values
  {
    map k | k in rules :: rules[k].entry
  }

  /** Some flowbit of the rule sets a required bit. */
  ghost predicate Provides(flowbits: seq<Flowbit>, required: set<Bit>) {
    exists bit :: bit in required && SetsBit(flowbits, bit)
  }

  /** No rule has a flowbits option without a value. */
  ghost predicate WellFormed(rules: RuleMap) {
    forall k :: k in rules ==> AllValued(rules[k].flowbits)
  }

  method AddTested(flowbits: seq<Flowbit>, bits: set<Bit>) returns (ok: bool, required: set<Bit>)
    ensures ok <==> AllValued(flowbits)
    ensures ok ==> forall bit :: bit in required <==> bit in bits || TestsBit(flowbits, bit)
  {
    required := bits;
    for k := 0 to |flowbits|
      invariant AllValued(flowbits[..k])
      invariant forall bit :: bit in required <==> bit in bits || TestsBit(flowbits[..k], bit)
    {
      assert flowbits[..k + 1] == flowbits[..k] + [flowbits[k]];
      if flowbits[k].None? {
        return false, required;
      }
      var (option, value) := ParseFlowbit(flowbits[k].value);
      TestsSnoc(flowbits[..k], flowbits[k].value);
      if IsGetter(option) {
        required := required + {value};
      }
    }
    assert flowbits[..|flowbits|] == flowbits;
    ok := true;
  }

  lemma TestsSnoc(flowbits: seq<Flowbit>, f: string)
    ensures forall bit :: TestsBit(flowbits + [Some(f)], bit) <==>
              TestsBit(flowbits, bit) || (IsGetter(ParseFlowbit(f).0) && ParseFlowbit(f).1 == bit)
  {
    var all := flowbits + [Some(f)];
    forall bit
      ensures TestsBit(all, bit)
        <==> TestsBit(flowbits, bit) || (IsGetter(ParseFlowbit(f).0) && ParseFlowbit(f).1 == bit)
    {
      ParsedReads(f, bit);
      assert Some(f) in all;
      if TestsBit(flowbits, bit) {
        var g: string :| Some(g) in flowbits && Reads(g, bit);
        assert Some(g) in all;
      }
    }
  }

  /** How many flowbits of a rule set a required bit: that often is the rule listed. */
  method CountSetters(flowbits: seq<Flowbit>, required: set<Bit>) returns (ok: bool, n: nat)
    ensures ok <==> AllValued(flowbits)
    ensures ok ==> (n > 0 <==> Provides(flowbits, required))
  {
    n := 0;
    for k := 0 to |flowbits|
      invariant AllValued(flowbits[..k])
      invariant n > 0 <==> Provides(flowbits[..k], required)
    {
      assert flowbits[..k + 1] == flowbits[..k] + [flowbits[k]];
      if flowbits[k].None? {
        return false, n;
      }
      var (option, value) := ParseFlowbit(flowbits[k].value);
      ProvidesSnoc(flowbits[..k], flowbits[k].value, required);
      if IsSetter(option) && value in required {
        n := n + 1;
      }
    }
    assert flowbits[..|flowbits|] == flowbits;
    ok := true;
  }

  lemma ProvidesSnoc(flowbits: seq<Flowbit>, f: string, required: set<Bit>)
    ensures Provides(flowbits + [Some(f)], required) <==>
              Provides(flowbits, required) || (IsSetter(ParseFlowbit(f).0) && ParseFlowbit(f).1 in required)
  {
    var all := flowbits + [Some(f)];
    assert Some(f) in all;
    if Provides(flowbits, required) {
      var bit :| bit in required && SetsBit(flowbits, bit);
      var g: string :| Some(g) in flowbits && Writes(g, bit);
      assert Some(g) in all && SetsBit(all, bit);
    }
    if IsSetter(ParseFlowbit(f).0) && ParseFlowbit(f).1 in required {
      ParsedWrites(f, ParseFlowbit(f).1);
      assert SetsBit(all, ParseFlowbit(f).1);
    }
    if Provides(all, required) {
      var bit :| bit in required && SetsBit(all, bit);
      var g: string :| Some(g) in all && Writes(g, bit);
      ParsedWrites(g, bit);
      assert g != f ==> SetsBit(flowbits, bit);
    }
  }

  /** The list holds exactly the rules with the given keys. */
  ghost predicate Lists(rules: RuleMap, listed: seq<Rule>, keys: set<Key>) {
    && (forall i :: 0 <= i < |listed| ==> listed[i] in rules.Values)
    && forall k :: k in rules ==> (rules[k] in listed <==> k in keys)
  }

  /** The second list holds what the first one holds, and exactly the rules with the given keys. */
  ghost predicate Adds(rules: RuleMap, before: seq<Rule>, after: seq<Rule>, keys: set<Key>) {
    && (forall i :: 0 <= i < |before| ==> before[i] in after)
    && (forall i :: 0 <= i < |after| ==> after[i] in before || after[i] in rules.Values)
    && forall k :: k in rules ==> (rules[k] in after <==> rules[k] in before || k in keys)
  }

  lemma AddsListed(rules: RuleMap, before: seq<Rule>, listed: seq<Rule>, keys: set<Key>)
    requires Lists(rules, listed, keys)
    ensures Adds(rules, before, before + listed, keys)
  {
  }

  lemma AddsCompose(rules: RuleMap, a: seq<Rule>, b: seq<Rule>, c: seq<Rule>, keys: set<Key>, more: set<Key>)
    requires Adds(rules, a, b, keys) && Adds(rules, b, c, more)
    ensures Adds(rules, a, c, keys + more)
  {
    forall i | 0 <= i < |a| ensures a[i] in c {
      var j :| 0 <= j < |b| && b[j] == a[i];
    }
    forall i | 0 <= i < |c| ensures c[i] in a || c[i] in rules.Values {
      if c[i] in b {
        var j :| 0 <= j < |b| && b[j] == c[i];
      }
    }
  }

  class FlowbitResolver {
    var enabled: seq<Rule>

    constructor ()
      ensures enabled == []
    {
      enabled := [];
    }

    /** The bits tested by the enabled rules. */
    method GetRequiredFlowbits(rules: RuleMap, order: seq<Key>) returns (ok: bool, required: set<Bit>)
      requires forall k :: k in order <==> k in rules
      ensures ok <==> forall k :: k in EnabledKeys(rules) ==> AllValued(rules[k].flowbits)
      ensures ok ==> forall bit ::
                bit in required <==> exists k :: k in EnabledKeys(rules) && TestsBit(rules[k].flowbits, bit)
    {
      required := {};
      for i := 0 to |order|
        invariant forall k :: k in order[..i] && k in EnabledKeys(rules) ==> AllValued(rules[k].flowbits)
        invariant forall bit :: bit in required <==>
                    exists k :: k in order[..i] && k in EnabledKeys(rules) && TestsBit(rules[k].flowbits, bit)
      {
        assert order[..i + 1] == order[..i] + [order[i]];
        if rules[order[i]].Enabled() {
          ok, required := AddTested(rules[order[i]].flowbits, required);
          if !ok {
            return;
          }
        }
      }
      assert order[..|order|] == order;
      ok := true;
    }

    /** Enable the disabled rules that set a required bit, and list them; an exception leaves some of them enabled. */
    method SetRequiredFlowbits(rules: RuleMap, order: seq<Key>, required: set<Bit>)
      returns (ok: bool, listed: seq<Rule>)
      requires forall k :: k in order <==> k in rules
      modifies rules.Values
      ensures ok <==> forall k :: k in rules && !old(rules[k].Enabled()) ==> AllValued(rules[k].flowbits)
      ensures Entries(rules) == old(Entries(rules)) && old(EnabledKeys(rules)) <= EnabledKeys(rules)
      ensures ok ==> forall k :: k in rules ==>
                rules[k].Enabled() == (old(rules[k].Enabled()) || Provides(rules[k].flowbits, required))
      ensures ok ==> forall r :: r in listed ==> r in rules.Values
      ensures ok ==> forall k :: k in rules ==> (rules[k] in listed <==> rules[k].Enabled() && !old(rules[k].Enabled()))
    {
      var pending := Disabled(rules, order);
      listed := [];
      for i := 0 to |pending|
        invariant Entries(rules) == old(Entries(rules))
        invariant forall r :: r in pending[..i] ==> AllValued(r.flowbits)
        invariant forall k :: k in rules ==>
                    rules[k].Enabled() ==
                      (old(rules[k].Enabled()) || (rules[k] in pending[..i] && Provides(rules[k].flowbits, required)))
        invariant forall r :: r in listed <==> r in pending[..i] && Provides(r.flowbits, required)
      {
        assert pending[..i + 1] == pending[..i] + [pending[i]];
        var rule := pending[i];
        assert rule in pending;
        var n;
        ok, n := CountSetters(rule.flowbits, required);
        if !ok {
          return;
        }
        if n > 0 {
          rule.attribute := Some(true);
          listed := listed + seq(n, j => rule);
          assert rule == seq(n, j => rule)[0];
        }
      }
      assert pending[..|pending|] == pending;
      ok := true;
    }

    method Disabled(rules: RuleMap, order: seq<Key>) returns (pending: seq<Rule>)
      requires forall k :: k in order <==> k in rules
      ensures forall r :: r in pending ==> r in rules.Values && !r.Enabled()
      ensures forall k :: k in rules && !rules[k].Enabled() ==> rules[k] in pending
    {
      pending := [];
      for i := 0 to |order|
        invariant forall r :: r in pending ==> r in rules.Values && !r.Enabled()
        invariant forall k :: k in order[..i] && !rules[k].Enabled() ==> rules[k] in pending
      {
        assert order[..i + 1] == order[..i] + [order[i]];
        if !rules[order[i]].Enabled() {
          pending := pending + [rules[order[i]]];
        }
      }
      assert order[..|order|] == order;
    }

    /** One round: enable what the enabled rules need, and list it. */
    method Round(rules: RuleMap, order: seq<Key>) returns (ok: bool, listed: seq<Rule>)
      requires forall k :: k in order <==> k in rules
      modifies rules.Values
      ensures ok <==> WellFormed(rules)
      ensures Entries(rules) == old(Entries(rules)) && old(EnabledKeys(rules)) <= EnabledKeys(rules)
      ensures ok ==> EnabledKeys(rules) == old(EnabledKeys(rules)) + Needed(BitsOf(rules), old(EnabledKeys(rules)))
      ensures ok ==> Lists(rules, listed, EnabledKeys(rules) - old(EnabledKeys(rules)))
    {
      ghost var start := EnabledKeys(rules);
      var required;
      ok, required := GetRequiredFlowbits(rules, order);
      if !ok {
        return false, [];
      }
      RoundEnables(rules, start, required);
      ok, listed := SetRequiredFlowbits(rules, order, required);
    }

    /**
     It raises exactly when some rule, enabled or not, has a flowbits option without a value. Otherwise the
     rules enabled at the end are the least closed set over the rules enabled at the start, whatever the
     order, and the rules listed as enabled are exactly those that were not.
     */
    method Resolve(rules: RuleMap, order: seq<Key>) returns (ok: bool, result: seq<Rule>)
      requires forall k :: k in order <==> k in rules
      modifies this, rules.Values
      ensures ok <==> WellFormed(rules)
      ensures Entries(rules) == old(Entries(rules)) && old(EnabledKeys(rules)) <= EnabledKeys(rules)
      ensures ok ==> IsLeastClosed(BitsOf(rules), old(EnabledKeys(rules)), EnabledKeys(rules))
      ensures ok ==> result == enabled
      ensures ok ==> Adds(rules, old(enabled), enabled, EnabledKeys(rules) - old(EnabledKeys(rules)))
      decreases |rules.Keys - EnabledKeys(rules)|
    {
      ghost var start, before := EnabledKeys(rules), enabled;
      var listed;
      ok, listed := AppendRound(rules, order);
      if !ok {
        return false, [];
      }
      ghost var mid := EnabledKeys(rules);
      if listed == [] {
        RoundDone(rules, start, mid, before);
        assert before + listed == before;
        result := enabled;
      } else {
        FewerDisabled(rules, listed, start, mid);
        ok, result := Resolve(rules, order);
        RoundStep(rules, listed, start, mid, EnabledKeys(rules), before, enabled);
      }
    }

    /** A round whose list is appended to the rules enabled so far. */
    method AppendRound(rules: RuleMap, order: seq<Key>) returns (ok: bool, listed: seq<Rule>)
      requires forall k :: k in order <==> k in rules
      modifies this, rules.Values
      ensures ok <==> WellFormed(rules)
      ensures Entries(rules) == old(Entries(rules)) && old(EnabledKeys(rules)) <= EnabledKeys(rules)
      ensures ok ==> EnabledKeys(rules) == old(EnabledKeys(rules)) + Needed(BitsOf(rules), old(EnabledKeys(rules)))
      ensures ok ==> Lists(rules, listed, EnabledKeys(rules) - old(EnabledKeys(rules)))
      ensures enabled == old(enabled) + if ok then listed else []
    {
      ok, listed := Round(rules, order);
      ghost var mid := EnabledKeys(rules);
      if ok {
        Append(listed);
      } else {
        assert enabled + [] == enabled;
      }
      assert EnabledKeys(rules) == mid;
    }

    method Append(listed: seq<Rule>)
      modifies `enabled
      ensures enabled == old(enabled) + listed
    {
      enabled := enabled + listed;
    }
  }

  /** A round that lists nothing enabled nothing: the enabled rules were closed already. */
  lemma RoundDone(rules: RuleMap, start: set<Key>, mid: set<Key>, before: seq<Rule>)
    requires start <= rules.Keys && mid == start + Needed(BitsOf(rules), start)
    requires Lists(rules, [], mid - start)
    ensures IsLeastClosed(BitsOf(rules), start, mid)
    ensures Adds(rules, before, before, mid - start)
  {
    SomeListed(rules, [], mid - start);
    LeastClosedDone(BitsOf(rules), start);
  }

  lemma SomeListed(rules: RuleMap, listed: seq<Rule>, keys: set<Key>)
    requires keys <= rules.Keys && Lists(rules, listed, keys)
    ensures keys != {} ==> listed != []
  {
    if keys != {} {
      var k :| k in keys;
      assert rules[k] in listed;
    }
  }

  /** What a round enabled, followed by what the rounds after it enabled. */
  lemma RoundStep(rules: RuleMap, listed: seq<Rule>, start: set<Key>, mid: set<Key>, final: set<Key>,
                  before: seq<Rule>, after: seq<Rule>)
    requires mid == start + Needed(BitsOf(rules), start) && IsLeastClosed(BitsOf(rules), mid, final)
    requires Lists(rules, listed, mid - start) && Adds(rules, before + listed, after, final - mid)
    ensures IsLeastClosed(BitsOf(rules), start, final)
    ensures Adds(rules, before, after, final - start)
  {
    LeastClosedRound(BitsOf(rules), start, mid, final);
    AddsListed(rules, before, listed, mid - start);
    AddsCompose(rules, before, before + listed, after, mid - start, final - mid);
    assert final - start == (mid - start) + (final - mid);
  }

  /** A round that lists a rule leaves fewer rules disabled. */
  lemma FewerDisabled(rules: RuleMap, listed: seq<Rule>, start: set<Key>, mid: set<Key>)
    requires listed != [] && start <= mid
    requires Lists(rules, listed, mid - start)
    ensures |rules.Keys - mid| < |rules.Keys - start|
  {
    assert listed[0] in rules.Values;
    var k :| k in rules && rules[k] == listed[0];
    assert k in rules.Keys - start && k !in rules.Keys - mid;
    SubsetSize(rules.Keys - mid, rules.Keys - start);
  }

  /** A disabled rule sets a required bit exactly when some enabled rule depends on it. */
  lemma RoundEnables(rules: RuleMap, start: set<Key>, required: set<Bit>)
    requires start <= rules.Keys
    requires forall bit :: bit in required <==> exists k :: k in start && TestsBit(rules[k].flowbits, bit)
    ensures forall k :: k in rules ==> (k in Needed(BitsOf(rules), start) <==> Provides(rules[k].flowbits, required))
  {
    var bits := BitsOf(rules);
    forall k | k in rules ensures k in Needed(bits, start) <==> Provides(rules[k].flowbits, required) {
      if k in Needed(bits, start) {
        var a :| a in start && a in bits && Depends(bits[a], bits[k]);
        var bit :| TestsBit(bits[a], bit) && SetsBit(bits[k], bit);
        assert bit in required;
      }
      if Provides(rules[k].flowbits, required) {
        var bit :| bit in required && SetsBit(rules[k].flowbits, bit);
        var a :| a in start && TestsBit(rules[a].flowbits, bit);
        assert Depends(bits[a], bits[k]);
      }
    }
  }
}
