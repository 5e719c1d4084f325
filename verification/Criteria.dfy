/**
 Compiling a DPI rule, its sources and its application groups, into the text of a criteria
 expression; what that text means for a flow; and a reader that recovers the expression.
 */
module Criteria {
  import opened Wrappers
  import opened Sequences
  import opened Text
  import opened AddressRange

  // ----- addresses

  datatype Family = V4 | V6 {
    function Bits(): nat {
      match this
      case V4 => 32
      case V6 => 128
    }
  }

  /** An address; an IPv6 address may name a scope. */
  datatype Address = Address(family: Family, value: nat, scope: Option<string>) {
    /** The order compares the numbers only, equality the scopes too: nothing is at most itself in another scope. */
    predicate AtMost(a: Address) {
      family == a.family && (value < a.value || this == a)
    }
  }

  /** A network: the addresses of one family inside one block. */
  datatype Net = Net(family: Family, block: Block) {
    predicate Contains(a: Address) {
      a.family == family && block.Contains(a.value)
    }

    predicate Canonical() {
      block.Aligned() && block.hostBits <= family.Bits() && block.Limit() <= Pow2(family.Bits())
    }
  }

  /** The address library: reading an address, reading a network, printing a network. */
  datatype IpText = IpText(
    parseAddress: string -> Option<Address>,
    parseNetwork: string -> Option<Net>,
    showNetwork: Net -> string)

  /** Text that ends where an unquoted value ends in an expression. */
  predicate Bare(s: string) {
    ' ' !in s && ')' !in s
  }

  ghost predicate Lawful(ip: IpText) {
    && (forall s :: ip.parseAddress(s).Some? ==>
          ip.parseAddress(s).value.value < Pow2(ip.parseAddress(s).value.family.Bits()))
    && (forall n: Net :: n.Canonical() ==>
          && '-' !in ip.showNetwork(n)
          && Bare(ip.showNetwork(n))
          && ip.parseNetwork(ip.showNetwork(n)) == Some(n))
  }

  // ----- sources

  /** The two ends of `first-last`, or None where the address library refuses the text. */
  function ParseRange(ip: IpText, s: string): Option<(Address, Address)>
    requires '-' in s
  {
    var i := IndexOf(s, '-');
    var first :- ip.parseAddress(Strip(IsSpace, s[..i]));
    var last :- ip.parseAddress(Strip(IsSpace, s[i + 1..]));
    if first.AtMost(last) then Some((first, last)) else None
  }

  predicate ValidSource(ip: IpText, s: string) {
    if '-' in s then ParseRange(ip, s).Some? else ip.parseNetwork(s).Some?
  }

  /** The addresses a source entry denotes. */
  predicate SourceContains(ip: IpText, s: string, a: Address)
    requires ValidSource(ip, s)
  {
    if '-' in s then
      var r := ParseRange(ip, s).value;
      a.family == r.0.family && r.0.value <= a.value <= r.1.value
    else
      ip.parseNetwork(s).value.Contains(a)
  }

  /** What a range says: the ends stand around the first dash, are of one family and in order. */
  lemma RangeMeans(ip: IpText, first: string, last: string, a: Address)
    requires '-' !in first
    ensures var s := first + "-" + last;
      var x, y := ip.parseAddress(Strip(IsSpace, first)), ip.parseAddress(Strip(IsSpace, last));
      && '-' in s
      && (ValidSource(ip, s) <==>
        && x.Some? && y.Some? && x.value.family == y.value.family
        && (x.value.value < y.value.value || x.value == y.value))
      && (ValidSource(ip, s) ==>
        (SourceContains(ip, s, a) <==>
          a.family == x.value.family && x.value.value <= a.value <= y.value.value))
  {
    var s := first + "-" + last;
    IndexOfConcat(first, '-', last);
    assert s == first + ['-'] + last;
    assert s[..|first|] == first && s[|first| + 1..] == last;
  }

  function ShowBlocks(ip: IpText, family: Family, blocks: seq<Block>): (r: seq<string>)
    ensures |r| == |blocks|
    ensures forall i :: 0 <= i < |blocks| ==> r[i] == ip.showNetwork(Net(family, blocks[i]))
  {
    seq(|blocks|, i requires 0 <= i < |blocks| => ip.showNetwork(Net(family, blocks[i])))
  }

  /** One source entry as values a criteria can match. */
  function ExpandEntry(ip: IpText, s: string): Option<seq<string>> {
    if '-' in s then
      var r :- ParseRange(ip, s);
      Some(ShowBlocks(ip, r.0.family, Summarize(r.0.value, r.1.value, r.0.family.Bits())))
    else
      Some([s])
  }

  function ExpandedSource(ip: IpText, values: seq<string>): Option<seq<string>> {
    if values == [] then
      Some([])
    else
      var init :- ExpandedSource(ip, values[..|values| - 1]);
      var last :- ExpandEntry(ip, values[|values| - 1]);
      Some(init + last)
  }

  method ExpandSource(ip: IpText, values: seq<string>) returns (r: Option<seq<string>>)
    ensures r == ExpandedSource(ip, values)
  {
    var expanded: seq<string> := [];
    for i := 0 to |values|
      invariant ExpandedSource(ip, values[..i]) == Some(expanded)
    {
      assert values[..i + 1][..i] == values[..i];
      var blocks := ExpandEntry(ip, values[i]);
      if blocks.None? {
        ExpandedSourceFails(ip, values, i + 1);
        return None;
      }
      expanded := expanded + blocks.value;
    }
    assert values[..|values|] == values;
    return Some(expanded);
  }

  /** An entry the address library refuses fails the whole expansion. */
  lemma {:induction false} ExpandedSourceFails(ip: IpText, values: seq<string>, n: nat)
    requires n <= |values| && ExpandedSource(ip, values[..n]).None?
    ensures ExpandedSource(ip, values).None?
  {
    if n == |values| {
      assert values[..n] == values;
    } else {
      assert values[..|values| - 1][..n] == values[..n];
      ExpandedSourceFails(ip, values[..|values| - 1], n);
    }
  }

  /** Some entry of the list denotes the address. */
  ghost predicate AnySource(ip: IpText, values: seq<string>, a: Address) {
    exists s :: s in values && ValidSource(ip, s) && SourceContains(ip, s, a)
  }

  /** Every source that is no range ends where an unquoted value ends. */
  predicate BareSources(source: seq<string>) {
    forall s :: s in source ==> Bare(s) || '-' in s
  }

  lemma ShownBlocksParse(ip: IpText, family: Family, blocks: seq<Block>)
    requires Lawful(ip)
    requires forall b :: b in blocks ==> Net(family, b).Canonical()
    ensures forall i :: 0 <= i < |blocks| ==>
        ip.parseNetwork(ShowBlocks(ip, family, blocks)[i]) == Some(Net(family, blocks[i]))
    ensures forall t :: t in ShowBlocks(ip, family, blocks) ==> ip.parseNetwork(t).Some? && '-' !in t && Bare(t)
  {
  }

  /** Printed blocks denote the addresses the blocks hold. */
  lemma ShownBlocksCover(ip: IpText, family: Family, blocks: seq<Block>, a: Address)
    requires Lawful(ip)
    requires forall b :: b in blocks ==> Net(family, b).Canonical()
    ensures AnySource(ip, ShowBlocks(ip, family, blocks), a) <==> a.family == family && Covers(blocks, a.value)
  {
    var shown := ShowBlocks(ip, family, blocks);
    ShownBlocksParse(ip, family, blocks);
    if a.family == family && Covers(blocks, a.value) {
      var b :| b in blocks && b.Contains(a.value);
      var i :| 0 <= i < |blocks| && blocks[i] == b;
      assert shown[i] in shown && SourceContains(ip, shown[i], a);
    }
    if AnySource(ip, shown, a) {
      var t :| t in shown && ValidSource(ip, t) && SourceContains(ip, t, a);
      var i :| 0 <= i < |shown| && shown[i] == t;
      assert blocks[i] in blocks && blocks[i].Contains(a.value);
    }
  }

  /** A valid entry expands into network texts that denote exactly the same addresses. */
  lemma ExpandEntryPreserves(ip: IpText, s: string)
    requires Lawful(ip) && ValidSource(ip, s)
    ensures ExpandEntry(ip, s).Some? && ExpandEntry(ip, s).value != []
    ensures forall t :: t in ExpandEntry(ip, s).value ==> ip.parseNetwork(t).Some? && '-' !in t
    ensures (forall t :: t in ExpandEntry(ip, s).value ==> Bare(t)) <==> Bare(s) || '-' in s
    ensures forall a: Address :: AnySource(ip, ExpandEntry(ip, s).value, a) <==> SourceContains(ip, s, a)
  {
    if '-' in s {
      var ends := ParseRange(ip, s).value;
      var family, first, last := ends.0.family, ends.0.value, ends.1.value;
      var blocks := Summarize(first, last, family.Bits());
      SummarizeIsExact(first, last, family.Bits());
      ShownBlocksParse(ip, family, blocks);
      forall a: Address ensures AnySource(ip, ExpandEntry(ip, s).value, a) <==> SourceContains(ip, s, a) {
        ShownBlocksCover(ip, family, blocks, a);
      }
    } else {
      assert s in ExpandEntry(ip, s).value;
    }
  }

  lemma BareConcat(a: seq<string>, b: seq<string>)
    ensures (forall t :: t in a + b ==> Bare(t)) <==> (forall t :: t in a ==> Bare(t)) && forall t :: t in b ==> Bare(t)
  {
    assert forall t :: t in a + b <==> t in a || t in b;
  }

  /** Expanding a list of valid entries keeps the addresses it denotes, and never empties it. */
  lemma {:induction false} ExpandSourcePreserves(ip: IpText, values: seq<string>)
    requires Lawful(ip)
    requires forall s :: s in values ==> ValidSource(ip, s)
    ensures ExpandedSource(ip, values).Some?
    ensures ExpandedSource(ip, values).value == [] <==> values == []
    ensures forall t :: t in ExpandedSource(ip, values).value ==> ip.parseNetwork(t).Some? && '-' !in t
    ensures (forall t :: t in ExpandedSource(ip, values).value ==> Bare(t)) <==> BareSources(values)
    ensures forall a: Address :: AnySource(ip, ExpandedSource(ip, values).value, a) <==> AnySource(ip, values, a)
  {
    if values != [] {
      var init, last := values[..|values| - 1], values[|values| - 1];
      assert values == init + [last];
      ExpandSourcePreserves(ip, init);
      ExpandEntryPreserves(ip, last);
      var e, l := ExpandedSource(ip, init).value, ExpandEntry(ip, last).value;
      BareConcat(e, l);
      assert BareSources(values) <==> BareSources(init) && BareSources([last]);
      forall a: Address ensures AnySource(ip, e + l, a) <==> AnySource(ip, values, a) {
        assert AnySource(ip, e + l, a) <==> AnySource(ip, e, a) || AnySource(ip, l, a);
        assert AnySource(ip, values, a) <==> AnySource(ip, init, a) || SourceContains(ip, last, a);
      }
    }
  }

  // ----- application groups

  datatype Kind = App | AppCategory | Proto | ProtoCategory

  const KINDS: seq<Kind> := [App, AppCategory, Proto, ProtoCategory]

  function KindName(k: Kind): string {
    match k
    case App => "app"
    case AppCategory => "app_category"
    case Proto => "proto"
    case ProtoCategory => "proto_category"
  }

  datatype Members = Members(app: seq<string>, appCategory: seq<string>, proto: seq<string>, protoCategory: seq<string>)
  {
    function Of(k: Kind): seq<string> {
      match k
      case App => app
      case AppCategory => appCategory
      case Proto => proto
      case ProtoCategory => protoCategory
    }

    predicate Empty() {
      app == [] && appCategory == [] && proto == [] && protoCategory == []
    }
  }

  type Groups = map<string, Members>

  datatype Term = LocalIp(net: string) | Member(kind: Kind, value: string)

  function Prefix(k: Kind): string {
    KindName(k) + " == '"
  }

  const LOCAL_IP := "local_ip == "
  const OR := " || "
  const AND := " && "

  function PrintTerm(t: Term): string {
    match t
    case LocalIp(net) => LOCAL_IP + net
    case Member(k, v) => Prefix(k) + v + ['\'']
  }

  /** A conjunction of blocks, each the disjunction of its terms. */
  datatype Expr = MatchEverything | Blocks(blocks: seq<seq<Term>>)

  function PrintTerms(ts: seq<Term>): (r: seq<string>)
    ensures |r| == |ts|
    ensures forall i :: 0 <= i < |ts| ==> r[i] == PrintTerm(ts[i])
  {
    seq(|ts|, i requires 0 <= i < |ts| => PrintTerm(ts[i]))
  }

  function PrintBlock(ts: seq<Term>): string {
    "(" + Join(OR, PrintTerms(ts)) + ")"
  }

  /** Protocol and category names are matched lower-cased; application tags as they are. */
  function Normal(k: Kind, value: string): string {
    if k == App then value else Lower(value)
  }

  function TermsOfValues(k: Kind, values: seq<string>): (r: seq<Term>)
    ensures |r| == |values|
    ensures forall i :: 0 <= i < |values| ==> r[i] == Member(k, Normal(k, values[i]))
  {
    seq(|values|, i requires 0 <= i < |values| => Member(k, Normal(k, values[i])))
  }

  /** Terms of one kind over the groups that exist, in order. */
  function TermsOfKind(groups: Groups, names: seq<string>, k: Kind): seq<Term> {
    if names == [] then []
    else
      var init, name := names[..|names| - 1], names[|names| - 1];
      TermsOfKind(groups, init, k) + if name in groups then TermsOfValues(k, groups[name].Of(k)) else []
  }

  function AllTerms(groups: Groups, names: seq<string>, kinds: seq<Kind>): seq<Term> {
    if kinds == [] then []
    else AllTerms(groups, names, kinds[..|kinds| - 1]) + TermsOfKind(groups, names, kinds[|kinds| - 1])
  }

  function GroupTerms(groups: Groups, names: seq<string>): seq<Term> {
    Dedup(AllTerms(groups, names, KINDS))
  }

  function ExpandedGroups(groups: Groups, names: seq<string>): string {
    var terms := GroupTerms(groups, names);
    if terms == [] then "" else PrintBlock(terms)
  }

  lemma PrefixesApart(k: Kind, j: Kind) returns (i: nat)
    requires k != j
    ensures i < |Prefix(k)| && i < |Prefix(j)| && Prefix(k)[i] != Prefix(j)[i]
  {
    var m, n := |KindName(k)|, |KindName(j)|;
    i := if KindName(k)[0] != KindName(j)[0] then 0 else if m < n then m else n;
  }

  /** The text of a term starts with its own prefix and no other. */
  lemma OwnPrefix(k: Kind, rest: string)
    ensures forall j :: Prefix(j) <= Prefix(k) + rest ==> j == k
    ensures !(LOCAL_IP <= Prefix(k) + rest)
    ensures forall j :: !(Prefix(j) <= LOCAL_IP + rest)
  {
    forall j | j != k ensures !(Prefix(j) <= Prefix(k) + rest) {
      var i := PrefixesApart(k, j);
      assert (Prefix(k) + rest)[i] == Prefix(k)[i];
    }
    forall j ensures Prefix(j)[0] in {'a', 'p'} {
      assert Prefix(j)[0] == KindName(j)[0];
    }
    assert LOCAL_IP[0] == 'l';
    assert (LOCAL_IP + rest)[0] == 'l' && (Prefix(k) + rest)[0] == Prefix(k)[0];
  }

  lemma PrintMemberInjective(k: Kind, v: string, j: Kind, w: string)
    requires PrintTerm(Member(k, v)) == PrintTerm(Member(j, w))
    ensures k == j && v == w
  {
    var a, b := v + ['\''], w + ['\''];
    Assoc(Prefix(k), v, ['\'']);
    Assoc(Prefix(j), w, ['\'']);
    OwnPrefix(k, a);
    assert Prefix(j) <= Prefix(k) + a;
    assert a == (Prefix(k) + a)[|Prefix(k)|..] == (Prefix(k) + b)[|Prefix(k)|..] == b;
    assert a[..|a| - 1] == v && b[..|b| - 1] == w;
  }

  lemma MemberIsNotLocalIp(k: Kind, v: string, net: string)
    ensures PrintTerm(Member(k, v)) != PrintTerm(LocalIp(net))
  {
    Assoc(Prefix(k), v, ['\'']);
    OwnPrefix(k, v + ['\'']);
    assert LOCAL_IP <= LOCAL_IP + net;
  }

  /** Different terms have different texts, so comparing texts is comparing terms. */
  lemma PrintTermInjective(t: Term, u: Term)
    requires PrintTerm(t) == PrintTerm(u)
    ensures t == u
  {
    if t.Member? && u.Member? {
      PrintMemberInjective(t.kind, t.value, u.kind, u.value);
    } else if t.LocalIp? && u.LocalIp? {
      assert t.net == (LOCAL_IP + t.net)[|LOCAL_IP|..] == (LOCAL_IP + u.net)[|LOCAL_IP|..] == u.net;
    } else {
      var m, l := if t.Member? then t else u, if t.Member? then u else t;
      MemberIsNotLocalIp(m.kind, m.value, l.net);
    }
  }

  lemma TextSeenMeansEarlier(ts: seq<Term>, t: Term)
    ensures PrintTerm(t) in PrintTerms(ts) <==> t in ts
  {
    if t in ts {
      var i :| 0 <= i < |ts| && ts[i] == t;
      assert PrintTerms(ts)[i] == PrintTerm(t);
    }
    if PrintTerm(t) in PrintTerms(ts) {
      var i :| 0 <= i < |ts| && PrintTerms(ts)[i] == PrintTerm(t);
      PrintTermInjective(t, ts[i]);
    }
  }

  lemma PrintTermsSnoc(ts: seq<Term>, t: Term)
    ensures PrintTerms(ts + [t]) == PrintTerms(ts) + [PrintTerm(t)]
  {
  }

  /** Adding one term, on the texts: it is new exactly when its text has not been seen. */
  lemma AddTerm(all: seq<Term>, t: Term)
    ensures PrintTerm(t) in PrintTerms(Dedup(all)) <==> t in all
    ensures PrintTerms(Dedup(all + [t])) ==
              if t in all then PrintTerms(Dedup(all)) else PrintTerms(Dedup(all)) + [PrintTerm(t)]
  {
    TextSeenMeansEarlier(Dedup(all), t);
    DedupSnoc(all, t);
    PrintTermsSnoc(Dedup(all), t);
  }

  /** The loop state of expand_appgroups: the texts kept so far and the set that filters repeats. */
  ghost predicate Collected(all: seq<Term>, terms: seq<string>, seen: set<string>) {
    terms == PrintTerms(Dedup(all)) && forall s :: s in seen <==> s in terms
  }

  lemma CollectedStep(all: seq<Term>, t: Term, terms: seq<string>, seen: set<string>)
    requires Collected(all, terms, seen)
    ensures if PrintTerm(t) in seen then Collected(all + [t], terms, seen)
            else Collected(all + [t], terms + [PrintTerm(t)], seen + {PrintTerm(t)})
  {
    AddTerm(all, t);
  }

  lemma TermsOfValuesSnoc(all: seq<Term>, k: Kind, values: seq<string>, n: nat)
    requires n < |values|
    ensures all + TermsOfValues(k, values[..n + 1])
         == all + TermsOfValues(k, values[..n]) + [Member(k, Normal(k, values[n]))]
  {
  }

  method AddValues(k: Kind, values: seq<string>, terms0: seq<string>, seen0: set<string>, ghost all: seq<Term>)
    returns (terms: seq<string>, seen: set<string>)
    requires Collected(all, terms0, seen0)
    ensures Collected(all + TermsOfValues(k, values), terms, seen)
  {
    terms, seen := terms0, seen0;
    assert all + TermsOfValues(k, values[..0]) == all;
    for v := 0 to |values|
      invariant Collected(all + TermsOfValues(k, values[..v]), terms, seen)
    {
      var value := if k == App then values[v] else Lower(values[v]);
      var term := PrintTerm(Member(k, value));
      CollectedStep(all + TermsOfValues(k, values[..v]), Member(k, value), terms, seen);
      TermsOfValuesSnoc(all, k, values, v);
      if term !in seen {
        seen := seen + {term};
        terms := terms + [term];
      }
    }
    assert values[..|values|] == values;
  }

  lemma TermsOfKindSnoc(all: seq<Term>, groups: Groups, names: seq<string>, k: Kind, n: nat)
    requires n < |names|
    ensures all + TermsOfKind(groups, names[..n + 1], k) == all + TermsOfKind(groups, names[..n], k) +
              if names[n] in groups then TermsOfValues(k, groups[names[n]].Of(k)) else []
  {
    assert names[..n + 1][..n] == names[..n];
  }

  method AddKind(groups: Groups, names: seq<string>, k: Kind, terms0: seq<string>, seen0: set<string>,
    ghost all: seq<Term>)
    returns (terms: seq<string>, seen: set<string>)
    requires Collected(all, terms0, seen0)
    ensures Collected(all + TermsOfKind(groups, names, k), terms, seen)
  {
    terms, seen := terms0, seen0;
    assert all + TermsOfKind(groups, names[..0], k) == all;
    for n := 0 to |names|
      invariant Collected(all + TermsOfKind(groups, names[..n], k), terms, seen)
    {
      TermsOfKindSnoc(all, groups, names, k, n);
      if names[n] in groups {
        terms, seen := AddValues(k, groups[names[n]].Of(k), terms, seen, all + TermsOfKind(groups, names[..n], k));
      } else {
        assert all + TermsOfKind(groups, names[..n], k) + [] == all + TermsOfKind(groups, names[..n], k);
      }
    }
    assert names[..|names|] == names;
  }

  method ExpandAppgroups(groups: Groups, names: seq<string>) returns (text: string)
    ensures text == ExpandedGroups(groups, names)
  {
    var terms: seq<string> := [];
    var seen: set<string> := {};
    for k := 0 to |KINDS|
      invariant Collected(AllTerms(groups, names, KINDS[..k]), terms, seen)
    {
      assert KINDS[..k + 1][..k] == KINDS[..k];
      terms, seen := AddKind(groups, names, KINDS[k], terms, seen, AllTerms(groups, names, KINDS[..k]));
    }
    assert KINDS[..|KINDS|] == KINDS;
    text := if terms == [] then "" else "(" + Join(OR, terms) + ")";
  }

  // ----- the criteria of a rule

  datatype Rule = Rule(appgroups: seq<string>, source: seq<string>, matchAll: bool)

  function SourceTexts(nets: seq<string>): (r: seq<string>)
    ensures |r| == |nets|
    ensures forall i :: 0 <= i < |nets| ==> r[i] == LOCAL_IP + nets[i]
  {
    seq(|nets|, i requires 0 <= i < |nets| => LOCAL_IP + nets[i])
  }

  /** None where the address library refuses a source; the empty text means "do not emit". */
  function BuildRuleCriteria(ip: IpText, groups: Groups, rule: Rule): Option<string> {
    var groupText := ExpandedGroups(groups, rule.appgroups);
    var nets :- ExpandedSource(ip, rule.source);
    var sources := SourceTexts(nets);
    Some(
      if groupText == "" then
        if sources == [] then
          if rule.matchAll then "*" else ""
        else
          "(" + Join(OR, sources) + ")" + ";"
      else if sources != [] then
        "(" + Join(OR, sources) + ")" + AND + (groupText + ";")
      else
        groupText + ";")
  }

  function LocalIps(nets: seq<string>): (r: seq<Term>)
    ensures |r| == |nets|
    ensures forall i :: 0 <= i < |nets| ==> r[i] == LocalIp(nets[i])
  {
    seq(|nets|, i requires 0 <= i < |nets| => LocalIp(nets[i]))
  }

  /** The expression behind the text, for a rule that is emitted. */
  function Compile(nets: seq<string>, terms: seq<Term>, matchAll: bool): Option<Expr> {
    var sources := if nets == [] then [] else [LocalIps(nets)];
    var members := if terms == [] then [] else [terms];
    if sources + members == [] then
      if matchAll then Some(MatchEverything) else None
    else
      Some(Blocks(sources + members))
  }

  function PrintBlocks(blocks: seq<seq<Term>>): string
    requires blocks != []
  {
    PrintBlock(blocks[0]) + if |blocks| == 1 then ";" else AND + PrintBlocks(blocks[1..])
  }

  function Print(e: Expr): string
    requires e.Blocks? ==> e.blocks != []
  {
    match e
    case MatchEverything => "*"
    case Blocks(bs) => PrintBlocks(bs)
  }

  lemma PrintTwoBlocks(a: seq<Term>, b: seq<Term>)
    ensures Print(Blocks([a])) == PrintBlock(a) + ";"
    ensures Print(Blocks([a, b])) == PrintBlock(a) + AND + (PrintBlock(b) + ";")
  {
    assert [a, b][1..] == [b];
    assert PrintBlocks([b]) == PrintBlock(b) + ";";
    Assoc(PrintBlock(a), AND, PrintBlocks([b]));
  }

  lemma CriteriaIsPrinted(ip: IpText, groups: Groups, rule: Rule)
    requires ExpandedSource(ip, rule.source).Some?
    ensures var e := Compile(ExpandedSource(ip, rule.source).value, GroupTerms(groups, rule.appgroups), rule.matchAll);
      BuildRuleCriteria(ip, groups, rule) == Some(if e.Some? then Print(e.value) else "")
  {
    var nets, terms := ExpandedSource(ip, rule.source).value, GroupTerms(groups, rule.appgroups);
    var sources := LocalIps(nets);
    assert PrintTerms(sources) == SourceTexts(nets);
    PrintTwoBlocks(sources, terms);
    PrintTwoBlocks(terms, terms);
  }

  // ----- reading the text back

  // The syntax of the engine, spelled out apart from the texts that the compiler puts together.

  const LOCAL := "local_ip == "
  const EITHER := " || "
  const BOTH := " && "

  /** What stands before a value of a kind. */
  function Opening(k: Kind): string {
    match k
    case App => "app == '"
    case AppCategory => "app_category == '"
    case Proto => "proto == '"
    case ProtoCategory => "proto_category == '"
  }

  /** Split before the first character that ends an unquoted value. */
  function BareLength(s: string): (n: nat)
    ensures n <= |s|
  {
    if s == "" || s[0] in {' ', ')'} then 0 else 1 + BareLength(s[1..])
  }

  /** The value between a prefix that ends with the opening quote and the closing quote, and what follows. */
  function ReadQuoted(prefix: string, s: string): (r: Option<(string, string)>)
    ensures r.Some? ==> |r.value.1| < |s|
  {
    if prefix <= s && '\'' in s[|prefix|..] then
      var rest := s[|prefix|..];
      var i := IndexOf(rest, '\'');
      Some((rest[..i], rest[i + 1..]))
    else
      None
  }

  function ReadMember(k: Kind, s: string): (r: Option<(Term, string)>)
    ensures r.Some? ==> |r.value.1| < |s|
  {
    var quoted :- ReadQuoted(Opening(k), s);
    Some((Member(k, quoted.0), quoted.1))
  }

  function ReadTerm(s: string): (r: Option<(Term, string)>)
    ensures r.Some? ==> |r.value.1| < |s|
  {
    if LOCAL <= s then
      var rest := s[|LOCAL|..];
      var n := BareLength(rest);
      Some((LocalIp(rest[..n]), rest[n..]))
    else if ReadMember(App, s).Some? then ReadMember(App, s)
    else if ReadMember(AppCategory, s).Some? then ReadMember(AppCategory, s)
    else if ReadMember(Proto, s).Some? then ReadMember(Proto, s)
    else ReadMember(ProtoCategory, s)
  }

  /** The terms of a block, from just after its opening parenthesis. */
  function ReadTerms(s: string): (r: Option<(seq<Term>, string)>)
    ensures r.Some? ==> |r.value.1| < |s|
    decreases |s|
  {
    var t :- ReadTerm(s);
    if t.1 != "" && t.1[0] == ')' then
      Some(([t.0], t.1[1..]))
    else if EITHER <= t.1 then
      var more :- ReadTerms(t.1[|EITHER|..]);
      Some(([t.0] + more.0, more.1))
    else
      None
  }

  function ReadBlocks(s: string): Option<seq<seq<Term>>>
    decreases |s|
  {
    if s != "" && s[0] == '(' then
      var block :- ReadTerms(s[1..]);
      if block.1 == [';'] then
        Some([block.0])
      else if BOTH <= block.1 then
        var more :- ReadBlocks(block.1[|BOTH|..]);
        Some([block.0] + more)
      else
        None
    else
      None
  }

  function Read(s: string): Option<Expr> {
    if s == "*" then Some(MatchEverything)
    else
      var blocks :- ReadBlocks(s);
      Some(Blocks(blocks))
  }

  /** Networks need no quotes; members may hold anything but the quote that ends them. */
  predicate Readable(t: Term) {
    match t
    case LocalIp(net) => Bare(net)
    case Member(_, v) => '\'' !in v
  }

  predicate ReadableBlock(ts: seq<Term>) {
    ts != [] && forall t :: t in ts ==> Readable(t)
  }

  lemma {:induction false} BareLengthOf(a: string, rest: string)
    requires forall i :: 0 <= i < |a| ==> a[i] !in {' ', ')'}
    requires rest != "" && rest[0] in {' ', ')'}
    ensures BareLength(a + rest) == |a|
  {
    if a == "" {
      assert a + rest == rest;
    } else {
      assert (a + rest)[1..] == a[1..] + rest;
      BareLengthOf(a[1..], rest);
    }
  }

  lemma ReadQuotedBack(prefix: string, v: string, rest: string)
    requires '\'' !in v
    ensures ReadQuoted(prefix, prefix + v + ['\''] + rest) == Some((v, rest))
  {
    var s := prefix + v + ['\''] + rest;
    var after := v + ['\''] + rest;
    assert s == prefix + after;
    assert s[|prefix|..] == after;
    IndexOfConcat(v, '\'', rest);
    assert after[..|v|] == v && after[|v| + 1..] == rest;
  }

  lemma ReadLocalIpBack(net: string, rest: string)
    requires Bare(net)
    requires rest != "" && rest[0] in {' ', ')'}
    ensures ReadTerm(LOCAL_IP + net + rest) == Some((LocalIp(net), rest))
  {
    var s := LOCAL_IP + net + rest;
    var after := net + rest;
    assert s == LOCAL_IP + after && s[|LOCAL_IP|..] == after;
    forall i | 0 <= i < |net| ensures net[i] !in {' ', ')'} {
      assert net[i] in net;
    }
    BareLengthOf(net, rest);
    assert after[..|net|] == net && after[|net|..] == rest;
  }

  /** The compiler writes what the engine reads. */
  lemma PrefixIsOpening(k: Kind)
    ensures Prefix(k) == Opening(k)
  {
  }

  /** A text that starts like a term of one kind is no term of any other. */
  lemma OnlyOwnKind(k: Kind, s: string)
    requires Prefix(k) <= s
    ensures !(LOCAL_IP <= s)
    ensures forall j :: j != k ==> ReadMember(j, s).None?
  {
    var rest := s[|Prefix(k)|..];
    assert s == Prefix(k) + rest;
    OwnPrefix(k, rest);
    forall j {
      PrefixIsOpening(j);
    }
  }

  lemma OnlyKindRead(k: Kind, s: string)
    requires !(LOCAL_IP <= s)
    requires forall j :: j != k ==> ReadMember(j, s).None?
    requires ReadMember(k, s).Some?
    ensures ReadTerm(s) == ReadMember(k, s)
  {
    match k
    case App =>
    case AppCategory =>
      assert ReadMember(App, s).None?;
    case Proto =>
      assert ReadMember(App, s).None? && ReadMember(AppCategory, s).None?;
    case ProtoCategory =>
      assert ReadMember(App, s).None? && ReadMember(AppCategory, s).None? && ReadMember(Proto, s).None?;
  }

  lemma ReadMemberBack(k: Kind, v: string, rest: string)
    requires '\'' !in v
    ensures Prefix(k) <= PrintTerm(Member(k, v)) + rest
    ensures ReadMember(k, PrintTerm(Member(k, v)) + rest) == Some((Member(k, v), rest))
  {
    var prefix := Prefix(k);
    PrefixIsOpening(k);
    ReadQuotedBack(prefix, v, rest);
    StartsWith(prefix, v, ['\''], rest);
  }

  lemma StartsWith(a: string, b: string, c: string, d: string)
    ensures a <= a + b + c + d
  {
  }

  lemma ReadMemberTermBack(k: Kind, v: string, rest: string)
    requires '\'' !in v
    ensures ReadTerm(PrintTerm(Member(k, v)) + rest) == Some((Member(k, v), rest))
  {
    var s := PrintTerm(Member(k, v)) + rest;
    ReadMemberBack(k, v, rest);
    OnlyOwnKind(k, s);
    OnlyKindRead(k, s);
  }

  lemma ReadTermBack(t: Term, rest: string)
    requires Readable(t)
    requires rest != "" && rest[0] in {' ', ')'}
    ensures ReadTerm(PrintTerm(t) + rest) == Some((t, rest))
  {
    match t
    case LocalIp(net) =>
      ReadLocalIpBack(net, rest);
    case Member(k, v) =>
      ReadMemberTermBack(k, v, rest);
  }

  /** One step of ReadTerms: the last term of a block, or a term and the rest of the block. */
  lemma ReadTermsStep(s: string, t: Term, tail: string)
    ensures ReadTerm(s) == Some((t, [')'] + tail)) ==> ReadTerms(s) == Some(([t], tail))
    ensures ReadTerm(s) == Some((t, OR + tail)) && ReadTerms(tail).Some? ==>
              ReadTerms(s) == Some(([t] + ReadTerms(tail).value.0, ReadTerms(tail).value.1))
  {
    assert ([')'] + tail)[1..] == tail;
    assert (OR + tail)[|OR|..] == tail;
    StartsWithSep(tail);
  }

  lemma ReadBlocksStep(ts: seq<Term>, block: string, tail: string)
    ensures ReadTerms(block) == Some((ts, [';'])) ==> ReadBlocks(['('] + block) == Some([ts])
    ensures ReadTerms(block) == Some((ts, AND + tail)) && ReadBlocks(tail).Some? ==>
              ReadBlocks(['('] + block) == Some([ts] + ReadBlocks(tail).value)
  {
    assert (['('] + block)[1..] == block;
    assert (AND + tail)[|AND|..] == tail;
    StartsWithSep(tail);
  }

  /** The terms of a block as text, built from the front. */
  function PrintTail(ts: seq<Term>): string
    requires ts != []
  {
    if |ts| == 1 then PrintTerm(ts[0]) else PrintTerm(ts[0]) + (OR + PrintTail(ts[1..]))
  }

  lemma {:induction false} PrintTailIsJoin(ts: seq<Term>)
    requires ts != []
    ensures Join(OR, PrintTerms(ts)) == PrintTail(ts)
  {
    if |ts| > 1 {
      assert PrintTerms(ts)[1..] == PrintTerms(ts[1..]);
      PrintTailIsJoin(ts[1..]);
    }
  }

  lemma PrintTailSplit(ts: seq<Term>, close: string)
    requires ts != []
    ensures PrintTail(ts) + close == PrintTerm(ts[0]) + if |ts| == 1 then close else OR + (PrintTail(ts[1..]) + close)
  {
    if |ts| > 1 {
      Assoc(PrintTerm(ts[0]), OR + PrintTail(ts[1..]), close);
      Assoc(OR, PrintTail(ts[1..]), close);
    }
  }

  lemma StartsWithSep(tail: string)
    ensures (OR + tail)[0] == ' ' && (AND + tail)[0] == ' '
  {
    assert OR[0] == ' ' && AND[0] == ' ';
  }

  lemma ReadFirstTerm(t: Term, more: seq<Term>, close: string)
    requires Readable(t) && more != []
    requires ReadTerms(PrintTail(more) + close).Some?
    ensures var rest := ReadTerms(PrintTail(more) + close).value;
      ReadTerms(PrintTail([t] + more) + close) == Some(([t] + rest.0, rest.1))
  {
    var tail := PrintTail(more) + close;
    PrintTailSplit([t] + more, close);
    assert ([t] + more)[1..] == more;
    StartsWithSep(tail);
    ReadTermBack(t, OR + tail);
    ReadTermsStep(PrintTerm(t) + (OR + tail), t, tail);
  }

  lemma {:induction false} ReadTermsBack(ts: seq<Term>, rest: string)
    requires ReadableBlock(ts)
    ensures ReadTerms(PrintTail(ts) + ([')'] + rest)) == Some((ts, rest))
  {
    var t, close := ts[0], [')'] + rest;
    if |ts| == 1 {
      assert ts == [t];
      ReadTermBack(t, close);
      ReadTermsStep(PrintTerm(t) + close, t, rest);
    } else {
      assert ts == [t] + ts[1..];
      ReadTermsBack(ts[1..], rest);
      ReadFirstTerm(t, ts[1..], close);
    }
  }

  function AfterBlock(blocks: seq<seq<Term>>): string
    requires blocks != []
  {
    if |blocks| == 1 then ";" else AND + PrintBlocks(blocks[1..])
  }

  /** The text of a conjunction, split after its first block. */
  lemma PrintBlocksSplit(blocks: seq<seq<Term>>)
    requires blocks != [] && blocks[0] != []
    ensures PrintBlocks(blocks) == ['('] + (PrintTail(blocks[0]) + ([')'] + AfterBlock(blocks)))
  {
    PrintTailIsJoin(blocks[0]);
    Parenthesized(PrintTail(blocks[0]), AfterBlock(blocks));
  }

  lemma Parenthesized(a: string, z: string)
    ensures "(" + a + ")" + z == ['('] + (a + ([')'] + z))
  {
  }

  lemma ReadLastBlock(ts: seq<Term>)
    requires ReadableBlock(ts)
    ensures ReadBlocks(PrintBlocks([ts])) == Some([ts])
  {
    PrintBlocksSplit([ts]);
    ReadTermsBack(ts, ";");
    ReadBlocksStep(ts, PrintTail(ts) + ([')'] + ";"), "");
  }

  lemma ReadFirstBlock(ts: seq<Term>, more: seq<seq<Term>>)
    requires ReadableBlock(ts) && more != []
    requires ReadBlocks(PrintBlocks(more)) == Some(more)
    ensures ReadBlocks(PrintBlocks([ts] + more)) == Some([ts] + more)
  {
    var tail := PrintBlocks(more);
    PrintBlocksSplit([ts] + more);
    assert ([ts] + more)[1..] == more;
    ReadTermsBack(ts, AND + tail);
    ReadBlocksStep(ts, PrintTail(ts) + ([')'] + (AND + tail)), tail);
  }

  lemma {:induction false} ReadBlocksBack(blocks: seq<seq<Term>>)
    requires blocks != []
    requires forall ts :: ts in blocks ==> ReadableBlock(ts)
    ensures ReadBlocks(PrintBlocks(blocks)) == Some(blocks)
  {
    var ts := blocks[0];
    assert ReadableBlock(ts) by {
      assert ts in blocks;
    }
    assert blocks == [ts] + blocks[1..];
    if |blocks| == 1 {
      assert blocks == [ts];
      ReadLastBlock(ts);
    } else {
      ReadBlocksBack(blocks[1..]);
      ReadFirstBlock(ts, blocks[1..]);
    }
  }

  lemma {:induction false} BareLengthStops(s: string)
    ensures Bare(s[..BareLength(s)])
  {
    if s != "" && s[0] !in {' ', ')'} {
      BareLengthStops(s[1..]);
      assert s[..BareLength(s)] == [s[0]] + s[1..][..BareLength(s[1..])];
    }
  }

  /** Whatever is read is readable: values stop at their first blank, parenthesis or quote. */
  lemma TermReadable(s: string)
    ensures ReadTerm(s).Some? ==> Readable(ReadTerm(s).value.0)
  {
    if LOCAL_IP <= s {
      BareLengthStops(s[|LOCAL_IP|..]);
    }
  }

  lemma {:induction false} TermsReadable(s: string)
    ensures ReadTerms(s).Some? ==> ReadableBlock(ReadTerms(s).value.0)
    decreases |s|
  {
    TermReadable(s);
    if ReadTerm(s).Some? && OR <= ReadTerm(s).value.1 {
      TermsReadable(ReadTerm(s).value.1[|OR|..]);
    }
  }

  lemma {:induction false} BlocksReadable(s: string)
    ensures ReadBlocks(s).Some? ==>
        ReadBlocks(s).value != [] && forall ts :: ts in ReadBlocks(s).value ==> ReadableBlock(ts)
    decreases |s|
  {
    if s != "" && s[0] == '(' {
      TermsReadable(s[1..]);
      if ReadTerms(s[1..]).Some? && AND <= ReadTerms(s[1..]).value.1 {
        BlocksReadable(ReadTerms(s[1..]).value.1[|AND|..]);
      }
    }
  }

  predicate ReadableExpr(e: Expr) {
    e.Blocks? ==> forall ts :: ts in e.blocks ==> ReadableBlock(ts)
  }

  /** A printed expression reads back as itself exactly when all its values are readable. */
  lemma ReadBackIff(e: Expr)
    requires e.Blocks? ==> e.blocks != []
    ensures Read(Print(e)) == Some(e) <==> ReadableExpr(e)
  {
    if e.Blocks? {
      assert Print(e)[0] == '(' && "*"[0] == '*';
      if ReadableExpr(e) {
        ReadBlocksBack(e.blocks);
      }
      BlocksReadable(Print(e));
    }
  }

  // ----- meaning

  /** What the engine reports of a flow: its local address and, for every kind, a value. */
  datatype Flow = Flow(local: Address, app: string, appCategory: string, proto: string, protoCategory: string) {
    function Value(k: Kind): string {
      match k
      case App => app
      case AppCategory => appCategory
      case Proto => proto
      case ProtoCategory => protoCategory
    }
  }

  predicate EvalTerm(ip: IpText, t: Term, flow: Flow) {
    match t
    case LocalIp(net) => ip.parseNetwork(net).Some? && ip.parseNetwork(net).value.Contains(flow.local)
    case Member(App, v) => flow.app == v
    case Member(AppCategory, v) => flow.appCategory == v
    case Member(Proto, v) => flow.proto == v
    case Member(ProtoCategory, v) => flow.protoCategory == v
  }

  ghost predicate EvalBlock(ip: IpText, ts: seq<Term>, flow: Flow) {
    exists t :: t in ts && EvalTerm(ip, t, flow)
  }

  ghost predicate Eval(ip: IpText, e: Expr, flow: Flow) {
    match e
    case MatchEverything => true
    case Blocks(bs) => forall ts :: ts in bs ==> EvalBlock(ip, ts, flow)
  }

  /** The engine reports protocol and category names in lower case. */
  predicate Reported(flow: Flow) {
    && Lower(flow.appCategory) == flow.appCategory
    && Lower(flow.proto) == flow.proto
    && Lower(flow.protoCategory) == flow.protoCategory
  }

  /** A stored member names the flow: an application by its tag, the rest whatever the case. */
  predicate MemberMatches(k: Kind, member: string, flow: Flow) {
    if k == App then member == flow.Value(k) else Lower(member) == Lower(flow.Value(k))
  }

  /** Some text of the list is the value, whatever the case of either. */
  ghost predicate Names(values: seq<string>, value: string) {
    exists v :: v in values && Lower(v) == Lower(value)
  }

  /** The group holds the application of the flow, or its category, its protocol or that protocol's category. */
  ghost predicate GroupMatches(m: Members, flow: Flow) {
    || flow.app in m.app
    || Names(m.appCategory, flow.appCategory)
    || Names(m.proto, flow.proto)
    || Names(m.protoCategory, flow.protoCategory)
  }

  lemma GroupMatchesByKind(m: Members, flow: Flow)
    ensures GroupMatches(m, flow) <==> exists k, v :: v in m.Of(k) && MemberMatches(k, v, flow)
  {
    if GroupMatches(m, flow) {
      if flow.app in m.app {
        assert flow.app in m.Of(App) && MemberMatches(App, flow.app, flow);
      } else if Names(m.appCategory, flow.appCategory) {
        var v :| v in m.appCategory && Lower(v) == Lower(flow.appCategory);
        assert v in m.Of(AppCategory) && MemberMatches(AppCategory, v, flow);
      } else if Names(m.proto, flow.proto) {
        var v :| v in m.proto && Lower(v) == Lower(flow.proto);
        assert v in m.Of(Proto) && MemberMatches(Proto, v, flow);
      } else {
        var v :| v in m.protoCategory && Lower(v) == Lower(flow.protoCategory);
        assert v in m.Of(ProtoCategory) && MemberMatches(ProtoCategory, v, flow);
      }
    }
  }

  ghost predicate AnyGroup(groups: Groups, names: seq<string>, flow: Flow) {
    exists name :: name in names && name in groups && GroupMatches(groups[name], flow)
  }

  /** What a rule is meant to match. */
  ghost predicate RuleMatches(ip: IpText, groups: Groups, rule: Rule, flow: Flow) {
    && (rule.source == [] || AnySource(ip, rule.source, flow.local))
    && (rule.matchAll || AnyGroup(groups, rule.appgroups, flow))
  }

  /** Match-all names no group; any other rule names existing groups, at least one, none of them empty. */
  ghost predicate WellGrouped(groups: Groups, rule: Rule) {
    if rule.matchAll then
      rule.appgroups == []
    else
      && rule.appgroups != []
      && forall name :: name in rule.appgroups ==> name in groups && !groups[name].Empty()
  }

  lemma {:induction false} TermsOfKindMember(groups: Groups, names: seq<string>, k: Kind, t: Term)
    ensures t in TermsOfKind(groups, names, k) <==>
              exists name, v :: name in names && name in groups && v in groups[name].Of(k) &&
                t == Member(k, Normal(k, v))
  {
    if names != [] {
      var init, last := names[..|names| - 1], names[|names| - 1];
      assert names == init + [last];
      TermsOfKindMember(groups, init, k, t);
      if last in groups {
        var terms := TermsOfValues(k, groups[last].Of(k));
        assert t in terms <==> exists v :: v in groups[last].Of(k) && t == Member(k, Normal(k, v)) by {
          if v :| v in groups[last].Of(k) && t == Member(k, Normal(k, v)) {
            var i :| 0 <= i < |groups[last].Of(k)| && groups[last].Of(k)[i] == v;
            assert terms[i] == t;
          }
        }
      }
    }
  }

  lemma GroupTermsMember(groups: Groups, names: seq<string>, t: Term)
    ensures t in GroupTerms(groups, names) <==>
              t.Member? && t in TermsOfKind(groups, names, t.kind)
  {
    assert KINDS[..3] == [App, AppCategory, Proto];
    assert KINDS[..3][..2] == [App, AppCategory];
    assert [App, AppCategory][..1] == [App];
    assert [App][..0] == [];
    assert AllTerms(groups, names, []) == [];
    assert AllTerms(groups, names, [App]) == TermsOfKind(groups, names, App);
    assert AllTerms(groups, names, [App, AppCategory]) ==
      TermsOfKind(groups, names, App) + TermsOfKind(groups, names, AppCategory);
    assert AllTerms(groups, names, [App, AppCategory, Proto]) ==
      TermsOfKind(groups, names, App) + TermsOfKind(groups, names, AppCategory) + TermsOfKind(groups, names, Proto);
    assert AllTerms(groups, names, KINDS) ==
       TermsOfKind(groups, names, App) + TermsOfKind(groups, names, AppCategory)
      + TermsOfKind(groups, names, Proto) + TermsOfKind(groups, names, ProtoCategory);
    forall k { TermsOfKindMember(groups, names, k, t); }
  }

  /** Merging, lower-casing and deduplicating the members keeps what the groups match. */
  lemma GroupTermsMeaning(ip: IpText, groups: Groups, names: seq<string>, flow: Flow)
    requires Reported(flow)
    ensures EvalBlock(ip, GroupTerms(groups, names), flow) <==> AnyGroup(groups, names, flow)
  {
    if AnyGroup(groups, names, flow) {
      var name :| name in names && name in groups && GroupMatches(groups[name], flow);
      GroupMatchesByKind(groups[name], flow);
      var k, v :| v in groups[name].Of(k) && MemberMatches(k, v, flow);
      var t := Member(k, Normal(k, v));
      TermsOfKindMember(groups, names, k, t);
      GroupTermsMember(groups, names, t);
      assert EvalTerm(ip, t, flow);
    }
    if EvalBlock(ip, GroupTerms(groups, names), flow) {
      var t :| t in GroupTerms(groups, names) && EvalTerm(ip, t, flow);
      GroupTermsMember(groups, names, t);
      TermsOfKindMember(groups, names, t.kind, t);
      var name, v :| name in names && name in groups && v in groups[name].Of(t.kind) &&
        t == Member(t.kind, Normal(t.kind, v));
      assert MemberMatches(t.kind, v, flow);
      GroupMatchesByKind(groups[name], flow);
    }
  }

  lemma WellGroupedHasTerms(groups: Groups, rule: Rule)
    requires WellGrouped(groups, rule)
    ensures GroupTerms(groups, rule.appgroups) == [] <==> rule.matchAll
  {
    if rule.matchAll {
      if GroupTerms(groups, []) != [] {
        var t := GroupTerms(groups, [])[0];
        GroupTermsMember(groups, [], t);
        assert false;
      }
    } else {
      var name := rule.appgroups[0];
      assert name in rule.appgroups;
      var k :| groups[name].Of(k) != [];
      var v := groups[name].Of(k)[0];
      var t := Member(k, Normal(k, v));
      TermsOfKindMember(groups, rule.appgroups, k, t);
      GroupTermsMember(groups, rule.appgroups, t);
    }
  }

  /** A well-grouped rule is always emitted. */
  lemma WellGroupedNotEmpty(ip: IpText, groups: Groups, rule: Rule)
    requires Lawful(ip) && WellGrouped(groups, rule)
    requires forall s :: s in rule.source ==> ValidSource(ip, s)
    ensures BuildRuleCriteria(ip, groups, rule).Some? && BuildRuleCriteria(ip, groups, rule).value != ""
  {
    ExpandSourcePreserves(ip, rule.source);
    WellGroupedHasTerms(groups, rule);
  }

  lemma LocalIpsMeaning(ip: IpText, nets: seq<string>, flow: Flow)
    requires forall t :: t in nets ==> ip.parseNetwork(t).Some? && '-' !in t
    ensures EvalBlock(ip, LocalIps(nets), flow) <==> AnySource(ip, nets, flow.local)
  {
    var ts := LocalIps(nets);
    if EvalBlock(ip, ts, flow) {
      var t :| t in ts && EvalTerm(ip, t, flow);
      assert t.net in nets && SourceContains(ip, t.net, flow.local);
    }
    if AnySource(ip, nets, flow.local) {
      var s :| s in nets && ValidSource(ip, s) && SourceContains(ip, s, flow.local);
      var i :| 0 <= i < |nets| && nets[i] == s;
      assert ts[i] in ts && EvalTerm(ip, ts[i], flow);
    }
  }

  predicate Holds(m: Members, v: string) {
    v in m.app || v in m.appCategory || v in m.proto || v in m.protoCategory
  }

  lemma HoldsByKind(m: Members, v: string)
    ensures Holds(m, v) <==> exists k :: v in m.Of(k)
  {
    assert v in m.app ==> v in m.Of(App);
    assert v in m.appCategory ==> v in m.Of(AppCategory);
    assert v in m.proto ==> v in m.Of(Proto);
    assert v in m.protoCategory ==> v in m.Of(ProtoCategory);
  }

  /** No group that the rule names holds a member with a quote. */
  ghost predicate Unquoted(groups: Groups, names: seq<string>) {
    forall name, v :: name in names && name in groups && Holds(groups[name], v) ==> '\'' !in v
  }

  /** There is a text, the engine can read it, and it then matches the flow or not, as said. */
  ghost predicate ReadAs(ip: IpText, text: Option<string>, flow: Flow, matches: bool) {
    text.Some? && Read(text.value).Some? && Eval(ip, Read(text.value).value, flow) == matches
  }

  /**
   The text built for a well-grouped rule is not empty and is the print of an expression that is true
   of exactly the flows the rule is meant to match. It reads back as that expression exactly when no
   member it names holds a quote and no source but a range holds a blank or a closing parenthesis; the
   engine then matches exactly the flows the rule is meant to match.
   */
  lemma CriteriaMeaning(ip: IpText, groups: Groups, rule: Rule, flow: Flow)
    requires Lawful(ip) && Reported(flow)
    requires WellGrouped(groups, rule)
    requires forall s :: s in rule.source ==> ValidSource(ip, s)
    ensures var e := Compiled(ip, groups, rule);
      && e.Some? && BuildRuleCriteria(ip, groups, rule) == Some(Print(e.value)) && Print(e.value) != ""
      && (Eval(ip, e.value, flow) <==> RuleMatches(ip, groups, rule, flow))
      && (Read(Print(e.value)) == e <==> Unquoted(groups, rule.appgroups) && BareSources(rule.source))
    ensures Unquoted(groups, rule.appgroups) && BareSources(rule.source) ==>
        ReadAs(ip, BuildRuleCriteria(ip, groups, rule), flow, RuleMatches(ip, groups, rule, flow))
  {
    ExpandSourcePreserves(ip, rule.source);
    var nets, terms := ExpandedSource(ip, rule.source).value, GroupTerms(groups, rule.appgroups);
    WellGroupedHasTerms(groups, rule);
    CriteriaIsPrinted(ip, groups, rule);
    CompiledReadsBack(groups, rule, nets);
    assert RuleMatches(ip, groups, rule, flow) <==>
      (nets == [] || EvalBlock(ip, LocalIps(nets), flow)) && (terms == [] || EvalBlock(ip, terms, flow)) by {
      GroupTermsMeaning(ip, groups, rule.appgroups, flow);
      LocalIpsMeaning(ip, nets, flow);
    }
    CompiledMeaning(ip, nets, terms, rule.matchAll, flow);
  }

  /** The expression behind a rule's text, if there is a text. */
  function Compiled(ip: IpText, groups: Groups, rule: Rule): Option<Expr> {
    var nets :- ExpandedSource(ip, rule.source);
    Compile(nets, GroupTerms(groups, rule.appgroups), rule.matchAll)
  }

  lemma CompiledMeaning(ip: IpText, nets: seq<string>, terms: seq<Term>, matchAll: bool, flow: Flow)
    requires terms == [] ==> matchAll
    ensures var e := Compile(nets, terms, matchAll);
      && e.Some?
      && (Eval(ip, e.value, flow) <==>
        (nets == [] || EvalBlock(ip, LocalIps(nets), flow)) && (terms == [] || EvalBlock(ip, terms, flow)))
  {
  }

  lemma NormalKeepsQuotes(k: Kind, v: string)
    ensures '\'' in Normal(k, v) <==> '\'' in v
  {
    if '\'' in v {
      var i :| 0 <= i < |v| && v[i] == '\'';
      assert Normal(k, v)[i] == '\'';
    }
  }

  lemma TermsUnquoted(groups: Groups, names: seq<string>)
    ensures (forall t :: t in GroupTerms(groups, names) ==> Readable(t)) <==> Unquoted(groups, names)
  {
    if Unquoted(groups, names) {
      forall t | t in GroupTerms(groups, names) ensures Readable(t) {
        GroupTermsMember(groups, names, t);
        TermsOfKindMember(groups, names, t.kind, t);
        var name, v :| name in names && name in groups && v in groups[name].Of(t.kind) &&
          t == Member(t.kind, Normal(t.kind, v));
        HoldsByKind(groups[name], v);
        NormalKeepsQuotes(t.kind, v);
      }
    }
    if forall t :: t in GroupTerms(groups, names) ==> Readable(t) {
      forall name, v | name in names && name in groups && Holds(groups[name], v) ensures '\'' !in v {
        HoldsByKind(groups[name], v);
        var k :| v in groups[name].Of(k);
        var t := Member(k, Normal(k, v));
        TermsOfKindMember(groups, names, k, t);
        GroupTermsMember(groups, names, t);
        NormalKeepsQuotes(k, v);
      }
    }
  }

  lemma NetsBare(nets: seq<string>)
    ensures (forall t :: t in LocalIps(nets) ==> Readable(t)) <==> forall n :: n in nets ==> Bare(n)
  {
    if forall t :: t in LocalIps(nets) ==> Readable(t) {
      forall n | n in nets ensures Bare(n) {
        var i :| 0 <= i < |nets| && nets[i] == n;
        assert LocalIps(nets)[i] in LocalIps(nets);
      }
    }
  }

  /** The compiled expression reads back exactly when its networks and its members are readable. */
  lemma CompiledReadsBack(groups: Groups, rule: Rule, nets: seq<string>)
    ensures var e := Compile(nets, GroupTerms(groups, rule.appgroups), rule.matchAll);
      e.Some? ==>
        (Read(Print(e.value)) == e <==> Unquoted(groups, rule.appgroups) && forall n :: n in nets ==> Bare(n))
  {
    var terms := GroupTerms(groups, rule.appgroups);
    var e := Compile(nets, terms, rule.matchAll);
    TermsUnquoted(groups, rule.appgroups);
    NetsBare(nets);
    BlocksOfTwo(LocalIps(nets), terms, rule.matchAll, nets);
    if e.Some? {
      ReadBackIff(e.value);
    }
  }

  lemma BlocksOfTwo(sources: seq<Term>, terms: seq<Term>, matchAll: bool, nets: seq<string>)
    requires sources == LocalIps(nets)
    ensures var e := Compile(nets, terms, matchAll);
      e.Some? ==>
        (ReadableExpr(e.value) <==>
          (forall t :: t in sources ==> Readable(t)) && forall t :: t in terms ==> Readable(t))
  {
    var e := Compile(nets, terms, matchAll);
    if e.Some? && e.value.Blocks? {
      assert nets != [] ==> sources in e.value.blocks;
      assert terms != [] ==> terms in e.value.blocks;
    }
  }

  // ----- a source that is not bare

  /** Two networks with the text between them that closes one block and opens the next. */
  function Spliced(x: string, y: string): string {
    x + ")" + AND + "(" + LOCAL_IP + y
  }

  /** `fe80::1%a) && (local_ip == ::`, an IPv6 address with a scope id that holds blanks and parentheses. */
  const SCOPED := Spliced("fe80::1%a", "::")

  lemma SplicedHasNoDash(x: string, y: string)
    requires '-' !in x && '-' !in y
    ensures '-' !in Spliced(x, y)
  {
    assert '-' !in LOCAL_IP && '-' !in AND;
  }

  lemma PrintLocalIp(net: string)
    ensures PrintBlock([LocalIp(net)]) == "(" + (LOCAL_IP + net) + ")"
  {
    assert PrintTerms([LocalIp(net)]) == [LOCAL_IP + net];
  }

  lemma Splice(open: string, head: string, x: string, close: string, y: string, semi: string)
    ensures open + (head + (x + close + AND + open + head + y)) + close + semi ==
            open + (head + x) + close + AND + (open + (head + y) + close + semi)
  {
  }

  lemma SplicedReadsAsTwo(x: string, y: string)
    requires Bare(x) && Bare(y)
    ensures Print(Blocks([[LocalIp(Spliced(x, y))]])) == "(" + (LOCAL_IP + Spliced(x, y)) + ")" + ";"
    ensures Read(Print(Blocks([[LocalIp(Spliced(x, y))]]))) == Some(Blocks([[LocalIp(x)], [LocalIp(y)]]))
  {
    var a, b, s := [LocalIp(x)], [LocalIp(y)], [LocalIp(Spliced(x, y))];
    PrintTwoBlocks(a, b);
    PrintTwoBlocks(s, b);
    PrintLocalIp(x);
    PrintLocalIp(y);
    PrintLocalIp(Spliced(x, y));
    Splice("(", LOCAL_IP, x, ")", y, ";");
    ReadBackIff(Blocks([a, b]));
  }

  /** The rule for all traffic from one source that is no range. */
  lemma OneSource(ip: IpText, source: string)
    requires '-' !in source
    ensures var rule, e := Rule([], [source], true), Blocks([[LocalIp(source)]]);
      && WellGrouped(map[], rule) && Compiled(ip, map[], rule) == Some(e)
      && BuildRuleCriteria(ip, map[], rule) == Some(Print(e))
  {
    var values, rule := [source], Rule([], [source], true);
    assert values[..|values| - 1] == [] && [] + values == values;
    WellGroupedHasTerms(map[], rule);
    CriteriaIsPrinted(ip, map[], rule);
    assert LocalIps(values) == [LocalIp(source)];
    assert [[LocalIp(source)]] + [] == [[LocalIp(source)]];
  }

  /**
   Where the address library takes such a text for a network, the rule is valid and its text reads
   back as another expression than the compiled one: two blocks instead of one.
   */
  lemma ScopedSourceReadsAsTwo(ip: IpText)
    requires ip.parseNetwork(SCOPED).Some?
    ensures var rule := Rule([], [SCOPED], true);
      && ValidSource(ip, SCOPED) && WellGrouped(map[], rule)
      && Compiled(ip, map[], rule) == Some(Blocks([[LocalIp(SCOPED)]]))
      && BuildRuleCriteria(ip, map[], rule) == Some("(" + (LOCAL_IP + SCOPED) + ")" + ";")
      && Read(BuildRuleCriteria(ip, map[], rule).value) == Some(Blocks([[LocalIp("fe80::1%a")], [LocalIp("::")]]))
  {
    var x, y := "fe80::1%a", "::";
    SplicedHasNoDash(x, y);
    OneSource(ip, SCOPED);
    SplicedReadsAsTwo(x, y);
  }

  // ----- a lawful library

  function Repeated(c: char, n: nat): (r: string)
    ensures |r| == n && forall i :: 0 <= i < n ==> r[i] == c
  {
    seq(n, _ => c)
  }

  /** A network in unary: its family, its host bits and its base address. */
  function Unary(n: Net): string {
    [if n.family == V4 then '4' else '6'] + Repeated('h', n.block.hostBits) + Repeated('b', n.block.base)
  }

  lemma UnaryApart(n: Net, m: Net)
    requires n.block.hostBits < m.block.hostBits
    ensures Unary(n) != Unary(m)
  {
    var i := n.block.hostBits + 1;
    assert Unary(m)[i] == 'h';
    assert i < |Unary(n)| ==> Unary(n)[i] == 'b';
  }

  lemma UnaryInjective(n: Net, m: Net)
    requires n != m
    ensures Unary(n) != Unary(m)
  {
    if n.block.hostBits < m.block.hostBits {
      UnaryApart(n, m);
    } else if m.block.hostBits < n.block.hostBits {
      UnaryApart(m, n);
    } else if n.family != m.family {
      assert Unary(n)[0] != Unary(m)[0];
    } else {
      assert |Unary(n)| != |Unary(m)|;
    }
  }

  ghost function ReadUnary(s: string): Option<Net> {
    if exists n: Net :: Unary(n) == s then
      var n: Net :| Unary(n) == s;
      Some(n)
    else if s == SCOPED then Some(Net(V6, Block(0, 0)))
    else None
  }

  ghost function ReadAddress(s: string): Option<Address> {
    var n :- ReadUnary(s);
    if n.block.hostBits == 0 && n.block.base < Pow2(n.family.Bits()) then
      Some(Address(n.family, n.block.base, None))
    else
      None
  }

  lemma ReadUnaryBack(n: Net)
    ensures ReadUnary(Unary(n)) == Some(n)
  {
    forall m: Net | m != n ensures Unary(m) != Unary(n) {
      UnaryInjective(m, n);
    }
  }

  const RANGE := "4-4b"

  lemma UnaryDigits()
    ensures Unary(Net(V4, Block(0, 0))) == "4"
    ensures Unary(Net(V4, Block(1, 0))) == "4b"
  {
    assert Repeated('h', 0) == "" && Repeated('b', 0) == "" && Repeated('b', 1) == "b";
  }

  lemma RangeParts()
    ensures '-' in RANGE && IndexOf(RANGE, '-') == 1
    ensures Strip(IsSpace, RANGE[..1]) == Unary(Net(V4, Block(0, 0)))
    ensures Strip(IsSpace, RANGE[2..]) == Unary(Net(V4, Block(1, 0)))
  {
    IndexOfConcat("4", '-', "4b");
    assert RANGE == "4" + ['-'] + "4b";
    assert RANGE[..1] == "4" && RANGE[2..] == "4b";
    UnaryDigits();
    StripIdentity(IsSpace, "4");
    StripIdentity(IsSpace, "4b");
  }

  lemma RangeRead(ip: IpText)
    requires ip.parseAddress == ReadAddress
    ensures ValidSource(ip, RANGE)
  {
    var first, last := Net(V4, Block(0, 0)), Net(V4, Block(1, 0));
    RangeParts();
    ReadUnaryBack(first);
    ReadUnaryBack(last);
    assert 1 < Pow2(32) by {
      Pow2Monotonic(1, 32);
    }
    assert ReadAddress(Unary(first)) == Some(Address(V4, 0, None));
    assert ReadAddress(Unary(last)) == Some(Address(V4, 1, None));
  }

  lemma UnaryPlain(n: Net)
    ensures '-' !in Unary(n) && Bare(Unary(n))
  {
  }

  lemma UnaryLawful(ip: IpText)
    requires ip == IpText(ReadAddress, ReadUnary, Unary)
    ensures Lawful(ip)
  {
    forall n: Net
      ensures '-' !in ip.showNetwork(n) && Bare(ip.showNetwork(n)) && ip.parseNetwork(ip.showNetwork(n)) == Some(n)
    {
      UnaryPlain(n);
      ReadUnaryBack(n);
    }
  }

  lemma ScopedRead(ip: IpText)
    requires ip.parseNetwork == ReadUnary
    ensures ip.parseNetwork(SCOPED).Some?
  {
  }

  /** There are lawful libraries, and some of them read a range and take the scoped text for a network. */
  lemma LawfulExists() returns (ip: IpText)
    ensures Lawful(ip) && ip.parseNetwork(SCOPED).Some? && ValidSource(ip, RANGE)
  {
    ip := IpText(ReadAddress, ReadUnary, Unary);
    UnaryLawful(ip);
    ScopedRead(ip);
    RangeRead(ip);
  }

  // ----- case

  predicate InLowerCase(flow: Flow) {
    Reported(flow) && Lower(flow.app) == flow.app
  }

  /** Some member of some group names the flow, whatever the case of either. */
  ghost predicate AnyGroupIgnoringCase(groups: Groups, names: seq<string>, flow: Flow) {
    exists name :: name in names && name in groups &&
      (GroupMatches(groups[name], flow) || Names(groups[name].app, flow.app))
  }

  lemma IgnoringCaseByKind(groups: Groups, names: seq<string>, flow: Flow)
    ensures AnyGroupIgnoringCase(groups, names, flow) <==>
        exists name, k, v ::
          name in names && name in groups && v in groups[name].Of(k) && Lower(v) == Lower(flow.Value(k))
  {
    if AnyGroupIgnoringCase(groups, names, flow) {
      var name :| name in names && name in groups &&
        (GroupMatches(groups[name], flow) || Names(groups[name].app, flow.app));
      GroupMatchesByKind(groups[name], flow);
      if GroupMatches(groups[name], flow) {
        var k, v :| v in groups[name].Of(k) && MemberMatches(k, v, flow);
        assert Lower(v) == Lower(flow.Value(k));
      } else {
        var v :| v in groups[name].app && Lower(v) == Lower(flow.app);
        assert v in groups[name].Of(App) && Lower(v) == Lower(flow.Value(App));
      }
    }
    if name, k, v :| name in names && name in groups && v in groups[name].Of(k) && Lower(v) == Lower(flow.Value(k)) {
      GroupMatchesByKind(groups[name], flow);
      if k != App {
        assert MemberMatches(k, v, flow);
      }
    }
  }

  ghost predicate HasApp(groups: Groups, names: seq<string>, v: string) {
    exists name :: name in names && name in groups && v in groups[name].app
  }

  /** Every application that the groups hold is also held in lower case. */
  ghost predicate AppsCovered(groups: Groups, names: seq<string>) {
    forall v :: HasApp(groups, names, v) ==> HasApp(groups, names, Lower(v))
  }

  /** The member that a lower-case flow needs to be named, where the groups hold a member for it in some case. */
  lemma CoveredMember(groups: Groups, names: seq<string>, name: string, k: Kind, v: string, flow: Flow)
    requires AppsCovered(groups, names) && InLowerCase(flow)
    requires name in names && name in groups && v in groups[name].Of(k) && Lower(v) == Lower(flow.Value(k))
    ensures AnyGroup(groups, names, flow)
  {
    if k == App {
      assert HasApp(groups, names, v);
      var other :| other in names && other in groups && Lower(v) in groups[other].app;
      assert Lower(v) in groups[other].Of(App) && MemberMatches(App, Lower(v), flow);
      GroupMatchesByKind(groups[other], flow);
    } else {
      assert MemberMatches(k, v, flow);
      GroupMatchesByKind(groups[name], flow);
    }
  }

  lemma CoveredIgnoresCase(groups: Groups, names: seq<string>, flow: Flow)
    requires AppsCovered(groups, names) && InLowerCase(flow)
    ensures AnyGroup(groups, names, flow) <==> AnyGroupIgnoringCase(groups, names, flow)
  {
    IgnoringCaseByKind(groups, names, flow);
    if AnyGroupIgnoringCase(groups, names, flow) {
      var name, k, v :| name in names && name in groups && v in groups[name].Of(k) && Lower(v) == Lower(flow.Value(k));
      CoveredMember(groups, names, name, k, v, flow);
    }
  }

  /** A lower-case text longer than every value of the terms. */
  function Unmatched(ts: seq<Term>): (r: string)
    ensures r != "" && Lower(r) == r
    ensures forall t :: t in ts && t.Member? ==> |t.value| < |r|
  {
    if ts == [] then "x"
    else
      var init, last := ts[..|ts| - 1], ts[|ts| - 1];
      var r := Unmatched(init);
      assert ts == init + [last];
      if last.LocalIp? then r
      else r + seq(|last.value|, _ => 'x')
  }

  /**
   Applications are the one kind that is not lower-cased: the emitted terms match as if case did not
   matter, for all flows reported in lower case, exactly when every application that the groups hold
   is also held in lower case.
   */
  lemma ApplicationCaseMatters(ip: IpText, groups: Groups, names: seq<string>)
    ensures (forall flow: Flow :: InLowerCase(flow) ==>
               (EvalBlock(ip, GroupTerms(groups, names), flow) <==> AnyGroupIgnoringCase(groups, names, flow)))
            <==> AppsCovered(groups, names)
  {
    if AppsCovered(groups, names) {
      forall flow: Flow | InLowerCase(flow)
        ensures EvalBlock(ip, GroupTerms(groups, names), flow) <==> AnyGroupIgnoringCase(groups, names, flow)
      {
        GroupTermsMeaning(ip, groups, names, flow);
        CoveredIgnoresCase(groups, names, flow);
      }
    } else {
      var v :| HasApp(groups, names, v) && !HasApp(groups, names, Lower(v));
      var flow := MissedFlow(ip, groups, names, v);
    }
  }

  lemma AppTermsAreApps(groups: Groups, names: seq<string>, t: Term)
    requires t in GroupTerms(groups, names)
    ensures t.Member? && (t.kind == App ==> HasApp(groups, names, t.value))
  {
    GroupTermsMember(groups, names, t);
    TermsOfKindMember(groups, names, t.kind, t);
  }

  /** A flow that names an application in lower case, and that the emitted terms miss. */
  lemma MissedFlow(ip: IpText, groups: Groups, names: seq<string>, v: string) returns (flow: Flow)
    requires HasApp(groups, names, v) && !HasApp(groups, names, Lower(v))
    ensures InLowerCase(flow)
    ensures AnyGroupIgnoringCase(groups, names, flow) && !EvalBlock(ip, GroupTerms(groups, names), flow)
  {
    var ts := GroupTerms(groups, names);
    var other := Unmatched(ts);
    LowerIdempotent(v);
    flow := Flow(Address(V4, 0, None), Lower(v), other, other, other);
    var name :| name in names && name in groups && v in groups[name].app;
    assert Names(groups[name].app, flow.app);
    forall t | t in ts ensures !EvalTerm(ip, t, flow) {
      AppTermsAreApps(groups, names, t);
    }
  }

  lemma LowerIdempotent(s: string)
    ensures Lower(Lower(s)) == Lower(s)
  {
  }
}
