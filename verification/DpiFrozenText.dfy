/** What the engine reads in the criteria that an old rule is frozen into. */
module DpiFrozenText {
  import opened Wrappers
  import opened Sequences
  import opened Text
  import opened DpiStore
  import opened DpiFreeze
  import C = Criteria

  // ----- a reader with a syntax of its own

  datatype Word = Local(net: string) | App(value: string) | Proto(value: string) | Category(value: string)

  /** An optional VLAN, the device at either end, and blocks of alternatives that all have to hold. */
  datatype Frozen = Frozen(vlan: Option<string>, source: string, destination: string, blocks: seq<seq<Word>>)

  /** What is left behind a text that has to come first. */
  function After(head: string, s: string): (r: Option<string>)
    ensures r.Some? ==> |r.value| + |head| == |s|
  {
    if head <= s then Some(s[|head|..]) else None
  }

  /** A quoted value behind a text, and what is left. */
  function QuotedAfter(head: string, s: string): (r: Option<(string, string)>)
    ensures r.Some? ==> |r.value.1| < |s|
  {
    C.ReadQuoted(head, s)
  }

  function BareAfter(head: string, s: string): (r: Option<(string, string)>)
    ensures r.Some? ==> |r.value.1| + |head| <= |s|
  {
    var rest :- After(head, s);
    var n := C.BareLength(rest);
    Some((rest[..n], rest[n..]))
  }

  function ReadWord(s: string): (r: Option<(Word, string)>)
    ensures r.Some? ==> |r.value.1| < |s|
  {
    if BareAfter("local_ip == ", s).Some? then
      var (v, rest) := BareAfter("local_ip == ", s).value;
      Some((Local(v), rest))
    else if QuotedAfter("app == '", s).Some? then
      var (v, rest) := QuotedAfter("app == '", s).value;
      Some((App(v), rest))
    else if QuotedAfter("proto == '", s).Some? then
      var (v, rest) := QuotedAfter("proto == '", s).value;
      Some((Proto(v), rest))
    else
      var q :- QuotedAfter("category == '", s);
      Some((Category(q.0), q.1))
  }

  /** Words with ` or ` between them, up to the closing parenthesis. */
  function ReadWords(s: string): (r: Option<(seq<Word>, string)>)
    ensures r.Some? ==> |r.value.1| < |s|
    decreases |s|
  {
    var w :- ReadWord(s);
    if After(")", w.1).Some? then Some(([w.0], After(")", w.1).value))
    else
      var tail :- After(" or ", w.1);
      var more :- ReadWords(tail);
      Some(([w.0] + more.0, more.1))
  }

  /** Blocks in parentheses with ` && ` between them, up to ` ;`. */
  function ReadBlocks(s: string): Option<seq<seq<Word>>>
    decreases |s|
  {
    var open :- After("(", s);
    var block :- ReadWords(open);
    if block.1 == " ;" then Some([block.0])
    else
      var tail :- After(" && ", block.1);
      var more :- ReadBlocks(tail);
      Some([block.0] + more)
  }

  function ReadDevice(vlan: Option<string>, s: string): Option<Frozen> {
    var source :- QuotedAfter("(iface_nfq_src == '", s);
    var destination :- QuotedAfter(" or iface_nfq_dst == '", source.1);
    var rest :- After(") && ", destination.1);
    var blocks :- ReadBlocks(rest);
    Some(Frozen(vlan, source.0, destination.0, blocks))
  }

  function ReadFrozen(s: string): Option<Frozen> {
    if BareAfter("vlan_id == ", s).Some? then
      var (vlan, tail) := BareAfter("vlan_id == ", s).value;
      var rest :- After(" && ", tail);
      ReadDevice(Some(vlan), rest)
    else
      ReadDevice(None, s)
  }

  // ----- what an old rule says

  predicate ReadableWord(w: Word) {
    match w
    case Local(net) => C.Bare(net)
    case App(v) => '\'' !in v
    case Proto(v) => '\'' !in v
    case Category(v) => '\'' !in v
  }

  predicate ReadableWords(ws: seq<Word>) {
    ws != [] && forall w :: w in ws ==> ReadableWord(w)
  }

  function Locals(ips: seq<string>): (r: seq<Word>)
    ensures |r| == |ips| && forall i :: 0 <= i < |ips| ==> r[i] == Local(ips[i])
  {
    seq(|ips|, i requires 0 <= i < |ips| => Local(ips[i]))
  }

  function Apps(values: seq<string>): (r: seq<Word>)
    ensures |r| == |values| && forall i :: 0 <= i < |values| ==> r[i] == App(values[i])
  {
    seq(|values|, i requires 0 <= i < |values| => App(values[i]))
  }

  function Protos(values: seq<string>): (r: seq<Word>)
    ensures |r| == |values| && forall i :: 0 <= i < |values| ==> r[i] == Proto(Lower(values[i]))
  {
    seq(|values|, i requires 0 <= i < |values| => Proto(Lower(values[i])))
  }

  function Categories(values: seq<string>): (r: seq<Word>)
    ensures |r| == |values| && forall i :: 0 <= i < |values| ==> r[i] == Category(Lower(values[i]))
  {
    seq(|values|, i requires 0 <= i < |values| => Category(Lower(values[i])))
  }

  /** The addresses that the sources of the rule stand for, objects expanded. */
  function SourceWords(env: Env, sources: seq<string>): Option<seq<Word>> {
    if sources == [] then Some([])
    else
      var init :- SourceWords(env, sources[..|sources| - 1]);
      var last := sources[|sources| - 1];
      var ips :- if env.isObject(last) then env.objectIps(last) else Some([last]);
      Some(init + Locals(ips))
  }

  function MemberWords(rule: Rule): seq<Word> {
    Apps(rule.legacy.application.GetOr([])) + Protos(rule.legacy.protocol.GetOr([])) +
    Categories(rule.legacy.category.GetOr([]))
  }

  function NonEmpty(block: seq<Word>): seq<seq<Word>> {
    if block == [] then [] else [block]
  }

  /** The VLAN of the first device section with that name and a VLAN id, if it has a base interface. */
  function VlanOf(devices: seq<Device>, device: string): Option<string> {
    if devices == [] then None
    else if devices[0].name == device && devices[0].vid.Some? then
      if devices[0].ifname.Some? then devices[0].vid else None
    else VlanOf(devices[1..], device)
  }

  /** What the frozen text of a rule without a criteria of its own is to say. */
  function Expected(env: Env, rule: Rule): Option<Frozen> {
    var sources :- SourceWords(env, rule.target.source);
    var devices :- env.devices;
    var device := rule.legacy.device.GetOr("*");
    Some(Frozen(VlanOf(devices, device), device, device, NonEmpty(sources) + NonEmpty(MemberWords(rule))))
  }

  /** Values between quotes hold no quote, the others no blank and no parenthesis; there is a block. */
  predicate ReadableFrozen(f: Frozen) {
    && (f.vlan.Some? ==> C.Bare(f.vlan.value))
    && '\'' !in f.source && '\'' !in f.destination
    && f.blocks != [] && forall b :: b in f.blocks ==> ReadableWords(b)
  }

  // ----- the texts

  function WordText(w: Word): string {
    match w
    case Local(net) => "local_ip == " + net
    case App(v) => "app == '" + v + "'"
    case Proto(v) => "proto == '" + v + "'"
    case Category(v) => "category == '" + v + "'"
  }

  function WordTexts(ws: seq<Word>): (r: seq<string>)
    ensures |r| == |ws| && forall i :: 0 <= i < |ws| ==> r[i] == WordText(ws[i])
  {
    seq(|ws|, i requires 0 <= i < |ws| => WordText(ws[i]))
  }

  lemma WordTextsConcat(a: seq<Word>, b: seq<Word>)
    ensures WordTexts(a + b) == WordTexts(a) + WordTexts(b)
  {
  }

  lemma LocalTexts(ips: seq<string>)
    ensures WordTexts(Locals(ips)) == C.SourceTexts(ips)
  {
  }

  lemma {:induction false} SourceTermsAre(env: Env, sources: seq<string>)
    ensures SourceTerms(env, sources).Some? <==> SourceWords(env, sources).Some?
    ensures SourceWords(env, sources).Some? ==>
              SourceTerms(env, sources).value == WordTexts(SourceWords(env, sources).value)
  {
    if sources == [] {
      assert WordTexts([]) == [];
    } else {
      var init, last := sources[..|sources| - 1], sources[|sources| - 1];
      SourceTermsAre(env, init);
      var ips := SourceIps(env, last);
      if SourceWords(env, init).Some? && ips.Some? {
        WordTextsConcat(SourceWords(env, init).value, Locals(ips.value));
        LocalTexts(ips.value);
      }
    }
  }

  lemma MemberTermsAre(rule: Rule)
    ensures MemberTerms(rule.legacy) == WordTexts(MemberWords(rule))
  {
    var a, p, c := rule.legacy.application.GetOr([]), rule.legacy.protocol.GetOr([]), rule.legacy.category.GetOr([]);
    AppTexts(a);
    ProtoTexts(p);
    CategoryTexts(c);
    WordTextsConcat(Apps(a), Protos(p));
    WordTextsConcat(Apps(a) + Protos(p), Categories(c));
  }

  lemma HeadOf(kind: string, head: string, v: string)
    requires head == kind + " == '"
    ensures kind + " == '" + v + "'" == head + v + "'"
  {
  }

  lemma AppTexts(values: seq<string>)
    ensures WordTexts(Apps(values)) == Quoted("app", values)
  {
    forall i | 0 <= i < |values| ensures WordTexts(Apps(values))[i] == Quoted("app", values)[i] {
      HeadOf("app", "app == '", values[i]);
    }
  }

  lemma ProtoTexts(values: seq<string>)
    ensures WordTexts(Protos(values)) == Quoted("proto", LowerAll(values))
  {
    forall i | 0 <= i < |values| ensures WordTexts(Protos(values))[i] == Quoted("proto", LowerAll(values))[i] {
      HeadOf("proto", "proto == '", Lower(values[i]));
    }
  }

  lemma CategoryTexts(values: seq<string>)
    ensures WordTexts(Categories(values)) == Quoted("category", LowerAll(values))
  {
    forall i | 0 <= i < |values| ensures WordTexts(Categories(values))[i] == Quoted("category", LowerAll(values))[i] {
      HeadOf("category", "category == '", Lower(values[i]));
    }
  }

  // ----- reading what was written

  lemma Apart(head: string, s: string)
    requires head != "" && s != "" && head[0] != s[0]
    ensures After(head, s).None? && BareAfter(head, s).None? && QuotedAfter(head, s).None?
  {
  }

  lemma AfterBack(head: string, tail: string)
    ensures After(head, head + tail) == Some(tail)
  {
    assert (head + tail)[|head|..] == tail;
  }

  lemma BareBack(head: string, v: string, rest: string)
    requires C.Bare(v) && rest != "" && rest[0] in {' ', ')'}
    ensures BareAfter(head, head + (v + rest)) == Some((v, rest))
  {
    AfterBack(head, v + rest);
    forall i | 0 <= i < |v| ensures v[i] !in {' ', ')'} {
      assert v[i] in v;
    }
    C.BareLengthOf(v, rest);
    assert (v + rest)[..|v|] == v && (v + rest)[|v|..] == rest;
  }

  lemma QuotedBack(head: string, v: string, rest: string)
    requires '\'' !in v
    ensures QuotedAfter(head, head + v + "'" + rest) == Some((v, rest))
  {
    C.ReadQuotedBack(head, v, rest);
    assert head + v + "'" + rest == head + v + ['\''] + rest;
  }

  lemma FirstOf(head: string, v: string, close: string, rest: string)
    requires head != ""
    ensures head + v + close + rest != "" && (head + v + close + rest)[0] == head[0]
  {
  }

  lemma LocalBack(net: string, rest: string)
    requires C.Bare(net) && rest != "" && rest[0] in {' ', ')'}
    ensures ReadWord("local_ip == " + net + rest) == Some((Local(net), rest))
  {
    BareBack("local_ip == ", net, rest);
    Assoc("local_ip == ", net, rest);
  }

  lemma AppBack(v: string, rest: string)
    requires '\'' !in v
    ensures ReadWord("app == '" + v + "'" + rest) == Some((App(v), rest))
  {
    var s := "app == '" + v + "'" + rest;
    FirstOf("app == '", v, "'", rest);
    Apart("local_ip == ", s);
    QuotedBack("app == '", v, rest);
  }

  lemma ProtoBack(v: string, rest: string)
    requires '\'' !in v
    ensures ReadWord("proto == '" + v + "'" + rest) == Some((Proto(v), rest))
  {
    var s := "proto == '" + v + "'" + rest;
    FirstOf("proto == '", v, "'", rest);
    Apart("local_ip == ", s);
    Apart("app == '", s);
    QuotedBack("proto == '", v, rest);
  }

  lemma CategoryBack(v: string, rest: string)
    requires '\'' !in v
    ensures ReadWord("category == '" + v + "'" + rest) == Some((Category(v), rest))
  {
    var s := "category == '" + v + "'" + rest;
    FirstOf("category == '", v, "'", rest);
    Apart("local_ip == ", s);
    Apart("app == '", s);
    Apart("proto == '", s);
    QuotedBack("category == '", v, rest);
  }

  lemma WordBack(w: Word, rest: string)
    requires ReadableWord(w) && rest != "" && rest[0] in {' ', ')'}
    ensures ReadWord(WordText(w) + rest) == Some((w, rest))
  {
    match w
    case Local(net) => LocalBack(net, rest);
    case App(v) => AppBack(v, rest);
    case Proto(v) => ProtoBack(v, rest);
    case Category(v) => CategoryBack(v, rest);
  }

  /** Texts with a separator between them, built from the front. */
  function Chain(sep: string, texts: seq<string>): string
    requires texts != []
  {
    if |texts| == 1 then texts[0] else texts[0] + (sep + Chain(sep, texts[1..]))
  }

  lemma {:induction false} JoinIsChain(sep: string, texts: seq<string>)
    requires texts != []
    ensures Join(sep, texts) == Chain(sep, texts)
  {
    if |texts| > 1 {
      JoinIsChain(sep, texts[1..]);
    }
  }

  lemma WordsStep(s: string, w: Word, tail: string)
    ensures ReadWord(s) == Some((w, ")" + tail)) ==> ReadWords(s) == Some(([w], tail))
    ensures ReadWord(s) == Some((w, " or " + tail)) && ReadWords(tail).Some? ==>
              ReadWords(s) == Some(([w] + ReadWords(tail).value.0, ReadWords(tail).value.1))
  {
    AfterBack(")", tail);
    AfterBack(" or ", tail);
    OrStarts(tail);
    Apart(")", " or " + tail);
  }

  lemma OrStarts(tail: string)
    ensures " or " + tail != "" && (" or " + tail)[0] == ' '
  {
  }

  lemma ClosedStarts(tail: string)
    ensures ")" + tail != "" && (")" + tail)[0] == ')'
  {
  }

  lemma {:induction false} WordsBack(ws: seq<Word>, rest: string)
    requires ReadableWords(ws)
    ensures ReadWords(Chain(" or ", WordTexts(ws)) + (")" + rest)) == Some((ws, rest))
  {
    var w, close := ws[0], ")" + rest;
    assert w in ws;
    if |ws| == 1 {
      ClosedStarts(rest);
      WordBack(w, close);
      WordsStep(WordText(w) + close, w, rest);
      assert ws == [w];
    } else {
      var more := ws[1..];
      assert WordTexts(ws)[1..] == WordTexts(more);
      assert forall v :: v in more ==> v in ws;
      WordsBack(more, rest);
      var tail := Chain(" or ", WordTexts(more)) + close;
      OrStarts(tail);
      WordBack(w, " or " + tail);
      WordsStep(WordText(w) + (" or " + tail), w, tail);
      ChainSplit(WordText(w), " or ", Chain(" or ", WordTexts(more)), close);
      assert ws == [w] + more;
    }
  }

  lemma ChainSplit(a: string, sep: string, b: string, close: string)
    ensures a + (sep + b) + close == a + (sep + (b + close))
  {
  }

  // ----- the whole text

  function BlockText(ws: seq<Word>): string
    requires ws != []
  {
    Chain(" or ", WordTexts(ws))
  }

  lemma OpenBack(s: string, ws: seq<Word>, rest: string)
    requires ReadableWords(ws) && s == "(" + (BlockText(ws) + (")" + rest))
    ensures After("(", s).Some? && ReadWords(After("(", s).value) == Some((ws, rest))
  {
    AfterBack("(", BlockText(ws) + (")" + rest));
    WordsBack(ws, rest);
  }

  lemma ThenMore(tail: string)
    ensures " && " + tail != " ;" && After(" && ", " && " + tail) == Some(tail)
  {
    AfterBack(" && ", tail);
    assert (" && " + tail)[1] == '&' && " ;"[1] == ';';
  }

  lemma OneBlock(ws: seq<Word>)
    requires ReadableWords(ws)
    ensures ReadBlocks("(" + BlockText(ws) + ") ;") == Some([ws])
  {
    var s := "(" + BlockText(ws) + ") ;";
    CloseSplit(BlockText(ws), ") ;", " ;");
    OpenBack(s, ws, " ;");
  }

  /** A text that begins with the closing parenthesis. */
  lemma CloseSplit(body: string, close: string, rest: string)
    requires close == ")" + rest
    ensures "(" + body + close == "(" + (body + (")" + rest))
  {
  }

  lemma TwoBlocks(a: seq<Word>, b: seq<Word>)
    requires ReadableWords(a) && ReadableWords(b)
    ensures ReadBlocks("(" + BlockText(a) + ") && (" + BlockText(b) + ") ;") == Some([a, b])
  {
    var tail := "(" + BlockText(b) + ") ;";
    var s := "(" + BlockText(a) + ") && (" + BlockText(b) + ") ;";
    BetweenSplit(BlockText(a), BlockText(b));
    OneBlock(b);
    OpenBack(s, a, " && " + tail);
    ThenMore(tail);
    assert [a] + [b] == [a, b];
  }

  lemma BetweenSplit(a: string, b: string)
    ensures "(" + a + ") && (" + b + ") ;" == "(" + (a + (")" + (" && " + ("(" + b + ") ;"))))
  {
    assert ") && (" == ")" + (" && " + "(");
    Regroup("(", a, ")", " && ", "(", b, ") ;");
  }

  lemma Regroup(o: string, a: string, c: string, m: string, p: string, b: string, z: string)
    ensures o + a + (c + (m + p)) + b + z == o + (a + (c + (m + (p + b + z))))
  {
  }

  lemma DeviceBack(vlan: Option<string>, device: string, body: string)
    requires '\'' !in device
    ensures ReadDevice(vlan, Narrowed(device) + body) ==
              if ReadBlocks(body).Some? then Some(Frozen(vlan, device, device, ReadBlocks(body).value)) else None
  {
    var tail := ") && " + body;
    var middle := " or iface_nfq_dst == '" + device + "'" + tail;
    NarrowedSplit(device, body);
    QuotedBack("(iface_nfq_src == '", device, middle);
    QuotedBack(" or iface_nfq_dst == '", device, tail);
    AfterBack(") && ", body);
  }

  lemma NarrowedSplit(d: string, body: string)
    ensures Narrowed(d) + body ==
              "(iface_nfq_src == '" + d + "'" + (" or iface_nfq_dst == '" + d + "'" + (") && " + body))
  {
    assert "' or iface_nfq_dst == '" == "'" + " or iface_nfq_dst == '";
    assert "') && " == "'" + ") && ";
    Respell("(iface_nfq_src == '", d, "'", " or iface_nfq_dst == '", ") && ", body);
  }

  lemma Respell(a: string, d: string, q: string, b: string, c: string, body: string)
    ensures a + d + (q + b) + d + (q + c) + body == a + d + q + (b + d + q + (c + body))
  {
  }

  lemma NarrowedStarts(d: string, body: string)
    ensures Narrowed(d) + body != "" && (Narrowed(d) + body)[0] == '('
  {
  }

  lemma {:induction false} VlanPrefixIs(devices: seq<Device>, device: string)
    ensures VlanPrefix(devices, device) ==
              if VlanOf(devices, device).Some? then "vlan_id == " + VlanOf(devices, device).value + " && " else ""
  {
    if devices != [] && !IsVlan(devices[0], device) {
      VlanPrefixIs(devices[1..], device);
    }
  }

  lemma VlanBack(vlan: Option<string>, rest: string)
    requires (vlan.Some? ==> C.Bare(vlan.value)) && rest != "" && rest[0] == '('
    ensures ReadFrozen((if vlan.Some? then "vlan_id == " + vlan.value + " && " else "") + rest)
            == ReadDevice(vlan, rest)
  {
    if vlan.Some? {
      var v, tail := vlan.value, " && " + rest;
      BareBack("vlan_id == ", v, tail);
      AfterBack(" && ", rest);
      Outward("vlan_id == ", v, " && ", rest);
    } else {
      Apart("vlan_id == ", rest);
      assert "" + rest == rest;
    }
  }

  lemma Outward(a: string, v: string, b: string, rest: string)
    ensures a + v + b + rest == a + (v + (b + rest))
  {
  }

  lemma BodyBack(a: seq<Word>, b: seq<Word>, device: string)
    requires NonEmpty(a) + NonEmpty(b) != [] && forall ws :: ws in NonEmpty(a) + NonEmpty(b) ==> ReadableWords(ws)
    ensures exists body ::
              && Assembled(device, WordTexts(a), WordTexts(b)) == Narrowed(device) + body
              && ReadBlocks(body) == Some(NonEmpty(a) + NonEmpty(b))
  {
    if a == [] {
      assert b in NonEmpty(a) + NonEmpty(b) && NonEmpty(a) + NonEmpty(b) == [b];
      OneBlock(b);
      JoinIsChain(" or ", WordTexts(b));
      var body := "(" + BlockText(b) + ") ;";
      assert Assembled(device, WordTexts(a), WordTexts(b)) == Narrowed(device) + body;
    } else if b == [] {
      assert a in NonEmpty(a) + NonEmpty(b) && NonEmpty(a) + NonEmpty(b) == [a];
      OneBlock(a);
      JoinIsChain(" or ", WordTexts(a));
      var body := "(" + BlockText(a) + ") ;";
      assert Assembled(device, WordTexts(a), WordTexts(b)) == Narrowed(device) + body;
    } else {
      assert NonEmpty(a) + NonEmpty(b) == [a, b];
      assert a in [a, b] && b in [a, b];
      TwoBlocks(a, b);
      JoinIsChain(" or ", WordTexts(a));
      JoinIsChain(" or ", WordTexts(b));
      var body := "(" + BlockText(a) + ") && (" + BlockText(b) + ") ;";
      assert Assembled(device, WordTexts(a), WordTexts(b)) == Narrowed(device) + body;
    }
  }

  /** There is a frozen text exactly if there is something it is to say. */
  lemma ExpectedIff(env: Env, rule: Rule)
    requires rule.criteria.None?
    ensures FreezeCriteria(env, rule).Some? <==> Expected(env, rule).Some?
  {
    SourceTermsAre(env, rule.target.source);
  }

  lemma FrozenReads(env: Env, rule: Rule)
    requires rule.criteria.None? && Expected(env, rule).Some? && ReadableFrozen(Expected(env, rule).value)
    ensures FreezeCriteria(env, rule).Some? && ReadFrozen(FreezeCriteria(env, rule).value) == Expected(env, rule)
  {
    ExpectedIff(env, rule);
    SourceTermsAre(env, rule.target.source);
    MemberTermsAre(rule);
    var device, f := DeviceOf(rule), Expected(env, rule).value;
    var a, b := SourceWords(env, rule.target.source).value, MemberWords(rule);
    BodyBack(a, b, device);
    var body :| Assembled(device, WordTexts(a), WordTexts(b)) == Narrowed(device) + body
      && ReadBlocks(body) == Some(NonEmpty(a) + NonEmpty(b));
    VlanPrefixIs(env.devices.value, device);
    NarrowedStarts(device, body);
    VlanBack(f.vlan, Narrowed(device) + body);
    DeviceBack(f.vlan, device, body);
  }

  // ----- whatever is read is readable

  lemma BareRead(head: string, s: string)
    ensures BareAfter(head, s).Some? ==> C.Bare(BareAfter(head, s).value.0)
  {
    if After(head, s).Some? {
      C.BareLengthStops(After(head, s).value);
    }
  }

  lemma QuotedRead(head: string, s: string)
    ensures QuotedAfter(head, s).Some? ==> '\'' !in QuotedAfter(head, s).value.0
  {
  }

  lemma WordRead(s: string)
    ensures ReadWord(s).Some? ==> ReadableWord(ReadWord(s).value.0)
  {
    BareRead("local_ip == ", s);
    QuotedRead("app == '", s);
    QuotedRead("proto == '", s);
    QuotedRead("category == '", s);
  }

  lemma {:induction false} WordsRead(s: string)
    ensures ReadWords(s).Some? ==> ReadableWords(ReadWords(s).value.0)
    decreases |s|
  {
    WordRead(s);
    if ReadWord(s).Some? {
      var tail := After(" or ", ReadWord(s).value.1);
      if tail.Some? {
        WordsRead(tail.value);
      }
    }
  }

  lemma {:induction false} BlocksRead(s: string)
    ensures ReadBlocks(s).Some? ==>
              ReadBlocks(s).value != [] && forall b :: b in ReadBlocks(s).value ==> ReadableWords(b)
    decreases |s|
  {
    if After("(", s).Some? {
      var open := After("(", s).value;
      WordsRead(open);
      if ReadWords(open).Some? {
        var tail := After(" && ", ReadWords(open).value.1);
        if tail.Some? {
          BlocksRead(tail.value);
        }
      }
    }
  }

  lemma DeviceRead(vlan: Option<string>, s: string)
    requires vlan.Some? ==> C.Bare(vlan.value)
    ensures ReadDevice(vlan, s).Some? ==> ReadableFrozen(ReadDevice(vlan, s).value)
  {
    var source := QuotedAfter("(iface_nfq_src == '", s);
    if source.Some? {
      QuotedRead("(iface_nfq_src == '", s);
      var destination := QuotedAfter(" or iface_nfq_dst == '", source.value.1);
      if destination.Some? {
        QuotedRead(" or iface_nfq_dst == '", source.value.1);
        var rest := After(") && ", destination.value.1);
        if rest.Some? {
          BlocksRead(rest.value);
        }
      }
    }
  }

  lemma FrozenIsReadable(s: string)
    ensures ReadFrozen(s).Some? ==> ReadableFrozen(ReadFrozen(s).value)
  {
    BareRead("vlan_id == ", s);
    if BareAfter("vlan_id == ", s).Some? {
      var (vlan, tail) := BareAfter("vlan_id == ", s).value;
      if After(" && ", tail).Some? {
        DeviceRead(Some(vlan), After(" && ", tail).value);
      }
    } else {
      DeviceRead(None, s);
    }
  }

  // ----- what it means

  /** A flow as the engine of the old schema saw it. */
  datatype OldFlow = OldFlow(local: C.Address, source: string, destination: string, vlan: string, app: string,
    proto: string, category: string)

  predicate EvalWord(ip: C.IpText, w: Word, flow: OldFlow) {
    match w
    case Local(net) => ip.parseNetwork(net).Some? && ip.parseNetwork(net).value.Contains(flow.local)
    case App(v) => flow.app == v
    case Proto(v) => flow.proto == v
    case Category(v) => flow.category == v
  }

  ghost predicate Hits(ip: C.IpText, ws: seq<Word>, flow: OldFlow) {
    exists w :: w in ws && EvalWord(ip, w, flow)
  }

  ghost predicate EvalFrozen(ip: C.IpText, f: Frozen, flow: OldFlow) {
    && (f.vlan.Some? ==> flow.vlan == f.vlan.value)
    && (flow.source == f.source || flow.destination == f.destination)
    && forall b :: b in f.blocks ==> Hits(ip, b, flow)
  }

  /** The addresses that a source stands for. */
  function StandsFor(env: Env, source: string): seq<string> {
    if env.isObject(source) then env.objectIps(source).GetOr([]) else [source]
  }

  ghost predicate SomeAddress(env: Env, rule: Rule) {
    exists s, t :: s in rule.target.source && t in StandsFor(env, s)
  }

  ghost predicate FromSources(env: Env, rule: Rule, flow: OldFlow) {
    exists s, t :: s in rule.target.source && t in StandsFor(env, s) &&
      env.ip.parseNetwork(t).Some? && env.ip.parseNetwork(t).value.Contains(flow.local)
  }

  /** The old rule names the flow's application, its protocol or its category; the last two in any case. */
  ghost predicate NamesFlow(rule: Rule, flow: OldFlow) {
    || flow.app in rule.legacy.application.GetOr([])
    || (exists v :: v in rule.legacy.protocol.GetOr([]) && Lower(v) == flow.proto)
    || (exists v :: v in rule.legacy.category.GetOr([]) && Lower(v) == flow.category)
  }

  /** What the old rule is meant to match. */
  ghost predicate OldMatches(env: Env, devices: seq<Device>, rule: Rule, flow: OldFlow) {
    var device := rule.legacy.device.GetOr("*");
    && (VlanOf(devices, device).Some? ==> flow.vlan == VlanOf(devices, device).value)
    && (flow.source == device || flow.destination == device)
    && (SomeAddress(env, rule) ==> FromSources(env, rule, flow))
    && (!NoMembers(rule.legacy) ==> NamesFlow(rule, flow))
  }

  lemma {:induction false} SourceWordsMean(env: Env, sources: seq<string>, w: Word)
    requires SourceWords(env, sources).Some?
    ensures w in SourceWords(env, sources).value <==>
              exists s, t :: s in sources && t in StandsFor(env, s) && w == Local(t)
  {
    if sources != [] {
      var init, last := sources[..|sources| - 1], sources[|sources| - 1];
      assert sources == init + [last];
      SourceWordsMean(env, init, w);
      LocalsMean(StandsFor(env, last), w);
    }
  }

  lemma LocalsMean(ips: seq<string>, w: Word)
    ensures w in Locals(ips) <==> exists t :: t in ips && w == Local(t)
  {
    if t :| t in ips && w == Local(t) {
      var i :| 0 <= i < |ips| && ips[i] == t;
      assert Locals(ips)[i] == w;
    }
  }

  lemma MemberWordsMean(rule: Rule, w: Word)
    ensures w in MemberWords(rule) <==>
              || (exists v :: v in rule.legacy.application.GetOr([]) && w == App(v))
              || (exists v :: v in rule.legacy.protocol.GetOr([]) && w == Proto(Lower(v)))
              || (exists v :: v in rule.legacy.category.GetOr([]) && w == Category(Lower(v)))
  {
    var a, p, c := rule.legacy.application.GetOr([]), rule.legacy.protocol.GetOr([]), rule.legacy.category.GetOr([]);
    if v :| v in a && w == App(v) {
      var i :| 0 <= i < |a| && a[i] == v;
      assert Apps(a)[i] == w;
    }
    if v :| v in p && w == Proto(Lower(v)) {
      var i :| 0 <= i < |p| && p[i] == v;
      assert Protos(p)[i] == w;
    }
    if v :| v in c && w == Category(Lower(v)) {
      var i :| 0 <= i < |c| && c[i] == v;
      assert Categories(c)[i] == w;
    }
  }

  lemma SourcesMean(env: Env, rule: Rule, flow: OldFlow)
    requires SourceWords(env, rule.target.source).Some?
    ensures var ws := SourceWords(env, rule.target.source).value;
      && (ws != [] <==> SomeAddress(env, rule))
      && (Hits(env.ip, ws, flow) <==> FromSources(env, rule, flow))
  {
    var ws := SourceWords(env, rule.target.source).value;
    forall w ensures w in ws <==> exists s, t :: s in rule.target.source && t in StandsFor(env, s) && w == Local(t) {
      SourceWordsMean(env, rule.target.source, w);
    }
    if ws != [] {
      assert ws[0] in ws;
    }
    if s, t :| s in rule.target.source && t in StandsFor(env, s) {
      assert Local(t) in ws;
    }
    if FromSources(env, rule, flow) {
      var s, t :| s in rule.target.source && t in StandsFor(env, s) && env.ip.parseNetwork(t).Some? &&
        env.ip.parseNetwork(t).value.Contains(flow.local);
      assert Local(t) in ws && EvalWord(env.ip, Local(t), flow);
    }
  }

  lemma MembersMean(ip: C.IpText, rule: Rule, flow: OldFlow)
    ensures var ws := MemberWords(rule);
      && (ws == [] <==> NoMembers(rule.legacy))
      && (Hits(ip, ws, flow) <==> NamesFlow(rule, flow))
  {
    var ws := MemberWords(rule);
    forall w { MemberWordsMean(rule, w); }
    if flow.app in rule.legacy.application.GetOr([]) {
      assert App(flow.app) in ws && EvalWord(ip, App(flow.app), flow);
    }
    if v :| v in rule.legacy.protocol.GetOr([]) && Lower(v) == flow.proto {
      assert Proto(Lower(v)) in ws && EvalWord(ip, Proto(Lower(v)), flow);
    }
    if v :| v in rule.legacy.category.GetOr([]) && Lower(v) == flow.category {
      assert Category(Lower(v)) in ws && EvalWord(ip, Category(Lower(v)), flow);
    }
  }

  lemma EachBlock(ip: C.IpText, a: seq<Word>, b: seq<Word>, flow: OldFlow)
    ensures (forall ws :: ws in NonEmpty(a) + NonEmpty(b) ==> Hits(ip, ws, flow)) <==>
              (a != [] ==> Hits(ip, a, flow)) && (b != [] ==> Hits(ip, b, flow))
  {
    var blocks := NonEmpty(a) + NonEmpty(b);
    assert forall ws :: ws in blocks <==> (a != [] && ws == a) || (b != [] && ws == b);
  }

  /**
   The frozen text of a rule without a criteria of its own reads as the rule's VLAN, device, addresses and
   members exactly if these can be read back, that is without quotes, blanks or parentheses where they end a
   value, and there is something to match; what is read then matches exactly the flows that the rule is meant to.
   */
  lemma FrozenMeaning(env: Env, rule: Rule, flow: OldFlow)
    requires rule.criteria.None? && FreezeCriteria(env, rule).Some?
    ensures env.devices.Some? && Expected(env, rule).Some?
    ensures var text, f := FreezeCriteria(env, rule).value, Expected(env, rule).value;
      && (ReadFrozen(text) == Some(f) <==> ReadableFrozen(f))
      && (ReadableFrozen(f) ==>
        (EvalFrozen(env.ip, ReadFrozen(text).value, flow) <==> OldMatches(env, env.devices.value, rule, flow)))
  {
    var text := FreezeCriteria(env, rule).value;
    ExpectedIff(env, rule);
    var f := Expected(env, rule).value;
    FrozenIsReadable(text);
    if ReadableFrozen(f) {
      FrozenReads(env, rule);
    }
    SourcesMean(env, rule, flow);
    MembersMean(env.ip, rule, flow);
    EachBlock(env.ip, SourceWords(env, rule.target.source).value, MemberWords(rule), flow);
  }

  /** A criteria of the rule's own is kept, double quotes turned into single ones, behind the VLAN. */
  lemma OwnCriteriaKept(env: Env, rule: Rule, i: nat)
    requires rule.criteria.Some? && FreezeCriteria(env, rule).Some? && i < |rule.criteria.value|
    ensures env.devices.Some?
    ensures var own, text := rule.criteria.value, FreezeCriteria(env, rule).value;
      var vlan := VlanOf(env.devices.value, rule.legacy.device.GetOr("*"));
      var head := if vlan.Some? then "vlan_id == " + vlan.value + " && " else "";
      && |text| == |head| + |own| && head <= text
      && text[|head| + i] == if own[i] as int == 34 then 39 as char else own[i]
  {
    VlanPrefixIs(env.devices.value, DeviceOf(rule));
  }
}
