/** Rules as text: comment mark, header and option list, and the changes made by reparsing. */
module SnortRules {
  import opened Sequences
  import opened SnortOptions
  import opened SnortRoundTrip
  import opened Text
  import opened Wrappers

  const ACTIONS := ["alert", "config", "log", "pass", "activate", "dynamic", "drop", "reject", "sdrop"]

  /** Which texts int() accepts. */
  type IsInt = string -> bool

  /** Options under other names are written into the rule itself, over whatever is there. */
  datatype Rule = Rule(
    enabled: bool,
    header: string,
    group: Option<string>,
    options: seq<Opt>,
    raw: string,
    fields: map<string, Option<string>>
  )

  /** Parsing raises, or finds no rule, or yields one. */
  datatype Outcome = Raises | NoRule | Parsed(rule: Rule)

  // ----- the header

  /** The next token of a header that is not empty, and what remains; None when a bracket is not closed. */
  function NextToken(rem: string): Option<(string, string)>
    requires rem != ""
  {
    if rem[0] == '[' then
      var end := IndexOf(rem, ']');
      if end == |rem| then None else Some((Trim(rem[..end + 1]), Trim(rem[end + 1..])))
    else
      var end := IndexOf(rem, ' ');
      if end == |rem| then Some((rem, "")) else Some((Trim(rem[..end]), Trim(rem[end..])))
  }

  function Tokens(rem: string, n: nat): Option<seq<string>>
    decreases n
  {
    if n == 0 then Some([])
    else if rem == "" then None
    else
      match NextToken(rem)
      case None => None
      case Some((token, rest)) =>
        match Tokens(rest, n - 1)
        case None => None
        case Some(more) => Some([token] + more)
  }

  /** One word for a decoder rule, else action, protocol, two addresses with ports, and the direction. */
  function HeaderTokens(header: string): (r: Option<seq<string>>)
    ensures r.Some? ==> |r.value| >= 1
  {
    if ' ' !in header then Some([header]) else TokensAreMany(header, 7); Tokens(header, 7)
  }

  lemma {:induction false} TokensAreMany(rem: string, n: nat)
    ensures Tokens(rem, n).Some? ==> |Tokens(rem, n).value| == n
    decreases n
  {
    if n > 0 && rem != "" && NextToken(rem).Some? {
      TokensAreMany(NextToken(rem).value.1, n - 1);
    }
  }

  predicate GoodHeader(header: string) {
    HeaderTokens(header).Some? && HeaderTokens(header).value[0] in ACTIONS
  }

  // ----- the effect of options on the rule

  function WriteOption(isInt: IsInt, fields: map<string, Option<string>>, o: Opt): Option<map<string, Option<string>>> {
    if "options" in fields then None
    else if o.name in ["gid", "sid", "rev"] then
      if o.value.Some? && isInt(o.value.value) then Some(fields) else None
    else if o.name == "metadata" || o.name == "msg" then (if o.value.Some? then Some(fields) else None)
    else if o.name == "flowbits" then Some(fields)
    else if o.name == "reference" then (if "references" in fields then None else Some(fields))
    else Some(fields[o.name := o.value])
  }

  function WriteOptions(isInt: IsInt, options: seq<Opt>): Option<map<string, Option<string>>> {
    if options == [] then Some(map[])
    else
      match WriteOptions(isInt, options[..|options| - 1])
      case None => None
      case Some(fields) => WriteOption(isInt, fields, options[|options| - 1])
  }

  // ----- parsing

  predicate IsMark(c: char) {
    IsSpace(c) || c == '#'
  }

  predicate IsParen(c: char) {
    c == '(' || c == ')'
  }

  /** Position of the first parenthesis, or the length. */
  function FirstParen(s: string): (p: nat)
    ensures p <= |s|
    ensures p < |s| ==> IsParen(s[p])
    ensures forall i :: 0 <= i < p ==> !IsParen(s[i])
  {
    if s == "" || IsParen(s[0]) then 0
    else
      var p := FirstParen(s[1..]);
      assert forall i :: 1 <= i < p + 1 ==> s[i] == s[1..][i - 1];
      p + 1
  }

  /**
   What the pattern matches behind the comment marks: a header, and options up to a closing parenthesis at the
   end.
   */
  predicate Matches(body: string) {
    var p := FirstParen(body);
    0 < p < |body| - 1 && body[p] == '(' && body[|body| - 1] == ')' && '\n' !in body[p + 1..|body| - 1]
  }

  function HeaderOf(body: string): string {
    Trim(body[..FirstParen(body)])
  }

  function OptionsOf(body: string): string
    requires Matches(body)
  {
    body[FirstParen(body) + 1..|body| - 1]
  }

  function ParseBody(isInt: IsInt, enabled: bool, body: string, group: Option<string>): Outcome {
    if !Matches(body) || !GoodHeader(HeaderOf(body)) then NoRule
    else
      match SplitOptions(OptionsOf(body))
      case None => Raises
      case Some(options) =>
        match WriteOptions(isInt, options)
        case None => Raises
        case Some(fields) => Parsed(Rule(enabled, HeaderOf(body), group, options, Trim(body), fields))
  }

  function Parse(isInt: IsInt, text: string, group: Option<string>): Outcome {
    var t := Trim(text);
    ParseBody(isInt, t == "" || t[0] != '#', StripLeft(IsMark, t), group)
  }

  // ----- printing and changing

  /** An option named like the rule's own entry takes its place. */
  function Enabled(r: Rule): bool {
    if "enabled" in r.fields then r.fields["enabled"].GetOr("") != "" else r.enabled
  }

  function Header(r: Rule): Option<string> {
    if "header" in r.fields then r.fields["header"] else Some(r.header)
  }

  function Group(r: Rule): Option<string> {
    if "group" in r.fields then r.fields["group"] else r.group
  }

  function Mark(enabled: bool): string {
    if enabled then "" else "# "
  }

  function Format(r: Rule): string {
    Mark(Enabled(r)) + r.raw
  }

  function NewText(enabled: bool, header: string, options: seq<Opt>): string {
    Mark(enabled) + (Trim(header) + " (" + RebuildOptions(options) + ")")
  }

  /** The rule's text rebuilt around other options, and parsed. */
  function Reparsed(isInt: IsInt, r: Rule, options: seq<Opt>): Outcome {
    if "options" in r.fields || Header(r).None? then Raises
    else Parse(isInt, NewText(Enabled(r), Header(r).value, options), Group(r))
  }

  function WithoutName(options: seq<Opt>, name: string): seq<Opt> {
    if options == [] then []
    else
      WithoutName(options[..|options| - 1], name)
      + if options[|options| - 1].name != name then [options[|options| - 1]] else []
  }

  /** The position list.insert uses: counted from the end when negative, and cut off at both ends. */
  function InsertPosition(n: nat, index: Option<int>): (i: nat)
    ensures i <= n
  {
    match index
    case None => n
    case Some(k) => if k >= n then n else if k >= 0 then k else if n + k >= 0 then n + k else 0
  }

  function Inserted(options: seq<Opt>, o: Opt, index: Option<int>): seq<Opt> {
    var i := InsertPosition(|options|, index);
    options[..i] + [o] + options[i..]
  }

  function AddOption(isInt: IsInt, r: Rule, o: Opt, index: Option<int>): Outcome {
    Reparsed(isInt, r, Inserted(r.options, o, index))
  }

  /**
   The rule without the options of a name. A list that an option named `options` has overwritten with the
   empty text is an empty list from here on.
   */
  function Removed(r: Rule, name: string): Rule {
    if "options" in r.fields then r.(options := [], fields := r.fields - {"options"})
    else r.(options := WithoutName(r.options, name))
  }

  /** A list that was overwritten with None or another text has no options to look at. */
  predicate Overwritten(r: Rule) {
    "options" in r.fields && r.fields["options"] != Some("")
  }

  function RemoveOption(isInt: IsInt, r: Rule, name: string): Outcome {
    if Overwritten(r) then Raises else Reparsed(isInt, Removed(r, name), Removed(r, name).options)
  }

  // ----- parsing what was printed

  /** A header as parsing leaves it. */
  predicate SoundHeader(h: string) {
    h != "" && Trimmed(IsSpace, h) && h[0] != '#' && (forall i :: 0 <= i < |h| ==> !IsParen(h[i])) && GoodHeader(h)
  }

  lemma {:induction false} FirstParenAt(a: string, b: string)
    requires (forall i :: 0 <= i < |a| ==> !IsParen(a[i])) && b != "" && IsParen(b[0])
    ensures FirstParen(a + b) == |a|
  {
    var s := a + b;
    assert s[|a|] == b[0];
    assert forall i :: 0 <= i < |a| ==> s[i] == a[i];
  }

  lemma BodyParts(h: string, options: string)
    ensures var body := h + " (" + options + ")";
            && |body| == |h| + |options| + 3
            && body == (h + " ") + ("(" + options + ")")
            && body[|h| + 1] == '(' && body[|body| - 1] == ')'
            && body[|h| + 2..|body| - 1] == options && body[..|h| + 1] == h + " "
  {
  }

  /** A header, a blank, and options in parentheses. */
  lemma ParseRebuilt(h: string, options: string)
    requires SoundHeader(h)
    ensures var body := h + " (" + options + ")";
            && HeaderOf(body) == h && (Matches(body) <==> '\n' !in options)
            && (Matches(body) ==> OptionsOf(body) == options)
            && !IsMark(body[0]) && !IsSpace(body[|body| - 1])
  {
    var body := h + " (" + options + ")";
    BodyParts(h, options);
    FirstParenAt(h + " ", "(" + options + ")");
    TrimBlank(h);
    assert body[0] == h[0];
  }

  lemma TrimBlank(h: string)
    requires h != "" && Trimmed(IsSpace, h)
    ensures Trim(h + " ") == h
  {
    var s := h + " ";
    assert s[0] == h[0] && s[|s| - 1] == ' ' && s[..|s| - 1] == h;
    assert StripLeft(IsSpace, s) == s;
    assert IsSpace(' ') && StripRight(IsSpace, h) == h;
  }

  /** Comment marks in front of a body are skipped exactly. */
  lemma SkipMark(enabled: bool, body: string)
    requires body != "" && !IsMark(body[0]) && !IsSpace(body[|body| - 1])
    ensures var t := Mark(enabled) + body;
            Trim(t) == t && StripLeft(IsMark, t) == body && ((t == "" || t[0] != '#') <==> enabled)
  {
    var t := Mark(enabled) + body;
    assert t[|t| - 1] == body[|body| - 1];
    StripIdentity(IsSpace, t);
    if !enabled {
      assert t[0] == '#' && forall i :: 0 <= i < |"# "| ==> IsMark("# "[i]);
    }
    StripLeftPadding(IsMark, Mark(enabled), body);
  }

  /** Parsing a printed rule finds the body it was printed from. */
  lemma ParseMarked(isInt: IsInt, enabled: bool, body: string, group: Option<string>)
    requires body != "" && !IsMark(body[0]) && !IsSpace(body[|body| - 1])
    ensures Parse(isInt, Mark(enabled) + body, group) == ParseBody(isInt, enabled, body, group)
  {
    SkipMark(enabled, body);
  }

  /** What the parsed rule keeps of its text. */
  ghost predicate Reads(isInt: IsInt, r: Rule) {
    && Matches(r.raw) && !IsMark(r.raw[0]) && !IsSpace(r.raw[|r.raw| - 1])
    && HeaderOf(r.raw) == r.header && SoundHeader(r.header)
    && SplitOptions(OptionsOf(r.raw)) == Some(r.options) && WriteOptions(isInt, r.options) == Some(r.fields)
  }

  lemma BodyShape(t: string)
    requires Trimmed(IsSpace, t) && Matches(StripLeft(IsMark, t))
    ensures var body := StripLeft(IsMark, t); !IsMark(body[0]) && !IsSpace(body[|body| - 1]) && Trim(body) == body
  {
    var body := StripLeft(IsMark, t);
    StripLeftSuffix(IsMark, t);
    assert !IsSpace(body[|body| - 1]);
    StripIdentity(IsSpace, body);
  }

  lemma HeaderIsSound(body: string)
    requires Matches(body) && !IsMark(body[0]) && GoodHeader(HeaderOf(body))
    ensures SoundHeader(HeaderOf(body))
  {
    var h := body[..FirstParen(body)];
    StripTrims(IsSpace, h);
    assert StripLeft(IsSpace, h) == h;
    StripRightPrefix(IsSpace, h);
    var k: nat :| k <= |h| && StripRight(IsSpace, h) == h[..k];
    EmptyIsNoAction();
  }

  lemma EmptyIsNoAction()
    ensures !GoodHeader("")
  {
    assert HeaderTokens("") == Some([""]);
    assert forall i :: 0 <= i < |ACTIONS| ==> ACTIONS[i] != "";
  }

  lemma BodyReads(isInt: IsInt, enabled: bool, body: string, group: Option<string>)
    requires ParseBody(isInt, enabled, body, group).Parsed?
    requires body != "" && !IsMark(body[0]) && !IsSpace(body[|body| - 1])
    ensures var r := ParseBody(isInt, enabled, body, group).rule;
            Reads(isInt, r) && r.raw == body && r.group == group && r.enabled == enabled
  {
    HeaderIsSound(body);
    StripIdentity(IsSpace, body);
  }

  lemma ParsedMatches(isInt: IsInt, enabled: bool, body: string, group: Option<string>)
    requires ParseBody(isInt, enabled, body, group).Parsed?
    ensures Matches(body)
  {
  }

  /** Parsing is parsing the body behind the marks. */
  lemma ParsedBody(isInt: IsInt, text: string, group: Option<string>) returns (enabled: bool, body: string)
    requires Parse(isInt, text, group).Parsed?
    ensures Parse(isInt, text, group) == ParseBody(isInt, enabled, body, group)
    ensures body != "" && !IsMark(body[0]) && !IsSpace(body[|body| - 1])
  {
    enabled, body := BodyOf(text);
    ParsedMatches(isInt, enabled, body, group);
    StripTrims(IsSpace, text);
    BodyShape(Trim(text));
  }

  lemma BodyOf(text: string) returns (enabled: bool, body: string)
    ensures body == StripLeft(IsMark, Trim(text)) && enabled == (Trim(text) == "" || Trim(text)[0] != '#')
  {
    enabled, body := Trim(text) == "" || Trim(text)[0] != '#', StripLeft(IsMark, Trim(text));
  }

  lemma ParsedReads(isInt: IsInt, text: string, group: Option<string>)
    requires Parse(isInt, text, group).Parsed?
    ensures Reads(isInt, Parse(isInt, text, group).rule) && Parse(isInt, text, group).rule.group == group
  {
    var enabled, body := ParsedBody(isInt, text, group);
    BodyReads(isInt, enabled, body, group);
  }

  /** The body of a rule, parsed again under another mark. */
  lemma BodyAgain(isInt: IsInt, enabled: bool, body: string, group: Option<string>, again: bool)
    requires ParseBody(isInt, enabled, body, group).Parsed?
    requires body != "" && !IsMark(body[0]) && !IsSpace(body[|body| - 1])
    ensures var r := ParseBody(isInt, enabled, body, group).rule;
            r.raw == body && ParseBody(isInt, again, body, group) == Parsed(r.(enabled := again))
  {
    StripIdentity(IsSpace, body);
  }

  /** The rule, its text, and that parsing the text again yields the rule. */
  lemma ParsedAgain(isInt: IsInt, text: string, group: Option<string>) returns (r: Rule, body: string)
    requires Parse(isInt, text, group).Parsed?
    ensures Parse(isInt, text, group) == Parsed(r) && r.raw == body
    ensures body != "" && !IsMark(body[0]) && !IsSpace(body[|body| - 1])
    ensures ParseBody(isInt, Enabled(r), body, group) == Parsed(r.(enabled := Enabled(r)))
  {
    var enabled;
    enabled, body := ParsedBody(isInt, text, group);
    r := ParseBody(isInt, enabled, body, group).rule;
    BodyAgain(isInt, enabled, body, group, Enabled(r));
  }

  /** A rule's own text reads back as the rule, with the enabled mark that was printed. */
  lemma FormatRoundTrip(isInt: IsInt, text: string, group: Option<string>)
    requires Parse(isInt, text, group).Parsed?
    ensures var r := Parse(isInt, text, group).rule;
            Parse(isInt, Format(r), group) == Parsed(r.(enabled := Enabled(r)))
  {
    var r, body := ParsedAgain(isInt, text, group);
    ParseMarked(isInt, Enabled(r), body, group);
  }

  // ----- changes

  const OWN := ["header", "enabled", "options", "group", "references"]

  /** An option that does not make parsing raise and does not replace an entry of the rule. */
  predicate Harmless(isInt: IsInt, o: Opt) {
    && o.name !in OWN
    && (o.name in ["gid", "sid", "rev"] ==> o.value.Some? && isInt(o.value.value))
    && (o.name == "metadata" || o.name == "msg" ==> o.value.Some?)
  }

  predicate AllHarmless(isInt: IsInt, options: seq<Opt>) {
    forall i :: 0 <= i < |options| ==> Harmless(isInt, options[i])
  }

  predicate NoneOwn(fields: map<string, Option<string>>) {
    forall name :: name in OWN ==> name !in fields
  }

  lemma HarmlessWrite(isInt: IsInt, fields: map<string, Option<string>>, o: Opt)
    requires NoneOwn(fields) && Harmless(isInt, o)
    ensures WriteOption(isInt, fields, o).Some? && NoneOwn(WriteOption(isInt, fields, o).value)
  {
    assert OWN[2] == "options" && OWN[4] == "references";
    assert "options" in OWN && "references" in OWN;
  }

  lemma {:induction false} HarmlessWrites(isInt: IsInt, options: seq<Opt>)
    requires AllHarmless(isInt, options)
    ensures WriteOptions(isInt, options).Some? && NoneOwn(WriteOptions(isInt, options).value)
  {
    if options != [] {
      var init, last := options[..|options| - 1], options[|options| - 1];
      assert options == init + [last];
      HarmlessWrites(isInt, init);
      HarmlessWrite(isInt, WriteOptions(isInt, init).value, last);
    }
  }

  lemma OwnEntries(r: Rule)
    requires NoneOwn(r.fields)
    ensures Enabled(r) == r.enabled && Header(r) == Some(r.header) && Group(r) == r.group && "options" !in r.fields
  {
    assert OWN[0] == "header" && OWN[1] == "enabled" && OWN[2] == "options" && OWN[3] == "group";
    assert "header" in OWN && "enabled" in OWN && "options" in OWN && "group" in OWN;
  }

  /** Options that survive printing and parsing. */
  predicate Printable(isInt: IsInt, options: seq<Opt>) {
    AllLegible(options) && AllHarmless(isInt, options) && '\n' !in RebuildOptions(options)
  }

  /** Rebuilding a rule around printable options changes nothing else. */
  lemma ReparsedKeeps(isInt: IsInt, r: Rule, options: seq<Opt>)
    requires SoundHeader(r.header) && NoneOwn(r.fields) && Printable(isInt, options) && options != []
    ensures var out := Reparsed(isInt, r, options);
            && out.Parsed? && out.rule.options == options && out.rule.header == r.header
            && out.rule.enabled == r.enabled && out.rule.group == r.group && NoneOwn(out.rule.fields)
  {
    OwnEntries(r);
    StripIdentity(IsSpace, r.header);
    ReparsedBody(isInt, r.enabled, r.header, options, r.group);
  }

  lemma ReparsedBody(isInt: IsInt, enabled: bool, h: string, options: seq<Opt>, group: Option<string>)
    requires SoundHeader(h) && Printable(isInt, options) && options != []
    ensures var out := Parse(isInt, Mark(enabled) + (h + " (" + RebuildOptions(options) + ")"), group);
            && out.Parsed? && out.rule.options == options && out.rule.header == h
            && out.rule.enabled == enabled && out.rule.group == group && NoneOwn(out.rule.fields)
  {
    var body := h + " (" + RebuildOptions(options) + ")";
    ParseRebuilt(h, RebuildOptions(options));
    ParseMarked(isInt, enabled, body, group);
    OptionsRoundTripIff(options);
    HarmlessWrites(isInt, options);
  }

  // ----- exactly when a rebuilt rule is read back

  /** A rule whose header is the given one, after any option named `header` has taken its place. */
  ghost predicate HasHeader(r: Rule, h: string) {
    "options" !in r.fields && Header(r).Some? && Trim(Header(r).value) == h && SoundHeader(h)
  }

  lemma ReparsedIsBody(isInt: IsInt, r: Rule, h: string, options: seq<Opt>)
    requires HasHeader(r, h)
    ensures var body := h + " (" + RebuildOptions(options) + ")";
            && Reparsed(isInt, r, options) == ParseBody(isInt, Enabled(r), body, Group(r))
            && HeaderOf(body) == h && (Matches(body) <==> '\n' !in RebuildOptions(options))
            && (Matches(body) ==> OptionsOf(body) == RebuildOptions(options))
  {
    ParseRebuilt(h, RebuildOptions(options));
    ParseMarked(isInt, Enabled(r), h + " (" + RebuildOptions(options) + ")", Group(r));
  }

  /**
   A rule rebuilt around other options parses to exactly these options if and only if there are any, the
   end of each is found, the text holds no line break, and writing them into the rule does not raise.
   Whatever comes out has the header, mark and group that were printed.
   */
  lemma ReparsedIff(isInt: IsInt, r: Rule, h: string, options: seq<Opt>)
    requires HasHeader(r, h)
    ensures var out := Reparsed(isInt, r, options);
            && (out.Parsed? && out.rule.options == options <==>
                  options != [] && AllLegible(options) && '\n' !in RebuildOptions(options) &&
                    WriteOptions(isInt, options).Some?)
            && (out.Parsed? ==> out.rule.header == h && out.rule.enabled == Enabled(r) && out.rule.group == Group(r)
                                && WriteOptions(isInt, out.rule.options) == Some(out.rule.fields))
  {
    ReparsedIsBody(isInt, r, h, options);
    OptionsRoundTripIff(options);
  }

  /** The value of the last option of a name, if there is one. */
  function LastValue(options: seq<Opt>, name: string): Option<Option<string>> {
    if options == [] then None
    else if options[|options| - 1].name == name then Some(options[|options| - 1].value)
    else LastValue(options[..|options| - 1], name)
  }

  const ENTRIES := ["header", "enabled", "group"]

  lemma EntriesAreOrdinary(name: string)
    requires name in ENTRIES
    ensures name !in ["gid", "sid", "rev"] && name !in ["metadata", "msg", "flowbits", "reference"]
  {
    assert ENTRIES[0][0] == 'h' && ENTRIES[1][0] == 'e' && |ENTRIES[2]| == 5 && ENTRIES[2][0] == 'g';
  }

  /** The last option of such a name takes the place of the rule's own entry. */
  lemma {:induction false} FieldIsLast(isInt: IsInt, options: seq<Opt>, name: string)
    requires WriteOptions(isInt, options).Some? && name in ENTRIES
    ensures var fields := WriteOptions(isInt, options).value;
            LastValue(options, name) == if name in fields then Some(fields[name]) else None
  {
    if options != [] {
      FieldIsLast(isInt, options[..|options| - 1], name);
      EntriesAreOrdinary(name);
    }
  }

  /**
   The rebuilt rule prints with the header, mark and group of the one it was made from exactly when no
   option takes the place of one of these with another value.
   */
  lemma EntriesKeptIff(isInt: IsInt, r: Rule, h: string, options: seq<Opt>)
    requires HasHeader(r, h) && Reparsed(isInt, r, options).Parsed?
    ensures var out := Reparsed(isInt, r, options).rule;
            && (Header(out) == Some(h) <==> LastValue(out.options, "header").GetOr(Some(h)) == Some(h))
            && (Group(out) == Group(r) <==> LastValue(out.options, "group").GetOr(Group(r)) == Group(r))
            && (Enabled(out) == Enabled(r) <==>
                  (LastValue(out.options, "enabled").Some? ==>
                     Enabled(r) == (LastValue(out.options, "enabled").value.GetOr("") != "")))
  {
    ReparsedIff(isInt, r, h, options);
    var out := Reparsed(isInt, r, options).rule;
    assert ENTRIES[0] == "header" && ENTRIES[1] == "enabled" && ENTRIES[2] == "group";
    FieldIsLast(isInt, out.options, "header");
    FieldIsLast(isInt, out.options, "enabled");
    FieldIsLast(isInt, out.options, "group");
  }

  // ----- adding and removing

  predicate Named(options: seq<Opt>, name: string) {
    exists i :: 0 <= i < |options| && options[i].name == name
  }

  lemma {:induction false} WithoutNameConcat(a: seq<Opt>, b: seq<Opt>, name: string)
    ensures WithoutName(a + b, name) == WithoutName(a, name) + WithoutName(b, name)
  {
    if b == [] {
      assert a + b == a;
    } else {
      var init, last := b[..|b| - 1], b[|b| - 1];
      assert (a + b)[..|a + b| - 1] == a + init && (a + b)[|a + b| - 1] == last;
      WithoutNameConcat(a, init, name);
    }
  }

  lemma NamedIn(options: seq<Opt>, name: string, n: nat)
    requires n < |options|
    ensures Named(options[..n], name) || options[n].name == name ==> Named(options, name)
  {
    if Named(options[..n], name) {
      var i :| 0 <= i < n && options[..n][i].name == name;
      assert options[i].name == name;
    }
  }

  lemma {:induction false} WithoutNameAbsent(options: seq<Opt>, name: string)
    requires !Named(options, name)
    ensures WithoutName(options, name) == options
  {
    if options != [] {
      var n := |options| - 1;
      NamedIn(options, name, n);
      assert options == options[..n] + [options[n]];
      WithoutNameAbsent(options[..n], name);
    }
  }

  lemma {:induction false} WithoutNameHas(options: seq<Opt>, name: string)
    ensures !Named(WithoutName(options, name), name)
    ensures forall o :: o in WithoutName(options, name) ==> o in options
  {
    if options != [] {
      WithoutNameHas(options[..|options| - 1], name);
    }
  }

  /** Taking out what was put in leaves what was there of another name. */
  lemma RemoveInserted(options: seq<Opt>, o: Opt, index: Option<int>)
    ensures WithoutName(Inserted(options, o, index), o.name) == WithoutName(options, o.name)
  {
    var i := InsertPosition(|options|, index);
    WithoutNameConcat(options[..i] + [o], options[i..], o.name);
    WithoutNameConcat(options[..i], [o], o.name);
    WithoutNameConcat(options[..i], options[i..], o.name);
    assert options[..i] + options[i..] == options;
    assert [o][..0] == [] && WithoutName([o], o.name) == [];
  }

  lemma HarmlessMembers(isInt: IsInt, options: seq<Opt>, left: seq<Opt>)
    requires AllHarmless(isInt, options) && forall o :: o in left ==> o in options
    ensures AllHarmless(isInt, left)
  {
    forall i | 0 <= i < |left| ensures Harmless(isInt, left[i]) {
      assert left[i] in left;
      var j :| 0 <= j < |options| && options[j] == left[i];
    }
  }

  lemma NewlinesLeft(options: seq<Opt>, left: seq<Opt>)
    requires '\n' !in RebuildOptions(options) && forall o :: o in left ==> o in options
    ensures '\n' !in RebuildOptions(left)
  {
    NoNewlines(options);
    NoNewlines(left);
    forall i | 0 <= i < |left| ensures '\n' !in ShowOption(left[i]) {
      assert left[i] in left;
      var j :| 0 <= j < |options| && options[j] == left[i];
    }
  }

  /** Leaving options out keeps the others printable. */
  lemma WithoutNamePrintable(isInt: IsInt, options: seq<Opt>, name: string)
    requires Printable(isInt, options)
    ensures Printable(isInt, WithoutName(options, name))
  {
    WithoutNameLegible(options, name);
    WithoutNameHas(options, name);
    HarmlessMembers(isInt, options, WithoutName(options, name));
    NewlinesLeft(options, WithoutName(options, name));
  }

  lemma {:induction false} WithoutNameLegible(options: seq<Opt>, name: string)
    requires AllLegible(options)
    ensures AllLegible(WithoutName(options, name))
  {
    if options != [] {
      var init, last := options[..|options| - 1], options[|options| - 1];
      assert options == init + [last];
      forall i | 0 <= i < |init| ensures Legible(init[i], false) {
        assert Legible(options[i], i == |options| - 1);
      }
      assert Legible(options[|options| - 1], true);
      InnerLegible(init, name);
      var r := WithoutName(init, name);
      forall i | 0 <= i < |WithoutName(options, name)|
        ensures Legible(WithoutName(options, name)[i], i == |WithoutName(options, name)| - 1)
      {
        if i < |r| {
          assert Legible(r[i], false);
        }
      }
    }
  }

  lemma {:induction false} InnerLegible(options: seq<Opt>, name: string)
    requires forall i :: 0 <= i < |options| ==> Legible(options[i], false)
    ensures forall i :: 0 <= i < |WithoutName(options, name)| ==> Legible(WithoutName(options, name)[i], false)
  {
    WithoutNameHas(options, name);
    forall i | 0 <= i < |WithoutName(options, name)| ensures Legible(WithoutName(options, name)[i], false) {
      assert WithoutName(options, name)[i] in options;
    }
  }

  /** The printed list has a line break exactly if some option has. */
  lemma {:induction false} NoNewlines(options: seq<Opt>)
    ensures '\n' !in RebuildOptions(options) <==> forall i :: 0 <= i < |options| ==> '\n' !in ShowOption(options[i])
    decreases |options|
  {
    if options != [] {
      var o, more := options[0], options[1..];
      assert options == [o] + more;
      RebuildStep(o, more);
      NoNewlines(more);
      assert forall i :: 1 <= i < |options| ==> options[i] == more[i - 1];
      TailNewlines(o, more);
    }
  }

  lemma TailNewlines(o: Opt, more: seq<Opt>)
    ensures '\n' in ShowOption(o) + ";" + Tail(more) <==>
        '\n' in ShowOption(o) || (more != [] && '\n' in RebuildOptions(more))
  {
  }

  /**
   Adding an option and removing its name again restores the options exactly when there were any and the
   name was absent (or the list was one empty option and the name is empty); header, mark and group stay.
   */
  lemma AddThenRemove(isInt: IsInt, text: string, group: Option<string>, o: Opt, index: Option<int>)
    requires Parse(isInt, text, group).Parsed?
    requires Printable(isInt, Inserted(Parse(isInt, text, group).rule.options, o, index))
    ensures var r := Parse(isInt, text, group).rule;
            var added := AddOption(isInt, r, o, index);
            && added.Parsed? && added.rule.options == Inserted(r.options, o, index)
            && added.rule.header == r.header && added.rule.enabled == r.enabled && added.rule.group == r.group
            && var removed := RemoveOption(isInt, added.rule, o.name);
               && removed.Parsed?
               && removed.rule.header == r.header && removed.rule.enabled == r.enabled && removed.rule.group == r.group
               && (removed.rule.options == r.options <==>
                     r.options != [] && (!Named(r.options, o.name) || (o.name == "" && r.options == [Opt("", None)])))
  {
    var r := Parse(isInt, text, group).rule;
    ParsedReads(isInt, text, group);
    AddThenRemoveRule(isInt, r, o, index);
  }

  lemma AddThenRemoveRule(isInt: IsInt, r: Rule, o: Opt, index: Option<int>)
    requires Reads(isInt, r) && Printable(isInt, Inserted(r.options, o, index))
    ensures var added := AddOption(isInt, r, o, index);
            && added.Parsed? && added.rule.options == Inserted(r.options, o, index)
            && added.rule.header == r.header && added.rule.enabled == r.enabled && added.rule.group == r.group
            && var removed := RemoveOption(isInt, added.rule, o.name);
               && removed.Parsed?
               && removed.rule.header == r.header && removed.rule.enabled == r.enabled && removed.rule.group == r.group
               && (removed.rule.options == r.options <==>
                     r.options != [] && (!Named(r.options, o.name) || (o.name == "" && r.options == [Opt("", None)])))
  {
    var opts := Inserted(r.options, o, index);
    InsertedHarmless(isInt, r.options, o, index);
    HarmlessWrites(isInt, r.options);
    ReparsedKeeps(isInt, r, opts);
    var added := AddOption(isInt, r, o, index).rule;
    RemoveInserted(r.options, o, index);
    RemoveKeeps(isInt, added, o.name);
    LeftOver(r.options, o.name);
  }

  lemma InsertedHarmless(isInt: IsInt, options: seq<Opt>, o: Opt, index: Option<int>)
    requires AllHarmless(isInt, Inserted(options, o, index))
    ensures AllHarmless(isInt, options)
  {
    var i := InsertPosition(|options|, index);
    forall j | 0 <= j < |options| ensures Harmless(isInt, options[j]) {
      assert options[j] == Inserted(options, o, index)[if j < i then j else j + 1];
    }
  }

  lemma EmptiedKeeps(isInt: IsInt, r: Rule)
    requires SoundHeader(r.header) && NoneOwn(r.fields)
    ensures var out := Reparsed(isInt, r, []);
            && out.Parsed? && out.rule.options == [Opt("", None)] && out.rule.header == r.header
            && out.rule.enabled == r.enabled && out.rule.group == r.group
  {
    PrintsEmpty(isInt);
    ReparsedKeeps(isInt, r, [Opt("", None)]);
  }

  lemma RemovedEntries(r: Rule, name: string)
    requires NoneOwn(r.fields)
    ensures !Overwritten(r) && Removed(r, name) == r.(options := WithoutName(r.options, name))
  {
    OwnEntries(r);
  }

  /** What a removal leaves; nothing left prints as one empty option. */
  lemma RemoveKeeps(isInt: IsInt, r: Rule, name: string)
    requires SoundHeader(r.header) && NoneOwn(r.fields) && Printable(isInt, r.options)
    ensures var out := RemoveOption(isInt, r, name);
            && out.Parsed? && out.rule.header == r.header && out.rule.enabled == r.enabled && out.rule.group == r.group
            && out.rule.options ==
              if WithoutName(r.options, name) == [] then [Opt("", None)] else WithoutName(r.options, name)
  {
    var left := WithoutName(r.options, name);
    WithoutNamePrintable(isInt, r.options, name);
    RemovedEntries(r, name);
    if left == [] {
      EmptiedKeeps(isInt, Removed(r, name));
    } else {
      ReparsedKeeps(isInt, Removed(r, name), left);
    }
  }

  /** A removal from a list that was overwritten with the empty text leaves one empty option, whatever the name. */
  lemma RemoveFromEmptied(isInt: IsInt, r: Rule, name: string)
    requires SoundHeader(r.header) && "options" in r.fields && NoneOwn(r.fields - {"options"})
    ensures var out := RemoveOption(isInt, r, name);
            if r.fields["options"] != Some("") then out == Raises
            else out.Parsed? && out.rule.header == r.header && out.rule.enabled == r.enabled
                 && out.rule.group == r.group && out.rule.options == [Opt("", None)]
  {
    EmptiedKeeps(isInt, Removed(r, name));
  }

  /** No option and one empty option print alike. */
  lemma PrintsEmpty(isInt: IsInt)
    ensures RebuildOptions([]) == RebuildOptions([Opt("", None)]) && Printable(isInt, [Opt("", None)])
  {
    var e := Opt("", None);
    RebuildStep(e, []);
    assert [e] + [] == [e];
    assert RebuildOptions([e]) == ";" && RebuildOptions([]) == ";";
    assert forall i :: 0 <= i < |OWN| ==> OWN[i] != "";
  }

  lemma LeftOver(options: seq<Opt>, name: string)
    ensures (if WithoutName(options, name) == [] then [Opt("", None)] else WithoutName(options, name)) == options <==>
              options != [] && (!Named(options, name) || (name == "" && options == [Opt("", None)]))
  {
    WithoutNameHas(options, name);
    if !Named(options, name) {
      WithoutNameAbsent(options, name);
    }
    if options == [Opt("", None)] {
      assert options[0].name == "";
      assert options[..0] == [] && WithoutName(options, "") == [];
    }
    if WithoutName(options, name) == [] && options == [Opt("", None)] && Named(options, name) {
      assert name == options[0].name;
    }
  }
}
