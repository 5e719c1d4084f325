/** Which texts are rules: the words of a header, and the options that can be written into a rule. */
module SnortLaws {
  import opened Sequences
  import opened SnortOptions
  import opened SnortRoundTrip
  import opened SnortRules
  import opened Text
  import opened Wrappers

  // ----- the header

  predicate IsAction(w: string) {
    w == "alert" || w == "config" || w == "log" || w == "pass" || w == "activate" || w == "dynamic" ||
    w == "drop" || w == "reject" || w == "sdrop"
  }

  lemma ActionsAre(w: string)
    ensures w in ACTIONS <==> IsAction(w)
  {
    assert ACTIONS[0] == "alert" && ACTIONS[1] == "config" && ACTIONS[2] == "log" && ACTIONS[3] == "pass";
    assert ACTIONS[4] == "activate" && ACTIONS[5] == "dynamic" && ACTIONS[6] == "drop";
    assert ACTIONS[7] == "reject" && ACTIONS[8] == "sdrop";
  }

  /** A word, or a list in brackets that may hold blanks. */
  predicate IsToken(w: string) {
    && w != "" && Trimmed(IsSpace, w)
    && if w[0] == '[' then w[|w| - 1] == ']' && ']' !in w[..|w| - 1] else ' ' !in w
  }

  /** Tokens with a blank behind each but the last. */
  function Spaced(words: seq<string>): string {
    if words == [] then ""
    else if |words| == 1 then words[0]
    else words[0] + " " + Spaced(words[1..])
  }

  lemma {:induction false} SpacedTrimmed(words: seq<string>)
    requires words != [] && forall w :: w in words ==> IsToken(w)
    ensures Spaced(words) != "" && Trimmed(IsSpace, Spaced(words)) && Spaced(words)[0] == words[0][0]
  {
    assert words[0] in words;
    if |words| > 1 {
      var rest := words[1..];
      assert forall w :: w in rest ==> w in words;
      SpacedTrimmed(rest);
      var s := words[0] + " " + Spaced(rest);
      assert s[|s| - 1] == Spaced(rest)[|Spaced(rest)| - 1];
    }
  }

  lemma TrimBehindBlank(s: string)
    requires Trimmed(IsSpace, s)
    ensures Trim(" " + s) == s
  {
    StripLeftPadding(IsSpace, " ", s);
    StripIdentity(IsSpace, s);
    assert StripLeft(IsSpace, s) == s;
  }

  lemma CutBehind(w: string, rest: string, n: nat)
    requires n < |w|
    ensures var s := w + " " + rest;
            && s == w[..n] + [w[n]] + (w[n + 1..] + " " + rest)
            && s[..|w|] == w && s[|w|..] == " " + rest && s[0] == w[0]
  {
  }

  lemma NextBracket(w: string, rest: string)
    requires IsToken(w) && w[0] == '[' && rest != "" && Trimmed(IsSpace, rest)
    ensures NextToken(w + " " + rest) == Some((w, rest))
  {
    var n := |w| - 1;
    CutBehind(w, rest, n);
    IndexOfConcat(w[..n], ']', w[n + 1..] + " " + rest);
    StripIdentity(IsSpace, w);
    TrimBehindBlank(rest);
  }

  lemma NextWord(w: string, rest: string)
    requires IsToken(w) && w[0] != '[' && rest != "" && Trimmed(IsSpace, rest)
    ensures NextToken(w + " " + rest) == Some((w, rest))
  {
    CutBehind(w, rest, 0);
    IndexOfConcat(w, ' ', rest);
    assert w + " " + rest == w + [' '] + rest;
    StripIdentity(IsSpace, w);
    TrimBehindBlank(rest);
  }

  lemma NextSpaced(w: string, rest: string)
    requires IsToken(w) && rest != "" && Trimmed(IsSpace, rest)
    ensures NextToken(w + " " + rest) == Some((w, rest))
  {
    if w[0] == '[' {
      NextBracket(w, rest);
    } else {
      NextWord(w, rest);
    }
  }

  lemma NextLast(w: string)
    requires IsToken(w)
    ensures NextToken(w) == Some((w, ""))
  {
    StripIdentity(IsSpace, w);
    if w[0] == '[' {
      var n := |w| - 1;
      IndexOfConcat(w[..n], ']', "");
      assert w == w[..n] + [']'] + "";
      assert w[..n + 1] == w && w[n + 1..] == "";
      assert Trim("") == "";
    } else {
      IndexOfAbsent(w, ' ');
    }
  }

  lemma {:induction false} IndexOfAbsent(s: string, c: char)
    requires c !in s
    ensures IndexOf(s, c) == |s|
  {
    if s != "" {
      IndexOfAbsent(s[1..], c);
    }
  }

  lemma {:induction false} TokensOfSpaced(words: seq<string>)
    requires forall w :: w in words ==> IsToken(w)
    ensures Tokens(Spaced(words), |words|) == Some(words)
  {
    if words != [] {
      var w, rest := words[0], words[1..];
      assert w in words && forall v :: v in rest ==> v in words;
      assert words == [w] + rest;
      TokensOfSpaced(rest);
      if rest == [] {
        NextLast(w);
      } else {
        SpacedTrimmed(rest);
        NextSpaced(w, Spaced(rest));
      }
    }
  }

  /** Seven tokens are a header exactly if the first one is an action, and they are read as they are. */
  lemma SevenTokens(words: seq<string>)
    requires |words| == 7 && forall w :: w in words ==> IsToken(w)
    ensures HeaderTokens(Spaced(words)) == Some(words)
    ensures GoodHeader(Spaced(words)) <==> IsAction(words[0])
  {
    TokensOfSpaced(words);
    ActionsAre(words[0]);
    var s := Spaced(words);
    assert s[|words[0]|] == ' ';
  }

  /** One word is a header, that of a decoder rule, exactly if it is an action. */
  lemma OneWord(w: string)
    requires ' ' !in w
    ensures GoodHeader(w) <==> IsAction(w)
  {
    ActionsAre(w);
  }

  /** No parenthesis, by its code. */
  predicate NoParen(h: string) {
    forall i :: 0 <= i < |h| ==> h[i] as int != 40 && h[i] as int != 41
  }

  predicate OneLine(s: string) {
    forall i :: 0 <= i < |s| ==> s[i] as int != 10
  }

  lemma MatchParts(body: string)
    requires Matches(body)
    ensures var h, o := body[..FirstParen(body)], OptionsOf(body);
            h != "" && NoParen(h) && OneLine(o) && body == h + ("(" + o + ")")
  {
    var p := FirstParen(body);
    assert body == body[..p] + ("(" + body[p + 1..|body| - 1] + ")");
  }

  lemma PartsAt(h: string, o: string)
    ensures var body := h + ("(" + o + ")");
            && |body| == |h| + |o| + 2 && body[|h|] == '(' && body[|body| - 1] == ')'
            && body[|h| + 1..|body| - 1] == o
  {
  }

  lemma PartsMatch(h: string, o: string)
    requires h != "" && NoParen(h) && OneLine(o)
    ensures Matches(h + ("(" + o + ")"))
  {
    PartsAt(h, o);
    FirstParenAt(h, "(" + o + ")");
  }

  /**
   Behind its marks a rule is a header without parentheses, and options on one line between the first
   parenthesis and one at the very end.
   */
  lemma PatternIff(body: string)
    ensures Matches(body) <==> exists h, o :: h != "" && NoParen(h) && OneLine(o) && body == h + ("(" + o + ")")
  {
    if Matches(body) {
      MatchParts(body);
    }
    if h, o :| h != "" && NoParen(h) && OneLine(o) && body == h + ("(" + o + ")") {
      PartsMatch(h, o);
    }
  }

  // ----- which options can be written

  /** Whether an option can follow the ones before it without an exception. */
  ghost predicate Writable(isInt: IsInt, before: seq<Opt>, o: Opt) {
    && (forall b :: b in before ==> b.name != "options")
    && (o.name == "gid" || o.name == "sid" || o.name == "rev" ==> o.value.Some? && isInt(o.value.value))
    && (o.name == "metadata" || o.name == "msg" ==> o.value.Some?)
    && (o.name == "reference" ==> forall b :: b in before ==> b.name != "references")
  }

  predicate Special(name: string) {
    name == "gid" || name == "sid" || name == "rev" || name == "metadata" || name == "msg" || name == "flowbits" ||
    name == "reference"
  }

  lemma NumbersAre(name: string)
    ensures name in ["gid", "sid", "rev"] <==> name == "gid" || name == "sid" || name == "rev"
  {
  }

  ghost predicate AllWritable(isInt: IsInt, options: seq<Opt>) {
    forall i :: 0 <= i < |options| ==> Writable(isInt, options[..i], options[i])
  }

  /** The rule's own entries that options replace: those of any name but seven, each with its last value. */
  ghost predicate AreFields(options: seq<Opt>, fields: map<string, Option<string>>) {
    forall name :: if name in fields then !Special(name) && LastValue(options, name) == Some(fields[name])
                   else Special(name) || LastValue(options, name) == None
  }

  lemma {:induction false} LastValueIff(options: seq<Opt>, name: string)
    ensures LastValue(options, name).Some? <==> exists o :: o in options && o.name == name
  {
    if options != [] {
      var init, last := options[..|options| - 1], options[|options| - 1];
      assert options == init + [last];
      LastValueIff(init, name);
    }
  }

  lemma SpecialsApart()
    ensures !Special("options") && !Special("references")
  {
    assert "options"[0] == 'o' && "references"[9] == 's' && |"references"| == 10;
  }

  lemma FieldPresent(options: seq<Opt>, fields: map<string, Option<string>>, name: string)
    requires AreFields(options, fields) && !Special(name)
    ensures name in fields <==> exists o :: o in options && o.name == name
  {
    LastValueIff(options, name);
  }

  lemma WriteIs(isInt: IsInt, before: seq<Opt>, fields: map<string, Option<string>>, o: Opt)
    requires AreFields(before, fields)
    ensures WriteOption(isInt, fields, o).Some? <==> Writable(isInt, before, o)
    ensures WriteOption(isInt, fields, o).Some? ==>
              WriteOption(isInt, fields, o).value == if Special(o.name) then fields else fields[o.name := o.value]
  {
    SpecialsApart();
    FieldPresent(before, fields, "options");
    FieldPresent(before, fields, "references");
    NumbersAre(o.name);
  }

  lemma FieldsNext(init: seq<Opt>, o: Opt, fields: map<string, Option<string>>)
    requires AreFields(init, fields)
    ensures AreFields(init + [o], if Special(o.name) then fields else fields[o.name := o.value])
  {
    var all, next := init + [o], if Special(o.name) then fields else fields[o.name := o.value];
    assert all[..|init|] == init && all[|init|] == o;
    forall name
      ensures if name in next then !Special(name) && LastValue(all, name) == Some(next[name])
              else Special(name) || LastValue(all, name) == None
    {
      assert name in fields || Special(name) || LastValue(init, name) == None;
    }
  }

  lemma AllWritableSnoc(isInt: IsInt, init: seq<Opt>, o: Opt)
    ensures AllWritable(isInt, init + [o]) <==> AllWritable(isInt, init) && Writable(isInt, init, o)
  {
    var all := init + [o];
    assert all[..|init|] == init && all[|init|] == o;
    forall i | 0 <= i < |init| ensures all[..i] == init[..i] && all[i] == init[i] {
    }
    if AllWritable(isInt, all) {
      forall i | 0 <= i < |init| ensures Writable(isInt, init[..i], init[i]) {
        assert Writable(isInt, all[..i], all[i]);
      }
    }
  }

  /**
   Writing the options into a rule raises exactly at a number that is none, at `metadata` or `msg` without a
   value, behind an option named `options`, or at a reference behind an option named `references`. Otherwise
   every option of another name than seven is an entry of the rule.
   */
  lemma {:induction false} WritesIff(isInt: IsInt, options: seq<Opt>)
    ensures WriteOptions(isInt, options).Some? <==> AllWritable(isInt, options)
    ensures WriteOptions(isInt, options).Some? ==> AreFields(options, WriteOptions(isInt, options).value)
  {
    if options != [] {
      var init, last := options[..|options| - 1], options[|options| - 1];
      assert options == init + [last];
      WritesIff(isInt, init);
      AllWritableSnoc(isInt, init, last);
      if WriteOptions(isInt, init).Some? {
        var fields := WriteOptions(isInt, init).value;
        WriteIs(isInt, init, fields, last);
        FieldsNext(init, last, fields);
      }
    }
  }

  // ----- what a changed rule looks like

  /** Every option as it stands in a rule: its name, a colon and the value if there is one, and a semicolon. */
  function Printed(options: seq<Opt>): string {
    if options == [] then ""
    else
      var o := options[0];
      o.name + (if o.value.Some? then ":" + o.value.value else "") + ";" +
      if |options| == 1 then "" else " " + Printed(options[1..])
  }

  lemma {:induction false} RebuiltIsPrinted(options: seq<Opt>)
    ensures RebuildOptions(options) == if options == [] then ";" else Printed(options)
  {
    if options != [] {
      var o, more := options[0], options[1..];
      assert options == [o] + more;
      RebuildStep(o, more);
      RebuiltIsPrinted(more);
      ShownText(o);
    }
  }

  lemma ShownText(o: Opt)
    ensures ShowOption(o) == o.name + if o.value.Some? then ":" + o.value.value else ""
  {
    if o.value.Some? {
      assert o.name + ":" + o.value.value == o.name + (":" + o.value.value);
    }
  }

  /** A rebuilt rule prints as its mark, its header and the options in parentheses. */
  lemma ChangedRuleText(isInt: IsInt, r: Rule, h: string, options: seq<Opt>)
    requires HasHeader(r, h) && Reparsed(isInt, r, options).Parsed? && options != []
    ensures var out := Reparsed(isInt, r, options).rule;
            Format(out) == (if Enabled(out) then "" else "# ") + (h + " (" + Printed(options) + ")")
  {
    ReparsedIsBody(isInt, r, h, options);
    RebuiltIsPrinted(options);
    var body := h + " (" + RebuildOptions(options) + ")";
    ParseRebuilt(h, RebuildOptions(options));
    StripIdentity(IsSpace, body);
    assert !IsSpace(body[0]);
  }

  /** A text that is commented out by a hash is a disabled rule, one without is an enabled rule. */
  lemma MarkDecides(isInt: IsInt, text: string, group: Option<string>)
    requires Parse(isInt, text, group).Parsed?
    ensures var t := Strip(IsSpace, text);
            t != "" && (Parse(isInt, text, group).rule.enabled <==> t[0] as int != 35)
  {
  }

  /** Where an option goes: at the end, at a place from the front, or at one from the end, cut off at both ends. */
  lemma InsertedAt(options: seq<Opt>, o: Opt, k: int)
    ensures Inserted(options, o, None) == options + [o]
    ensures k >= |options| ==> Inserted(options, o, Some(k)) == options + [o]
    ensures 0 <= k < |options| ==> Inserted(options, o, Some(k)) == options[..k] + [o] + options[k..]
    ensures -|options| <= k < 0 ==>
              Inserted(options, o, Some(k)) == options[..|options| + k] + [o] + options[|options| + k..]
    ensures k < -|options| ==> Inserted(options, o, Some(k)) == [o] + options
  {
    assert options[..|options|] == options && options[|options|..] == [];
    assert options[..0] == [] && options[0..] == options;
  }
}
