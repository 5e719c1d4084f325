/** The parser's loops, and rules as objects whose option list is changed in place. */
module SnortParser {
  import opened Sequences
  import opened SnortOptions
  import R = SnortRules
  import opened Text
  import opened Wrappers

  method ReadHeader(header: string) returns (tokens: Option<seq<string>>)
    ensures tokens == R.HeaderTokens(header)
  {
    if ' ' !in header {
      return Some([header]);
    }
    tokens := ReadTokens(header, 7);
  }

  /** The state machine over the header's tokens. */
  method ReadTokens(header: string, states: nat) returns (tokens: Option<seq<string>>)
    ensures tokens == R.Tokens(header, states)
  {
    ghost var all := R.Tokens(header, states);
    var rem, read, state := header, [], 0;
    PrependNothing(all);
    while state < states
      invariant state <= states && Reading(all, read, rem, states - state)
    {
      var next := ReadToken(rem);
      TokenStep(all, read, rem, states - state, next);
      if next.None? {
        return None;
      }
      read, rem, state := read + [next.value.0], next.value.1, state + 1;
    }
    TokensRead(all, read, rem);
    return Some(read);
  }

  /** One token, in brackets or up to a blank, and what follows it. */
  method ReadToken(rem: string) returns (next: Option<(string, string)>)
    ensures next == OneToken(rem)
  {
    if rem == "" {
      return None;
    }
    if rem[0] == '[' {
      var end := IndexOf(rem, ']');
      if end == |rem| {
        return None;
      }
      return Some((Trim(rem[..end + 1]), Trim(rem[end + 1..])));
    }
    var end := IndexOf(rem, ' ');
    if end == |rem| {
      return Some((rem, ""));
    }
    return Some((Trim(rem[..end]), Trim(rem[end..])));
  }

  function OneToken(rem: string): Option<(string, string)> {
    if rem == "" then None else R.NextToken(rem)
  }

  /** The tokens read, and what remains to be read for so many more. */
  ghost predicate Reading(all: Option<seq<string>>, read: seq<string>, rem: string, n: nat) {
    all == Prepend(read, R.Tokens(rem, n))
  }

  lemma TokensRead(all: Option<seq<string>>, read: seq<string>, rem: string)
    requires Reading(all, read, rem, 0)
    ensures all == Some(read)
  {
    assert read + [] == read;
  }

  lemma TokenStep(all: Option<seq<string>>, read: seq<string>, rem: string, n: nat, next: Option<(string, string)>)
    requires Reading(all, read, rem, n) && n > 0 && next == OneToken(rem)
    ensures next.None? ==> all == None
    ensures next.Some? ==> Reading(all, read + [next.value.0], next.value.1, n - 1)
  {
    if next.Some? {
      PrependStep(read, next.value.0, R.Tokens(next.value.1, n - 1));
    }
  }

  lemma PrependNothing<T>(more: Option<seq<T>>)
    ensures Prepend([], more) == more
  {
    if more.Some? {
      assert [] + more.value == more.value;
    }
  }

  function Prepend<T>(done: seq<T>, more: Option<seq<T>>): Option<seq<T>> {
    match more
    case None => None
    case Some(m) => Some(done + m)
  }

  lemma PrependStep<T>(done: seq<T>, x: T, more: Option<seq<T>>)
    ensures Prepend(done, Prepend([x], more)) == Prepend(done + [x], more)
  {
    if more.Some? {
      assert done + ([x] + more.value) == (done + [x]) + more.value;
    }
  }

  /** Split the options off one by one and write each into the rule. */
  method ReadOptions(isInt: R.IsInt, text: string) returns (read: Option<(seq<Opt>, map<string, Option<string>>)>)
    ensures read.Some? <==> SplitOptions(text).Some? && R.WriteOptions(isInt, SplitOptions(text).value).Some?
    ensures read.Some? ==>
        read.value == (SplitOptions(text).value, R.WriteOptions(isInt, SplitOptions(text).value).value)
  {
    var rem, options, fields := text, [], map[];
    PrependNothing(SplitOptions(text));
    while rem != ""
      invariant Progress(isInt, text, rem, options, fields)
      decreases |rem|
    {
      var index := FindEnd(rem);
      if index.None? || index.value < 0 {
        return None;
      }
      var option, rest := ReadOption(Trim(Front(rem, index.value))), Trim(Back(rem, index.value + 1));
      ProgressStep(isInt, text, rem, options, fields, index.value, option, rest);
      var written := R.WriteOption(isInt, fields, option);
      if written.None? {
        return None;
      }
      rem, options, fields := rest, options + [option], written.value;
    }
    assert options + [] == options;
    return Some((options, fields));
  }

  /** The options split off, and what writing them has made of the rule. */
  ghost predicate Progress(isInt: R.IsInt, text: string, rem: string, options: seq<Opt>,
    fields: map<string, Option<string>>)
  {
    SplitOptions(text) == Prepend(options, SplitOptions(rem)) && R.WriteOptions(isInt, options) == Some(fields)
  }

  lemma ProgressStep(isInt: R.IsInt, text: string, rem: string, options: seq<Opt>, fields: map<string, Option<string>>,
    at: int, option: Opt, rest: string)
    requires Progress(isInt, text, rem, options, fields) && rem != "" && FindOptEnd(rem) == Some(at) && at >= 0
    requires option == ReadOption(Trim(Front(rem, at))) && rest == Trim(Back(rem, at + 1))
    ensures |rest| < |rem|
    ensures var written := R.WriteOption(isInt, fields, option);
            && (written.Some? ==> Progress(isInt, text, rest, options + [option], written.value))
            && (written.None? && SplitOptions(text).Some? ==> R.WriteOptions(isInt, SplitOptions(text).value).None?)
  {
    SplitAgain(rem, at);
    PrependStep(options, option, SplitOptions(rest));
    WriteNext(isInt, options, option, SplitOptions(rest));
  }

  lemma SplitAgain(rem: string, at: int)
    requires rem != "" && FindOptEnd(rem) == Some(at) && at >= 0
    ensures SplitOptions(rem) == Prepend([ReadOption(Trim(Front(rem, at)))], SplitOptions(Trim(Back(rem, at + 1))))
    ensures |Trim(Back(rem, at + 1))| < |rem|
  {
    TrimShorter(Back(rem, at + 1));
    SplitUnfolds(rem, at);
  }

  /** Writing one more option; once writing has raised, it has raised. */
  lemma WriteNext(isInt: R.IsInt, options: seq<Opt>, o: Opt, more: Option<seq<Opt>>)
    requires R.WriteOptions(isInt, options).Some?
    ensures R.WriteOptions(isInt, options + [o]) == R.WriteOption(isInt, R.WriteOptions(isInt, options).value, o)
    ensures R.WriteOptions(isInt, options + [o]).None? && more.Some? ==>
        R.WriteOptions(isInt, options + [o] + more.value).None?
  {
    assert (options + [o])[..|options|] == options;
    if R.WriteOptions(isInt, options + [o]).None? && more.Some? {
      WriteStopped(isInt, options + [o], more.value);
    }
  }

  lemma {:induction false} WriteStopped(isInt: R.IsInt, options: seq<Opt>, more: seq<Opt>)
    requires R.WriteOptions(isInt, options).None?
    ensures R.WriteOptions(isInt, options + more).None?
  {
    if more == [] {
      assert options + more == options;
    } else {
      assert (options + more)[..|options + more| - 1] == options + more[..|more| - 1];
      WriteStopped(isInt, options, more[..|more| - 1]);
    }
  }

  method ParseRule(isInt: R.IsInt, text: string, group: Option<string>) returns (out: R.Outcome)
    ensures out == R.Parse(isInt, text, group)
  {
    var buf := Trim(text);
    var enabled := buf == "" || buf[0] != '#';
    var body := StripLeft(R.IsMark, buf);
    if !R.Matches(body) {
      return R.NoRule;
    }
    var header := R.HeaderOf(body);
    var tokens := ReadHeader(header);
    if tokens.None? || tokens.value[0] !in R.ACTIONS {
      return R.NoRule;
    }
    var read := ReadOptions(isInt, R.OptionsOf(body));
    if read.None? {
      return R.Raises;
    }
    return R.Parsed(R.Rule(enabled, header, group, read.value.0, Trim(body), read.value.1));
  }

  /** A rule whose option list the two operations change before they reparse it. */
  class SnortRule {
    var rule: R.Rule

    constructor (rule: R.Rule)
      ensures this.rule == rule
    {
      this.rule := rule;
    }

    method Rebuild() returns (text: string)
      ensures text == RebuildOptions(rule.options)
    {
      var texts := [];
      for i := 0 to |rule.options|
        invariant texts == ShowOptions(rule.options[..i])
      {
        ShowSnoc(rule.options[..i], rule.options[i]);
        assert rule.options[..i + 1] == rule.options[..i] + [rule.options[i]];
        texts := texts + [ShowOption(rule.options[i])];
      }
      assert rule.options[..|rule.options|] == rule.options;
      return Join("; ", texts) + ";";
    }

    method Reparse(isInt: R.IsInt) returns (out: R.Outcome)
      ensures out == R.Reparsed(isInt, rule, rule.options)
    {
      var header := R.Header(rule);
      if "options" in rule.fields || header.None? {
        return R.Raises;
      }
      var options := Rebuild();
      out := ParseRule(isInt, R.Mark(R.Enabled(rule)) + (Trim(header.value) + " (" + options + ")"), R.Group(rule));
    }

    method AddOption(isInt: R.IsInt, o: Opt, index: Option<int>) returns (out: R.Outcome)
      modifies this
      ensures out == R.AddOption(isInt, old(rule), o, index)
      ensures rule == if "options" in old(rule).fields then old(rule)
                      else old(rule).(options := R.Inserted(old(rule).options, o, index))
    {
      if "options" in rule.fields {
        return R.Raises;
      }
      var i := R.InsertPosition(|rule.options|, index);
      rule := rule.(options := rule.options[..i] + [o] + rule.options[i..]);
      out := Reparse(isInt);
    }

    method RemoveOption(isInt: R.IsInt, name: string) returns (out: R.Outcome)
      modifies this
      ensures out == R.RemoveOption(isInt, old(rule), name)
      ensures rule == if R.Overwritten(old(rule)) then old(rule) else R.Removed(old(rule), name)
    {
      if R.Overwritten(rule) {
        return R.Raises;
      }
      if "options" in rule.fields {
        rule := rule.(options := [], fields := rule.fields - {"options"});
        out := Reparse(isInt);
        return;
      }
      var options, kept := rule.options, [];
      for i := 0 to |options|
        invariant kept == R.WithoutName(options[..i], name)
      {
        assert options[..i + 1][..i] == options[..i];
        if options[i].name != name {
          kept := kept + [options[i]];
        }
      }
      assert options[..|options|] == options;
      rule := rule.(options := kept);
      out := Reparse(isInt);
    }
  }

  lemma {:induction false} ShowSnoc(options: seq<Opt>, o: Opt)
    ensures ShowOptions(options + [o]) == ShowOptions(options) + [ShowOption(o)]
  {
    if options == [] {
      assert [] + [o] == [o];
    } else {
      assert (options + [o])[1..] == options[1..] + [o];
      ShowSnoc(options[1..], o);
    }
  }
}
