/** Splitting a rebuilt option list gives the list back, and exactly when. */
module SnortRoundTrip {
  import opened Sequences
  import opened SnortOptions
  import opened Text
  import opened Wrappers

  /** An option as splitting leaves it: stripped, with its first colon in front of the value. */
  predicate Plain(o: Opt) {
    && Trimmed(IsSpace, o.name) && ':' !in o.name
    && (o.value.Some? ==> Trimmed(IsSpace, o.value.value))
  }

  /** An option whose end is found when it is printed, as the last one or not. */
  predicate Legible(o: Opt, last: bool) {
    Plain(o) && Unbroken(ShowOption(o)) && Ended(ShowOption(o), last)
  }

  predicate AllLegible(options: seq<Opt>) {
    forall i :: 0 <= i < |options| ==> Legible(options[i], i == |options| - 1)
  }

  // ----- one option

  lemma PlainText(o: Opt)
    requires Plain(o)
    ensures Trimmed(IsSpace, ShowOption(o)) && ReadOption(ShowOption(o)) == o
  {
    var t := ShowOption(o);
    match o.value
    case None =>
    case Some(v) =>
      assert t == o.name + [':'] + v;
      IndexOfConcat(o.name, ':', v);
      assert t[..|o.name|] == o.name && t[|o.name| + 1..] == v;
      StripIdentity(IsSpace, o.name);
      StripIdentity(IsSpace, v);
      assert t[0] == if o.name == "" then ':' else o.name[0];
      assert t[|t| - 1] == if v == "" then ':' else v[|v| - 1];
  }

  lemma ReadIsPlain(text: string)
    requires Trimmed(IsSpace, text)
    ensures Plain(ReadOption(text)) && |ShowOption(ReadOption(text))| <= |text|
  {
    var j := IndexOf(text, ':');
    if j < |text| {
      StripTrims(IsSpace, text[..j]);
      StripTrims(IsSpace, text[j + 1..]);
    }
  }

  /** Whatever is split off is plain. */
  lemma {:induction false} SplitIsPlain(text: string)
    ensures SplitOptions(text).Some? ==>
        forall i :: 0 <= i < |SplitOptions(text).value| ==> Plain(SplitOptions(text).value[i])
    decreases |text|
  {
    if SplitOptions(text).Some? && text != "" {
      var at := FindOptEnd(text).value;
      TrimShorter(Back(text, at + 1));
      SplitIsPlain(Trim(Back(text, at + 1)));
      StripTrims(IsSpace, Front(text, at));
      ReadIsPlain(Trim(Front(text, at)));
    }
  }

  // ----- the printed list

  function Tail(more: seq<Opt>): string {
    if more == [] then "" else " " + RebuildOptions(more)
  }

  lemma RebuildStep(o: Opt, more: seq<Opt>)
    ensures RebuildOptions([o] + more) == ShowOption(o) + ";" + Tail(more)
  {
    assert ([o] + more)[1..] == more;
    var texts, t := ShowOptions(more), ShowOption(o);
    assert ([t] + texts)[1..] == texts;
    if more == [] {
      assert t + ";" + "" == t + ";";
    } else {
      JoinedText(t, Join("; ", texts));
    }
  }

  lemma JoinedText(t: string, joined: string)
    ensures t + "; " + joined + ";" == t + ";" + (" " + (joined + ";"))
  {
    assert t + "; " == t + ";" + " ";
  }

  lemma RebuildEnds(options: seq<Opt>)
    ensures RebuildOptions(options) != "" && RebuildOptions(options)[|RebuildOptions(options)| - 1] == ';'
  {
  }

  lemma TailEnds(more: seq<Opt>)
    ensures Tail(more) == "" <==> more == []
    ensures more != [] ==> Tail(more)[|Tail(more)| - 1] == ';'
  {
  }

  lemma RebuildTrimmed(options: seq<Opt>)
    requires options != [] && Plain(options[0])
    ensures Trimmed(IsSpace, RebuildOptions(options))
  {
    RebuildStep(options[0], options[1..]);
    assert options == [options[0]] + options[1..];
    PlainText(options[0]);
    RebuildEnds(options);
  }

  /** Stripping what follows an option gives the print of the remaining options. */
  lemma TailTrim(more: seq<Opt>)
    requires more != [] ==> Plain(more[0])
    ensures Trim(Tail(more)) == if more == [] then "" else RebuildOptions(more)
  {
    if more != [] {
      RebuildTrimmed(more);
      StripLeftPadding(IsSpace, " ", RebuildOptions(more));
      StripIdentity(IsSpace, RebuildOptions(more));
      StripTwice(RebuildOptions(more));
    }
  }

  lemma StripTwice(s: string)
    requires Trimmed(IsSpace, s)
    ensures StripLeft(IsSpace, s) == s && StripRight(IsSpace, s) == s
  {
  }

  /** One step of splitting a printed list whose first option is found. */
  lemma SplitStep(o: Opt, more: seq<Opt>)
    requires Plain(o) && (more != [] ==> Plain(more[0]))
    requires FindOptEnd(RebuildOptions([o] + more)) == Some(|ShowOption(o)|)
    ensures SplitOptions(RebuildOptions([o] + more)) ==
              match SplitOptions(if more == [] then "" else RebuildOptions(more))
              case None => None
              case Some(rest) => Some([o] + rest)
  {
    var t, s := ShowOption(o), RebuildOptions([o] + more);
    RebuildStep(o, more);
    assert Front(s, |t|) == t && Back(s, |t| + 1) == Tail(more);
    PlainText(o);
    StripIdentity(IsSpace, t);
    TailTrim(more);
  }

  /** A legible list is read back. */
  lemma {:induction false} RebuildSplits(options: seq<Opt>)
    requires options != [] && AllLegible(options)
    ensures SplitOptions(RebuildOptions(options)) == Some(options)
    decreases |options|
  {
    var o, more := options[0], options[1..];
    assert options == [o] + more;
    assert Legible(options[0], more == []);
    RebuildStep(o, more);
    TailEnds(more);
    FindOptEndIff(ShowOption(o), Tail(more));
    forall i | 0 <= i < |more| ensures Legible(more[i], i == |more| - 1) {
      assert Legible(options[i + 1], i + 1 == |options| - 1);
    }
    SplitStep(o, more);
    if more != [] {
      RebuildSplits(more);
    }
  }

  // ----- the other direction

  /** Stripping does not reach the inner semicolon. */
  lemma TrimInner(a: string, rest: string)
    requires Trimmed(IsSpace, a)
    ensures |Trim(a + ";" + rest)| > |a| && Trim(a + ";" + rest)[..|a| + 1] == a + ";"
  {
    var w := a + ";" + rest;
    assert w[|a|] == ';' && w[..|a| + 1] == a + ";";
    assert StripLeft(IsSpace, w) == w by {
      assert w[0] == if a == "" then ';' else a[0];
    }
    TrimRightInner(w, |a|);
  }

  lemma {:induction false} TrimRightInner(w: string, k: nat)
    requires k < |w| && !IsSpace(w[k])
    ensures |StripRight(IsSpace, w)| > k && StripRight(IsSpace, w)[..k + 1] == w[..k + 1]
  {
    if IsSpace(w[|w| - 1]) {
      TrimRightInner(w[..|w| - 1], k);
      assert w[..|w| - 1][..k + 1] == w[..k + 1];
    }
  }

  /** Text beyond the semicolon would become part of the option. */
  lemma LongerReads(o: Opt, rest: string)
    requires Plain(o)
    ensures ReadOption(Trim(ShowOption(o) + ";" + rest)) != o
  {
    var t := ShowOption(o);
    PlainText(o);
    TrimInner(t, rest);
    var u := Trim(t + ";" + rest);
    assert u == t + ";" + u[|t| + 1..];
    if o.value.Some? {
      var v := o.value.value;
      var more := v + ";" + u[|t| + 1..];
      assert u == o.name + [':'] + more;
      IndexOfConcat(o.name, ':', more);
      assert u[|o.name| + 1..] == more;
      TrimInner(v, u[|t| + 1..]);
    }
  }

  /** Ending anywhere else yields another option. */
  lemma OnlyOneEnd(o: Opt, s: string, tail: string, at: nat)
    requires Plain(o) && s == ShowOption(o) + ";" + tail && at != |ShowOption(o)|
    ensures ReadOption(Trim(Front(s, at))) != o
  {
    var t := ShowOption(o);
    if at < |t| {
      StripTrims(IsSpace, Front(s, at));
      ReadIsPlain(Trim(Front(s, at)));
    } else {
      var rest := Front(s, at)[|t| + 1..];
      assert Front(s, at) == t + ";" + rest;
      LongerReads(o, rest);
    }
  }

  /** What splitting does first. */
  lemma SplitHead(text: string)
    requires text != "" && SplitOptions(text).Some?
    ensures var at := FindOptEnd(text);
            && at.Some? && at.value >= 0 && SplitOptions(text).value != []
            && SplitOptions(text).value[0] == ReadOption(Trim(Front(text, at.value)))
            && SplitOptions(Trim(Back(text, at.value + 1))) == Some(SplitOptions(text).value[1..])
  {
  }

  /** If the list is read back, its first option ends where it was printed to, and the rest is read back. */
  lemma FirstReadBack(o: Opt, more: seq<Opt>)
    requires SplitOptions(RebuildOptions([o] + more)) == Some([o] + more)
    requires Plain(o) && (more != [] ==> Plain(more[0]))
    ensures Legible(o, more == [])
    ensures more != [] ==> SplitOptions(RebuildOptions(more)) == Some(more)
  {
    var s := RebuildOptions([o] + more);
    RebuildStep(o, more);
    RebuildEnds([o] + more);
    SplitHead(s);
    var at := FindOptEnd(s).value;
    if at != |ShowOption(o)| {
      OnlyOneEnd(o, s, Tail(more), at);
    }
    TailEnds(more);
    FindOptEndIff(ShowOption(o), Tail(more));
    SplitStep(o, more);
    assert ([o] + more)[1..] == more;
  }

  lemma {:induction false} SplitBackLegible(options: seq<Opt>)
    requires SplitOptions(RebuildOptions(options)) == Some(options) && options != []
    requires forall i :: 0 <= i < |options| ==> Plain(options[i])
    ensures AllLegible(options)
    decreases |options|
  {
    var o, more := options[0], options[1..];
    assert options == [o] + more;
    FirstReadBack(o, more);
    if more != [] {
      SplitBackLegible(more);
    }
    forall i | 0 <= i < |options| ensures Legible(options[i], i == |options| - 1) {
      assert i > 0 ==> Legible(more[i - 1], i - 1 == |more| - 1);
    }
  }

  /** The round trip holds exactly for non-empty lists of legible options. */
  lemma OptionsRoundTripIff(options: seq<Opt>)
    ensures SplitOptions(RebuildOptions(options)) == Some(options) <==> options != [] && AllLegible(options)
  {
    if options != [] && AllLegible(options) {
      RebuildSplits(options);
    }
    if SplitOptions(RebuildOptions(options)) == Some(options) {
      RebuildEnds(options);
      SplitHead(RebuildOptions(options));
      SplitIsPlain(RebuildOptions(options));
      SplitBackLegible(options);
    }
  }
}
