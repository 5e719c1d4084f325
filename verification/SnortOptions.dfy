/**
 The option list of a rule: printed with semicolons between, and split again by a search that steps
 two characters past every escaped semicolon.
 */
module SnortOptions {
  import opened Sequences
  import opened Text
  import opened Wrappers

  // ----- finding the end of an option

  /** A character by its index, counted from the end when negative; None when there is none. */
  function CharAt(s: string, k: int): Option<char> {
    if 0 <= k < |s| then Some(s[k]) else if -|s| <= k < 0 then Some(s[|s| + k]) else None
  }

  /** Position of the first semicolon at or after an offset, or the length. */
  function NextSemicolon(s: string, offset: nat): (j: nat)
    ensures j <= |s|
    ensures j < |s| ==> offset <= j && s[j] == ';'
    ensures forall k :: offset <= k < j ==> s[k] != ';'
    ensures offset <= |s| && j == |s| ==> forall k :: offset <= k < |s| ==> s[k] != ';'
  {
    if offset >= |s| then |s|
    else
      var i := IndexOf(s[offset..], ';');
      assert forall k :: offset <= k < offset + i ==>
        s[k] == s[offset..][k - offset] && s[offset..][k - offset] in s[offset..][..i];
      offset + i
  }

  /** The search from an offset: None when an index is out of range. */
  function FindFrom(s: string, offset: nat): Option<int>
    decreases |s| + 4 - offset
  {
    var j := NextSemicolon(s, offset);
    var at: int := if j < |s| then j else offset - 1;
    match CharAt(s, at - 1)
    case None => None
    case Some(c) => if c == '\\' then FindFrom(s, offset + 2) else Some(at)
  }

  function FindOptEnd(s: string): Option<int> {
    FindFrom(s, 0)
  }

  predicate Escaped(s: string, j: nat)
    requires j <= |s|
  {
    j > 0 && s[j - 1] == '\\'
  }

  /** The search steps over a position right behind an escaped semicolon at an even index. */
  predicate Missed(s: string, j: nat)
    requires j <= |s|
  {
    j >= 2 && s[j - 1] == ';' && j % 2 == 1 && s[j - 2] == '\\'
  }

  /** No semicolon inside the text ends it. */
  predicate Unbroken(t: string) {
    forall j :: 0 <= j < |t| && t[j] == ';' ==> Escaped(t, j) || Missed(t, j)
  }

  /** The semicolon behind the text ends it; at the end of all options even if it is stepped over. */
  predicate Ended(t: string, last: bool) {
    !Escaped(t, |t|) && (last || !Missed(t, |t|))
  }

  /** The first semicolon that the search meets is never one it steps over. */
  lemma NextNotMissed(s: string, offset: nat)
    requires offset % 2 == 0 && NextSemicolon(s, offset) < |s|
    ensures !Missed(s, NextSemicolon(s, offset))
  {
  }

  /** Everything before the offset was passed over. */
  ghost predicate Passed(s: string, offset: nat) {
    forall j :: 0 <= j < offset && j < |s| && s[j] == ';' ==> Escaped(s, j) || Missed(s, j)
  }

  lemma PassedNext(s: string, offset: nat)
    requires offset % 2 == 0 && Passed(s, offset)
    requires NextSemicolon(s, offset) < |s| ==> Escaped(s, NextSemicolon(s, offset))
    ensures Passed(s, offset + 2)
  {
    var next := NextSemicolon(s, offset);
    forall j | 0 <= j < offset + 2 && j < |s| && s[j] == ';' ensures Escaped(s, j) || Missed(s, j) {
      if j >= offset {
        assert next <= j;
        if next < j {
          assert j == offset + 1 && next == offset;
        }
      }
    }
  }

  lemma FindStep(s: string, offset: nat, at: int)
    requires at == if NextSemicolon(s, offset) < |s| then NextSemicolon(s, offset) else offset - 1
    ensures CharAt(s, at - 1).None? ==> FindFrom(s, offset) == None
    ensures CharAt(s, at - 1) == Some('\\') ==> FindFrom(s, offset) == FindFrom(s, offset + 2) && offset <= |s| + 1
    ensures CharAt(s, at - 1).Some? && CharAt(s, at - 1) != Some('\\') ==> FindFrom(s, offset) == Some(at)
  {
  }

  /** The text up to its semicolon, with a semicolon at the very end too. */
  ghost predicate Begins(t: string, s: string) {
    |t| < |s| && s[|t|] == ';' && s[|s| - 1] == ';' && forall k :: 0 <= k < |t| ==> s[k] == t[k]
  }

  /** Before its end the search meets escaped semicolons only, and does not step past the end unnoticed. */
  lemma WholeStep(t: string, s: string, offset: nat)
    requires Begins(t, s) && Unbroken(t) && Ended(t, |s| == |t| + 1) && offset % 2 == 0 && offset <= |t|
    ensures NextSemicolon(s, offset) <= |t|
    ensures NextSemicolon(s, offset) < |t| ==>
              && NextSemicolon(s, offset) > 0 && s[NextSemicolon(s, offset) - 1] == '\\'
              && (offset + 2 <= |t| || (|s| == |t| + 1 && Missed(t, |t|) && offset + 1 == |t|))
  {
    var j := NextSemicolon(s, offset);
    assert j <= |t|;
    if j < |t| {
      NextNotMissed(s, offset);
      assert t[j] == ';' && !Missed(t, j);
      assert Escaped(t, j);
      assert s[j - 1] == t[j - 1];
    }
  }

  lemma EndStep(t: string, s: string)
    requires Begins(t, s) && Ended(t, |s| == |t| + 1)
    ensures CharAt(s, |t| - 1).Some? && CharAt(s, |t| - 1) != Some('\\')
  {
  }

  /** An option text followed by its semicolon, where the search can find it. */
  ghost predicate Findable(t: string, s: string) {
    Begins(t, s) && Unbroken(t) && Ended(t, |s| == |t| + 1)
  }

  /** Where the search can be before it has found the end. */
  ghost predicate Searching(t: string, s: string, offset: nat) {
    offset % 2 == 0 && (offset <= |t| || (|s| == |t| + 1 && Missed(t, |t|) && offset == |s|))
  }

  /** One step of the search: it stops at the end, or goes on with the same answer. */
  lemma SearchStep(t: string, s: string, offset: nat)
    requires Findable(t, s) && Searching(t, s, offset)
    ensures FindFrom(s, offset) == Some(|t|)
         || (offset < |t| && Searching(t, s, offset + 2) && FindFrom(s, offset) == FindFrom(s, offset + 2))
  {
    if offset > |t| {
      FindPastEnd(t, s);
    } else {
      WholeStep(t, s, offset);
      var j := NextSemicolon(s, offset);
      if j < |t| {
        FindSkips(s, offset, j);
      } else {
        SearchStops(t, s, offset);
      }
    }
  }

  lemma SearchStops(t: string, s: string, offset: nat)
    requires Findable(t, s) && NextSemicolon(s, offset) == |t|
    ensures FindFrom(s, offset) == Some(|t|)
  {
    EndStep(t, s);
    FindStep(s, offset, |t|);
  }

  /** A text that is not broken is found whole. */
  lemma {:induction false} FindsWhole(t: string, s: string, offset: nat)
    requires Findable(t, s) && Searching(t, s, offset)
    ensures FindFrom(s, offset) == Some(|t|)
    decreases |t| + 2 - offset
  {
    SearchStep(t, s, offset);
    if FindFrom(s, offset) != Some(|t|) {
      FindsWhole(t, s, offset + 2);
    }
  }

  lemma FindSkips(s: string, offset: nat, j: nat)
    requires j == NextSemicolon(s, offset) && 0 < j < |s| && s[j - 1] == '\\'
    ensures FindFrom(s, offset) == FindFrom(s, offset + 2)
  {
    FindStep(s, offset, j);
  }

  /** A hidden semicolon at the very end is the position that the failing search returns. */
  lemma FindPastEnd(t: string, s: string)
    requires Begins(t, s) && |s| == |t| + 1 && Missed(t, |t|)
    ensures FindFrom(s, |s|) == Some(|t|)
  {
    assert s[|t| - 1] == t[|t| - 1] == ';';
    FindStep(s, |s|, |s| - 1);
  }

  /** What the search can return on a text that ends in a semicolon. */
  ghost predicate Plausible(s: string, r: Option<int>) {
    match r
    case None => true
    case Some(at) =>
      at == |s| || (0 <= at < |s| && Passed(s, at) && s[at] == ';' && !Escaped(s, at) &&
        (at < |s| - 1 ==> !Missed(s, at)))
  }

  lemma EscapedThere(s: string, j: nat)
    ensures j < |s| && CharAt(s, j - 1) == Some('\\') && s[|s| - 1] != '\\' ==> Escaped(s, j)
  {
  }

  lemma {:induction false} FindIsPlausible(s: string, offset: nat)
    requires s != "" && s[|s| - 1] == ';' && offset % 2 == 0 && Passed(s, offset)
    ensures Plausible(s, FindFrom(s, offset))
    decreases |s| + 4 - offset
  {
    var j := NextSemicolon(s, offset);
    var at := if j < |s| then j else offset - 1;
    FindStep(s, offset, at);
    if CharAt(s, at - 1) == Some('\\') {
      EscapedThere(s, j);
      PassedNext(s, offset);
      FindIsPlausible(s, offset + 2);
    } else if CharAt(s, at - 1).Some? {
      StopIsPlausible(s, offset, at);
    }
  }

  lemma StopIsPlausible(s: string, offset: nat, at: int)
    requires s != "" && s[|s| - 1] == ';' && offset % 2 == 0 && Passed(s, offset)
    requires at == if NextSemicolon(s, offset) < |s| then NextSemicolon(s, offset) else offset - 1
    requires CharAt(s, at - 1).Some? && CharAt(s, at - 1) != Some('\\')
    ensures Plausible(s, Some(at))
  {
    if NextSemicolon(s, offset) < |s| {
      NextNotMissed(s, offset);
      assert Passed(s, at);
    } else {
      assert offset >= |s|;
    }
  }

  /** An option's end is found exactly when its text is not broken and its semicolon not hidden. */
  lemma FindOptEndIff(t: string, rest: string)
    requires rest == "" || rest[|rest| - 1] == ';'
    ensures FindOptEnd(t + ";" + rest) == Some(|t|) <==> Unbroken(t) && Ended(t, rest == "")
  {
    var s := t + ";" + rest;
    if Unbroken(t) && Ended(t, rest == "") {
      assert Findable(t, s);
      FindsWhole(t, s, 0);
    }
    if FindOptEnd(s) == Some(|t|) {
      assert s[|s| - 1] == ';';
      FindIsPlausible(s, 0);
      forall j | 0 <= j < |t| && t[j] == ';' ensures Escaped(t, j) || Missed(t, j) {
        assert s[j] == t[j];
      }
    }
  }

  /** One turn of the program's loop, which takes the position relative to the offset. */
  lemma TurnStep(s: string, offset: nat, j: nat, i: int, before: Option<char>, end: Option<int>)
    requires j == NextSemicolon(s, offset) && i == (if j < |s| then j - offset else -1)
    requires before == CharAt(s, offset + i - 1) && end == FindFrom(s, offset)
    ensures before.None? ==> end == None
    ensures before == Some('\\') ==> end == FindFrom(s, offset + 2) && offset <= |s| + 1
    ensures before.Some? && before != Some('\\') ==> end == Some(offset + i)
  {
    FindStep(s, offset, offset + i);
  }

  /** The search as the program performs it. */
  method FindEnd(options: string) returns (at: Option<int>)
    ensures at == FindOptEnd(options)
  {
    ghost var end := FindOptEnd(options);
    var offset := 0;
    while true
      invariant end == FindFrom(options, offset)
      decreases |options| + 4 - offset
    {
      var j := NextSemicolon(options, offset);
      var i := if j < |options| then j - offset else -1;
      var before := CharAt(options, offset + i - 1);
      TurnStep(options, offset, j, i, before, end);
      if before.None? {
        return None;
      }
      if before.value == '\\' {
        offset := offset + 2;
      } else {
        return Some(offset + i);
      }
    }
  }

  // ----- splitting and printing

  datatype Opt = Opt(name: string, value: Option<string>)

  function Trim(s: string): string {
    Strip(IsSpace, s)
  }

  /** An option split at its first colon. */
  function ReadOption(text: string): Opt {
    var j := IndexOf(text, ':');
    if j < |text| then Opt(Trim(text[..j]), Some(Trim(text[j + 1..]))) else Opt(text, None)
  }

  function Front(s: string, k: nat): string {
    if k <= |s| then s[..k] else s
  }

  function Back(s: string, k: nat): string {
    if k <= |s| then s[k..] else []
  }

  lemma TrimShorter(s: string)
    ensures |Trim(s)| <= |s|
  {
    StripTrims(IsSpace, s);
  }

  /** None when the search raises or finds no end. */
  function SplitOptions(text: string): Option<seq<Opt>>
    decreases |text|
  {
    if text == "" then Some([])
    else
      match FindOptEnd(text)
      case None => None
      case Some(at) =>
        if at < 0 then None
        else
          TrimShorter(Back(text, at + 1));
          match SplitOptions(Trim(Back(text, at + 1)))
          case None => None
          case Some(more) => Some([ReadOption(Trim(Front(text, at)))] + more)
  }

  /** The first option and the options of what remains. */
  lemma SplitUnfolds(text: string, at: int)
    requires text != "" && FindOptEnd(text) == Some(at) && at >= 0
    ensures SplitOptions(text) ==
              match SplitOptions(Trim(Back(text, at + 1)))
              case None => None
              case Some(more) => Some([ReadOption(Trim(Front(text, at)))] + more)
  {
  }

  function ShowOption(o: Opt): string {
    match o.value
    case None => o.name
    case Some(v) => o.name + ":" + v
  }

  function ShowOptions(options: seq<Opt>): seq<string> {
    if options == [] then [] else [ShowOption(options[0])] + ShowOptions(options[1..])
  }

  function RebuildOptions(options: seq<Opt>): string {
    Join("; ", ShowOptions(options)) + ";"
  }
}
