/** Folding logical lines into physical ones of bounded width, and reading them back. */
module LdifLines {
  import opened Wrappers
  import opened Sequences
  import opened Base64

  const CR: Byte := 13
  const SPACE: Byte := 32
  const HASH: Byte := 35

  /** The two line separators RFC 2849 knows. */
  predicate IsLineSep(sep: Bytes) {
    sep == [LF] || sep == [CR, LF]
  }

  /** A line that can be folded and read back: no line break inside, no comment, no continuation. */
  predicate Unbroken(line: Bytes) {
    forall i :: 0 <= i < |line| ==> line[i] != LF && line[i] != CR
  }

  predicate Logical(line: Bytes) {
    Unbroken(line) && (line != [] ==> line[0] != SPACE && line[0] != HASH)
  }

  function FragmentEnd(line: Bytes, cols: nat, pos: nat): (end: nat)
    requires cols >= 2 && pos < |line|
    ensures pos < end <= |line| && end - pos <= cols - 1
  {
    if pos + cols - 1 <= |line| then pos + cols - 1 else |line|
  }

  /** The continuation lines from a position on. */
  function Continuations(line: Bytes, cols: nat, sep: Bytes, pos: nat): seq<Bytes>
    requires cols >= 2 && pos <= |line|
    decreases |line| - pos
  {
    if pos == |line| then []
    else
      var end := FragmentEnd(line, cols, pos);
      [[SPACE] + line[pos..end] + sep] + Continuations(line, cols, sep, end)
  }

  /** The physical lines of one logical line. */
  function Fragments(line: Bytes, cols: nat, sep: Bytes): seq<Bytes>
    requires cols >= 2
  {
    if |line| <= cols then [line + sep]
    else [line[..cols] + sep] + Continuations(line, cols, sep, cols)
  }

  function Fold(line: Bytes, cols: nat, sep: Bytes): Bytes
    requires cols >= 2
  {
    Flatten(Fragments(line, cols, sep))
  }

  function FoldAll(lines: seq<Bytes>, cols: nat, sep: Bytes): Bytes
    requires cols >= 2
  {
    if lines == [] then [] else Fold(lines[0], cols, sep) + FoldAll(lines[1..], cols, sep)
  }

  // ----- reading

  /** Length of the first physical line, its line feed included. */
  function LineLength(s: Bytes): (n: nat)
    ensures n <= |s| && (s != [] ==> n > 0)
  {
    var i := IndexOf(s, LF);
    if i < |s| then i + 1 else |s|
  }

  function PhysicalLines(s: Bytes): seq<Bytes> {
    if s == [] then [] else [s[..LineLength(s)]] + PhysicalLines(s[LineLength(s)..])
  }

  function StripSep(line: Bytes): Bytes {
    if |line| >= 2 && line[|line| - 2] == CR && line[|line| - 1] == LF then line[..|line| - 2]
    else if |line| >= 1 && line[|line| - 1] == LF then line[..|line| - 1]
    else line
  }

  predicate Continues(line: Bytes) {
    line != [] && line[0] == SPACE
  }

  function Tail(s: Bytes): Bytes {
    if s == [] then [] else s[1..]
  }

  /** How many lines at the front continue the one before. */
  function Run(lines: seq<Bytes>): (n: nat)
    ensures n <= |lines|
  {
    if lines != [] && Continues(lines[0]) then 1 + Run(lines[1..]) else 0
  }

  function Glue(lines: seq<Bytes>): Bytes {
    if lines == [] then [] else Glue(lines[..|lines| - 1]) + Tail(StripSep(lines[|lines| - 1]))
  }

  /** A comment is dropped, any other line kept. */
  function Kept(line: Bytes): seq<Bytes> {
    if line != [] && line[0] == HASH then [] else [line]
  }

  /** Logical lines, comments left out. */
  function Unfold(lines: seq<Bytes>): seq<Bytes> {
    if lines == [] then []
    else
      var n := Run(lines[1..]);
      var line := StripSep(lines[0]) + Glue(lines[1..][..n]);
      Kept(line) + Unfold(lines[1..][n..])
  }

  // ----- every physical line fits

  predicate Fits(line: Bytes, cols: nat) {
    |StripSep(line)| <= cols
  }

  lemma StripSepOf(body: Bytes, sep: Bytes)
    requires IsLineSep(sep) && Unbroken(body)
    ensures StripSep(body + sep) == body
  {
    if sep == [LF] {
      assert body != [] ==> (body + sep)[|body| - 1] == body[|body| - 1];
    }
  }

  lemma {:induction false} ContinuationsFit(line: Bytes, cols: nat, sep: Bytes, pos: nat)
    requires cols >= 2 && pos <= |line| && IsLineSep(sep) && Unbroken(line)
    ensures forall l :: l in Continuations(line, cols, sep, pos) ==> Fits(l, cols) && Continues(l)
    decreases |line| - pos
  {
    if pos < |line| {
      var end := FragmentEnd(line, cols, pos);
      StripSepOf([SPACE] + line[pos..end], sep);
      ContinuationsFit(line, cols, sep, end);
    }
  }

  /** No physical line is wider than the columns allowed. */
  lemma FragmentsFit(line: Bytes, cols: nat, sep: Bytes)
    requires cols >= 2 && IsLineSep(sep) && Unbroken(line)
    ensures forall l :: l in Fragments(line, cols, sep) ==> Fits(l, cols)
  {
    if |line| <= cols {
      StripSepOf(line, sep);
    } else {
      StripSepOf(line[..cols], sep);
      ContinuationsFit(line, cols, sep, cols);
    }
  }

  // ----- splitting the folded text

  /** A physical line that is complete: one line feed, at its end. */
  predicate Complete(line: Bytes) {
    line != [] && IndexOf(line, LF) == |line| - 1
  }

  lemma CompleteLine(body: Bytes, sep: Bytes)
    requires IsLineSep(sep) && Unbroken(body)
    ensures Complete(body + sep)
  {
    if sep == [LF] {
      IndexOfConcat(body, LF, []);
      assert body + [LF] + [] == body + sep;
    } else {
      IndexOfConcat(body + [CR], LF, []);
      assert body + [CR] + [LF] + [] == body + sep;
    }
  }

  lemma {:induction false} IndexOfAppend(a: Bytes, b: Bytes)
    requires LF in a
    ensures IndexOf(a + b, LF) == IndexOf(a, LF)
  {
    var i := IndexOf(a, LF);
    assert a + b == a[..i] + [LF] + (a[i + 1..] + b);
    IndexOfConcat(a[..i], LF, a[i + 1..] + b);
  }

  lemma PhysicalLinesCons(line: Bytes, rest: Bytes)
    requires Complete(line)
    ensures PhysicalLines(line + rest) == [line] + PhysicalLines(rest)
  {
    IndexOfAppend(line, rest);
    assert (line + rest)[..|line|] == line && (line + rest)[|line|..] == rest;
  }

  lemma {:induction false} PhysicalLinesFlatten(lines: seq<Bytes>, rest: Bytes)
    requires forall l :: l in lines ==> Complete(l)
    ensures PhysicalLines(Flatten(lines) + rest) == lines + PhysicalLines(rest)
  {
    if lines == [] {
      assert Flatten(lines) + rest == rest;
    } else {
      var tail := Flatten(lines[1..]) + rest;
      assert Complete(lines[0]) by {
        assert lines[0] in lines;
      }
      PhysicalLinesFlatten(lines[1..], rest);
      PhysicalLinesCons(lines[0], tail);
      Assoc(lines[0], Flatten(lines[1..]), rest);
      Assoc([lines[0]], lines[1..], PhysicalLines(rest));
      assert lines == [lines[0]] + lines[1..];
    }
  }

  lemma {:induction false} ContinuationsComplete(line: Bytes, cols: nat, sep: Bytes, pos: nat)
    requires cols >= 2 && pos <= |line| && IsLineSep(sep) && Unbroken(line)
    ensures forall l :: l in Continuations(line, cols, sep, pos) ==> Complete(l)
    decreases |line| - pos
  {
    if pos < |line| {
      var end := FragmentEnd(line, cols, pos);
      CompleteLine([SPACE] + line[pos..end], sep);
      ContinuationsComplete(line, cols, sep, end);
    }
  }

  lemma FragmentsComplete(line: Bytes, cols: nat, sep: Bytes)
    requires cols >= 2 && IsLineSep(sep) && Unbroken(line)
    ensures forall l :: l in Fragments(line, cols, sep) ==> Complete(l)
  {
    if |line| <= cols {
      CompleteLine(line, sep);
    } else {
      CompleteLine(line[..cols], sep);
      ContinuationsComplete(line, cols, sep, cols);
    }
  }

  // ----- gluing the fragments

  lemma {:induction false} RunOfContinuations(lines: seq<Bytes>, more: seq<Bytes>)
    requires forall l :: l in lines ==> Continues(l)
    requires more == [] || !Continues(more[0])
    ensures Run(lines + more) == |lines|
  {
    if lines == [] {
      assert lines + more == more;
    } else {
      assert (lines + more)[1..] == lines[1..] + more;
      RunOfContinuations(lines[1..], more);
    }
  }

  lemma {:induction false} GlueCons(line: Bytes, lines: seq<Bytes>)
    ensures Glue([line] + lines) == Tail(StripSep(line)) + Glue(lines)
  {
    if lines == [] {
      assert [line] + lines == [line];
      assert [line][..0] == [];
    } else {
      var init, last := lines[..|lines| - 1], lines[|lines| - 1];
      assert ([line] + lines)[..|lines|] == [line] + init;
      GlueCons(line, init);
      Assoc(Tail(StripSep(line)), Glue(init), Tail(StripSep(last)));
    }
  }

  lemma ContinuationText(text: Bytes, sep: Bytes)
    requires IsLineSep(sep) && Unbroken(text)
    ensures Tail(StripSep([SPACE] + text + sep)) == text
  {
    StripSepOf([SPACE] + text, sep);
  }

  lemma GlueText(text: Bytes, sep: Bytes, rest: seq<Bytes>)
    requires IsLineSep(sep) && Unbroken(text)
    ensures Glue([[SPACE] + text + sep] + rest) == text + Glue(rest)
  {
    GlueCons([SPACE] + text + sep, rest);
    ContinuationText(text, sep);
  }

  lemma {:induction false} GlueContinuations(line: Bytes, cols: nat, sep: Bytes, pos: nat)
    requires cols >= 2 && pos <= |line| && IsLineSep(sep) && Unbroken(line)
    ensures Glue(Continuations(line, cols, sep, pos)) == line[pos..]
    decreases |line| - pos
  {
    if pos < |line| {
      var end := FragmentEnd(line, cols, pos);
      GlueContinuations(line, cols, sep, end);
      GlueText(line[pos..end], sep, Continuations(line, cols, sep, end));
      SliceJoin(line, pos, end);
    }
  }

  lemma SliceJoin(line: Bytes, pos: nat, end: nat)
    requires pos <= end <= |line|
    ensures line[pos..end] + line[end..] == line[pos..]
  {
  }

  /** A line and its continuations unfold to one logical line. */
  lemma UnfoldGroup(first: Bytes, rest: seq<Bytes>, more: seq<Bytes>)
    requires forall l :: l in rest ==> Continues(l)
    requires more == [] || !Continues(more[0])
    ensures var line := StripSep(first) + Glue(rest);
      Unfold([first] + (rest + more)) == Kept(line) + Unfold(more)
  {
    assert ([first] + (rest + more))[1..] == rest + more;
    RunOfContinuations(rest, more);
    assert (rest + more)[..|rest|] == rest && (rest + more)[|rest|..] == more;
  }

  lemma FragmentsGlue(line: Bytes, cols: nat, sep: Bytes) returns (first: Bytes, rest: seq<Bytes>)
    requires cols >= 2 && IsLineSep(sep) && Unbroken(line)
    ensures Fragments(line, cols, sep) == [first] + rest
    ensures forall l :: l in rest ==> Continues(l)
    ensures StripSep(first) + Glue(rest) == line
  {
    if |line| <= cols {
      first, rest := line + sep, [];
      StripSepOf(line, sep);
      assert line + [] == line;
    } else {
      first, rest := line[..cols] + sep, Continuations(line, cols, sep, cols);
      StripSepOf(line[..cols], sep);
      GlueContinuations(line, cols, sep, cols);
      ContinuationsFit(line, cols, sep, cols);
      SliceJoin(line, 0, cols);
    }
  }

  /** The fragments of a logical line unfold to that line. */
  lemma UnfoldFragments(line: Bytes, cols: nat, sep: Bytes, more: seq<Bytes>)
    requires cols >= 2 && IsLineSep(sep) && Logical(line)
    requires more == [] || !Continues(more[0])
    ensures Unfold(Fragments(line, cols, sep) + more) == [line] + Unfold(more)
  {
    var first, rest := FragmentsGlue(line, cols, sep);
    Assoc([first], rest, more);
    UnfoldGroup(first, rest, more);
  }

  lemma FirstFragment(line: Bytes, cols: nat, sep: Bytes)
    requires cols >= 2 && IsLineSep(sep) && Logical(line)
    ensures Fragments(line, cols, sep) != [] && !Continues(Fragments(line, cols, sep)[0])
  {
  }

  /** Reading the folded text gives the logical lines back, and every physical line fits. */
  lemma {:induction false} UnfoldFoldAll(lines: seq<Bytes>, cols: nat, sep: Bytes)
    requires cols >= 2 && IsLineSep(sep) && forall l :: l in lines ==> Logical(l)
    ensures var physical := PhysicalLines(FoldAll(lines, cols, sep));
      && Unfold(physical) == lines
      && (forall l :: l in physical ==> Fits(l, cols))
      && (physical == [] || !Continues(physical[0]))
  {
    if lines != [] {
      var line := lines[0];
      var more := PhysicalLines(FoldAll(lines[1..], cols, sep));
      UnfoldFoldAll(lines[1..], cols, sep);
      assert Logical(line);
      FragmentsComplete(line, cols, sep);
      PhysicalLinesFlatten(Fragments(line, cols, sep), FoldAll(lines[1..], cols, sep));
      FragmentsFit(line, cols, sep);
      FirstFragment(line, cols, sep);
      UnfoldFragments(line, cols, sep, more);
      assert lines == [line] + lines[1..];
    }
  }

  lemma {:induction false} FoldAllConcat(a: seq<Bytes>, b: seq<Bytes>, cols: nat, sep: Bytes)
    requires cols >= 2
    ensures FoldAll(a + b, cols, sep) == FoldAll(a, cols, sep) + FoldAll(b, cols, sep)
  {
    if a == [] {
      assert a + b == b;
    } else {
      assert (a + b)[1..] == a[1..] + b;
      FoldAllConcat(a[1..], b, cols, sep);
    }
  }
}
