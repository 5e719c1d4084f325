/** Masking addresses in log text: strip what cannot be printed, then two replace-all passes. */
module Sanitize {
  import opened Wrappers

  // ----- the two patterns

  predicate IsDigit(c: char) {
    '0' <= c <= '9'
  }

  predicate IsHex(c: char) {
    IsDigit(c) || 'A' <= c <= 'F' || 'a' <= c <= 'f'
  }

  predicate Octet(w: string) {
    1 <= |w| <= 3 && forall i :: 0 <= i < |w| ==> IsDigit(w[i])
  }

  predicate HexGroup(w: string) {
    1 <= |w| <= 4 && forall i :: 0 <= i < |w| ==> IsHex(w[i])
  }

  predicate Dot(w: string) {
    w == "."
  }

  predicate Colons(w: string) {
    w == ":" || w == "::"
  }

  /** Groups of one to three digits, each but the last followed by a dot. */
  predicate Dotted(w: string, dots: nat)
    decreases dots
  {
    if dots == 0 then Octet(w)
    else
      exists i, j :: 0 <= i < j <= |w| && Octet(w[..i]) && Dot(w[i..j]) && Dotted(w[j..], dots - 1)
  }

  /** Groups of one to four hexadecimal digits, each but the last followed by one or two colons. */
  predicate Coloned(w: string, separators: nat)
    decreases separators
  {
    if separators == 0 then HexGroup(w)
    else
      exists i, j :: 0 <= i < j <= |w| && HexGroup(w[..i]) && Colons(w[i..j]) && Coloned(w[j..], separators - 1)
  }

  predicate IPv4(w: string) {
    Dotted(w, 3)
  }

  predicate IPv6(w: string) {
    exists n: nat :: 3 <= n <= 7 && Coloned(w, n)
  }

  // ----- replace all

  type Pattern = string -> bool

  /** Length of a match at the start of the text, if the engine finds one. */
  type Finder = string -> Option<nat>

  /** The engine finds a match at the start of a text exactly when there is one; which one is its choice. */
  ghost predicate Finds(find: Finder, p: Pattern) {
    forall s ::
      match find(s)
      case Some(n) => 0 < n <= |s| && p(s[..n])
      case None => forall n :: 0 <= n <= |s| ==> !p(s[..n])
  }

  /** The longest match, which greedy repetition prefers for both patterns. */
  function Longest(p: Pattern, s: string, n: nat): Option<nat>
    requires n <= |s|
  {
    if p(s[..n]) then Some(n) else if n == 0 then None else Longest(p, s, n - 1)
  }

  const MASK := "<ip>"

  /** Leftmost matches, one after the other, each replaced by the mask. */
  function ReplaceAll(find: Finder, s: string): string {
    if s == [] then []
    else
      match find(s)
      case Some(n) =>
        if 0 < n <= |s| then MASK + ReplaceAll(find, s[n..]) else [s[0]] + ReplaceAll(find, s[1..])
      case None => [s[0]] + ReplaceAll(find, s[1..])
  }

  function StripNonPrintable(isPrint: char -> bool, s: string): (r: string)
    ensures forall c :: c in r <==> c in s && isPrint(c)
  {
    if s == [] then []
    else
      assert s == [s[0]] + s[1..];
      (if isPrint(s[0]) then [s[0]] else []) + StripNonPrintable(isPrint, s[1..])
  }

  function SanitizeForLog(isPrint: char -> bool, find6: Finder, find4: Finder, s: string): string {
    ReplaceAll(find4, ReplaceAll(find6, StripNonPrintable(isPrint, s)))
  }

  // ----- what is left

  /** No part of the text matches. */
  ghost predicate Free(p: Pattern, s: string) {
    forall i, j :: 0 <= i <= j <= |s| ==> !p(s[i..j])
  }

  ghost predicate Unmasked(w: string) {
    forall c :: c in w ==> c !in MASK
  }

  /** Matches are not empty and share no character with the mask. */
  ghost predicate Apart(p: Pattern) {
    forall w :: p(w) ==> w != [] && Unmasked(w)
  }

  predicate AddressChar(c: char) {
    IsHex(c) || c == '.' || c == ':'
  }

  lemma AddressCharsUnmasked(w: string)
    requires forall i :: 0 <= i < |w| ==> AddressChar(w[i])
    ensures Unmasked(w)
  {
    assert MASK == ['<', 'i', 'p', '>'];
  }

  lemma JoinChars(a: string, b: string, c: string, w: string)
    requires w == a + b + c
    requires forall i :: 0 <= i < |a| ==> AddressChar(a[i])
    requires forall i :: 0 <= i < |b| ==> AddressChar(b[i])
    requires forall i :: 0 <= i < |c| ==> AddressChar(c[i])
    ensures forall i :: 0 <= i < |w| ==> AddressChar(w[i])
  {
  }

  lemma SplitDotted(w: string, dots: nat) returns (a: string, b: string, c: string)
    requires dots > 0 && Dotted(w, dots)
    ensures w == a + b + c && Octet(a) && Dot(b) && Dotted(c, dots - 1)
  {
    var i, j :| 0 <= i < j <= |w| && Octet(w[..i]) && Dot(w[i..j]) && Dotted(w[j..], dots - 1);
    a, b, c := w[..i], w[i..j], w[j..];
  }

  lemma SplitColoned(w: string, separators: nat) returns (a: string, b: string, c: string)
    requires separators > 0 && Coloned(w, separators)
    ensures w == a + b + c && HexGroup(a) && Colons(b) && Coloned(c, separators - 1)
  {
    var i, j :| 0 <= i < j <= |w| && HexGroup(w[..i]) && Colons(w[i..j]) && Coloned(w[j..], separators - 1);
    a, b, c := w[..i], w[i..j], w[j..];
  }

  lemma {:induction false} DottedChars(w: string, dots: nat)
    requires Dotted(w, dots)
    ensures w != [] && forall i :: 0 <= i < |w| ==> AddressChar(w[i])
    decreases dots
  {
    if dots > 0 {
      var a, b, c := SplitDotted(w, dots);
      DottedChars(c, dots - 1);
      JoinChars(a, b, c, w);
    }
  }

  lemma {:induction false} ColonedChars(w: string, separators: nat)
    requires Coloned(w, separators)
    ensures w != [] && forall i :: 0 <= i < |w| ==> AddressChar(w[i])
    decreases separators
  {
    if separators > 0 {
      var a, b, c := SplitColoned(w, separators);
      ColonedChars(c, separators - 1);
      JoinChars(a, b, c, w);
    }
  }

  lemma PatternsApart()
    ensures Apart(IPv4) && Apart(IPv6)
  {
    forall w | IPv4(w) ensures w != [] && Unmasked(w) {
      DottedChars(w, 3);
      AddressCharsUnmasked(w);
    }
    forall w | IPv6(w) ensures w != [] && Unmasked(w) {
      var n: nat :| 3 <= n <= 7 && Coloned(w, n);
      ColonedChars(w, n);
      AddressCharsUnmasked(w);
    }
  }

  /** Up to the first mask the text is unchanged. */
  lemma {:induction false} UnmaskedPrefix(find: Finder, s: string, j: nat)
    requires j <= |ReplaceAll(find, s)| && Unmasked(ReplaceAll(find, s)[..j])
    ensures j <= |s| && ReplaceAll(find, s)[..j] == s[..j]
  {
    var r := ReplaceAll(find, s);
    if j > 0 {
      assert r[0] in r[..j];
      assert r == [s[0]] + ReplaceAll(find, s[1..]);
      var rest := ReplaceAll(find, s[1..]);
      assert rest[..j - 1] == r[..j][1..];
      UnmaskedPrefix(find, s[1..], j - 1);
      assert r[..j] == [s[0]] + rest[..j - 1];
    }
  }

  lemma FreeTail(p: Pattern, s: string, n: nat)
    requires Free(p, s) && n <= |s|
    ensures Free(p, s[n..])
  {
    forall i, j | 0 <= i <= j <= |s[n..]| ensures !p(s[n..][i..j]) {
      assert s[n..][i..j] == s[n + i..n + j];
    }
  }

  /** A part of masked text that matches begins after the mask. */
  lemma FreeAfterMask(p: Pattern, r: string)
    requires Apart(p) && Free(p, r)
    ensures Free(p, MASK + r)
  {
    var all := MASK + r;
    forall i, j | 0 <= i <= j <= |all| ensures !p(all[i..j]) {
      if i < 4 && i < j {
        assert all[i..j][0] == MASK[i];
        assert all[i..j][0] in all[i..j] && MASK[i] in MASK;
      } else if i < j {
        assert all[i..j] == r[i - 4..j - 4];
      }
    }
  }

  lemma FreeAfterChar(p: Pattern, c: char, r: string)
    requires Free(p, r) && forall j :: 0 <= j <= |r| + 1 ==> !p(([c] + r)[..j])
    ensures Free(p, [c] + r)
  {
    var all := [c] + r;
    forall i, j | 0 <= i <= j <= |all| ensures !p(all[i..j]) {
      if i == 0 {
        assert all[i..j] == all[..j];
      } else {
        assert all[i..j] == r[i - 1..j - 1];
      }
    }
  }

  lemma PrefixIsPart(p: Pattern, s: string, j: nat)
    requires j <= |s| && p(s[..j])
    ensures !Free(p, s)
  {
    assert s[0..j] == s[..j];
  }

  lemma NoPrefix(p: Pattern, s: string)
    requires Free(p, s)
    ensures forall n :: 0 <= n <= |s| ==> !p(s[..n])
  {
    forall n | 0 <= n <= |s| ensures !p(s[..n]) {
      assert s[0..n] == s[..n];
    }
  }

  /** One pass leaves no match of its pattern and makes none of another. */
  lemma {:induction false} ReplaceAllFrees(find: Finder, own: Pattern, p: Pattern, s: string)
    requires Finds(find, own) && Apart(p) && (p == own || Free(p, s))
    ensures Free(p, ReplaceAll(find, s))
  {
    if s != [] {
      match find(s) {
        case Some(n) =>
          if p != own { FreeTail(p, s, n); }
          ReplaceAllFrees(find, own, p, s[n..]);
          FreeAfterMask(p, ReplaceAll(find, s[n..]));
        case None =>
          if p != own { FreeTail(p, s, 1); }
          ReplaceAllFrees(find, own, p, s[1..]);
          var r := ReplaceAll(find, s);
          forall j | 0 <= j <= |r| ensures !p(r[..j]) {
            if p(r[..j]) {
              UnmaskedPrefix(find, s, j);
              PrefixIsPart(p, s, j);
            }
          }
          FreeAfterChar(p, s[0], ReplaceAll(find, s[1..]));
      }
    } else {
      assert s[0..0] == [];
    }
  }

  /** A pass changes nothing exactly when there is no match. */
  lemma {:induction false} ReplaceNone(find: Finder, p: Pattern, s: string)
    requires Finds(find, p) && Free(p, s)
    ensures ReplaceAll(find, s) == s
  {
    if s != [] {
      NoPrefix(p, s);
      FreeTail(p, s, 1);
      ReplaceNone(find, p, s[1..]);
    }
  }

  lemma {:induction false} ReplaceAllChars(find: Finder, s: string)
    ensures forall c :: c in ReplaceAll(find, s) ==> c in s || c in MASK
  {
    if s != [] {
      var n := match find(s) case Some(n) => if 0 < n <= |s| then n else 1 case None => 1;
      ReplaceAllChars(find, s[n..]);
      assert s == s[..n] + s[n..] && s[0] in s;
    }
  }

  lemma {:induction false} StripNothing(isPrint: char -> bool, s: string)
    requires forall c :: c in s ==> isPrint(c)
    ensures StripNonPrintable(isPrint, s) == s
  {
    if s != [] {
      assert s == [s[0]] + s[1..];
      StripNothing(isPrint, s[1..]);
    }
  }

  /** Printable, and without an address. */
  ghost predicate Clean(isPrint: char -> bool, s: string) {
    (forall c :: c in s ==> isPrint(c)) && Free(IPv6, s) && Free(IPv4, s)
  }

  /** Whichever matches the engine prefers: the output holds no address and nothing unprintable. */
  lemma SanitizedIsClean(isPrint: char -> bool, find6: Finder, find4: Finder, s: string)
    requires Finds(find6, IPv6) && Finds(find4, IPv4) && forall c :: c in MASK ==> isPrint(c)
    ensures Clean(isPrint, SanitizeForLog(isPrint, find6, find4, s))
  {
    var printable := StripNonPrintable(isPrint, s);
    var once := ReplaceAll(find6, printable);
    PatternsApart();
    ReplaceAllFrees(find6, IPv6, IPv6, printable);
    ReplaceAllFrees(find4, IPv4, IPv6, once);
    ReplaceAllFrees(find4, IPv4, IPv4, once);
    ReplaceAllChars(find6, printable);
    ReplaceAllChars(find4, once);
  }

  /** Text is left alone exactly when it is clean, so sanitizing twice is sanitizing once. */
  lemma SanitizeKeepsExactlyClean(isPrint: char -> bool, find6: Finder, find4: Finder, s: string)
    requires Finds(find6, IPv6) && Finds(find4, IPv4) && forall c :: c in MASK ==> isPrint(c)
    ensures SanitizeForLog(isPrint, find6, find4, s) == s <==> Clean(isPrint, s)
    ensures var once := SanitizeForLog(isPrint, find6, find4, s); SanitizeForLog(isPrint, find6, find4, once) == once
  {
    SanitizedIsClean(isPrint, find6, find4, s);
    CleanIsKept(isPrint, find6, find4, SanitizeForLog(isPrint, find6, find4, s));
    if Clean(isPrint, s) {
      CleanIsKept(isPrint, find6, find4, s);
    }
  }

  lemma CleanIsKept(isPrint: char -> bool, find6: Finder, find4: Finder, s: string)
    requires Finds(find6, IPv6) && Finds(find4, IPv4) && Clean(isPrint, s)
    ensures SanitizeForLog(isPrint, find6, find4, s) == s
  {
    StripNothing(isPrint, s);
    ReplaceNone(find6, IPv6, s);
    ReplaceNone(find4, IPv4, s);
  }

  // ----- only matches are masked

  datatype Piece = Kept(c: char) | Masked(address: string)

  function Source(pieces: seq<Piece>): string {
    if pieces == [] then []
    else (match pieces[0] case Kept(c) => [c] case Masked(w) => w) + Source(pieces[1..])
  }

  function Shown(pieces: seq<Piece>): string {
    if pieces == [] then []
    else (match pieces[0] case Kept(c) => [c] case Masked(_) => "<ip>") + Shown(pieces[1..])
  }

  lemma SourceCons(first: Piece, rest: seq<Piece>)
    ensures Source([first] + rest) == (match first case Kept(c) => [c] case Masked(w) => w) + Source(rest)
    ensures Shown([first] + rest) == (match first case Kept(c) => [c] case Masked(_) => MASK) + Shown(rest)
  {
    assert ([first] + rest)[1..] == rest;
  }

  /** The output is the input with some matches masked and every other character in place. */
  lemma {:induction false} OnlyMatchesMasked(find: Finder, p: Pattern, s: string) returns (pieces: seq<Piece>)
    requires Finds(find, p)
    ensures Source(pieces) == s && Shown(pieces) == ReplaceAll(find, s)
    ensures forall i :: 0 <= i < |pieces| && pieces[i].Masked? ==> p(pieces[i].address)
  {
    pieces := [];
    if s != [] {
      var first, n := Kept(s[0]), 1;
      match find(s) {
        case Some(m) => first, n := Masked(s[..m]), m;
        case None =>
      }
      var rest := OnlyMatchesMasked(find, p, s[n..]);
      assert s == s[..n] + s[n..];
      SourceCons(first, rest);
      pieces := [first] + rest;
    }
  }

  /** Masking replaces IPv6 addresses in what can be printed, and then IPv4 addresses in what that leaves. */
  lemma PassesInOrder(isPrint: char -> bool, find6: Finder, find4: Finder, s: string)
    returns (first: seq<Piece>, second: seq<Piece>)
    requires Finds(find6, IPv6) && Finds(find4, IPv4)
    ensures Source(first) == StripNonPrintable(isPrint, s)
    ensures Source(second) == Shown(first) && Shown(second) == SanitizeForLog(isPrint, find6, find4, s)
    ensures forall i :: 0 <= i < |first| && first[i].Masked? ==> IPv6(first[i].address)
    ensures forall i :: 0 <= i < |second| && second[i].Masked? ==> IPv4(second[i].address)
  {
    var t := StripNonPrintable(isPrint, s);
    first := OnlyMatchesMasked(find6, IPv6, t);
    second := OnlyMatchesMasked(find4, IPv4, ReplaceAll(find6, t));
  }

  // ----- the engine's choice

  lemma {:induction false} LongestFound(p: Pattern, s: string, n: nat)
    requires n <= |s|
    ensures match Longest(p, s, n)
            case Some(m) => m <= n && p(s[..m]) && forall k :: m < k <= n ==> !p(s[..k])
            case None => forall k :: 0 <= k <= n ==> !p(s[..k])
  {
    if !p(s[..n]) && n > 0 {
      LongestFound(p, s, n - 1);
    }
  }

  /** Taking the longest match is a choice the results above allow. */
  lemma LongestFinds(p: Pattern, find: Finder)
    requires Apart(p) && forall s :: find(s) == Longest(p, s, |s|)
    ensures Finds(find, p)
  {
    forall s ensures match find(s)
                     case Some(n) => 0 < n <= |s| && p(s[..n])
                     case None => forall n :: 0 <= n <= |s| ==> !p(s[..n])
    {
      LongestFound(p, s, |s|);
    }
  }

  function GreedyFinder(p: Pattern): Finder {
    s => Longest(p, s, |s|)
  }

  /** Finders for both patterns exist: the greedy ones. */
  lemma GreedyFinds()
    ensures Finds(GreedyFinder(IPv4), IPv4) && Finds(GreedyFinder(IPv6), IPv6)
  {
    PatternsApart();
    LongestFinds(IPv4, GreedyFinder(IPv4));
    LongestFinds(IPv6, GreedyFinder(IPv6));
  }

  // ----- the two patterns, spelled out

  /** So many digits, by their codes. */
  predicate DecimalDigits(w: string) {
    1 <= |w| <= 3 && forall i :: 0 <= i < |w| ==> 48 <= w[i] as int <= 57
  }

  predicate HexDigits(w: string) {
    1 <= |w| <= 4 && forall i :: 0 <= i < |w| ==>
      48 <= w[i] as int <= 57 || 65 <= w[i] as int <= 70 || 97 <= w[i] as int <= 102
  }

  lemma DigitCodes(w: string)
    ensures Octet(w) <==> DecimalDigits(w)
    ensures HexGroup(w) <==> HexDigits(w)
  {
  }

  /** Groups with a separator behind each but the last. */
  function Separated(groups: seq<string>, separators: seq<string>): string
    requires |groups| == |separators| + 1
  {
    if separators == [] then groups[0]
    else groups[0] + (separators[0] + Separated(groups[1..], separators[1..]))
  }

  predicate DecimalGroups(groups: seq<string>, separators: seq<string>) {
    && |groups| == |separators| + 1
    && (forall i :: 0 <= i < |groups| ==> DecimalDigits(groups[i]))
    && forall i :: 0 <= i < |separators| ==> separators[i] == "."
  }

  predicate HexGroups(groups: seq<string>, separators: seq<string>) {
    && |groups| == |separators| + 1
    && (forall i :: 0 <= i < |groups| ==> HexDigits(groups[i]))
    && forall i :: 0 <= i < |separators| ==> separators[i] == ":" || separators[i] == "::"
  }

  lemma SeparatedCons(a: string, s: string, groups: seq<string>, separators: seq<string>)
    requires |groups| == |separators| + 1
    ensures Separated([a] + groups, [s] + separators) == a + (s + Separated(groups, separators))
  {
    assert ([a] + groups)[1..] == groups && ([s] + separators)[1..] == separators;
  }

  lemma SplitTwice(w: string, i: nat, j: nat)
    requires i <= j <= |w|
    ensures w == w[..i] + (w[i..j] + w[j..])
  {
  }

  lemma PartsOf(a: string, s: string, rest: string)
    ensures var w, i, j := a + (s + rest), |a|, |a| + |s|; w[..i] == a && w[i..j] == s && w[j..] == rest
  {
  }

  lemma {:induction false} DottedApart(w: string, n: nat) returns (groups: seq<string>, separators: seq<string>)
    requires Dotted(w, n)
    ensures DecimalGroups(groups, separators) && |separators| == n && w == Separated(groups, separators)
    decreases n
  {
    if n == 0 {
      DigitCodes(w);
      groups, separators := [w], [];
    } else {
      var i, j :| 0 <= i < j <= |w| && Octet(w[..i]) && Dot(w[i..j]) && Dotted(w[j..], n - 1);
      DigitCodes(w[..i]);
      var gs, ss := DottedApart(w[j..], n - 1);
      groups, separators := [w[..i]] + gs, [w[i..j]] + ss;
      SeparatedCons(w[..i], w[i..j], gs, ss);
      SplitTwice(w, i, j);
    }
  }

  lemma {:induction false} SeparatedDotted(groups: seq<string>, separators: seq<string>)
    requires DecimalGroups(groups, separators)
    ensures Dotted(Separated(groups, separators), |separators|)
    decreases |separators|
  {
    DigitCodes(groups[0]);
    if separators != [] {
      var a, s, rest := groups[0], separators[0], Separated(groups[1..], separators[1..]);
      SeparatedDotted(groups[1..], separators[1..]);
      PartsOf(a, s, rest);
      var w, i, j := a + (s + rest), |a|, |a| + |s|;
      assert Octet(w[..i]) && Dot(w[i..j]) && Dotted(w[j..], |separators| - 1);
    }
  }

  lemma {:induction false} ColonedApart(w: string, n: nat) returns (groups: seq<string>, separators: seq<string>)
    requires Coloned(w, n)
    ensures HexGroups(groups, separators) && |separators| == n && w == Separated(groups, separators)
    decreases n
  {
    if n == 0 {
      DigitCodes(w);
      groups, separators := [w], [];
    } else {
      var i, j :| 0 <= i < j <= |w| && HexGroup(w[..i]) && Colons(w[i..j]) && Coloned(w[j..], n - 1);
      DigitCodes(w[..i]);
      var gs, ss := ColonedApart(w[j..], n - 1);
      groups, separators := [w[..i]] + gs, [w[i..j]] + ss;
      SeparatedCons(w[..i], w[i..j], gs, ss);
      SplitTwice(w, i, j);
    }
  }

  lemma {:induction false} SeparatedColoned(groups: seq<string>, separators: seq<string>)
    requires HexGroups(groups, separators)
    ensures Coloned(Separated(groups, separators), |separators|)
    decreases |separators|
  {
    DigitCodes(groups[0]);
    if separators != [] {
      var a, s, rest := groups[0], separators[0], Separated(groups[1..], separators[1..]);
      SeparatedColoned(groups[1..], separators[1..]);
      PartsOf(a, s, rest);
      var w, i, j := a + (s + rest), |a|, |a| + |s|;
      assert HexGroup(w[..i]) && Colons(w[i..j]) && Coloned(w[j..], |separators| - 1);
    }
  }

  /**
   An IPv4 address is four groups of one to three digits with a dot between them; an IPv6 address is four to
   eight groups of one to four hexadecimal digits with one or two colons between them.
   */
  lemma AddressesIff(w: string)
    ensures IPv4(w) <==> exists groups, separators ::
              DecimalGroups(groups, separators) && |separators| == 3 && w == Separated(groups, separators)
    ensures IPv6(w) <==> exists groups, separators ::
              HexGroups(groups, separators) && 3 <= |separators| <= 7 && w == Separated(groups, separators)
  {
    if IPv4(w) {
      var groups, separators := DottedApart(w, 3);
    }
    if IPv6(w) {
      var n: nat :| 3 <= n <= 7 && Coloned(w, n);
      var groups, separators := ColonedApart(w, n);
    }
    forall groups, separators | DecimalGroups(groups, separators) && |separators| == 3 {
      SeparatedDotted(groups, separators);
    }
    forall groups, separators | HexGroups(groups, separators) && 3 <= |separators| <= 7 {
      SeparatedColoned(groups, separators);
    }
  }
}
