/** The string operations of the modelled programs. */
module Text {
  import opened Sequences

  /** White space as str.strip and the regular expression class \s see it. */
  predicate IsSpace(c: char) {
    || '\t' <= c <= '\r'
    || '\U{1c}' <= c <= ' '
    || c in {'\U{85}', '\U{a0}', '\U{1680}', '\U{2028}', '\U{2029}', '\U{202f}', '\U{205f}', '\U{3000}'}
    || '\U{2000}' <= c <= '\U{200a}'
  }

  /** Lower-casing of ASCII letters. */
  function LowerChar(c: char): char {
    if 'A' <= c <= 'Z' then (c as int + 32) as char else c
  }

  function Lower(s: string): (r: string)
    ensures |r| == |s|
    ensures forall i :: 0 <= i < |s| ==> r[i] == LowerChar(s[i])
  {
    seq(|s|, i requires 0 <= i < |s| => LowerChar(s[i]))
  }

  /** The codes of the characters that count as white space. */
  lemma SpaceCodes(c: char)
    ensures IsSpace(c) <==>
              var n := c as int;
              9 <= n <= 13 || 28 <= n <= 32 || 8192 <= n <= 8202 ||
              n == 133 || n == 160 || n == 5760 || n == 8232 || n == 8233 || n == 8239 || n == 8287 || n == 12288
  {
  }

  /** Lower-casing moves the codes 65 to 90 up by 32 and keeps every other. */
  lemma LowerCodes(s: string, i: nat)
    requires i < |s|
    ensures Lower(s)[i] as int == if 65 <= s[i] as int <= 90 then s[i] as int + 32 else s[i] as int
  {
  }

  function StripLeft<T>(ws: T -> bool, s: seq<T>): seq<T> {
    if s != [] && ws(s[0]) then StripLeft(ws, s[1..]) else s
  }

  function StripRight<T>(ws: T -> bool, s: seq<T>): seq<T> {
    if s != [] && ws(s[|s| - 1]) then StripRight(ws, s[..|s| - 1]) else s
  }

  function Strip<T>(ws: T -> bool, s: seq<T>): seq<T> {
    StripRight(ws, StripLeft(ws, s))
  }

  /** A string that strip leaves alone. */
  predicate Trimmed<T>(ws: T -> bool, s: seq<T>) {
    s == [] || (!ws(s[0]) && !ws(s[|s| - 1]))
  }

  lemma {:induction false} StripLeftSuffix<T>(ws: T -> bool, s: seq<T>)
    ensures exists k: nat :: k <= |s| && StripLeft(ws, s) == s[k..] && (forall i :: 0 <= i < k ==> ws(s[i]))
    ensures StripLeft(ws, s) == [] || !ws(StripLeft(ws, s)[0])
  {
    if s != [] && ws(s[0]) {
      StripLeftSuffix(ws, s[1..]);
      var k: nat :| k <= |s[1..]| && StripLeft(ws, s[1..]) == s[1..][k..] && (forall i :: 0 <= i < k ==> ws(s[1..][i]));
      assert s[1..][k..] == s[k + 1..];
      forall i | 0 <= i < k + 1 ensures ws(s[i]) {
        if i > 0 {
          assert s[1..][i - 1] == s[i];
        }
      }
    } else {
      assert s[0..] == s;
    }
  }

  lemma {:induction false} StripRightPrefix<T>(ws: T -> bool, s: seq<T>)
    ensures exists k: nat :: k <= |s| && StripRight(ws, s) == s[..k]
    ensures StripRight(ws, s) == [] || !ws(StripRight(ws, s)[|StripRight(ws, s)| - 1])
  {
    if s != [] && ws(s[|s| - 1]) {
      StripRightPrefix(ws, s[..|s| - 1]);
      var k: nat :| k <= |s| - 1 && StripRight(ws, s) == s[..|s| - 1][..k];
      assert s[..|s| - 1][..k] == s[..k];
    } else {
      assert s[..|s|] == s;
    }
  }

  lemma StripTrims<T>(ws: T -> bool, s: seq<T>)
    ensures Trimmed(ws, Strip(ws, s))
    ensures |Strip(ws, s)| <= |s|
    ensures forall c :: c in Strip(ws, s) ==> c in s
  {
    var l := StripLeft(ws, s);
    StripLeftSuffix(ws, s);
    StripRightPrefix(ws, l);
    var k: nat :| k <= |l| && StripRight(ws, l) == l[..k];
  }

  /** Strip is the identity exactly on trimmed strings. */
  lemma StripIdentity<T>(ws: T -> bool, s: seq<T>)
    ensures Strip(ws, s) == s <==> Trimmed(ws, s)
  {
    StripTrims(ws, s);
  }

  lemma {:induction false} StripLeftPadding<T>(ws: T -> bool, pad: seq<T>, s: seq<T>)
    requires forall i :: 0 <= i < |pad| ==> ws(pad[i])
    requires s == [] || !ws(s[0])
    ensures StripLeft(ws, pad + s) == s
  {
    if pad == [] {
      assert pad + s == s;
    } else {
      assert (pad + s)[1..] == pad[1..] + s;
      StripLeftPadding(ws, pad[1..], s);
    }
  }

  function Join<T>(sep: seq<T>, parts: seq<seq<T>>): seq<T> {
    if parts == [] then []
    else if |parts| == 1 then parts[0]
    else parts[0] + sep + Join(sep, parts[1..])
  }
}
