/** Base64 as section 4 of RFC 4648 defines it, and the forgiving decoder that reads it back. */
module Base64 {
  import opened Wrappers
  import opened Sequences

  type Byte = b: int | 0 <= b < 256
  type Bytes = seq<Byte>

  const LF: Byte := 10
  const PAD: Byte := 61

  function Symbol(v: int): Byte
    requires 0 <= v < 64
  {
    if v < 26 then 65 + v
    else if v < 52 then 71 + v
    else if v < 62 then v - 4
    else if v == 62 then 43
    else 47
  }

  function SymbolValue(c: Byte): (r: Option<int>)
    ensures r.Some? ==> 0 <= r.value < 64
  {
    if 65 <= c <= 90 then Some(c - 65)
    else if 97 <= c <= 122 then Some(c - 71)
    else if 48 <= c <= 57 then Some(c + 4)
    else if c == 43 then Some(62)
    else if c == 47 then Some(63)
    else None
  }

  lemma SymbolRoundTrip(v: int)
    requires 0 <= v < 64
    ensures SymbolValue(Symbol(v)) == Some(v) && Symbol(v) != PAD && Symbol(v) != LF
  {
  }

  function Encode(s: Bytes): Bytes {
    if s == [] then []
    else if |s| == 1 then [Symbol(s[0] / 4), Symbol(s[0] % 4 * 16), PAD, PAD]
    else if |s| == 2 then [Symbol(s[0] / 4), Symbol(s[0] % 4 * 16 + s[1] / 16), Symbol(s[1] % 16 * 4), PAD]
    else
      [Symbol(s[0] / 4), Symbol(s[0] % 4 * 16 + s[1] / 16), Symbol(s[1] % 16 * 4 + s[2] / 64), Symbol(s[2] % 64)]
      + Encode(s[3..])
  }

  /** What a symbol with value v adds, after `quad` symbols of its group that left `left` over. */
  function Emitted(quad: int, left: int, v: int): Bytes
    requires 0 <= quad < 4 && 0 <= left < 64 && 0 <= v < 64
  {
    if quad == 0 then []
    else if quad == 1 then [(left * 4 + v / 16) % 256]
    else if quad == 2 then [(left * 16 + v / 4) % 256]
    else [(left * 64 + v) % 256]
  }

  function Left(quad: int, v: int): (l: int)
    requires 0 <= quad < 4 && 0 <= v < 64
    ensures 0 <= l < 64
  {
    if quad == 0 then v else if quad == 1 then v % 16 else if quad == 2 then v % 4 else 0
  }

  /**
   The decoder: symbols outside the alphabet are skipped, enough padding ends the input, and the
   end inside a group is an error.
   */
  function Scan(s: Bytes, quad: int, left: int, pads: nat): Option<Bytes>
    requires 0 <= quad < 4 && 0 <= left < 64
  {
    if s == [] then
      if quad == 0 then Some([]) else None
    else if s[0] == PAD then
      if quad >= 2 && quad + pads + 1 >= 4 then Some([])
      else Scan(s[1..], quad, left, if quad >= 2 then pads + 1 else pads)
    else if SymbolValue(s[0]).None? then
      Scan(s[1..], quad, left, pads)
    else
      var v := SymbolValue(s[0]).value;
      var rest :- Scan(s[1..], (quad + 1) % 4, Left(quad, v), 0);
      Some(Emitted(quad, left, v) + rest)
  }

  function Decode(s: Bytes): Option<Bytes> {
    Scan(s, 0, 0, 0)
  }

  /** One symbol of the alphabet, read. */
  lemma ScanSymbol(v: int, rest: Bytes, quad: int, left: int, pads: nat)
    requires 0 <= v < 64 && 0 <= quad < 4 && 0 <= left < 64
    ensures Scan([Symbol(v)] + rest, quad, left, pads) ==
              var r := Scan(rest, (quad + 1) % 4, Left(quad, v), 0);
              if r.None? then None else Some(Emitted(quad, left, v) + r.value)
  {
    SymbolRoundTrip(v);
    assert ([Symbol(v)] + rest)[1..] == rest;
  }

  lemma RegroupFirst(a: Byte, b: Byte)
    ensures Emitted(1, a / 4, a % 4 * 16 + b / 16) == [a] && Left(1, a % 4 * 16 + b / 16) == b / 16
  {
    assert (a % 4 * 16 + b / 16) / 16 == a % 4;
  }

  lemma RegroupSecond(b: Byte, c: Byte)
    ensures Emitted(2, b / 16, b % 16 * 4 + c / 64) == [b] && Left(2, b % 16 * 4 + c / 64) == c / 64
  {
    assert (b % 16 * 4 + c / 64) / 4 == b % 16;
  }

  /** The arithmetic of one group: each symbol completes the byte the one before it left open. */
  lemma Regroup(a: Byte, b: Byte, c: Byte)
    ensures Emitted(1, a / 4, a % 4 * 16 + b / 16) == [a] && Left(1, a % 4 * 16 + b / 16) == b / 16
    ensures Emitted(2, b / 16, b % 16 * 4 + c / 64) == [b] && Left(2, b % 16 * 4 + c / 64) == c / 64
    ensures Emitted(3, c / 64, c % 64) == [c]
  {
    RegroupFirst(a, b);
    RegroupSecond(b, c);
  }

  /** Symbols left to read, from the last one back: each lemma reads one more. */
  lemma ScanThird(b: Byte, c: Byte, rest: Bytes)
    requires Decode(rest).Some?
    ensures Scan([Symbol(b % 16 * 4 + c / 64)] + ([Symbol(c % 64)] + rest), 2, b / 16, 0) ==
        Some([b, c] + Decode(rest).value)
  {
    Regroup(0, b, c);
    ScanSymbol(c % 64, rest, 3, c / 64, 0);
    ScanSymbol(b % 16 * 4 + c / 64, [Symbol(c % 64)] + rest, 2, b / 16, 0);
    assert [b] + ([c] + Decode(rest).value) == [b, c] + Decode(rest).value;
  }

  lemma ScanFirst(a: Byte, b: Byte, tail: Bytes)
    requires Scan(tail, 2, b / 16, 0).Some?
    ensures Decode([Symbol(a / 4)] + ([Symbol(a % 4 * 16 + b / 16)] + tail)) ==
        Some([a] + Scan(tail, 2, b / 16, 0).value)
  {
    Regroup(a, b, 0);
    ScanSymbol(a % 4 * 16 + b / 16, tail, 1, a / 4, 0);
    ScanSymbol(a / 4, [Symbol(a % 4 * 16 + b / 16)] + tail, 0, 0, 0);
    var r := [a] + Scan(tail, 2, b / 16, 0).value;
    assert [] + r == r;
  }

  /** The symbols of a full group give its three bytes back. */
  lemma ScanGroup(a: Byte, b: Byte, c: Byte, rest: Bytes)
    requires Decode(rest).Some?
    ensures Decode([Symbol(a / 4), Symbol(a % 4 * 16 + b / 16), Symbol(b % 16 * 4 + c / 64), Symbol(c % 64)] + rest)
         == Some([a, b, c] + Decode(rest).value)
  {
    var w, x, y, z := Symbol(a / 4), Symbol(a % 4 * 16 + b / 16), Symbol(b % 16 * 4 + c / 64), Symbol(c % 64);
    ScanThird(b, c, rest);
    ScanFirst(a, b, [y] + ([z] + rest));
    Cons4(w, x, y, z, rest);
    assert [a] + ([b, c] + Decode(rest).value) == [a, b, c] + Decode(rest).value;
  }

  lemma Cons4(w: Byte, x: Byte, y: Byte, z: Byte, rest: Bytes)
    ensures [w, x, y, z] + rest == [w] + ([x] + ([y] + ([z] + rest)))
  {
  }

  lemma ScanPadded1(a: Byte)
    ensures Decode([Symbol(a / 4), Symbol(a % 4 * 16), PAD, PAD]) == Some([a])
  {
    assert [PAD, PAD][1..] == [PAD];
    assert Scan([PAD], 2, 0, 1) == Some([]);
    assert Scan([PAD, PAD], 2, 0, 0) == Some([]);
    ScanFirst(a, 0, [PAD, PAD]);
    Cons4(Symbol(a / 4), Symbol(a % 4 * 16), PAD, PAD, []);
    assert [Symbol(a / 4), Symbol(a % 4 * 16), PAD, PAD] + [] == [Symbol(a / 4), Symbol(a % 4 * 16), PAD, PAD];
    assert [PAD] + ([PAD] + []) == [PAD, PAD];
    assert [a] + [] == [a];
  }

  lemma ScanPadded2(a: Byte, b: Byte)
    ensures Decode([Symbol(a / 4), Symbol(a % 4 * 16 + b / 16), Symbol(b % 16 * 4), PAD]) == Some([a, b])
  {
    var y := Symbol(b % 16 * 4);
    assert Scan([y] + [PAD], 2, b / 16, 0) == Some([b]) by {
      Regroup(0, b, 0);
      assert Scan([PAD], 3, 0, 0) == Some([]);
      ScanSymbol(b % 16 * 4, [PAD], 2, b / 16, 0);
      assert [b] + [] == [b];
    }
    ScanFirst(a, b, [y] + [PAD]);
    Cons4(Symbol(a / 4), Symbol(a % 4 * 16 + b / 16), y, PAD, []);
    assert [Symbol(a / 4), Symbol(a % 4 * 16 + b / 16), y, PAD] + [] ==
      [Symbol(a / 4), Symbol(a % 4 * 16 + b / 16), y, PAD];
    assert [PAD] + [] == [PAD];
    assert [a] + [b] == [a, b];
  }

  lemma {:induction false} DecodeEncode(s: Bytes)
    ensures Decode(Encode(s)) == Some(s)
  {
    if |s| == 1 {
      ScanPadded1(s[0]);
      assert s == [s[0]];
    } else if |s| == 2 {
      ScanPadded2(s[0], s[1]);
      assert s == [s[0], s[1]];
    } else if s != [] {
      DecodeEncode(s[3..]);
      ScanGroup(s[0], s[1], s[2], Encode(s[3..]));
      assert s == [s[0], s[1], s[2]] + s[3..];
    }
  }

  lemma {:induction false} EncodeSymbols(s: Bytes)
    ensures forall c :: c in Encode(s) ==> c == PAD || SymbolValue(c).Some?
  {
    if |s| >= 3 {
      EncodeSymbols(s[3..]);
    }
  }

  /** Whole groups encode on their own. */
  lemma {:induction false} EncodeConcat(a: Bytes, b: Bytes)
    requires |a| % 3 == 0
    ensures Encode(a + b) == Encode(a) + Encode(b)
  {
    if a == [] {
      assert a + b == b;
    } else {
      assert (a + b)[3..] == a[3..] + b;
      EncodeConcat(a[3..], b);
    }
  }

  // ----- the line-wrapped encoder and its unwrapping

  const CHUNK := 57

  /** Encoded in chunks of 57 bytes, each followed by a line feed. */
  function EncodeBytes(s: Bytes): Bytes {
    if s == [] then []
    else if |s| <= CHUNK then Encode(s) + [LF]
    else Encode(s[..CHUNK]) + [LF] + EncodeBytes(s[CHUNK..])
  }

  lemma EncodeHasNoLF(s: Bytes)
    ensures LF !in Encode(s)
  {
    EncodeSymbols(s);
  }

  lemma EncodeLineUnwrapped(s: Bytes)
    ensures Without(Encode(s) + [LF], LF) == Encode(s)
  {
    EncodeHasNoLF(s);
    WithoutAbsent(Encode(s), LF);
    WithoutSnoc(Encode(s), LF, LF);
  }

  /** Dropping the line feeds leaves the plain encoding. */
  lemma {:induction false} EncodeBytesUnwrapped(s: Bytes)
    ensures Without(EncodeBytes(s), LF) == Encode(s)
  {
    if 0 < |s| <= CHUNK {
      EncodeLineUnwrapped(s);
    } else if s != [] {
      var head, tail := s[..CHUNK], s[CHUNK..];
      EncodeLineUnwrapped(head);
      EncodeBytesUnwrapped(tail);
      WithoutConcat(Encode(head) + [LF], EncodeBytes(tail), LF);
      EncodeConcat(head, tail);
      assert s == head + tail;
    }
  }

  // ----- against RFC 4648 itself

  /** Table 1. */
  function Letter(v: int): char
    requires 0 <= v < 64
  {
    if v < 26 then 'A' + v as char
    else if v < 52 then 'a' + (v - 26) as char
    else if v < 62 then '0' + (v - 52) as char
    else if v == 62 then '+'
    else '/'
  }

  /** Three bytes are a number of 24 bits; this is one of its digits to the base 64. */
  function Digit(a: Byte, b: Byte, c: Byte, weight: nat): (d: int)
    requires weight in {1, 64, 4096, 262144}
    ensures 0 <= d < 64
  {
    (a * 65536 + b * 256 + c) / weight % 64
  }

  /** Four digits for three bytes; a shorter end is filled up with zeros and padded. */
  function Rfc4648(s: Bytes): string {
    if s == [] then ""
    else if |s| == 1 then [Letter(Digit(s[0], 0, 0, 262144)), Letter(Digit(s[0], 0, 0, 4096)), '=', '=']
    else if |s| == 2 then
      [Letter(Digit(s[0], s[1], 0, 262144)), Letter(Digit(s[0], s[1], 0, 4096)), Letter(Digit(s[0], s[1], 0, 64)), '=']
    else
      [Letter(Digit(s[0], s[1], s[2], 262144)), Letter(Digit(s[0], s[1], s[2], 4096)),
       Letter(Digit(s[0], s[1], s[2], 64)), Letter(Digit(s[0], s[1], s[2], 1))] + Rfc4648(s[3..])
  }

  lemma Divided(n: nat, d: nat, q: nat, r: nat)
    requires d in {64, 4096, 262144} && n == q * d + r && r < d
    ensures n / d == q && n % d == r
  {
    if d == 64 {
      assert n / 64 == q;
    } else if d == 4096 {
      assert n / 4096 == q;
    } else {
      assert n / 262144 == q;
    }
  }

  lemma FirstDigit(a: Byte, b: Byte, c: Byte)
    ensures a / 4 == Digit(a, b, c, 262144)
  {
    Divided(a * 65536 + b * 256 + c, 262144, a / 4, a % 4 * 65536 + b * 256 + c);
  }

  lemma SecondDigit(a: Byte, b: Byte, c: Byte)
    ensures a % 4 * 16 + b / 16 == Digit(a, b, c, 4096)
  {
    var q, r := a % 4 * 16 + b / 16, b % 16 * 256 + c;
    Divided(a * 65536 + b * 256 + c, 4096, a / 4 * 64 + q, r);
    Divided(a / 4 * 64 + q, 64, a / 4, q);
  }

  lemma ThirdDigit(a: Byte, b: Byte, c: Byte)
    ensures b % 16 * 4 + c / 64 == Digit(a, b, c, 64)
  {
    var q := b % 16 * 4 + c / 64;
    Divided(a * 65536 + b * 256 + c, 64, (a * 16 + b / 16) * 64 + q, c % 64);
    Divided((a * 16 + b / 16) * 64 + q, 64, a * 16 + b / 16, q);
  }

  lemma FourthDigit(a: Byte, b: Byte, c: Byte)
    ensures c % 64 == Digit(a, b, c, 1)
  {
    Divided(a * 65536 + b * 256 + c, 64, a * 1024 + b * 4 + c / 64, c % 64);
  }

  lemma GroupIsRfc4648(a: Byte, b: Byte, c: Byte)
    ensures Symbol(a / 4) == Letter(Digit(a, b, c, 262144)) as int
    ensures Symbol(a % 4 * 16 + b / 16) == Letter(Digit(a, b, c, 4096)) as int
    ensures Symbol(b % 16 * 4 + c / 64) == Letter(Digit(a, b, c, 64)) as int
    ensures Symbol(c % 64) == Letter(Digit(a, b, c, 1)) as int
  {
    FirstDigit(a, b, c);
    SecondDigit(a, b, c);
    ThirdDigit(a, b, c);
    FourthDigit(a, b, c);
  }

  /** The encoder writes, byte for byte, what the RFC says. */
  lemma {:induction false} EncodeIsRfc4648(s: Bytes)
    ensures |Encode(s)| == |Rfc4648(s)|
    ensures forall i :: 0 <= i < |Encode(s)| ==> Encode(s)[i] == Rfc4648(s)[i] as int
  {
    if |s| == 1 {
      GroupIsRfc4648(s[0], 0, 0);
    } else if |s| == 2 {
      GroupIsRfc4648(s[0], s[1], 0);
    } else if s != [] {
      GroupIsRfc4648(s[0], s[1], s[2]);
      EncodeIsRfc4648(s[3..]);
    }
  }
}
