/** Writing LDIF entry records: which values are base64-encoded, the attribute lines, the records. */
module LdifWriter {
  import opened Wrappers
  import opened Sequences
  import opened Base64
  import opened LdifLines

  const COLON: Byte := 58

  /** A value as the caller gives it: text, by its UTF-8 bytes, or raw bytes. */
  datatype Value = Text(bytes: Bytes) | Raw(bytes: Bytes)

  datatype Attribute = Attribute(kind: Bytes, values: seq<Value>)

  datatype Record = Record(dn: Bytes, entry: seq<Attribute>)

  function LowerByte(b: Byte): Byte {
    if 65 <= b <= 90 then b + 32 else b
  }

  function LowerBytes(s: Bytes): (r: Bytes)
    ensures |r| == |s|
  {
    seq(|s|, i requires 0 <= i < |s| => LowerByte(s[i]))
  }

  function LowerAll(names: seq<Bytes>): seq<Bytes> {
    seq(|names|, i requires 0 <= i < |names| => LowerBytes(names[i]))
  }

  /** Characters RFC 2849 does not allow anywhere in a plain value. */
  predicate UnsafeAnywhere(b: Byte) {
    b == 0 || b == LF || b == CR || b > 127
  }

  /** Characters it does not allow at its start. */
  predicate UnsafeFirst(b: Byte) {
    UnsafeAnywhere(b) || b == SPACE || b == COLON || b == 60
  }

  predicate Unsafe(s: Bytes) {
    (s != [] && UnsafeFirst(s[0])) || exists i :: 0 <= i < |s| && UnsafeAnywhere(s[i])
  }

  predicate NeedsBase64(base64Attrs: seq<Bytes>, kind: Bytes, v: Value) {
    LowerBytes(kind) in base64Attrs || v.Raw? || Unsafe(v.bytes)
  }

  function AttrLine(base64Attrs: seq<Bytes>, kind: Bytes, v: Value): Bytes {
    if NeedsBase64(base64Attrs, kind, v) then
      kind + [COLON, COLON, SPACE] + Without(EncodeBytes(v.bytes), LF)
    else
      kind + [COLON, SPACE] + v.bytes
  }

  predicate Ascii(s: Bytes) {
    forall i :: 0 <= i < |s| ==> s[i] < 128
  }

  function ValueLines(base64Attrs: seq<Bytes>, kind: Bytes, values: seq<Value>): (r: seq<Bytes>)
    ensures |r| == |values|
    ensures forall i :: 0 <= i < |values| ==> r[i] == AttrLine(base64Attrs, kind, values[i])
  {
    seq(|values|, i requires 0 <= i < |values| => AttrLine(base64Attrs, kind, values[i]))
  }

  function EntryLines(base64Attrs: seq<Bytes>, entry: seq<Attribute>): seq<Bytes> {
    if entry == [] then []
    else
      var last := entry[|entry| - 1];
      EntryLines(base64Attrs, entry[..|entry| - 1]) + ValueLines(base64Attrs, last.kind, last.values)
  }

  const DN: Bytes := [100, 110]

  function RecordLines(base64Attrs: seq<Bytes>, r: Record): seq<Bytes> {
    [AttrLine(base64Attrs, DN, Text(r.dn))] + EntryLines(base64Attrs, r.entry)
  }

  /** Every line of every record, and the empty line that ends each. */
  function AllLines(base64Attrs: seq<Bytes>, records: seq<Record>): seq<Bytes> {
    if records == [] then []
    else RecordLines(base64Attrs, records[0]) + [[]] + AllLines(base64Attrs, records[1..])
  }

  /** Attribute types are written in ASCII; a type that is not, and has a value, stops the writer. */
  predicate AsciiTypes(entry: seq<Attribute>) {
    forall i :: 0 <= i < |entry| && entry[i].values != [] ==> Ascii(entry[i].kind)
  }

  /** A plain value is ASCII, so a line is exactly when its type is. */
  lemma AttrLineAscii(base64Attrs: seq<Bytes>, kind: Bytes, v: Value)
    ensures Ascii(AttrLine(base64Attrs, kind, v)) <==> Ascii(kind)
  {
    if NeedsBase64(base64Attrs, kind, v) {
      EncodeBytesUnwrapped(v.bytes);
      EncodedAscii(v.bytes);
      AsciiConcat(kind, [COLON, COLON, SPACE]);
      AsciiConcat(kind + [COLON, COLON, SPACE], Encode(v.bytes));
    } else {
      AsciiConcat(kind, [COLON, SPACE]);
      AsciiConcat(kind + [COLON, SPACE], v.bytes);
    }
  }

  lemma AsciiConcat(a: Bytes, b: Bytes)
    ensures Ascii(a + b) <==> Ascii(a) && Ascii(b)
  {
    var s := a + b;
    assert forall i :: 0 <= i < |a| ==> s[i] == a[i];
    assert forall i :: 0 <= i < |b| ==> s[|a| + i] == b[i];
  }

  lemma EncodedAscii(bytes: Bytes)
    ensures Ascii(Encode(bytes))
  {
    EncodeSymbols(bytes);
    forall i | 0 <= i < |Encode(bytes)| ensures Encode(bytes)[i] < 128 {
      assert Encode(bytes)[i] in Encode(bytes);
    }
  }

  class LDIFWriter {
    var output: Bytes
    const base64Attrs: seq<Bytes>
    const cols: nat
    const lineSep: Bytes
    var recordsWritten: nat

    constructor (base64Attrs: seq<Bytes>, cols: nat, lineSep: Bytes)
      ensures this.cols == cols && this.lineSep == lineSep && output == [] && recordsWritten == 0
      ensures this.base64Attrs == LowerAll(base64Attrs)
    {
      output := [];
      this.base64Attrs := LowerAll(base64Attrs);
      this.cols := cols;
      this.lineSep := lineSep;
      recordsWritten := 0;
    }

    method FoldLine(line: Bytes)
      requires cols >= 2
      modifies this`output
      ensures output == old(output) + Fold(line, cols, lineSep)
    {
      FoldStart(output, line, cols, lineSep);
      if |line| <= cols {
        output := output + line;
        output := output + lineSep;
      } else {
        var pos := cols;
        output := output + line[..cols];
        output := output + lineSep;
        while pos < |line|
          invariant cols <= pos <= |line|
          invariant output + Flatten(Continuations(line, cols, lineSep, pos)) == old(output) + Fold(line, cols, lineSep)
          decreases |line| - pos
        {
          ghost var before := output;
          var end := if pos + cols - 1 <= |line| then pos + cols - 1 else |line|;
          output := output + [SPACE];
          output := output + line[pos..end];
          output := output + lineSep;
          FoldStep(before, line, cols, lineSep, pos);
          pos := end;
        }
        FoldDone(output, line, cols, lineSep);
      }
    }

    /** False when the attribute type is not ASCII: nothing is written then. */
    method UnparseAttr(kind: Bytes, v: Value) returns (ok: bool)
      requires cols >= 2
      modifies this`output
      ensures ok <==> Ascii(kind)
      ensures output == old(output) + if ok then Fold(AttrLine(base64Attrs, kind, v), cols, lineSep) else []
    {
      var line: Bytes;
      if NeedsBase64(base64Attrs, kind, v) {
        var encoded := Without(EncodeBytes(v.bytes), LF);
        line := kind + [COLON, COLON, SPACE] + encoded;
      } else {
        line := kind + [COLON, SPACE] + v.bytes;
      }
      AttrLineAscii(base64Attrs, kind, v);
      ok := Ascii(line);
      if ok {
        FoldLine(line);
      }
    }

    method UnparseValues(kind: Bytes, values: seq<Value>) returns (ok: bool)
      requires cols >= 2
      modifies this`output
      ensures ok <==> values == [] || Ascii(kind)
      ensures ok ==> output == old(output) + FoldAll(ValueLines(base64Attrs, kind, values), cols, lineSep)
    {
      ghost var start := output;
      assert start + [] == start;
      for j := 0 to |values|
        invariant j > 0 ==> Ascii(kind)
        invariant output == start + FoldAll(ValueLines(base64Attrs, kind, values[..j]), cols, lineSep)
      {
        ok := UnparseAttr(kind, values[j]);
        if !ok {
          return;
        }
        ValueLinesSnoc(base64Attrs, kind, values, j);
        FoldAllSnoc(start, ValueLines(base64Attrs, kind, values[..j]), AttrLine(base64Attrs, kind, values[j]), cols,
          lineSep);
      }
      assert values[..|values|] == values;
      ok := true;
    }

    method UnparseEntryRecord(entry: seq<Attribute>) returns (ok: bool)
      requires cols >= 2
      modifies this`output
      ensures ok <==> AsciiTypes(entry)
      ensures ok ==> output == old(output) + FoldAll(EntryLines(base64Attrs, entry), cols, lineSep)
    {
      ghost var start := output;
      assert start + [] == start;
      for i := 0 to |entry|
        invariant AsciiTypes(entry[..i])
        invariant output == start + FoldAll(EntryLines(base64Attrs, entry[..i]), cols, lineSep)
      {
        ok := UnparseValues(entry[i].kind, entry[i].values);
        AsciiTypesSnoc(entry, i);
        if !ok {
          return;
        }
        EntryLinesSnoc(start, base64Attrs, entry, i, cols, lineSep);
      }
      assert entry[..|entry|] == entry;
      ok := true;
    }

    /** One record: the dn line, the attribute lines, an empty line. */
    method Unparse(r: Record) returns (ok: bool)
      requires cols >= 2
      modifies this
      ensures ok <==> AsciiTypes(r.entry)
      ensures ok ==> recordsWritten == old(recordsWritten) + 1
      ensures ok ==> output == old(output) + FoldAll(RecordLines(base64Attrs, r) + [[]], cols, lineSep)
    {
      ghost var start := output;
      var first := UnparseAttr(DN, Text(r.dn));
      ok := UnparseEntryRecord(r.entry);
      if ok {
        output := output + lineSep;
        recordsWritten := recordsWritten + 1;
        RecordText(start, AttrLine(base64Attrs, DN, Text(r.dn)), EntryLines(base64Attrs, r.entry), cols, lineSep);
      }
    }
  }

  // ----- the text of the lines, piece by piece

  lemma FoldText(line: Bytes, cols: nat, sep: Bytes)
    requires cols >= 2
    ensures |line| <= cols ==> Fold(line, cols, sep) == line + sep
    ensures |line| > cols ==>
        Fold(line, cols, sep) == line[..cols] + sep + Flatten(Continuations(line, cols, sep, cols))
  {
    if |line| <= cols {
      FlattenOne(line + sep);
    } else {
      assert Fragments(line, cols, sep)[1..] == Continuations(line, cols, sep, cols);
    }
  }

  lemma FoldStart(before: Bytes, line: Bytes, cols: nat, sep: Bytes)
    requires cols >= 2
    ensures |line| <= cols ==> before + line + sep == before + Fold(line, cols, sep)
    ensures |line| > cols ==>
              before + line[..cols] + sep + Flatten(Continuations(line, cols, sep, cols)) ==
                before + Fold(line, cols, sep)
  {
    FoldText(line, cols, sep);
    Assoc(before, line, sep);
    if |line| > cols {
      Assoc(before, line[..cols], sep);
      Assoc(before, line[..cols] + sep, Flatten(Continuations(line, cols, sep, cols)));
    }
  }

  lemma FoldDone(output: Bytes, line: Bytes, cols: nat, sep: Bytes)
    requires cols >= 2
    ensures output + Flatten(Continuations(line, cols, sep, |line|)) == output
  {
  }

  lemma FoldStep(before: Bytes, line: Bytes, cols: nat, sep: Bytes, pos: nat)
    requires cols >= 2 && pos < |line|
    ensures var end := FragmentEnd(line, cols, pos);
      before + [SPACE] + line[pos..end] + sep + Flatten(Continuations(line, cols, sep, end))
      == before + Flatten(Continuations(line, cols, sep, pos))
  {
    var end := FragmentEnd(line, cols, pos);
    var rest := Continuations(line, cols, sep, end);
    var first := [SPACE] + line[pos..end] + sep;
    assert ([first] + rest)[1..] == rest;
    assert before + [SPACE] + line[pos..end] + sep == before + first;
    Assoc(before, first, Flatten(rest));
  }

  lemma AsciiTypesSnoc(entry: seq<Attribute>, n: nat)
    requires n < |entry|
    ensures AsciiTypes(entry[..n + 1]) <==> AsciiTypes(entry[..n]) && (entry[n].values == [] || Ascii(entry[n].kind))
    ensures entry[n].values != [] && !Ascii(entry[n].kind) ==> !AsciiTypes(entry)
  {
    assert forall i :: 0 <= i < n ==> entry[..n + 1][i] == entry[..n][i];
    assert entry[..n + 1][n] == entry[n];
  }

  lemma ValueLinesSnoc(base64Attrs: seq<Bytes>, kind: Bytes, values: seq<Value>, n: nat)
    requires n < |values|
    ensures ValueLines(base64Attrs, kind, values[..n + 1])
         == ValueLines(base64Attrs, kind, values[..n]) + [AttrLine(base64Attrs, kind, values[n])]
  {
  }

  lemma FoldAllSnoc(start: Bytes, lines: seq<Bytes>, line: Bytes, cols: nat, sep: Bytes)
    requires cols >= 2
    ensures start + FoldAll(lines, cols, sep) + Fold(line, cols, sep) == start + FoldAll(lines + [line], cols, sep)
  {
    FoldAllConcat(lines, [line], cols, sep);
    FoldAllOne(line, cols, sep);
    Assoc(start, FoldAll(lines, cols, sep), Fold(line, cols, sep));
  }

  lemma EntryLinesSnoc(start: Bytes, base64Attrs: seq<Bytes>, entry: seq<Attribute>, n: nat, cols: nat, sep: Bytes)
    requires cols >= 2 && n < |entry|
    ensures start + FoldAll(EntryLines(base64Attrs, entry[..n]), cols, sep)
              + FoldAll(ValueLines(base64Attrs, entry[n].kind, entry[n].values), cols, sep)
         == start + FoldAll(EntryLines(base64Attrs, entry[..n + 1]), cols, sep)
  {
    var lines, more := EntryLines(base64Attrs, entry[..n]), ValueLines(base64Attrs, entry[n].kind, entry[n].values);
    assert entry[..n + 1][..n] == entry[..n];
    FoldAllConcat(lines, more, cols, sep);
    Assoc(start, FoldAll(lines, cols, sep), FoldAll(more, cols, sep));
  }

  lemma FoldAllOne(line: Bytes, cols: nat, sep: Bytes)
    requires cols >= 2
    ensures FoldAll([line], cols, sep) == Fold(line, cols, sep)
  {
    assert Fold(line, cols, sep) + [] == Fold(line, cols, sep);
  }

  lemma RecordText(start: Bytes, dn: Bytes, entry: seq<Bytes>, cols: nat, sep: Bytes)
    requires cols >= 2
    ensures start + Fold(dn, cols, sep) + FoldAll(entry, cols, sep) + sep
         == start + FoldAll([dn] + entry + [[]], cols, sep)
  {
    FoldAllConcat([dn] + entry, [[]], cols, sep);
    FoldAllConcat([dn], entry, cols, sep);
    FoldAllOne(dn, cols, sep);
    FoldAllOne([], cols, sep);
    FoldText([], cols, sep);
    assert [] + sep == sep;
    Assoc(start, Fold(dn, cols, sep), FoldAll(entry, cols, sep));
    Assoc(start, Fold(dn, cols, sep) + FoldAll(entry, cols, sep), sep);
  }
}
