/** What reading back the written records gives, and exactly when that is the records themselves. */
module LdifRoundTrip {
  import opened Wrappers
  import opened Sequences
  import opened Text
  import opened Base64
  import opened LdifLines
  import opened LdifWriter
  import opened LdifParser

  /** An attribute type a record may carry: ASCII, no colon or line break, not dn, no leading blank or hash. */
  predicate WritableType(kind: Bytes) {
    Ascii(kind) && COLON !in kind && Logical(kind) && kind != DN
  }

  ghost predicate WritableEntry(entry: seq<Attribute>) {
    && (forall i :: 0 <= i < |entry| ==> WritableType(entry[i].kind))
    && (forall i, j :: 0 <= i < j < |entry| ==> entry[i].kind != entry[j].kind)
  }

  /** The bytes a value reads back as: unchanged when encoded, trimmed when written plain. */
  function Canon(base64Attrs: seq<Bytes>, kind: Bytes, v: Value): Bytes {
    if NeedsBase64(base64Attrs, kind, v) then v.bytes else Strip(IsBlank, v.bytes)
  }

  // ----- which values are encoded, and which survive

  /** The same type up to the case of ASCII letters. */
  predicate SameType(a: Bytes, b: Bytes) {
    |a| == |b| && forall i :: 0 <= i < |a| ==>
      a[i] == b[i] || (65 <= a[i] <= 90 && b[i] == a[i] + 32) || (65 <= b[i] <= 90 && a[i] == b[i] + 32)
  }

  predicate Listed(names: seq<Bytes>, kind: Bytes) {
    exists i :: 0 <= i < |names| && SameType(names[i], kind)
  }

  /** SAFE-STRING of RFC 2849: which bytes a plain value may hold, and which it may start with. */
  predicate SafeString(s: Bytes) {
    && (forall i :: 0 <= i < |s| ==> s[i] !in {0, 10, 13} && s[i] <= 127)
    && (s != [] ==> s[0] !in {32, 58, 60})
  }

  predicate BlankByte(b: Byte) {
    b in {9, 10, 11, 12, 13, 32}
  }

  /** A value survives if it is raw, of a listed type or no safe string, or has no blank at its ends. */
  predicate Survives(names: seq<Bytes>, kind: Bytes, v: Value) {
    || v.Raw? || Listed(names, kind) || !SafeString(v.bytes)
    || v.bytes == [] || (!BlankByte(v.bytes[0]) && !BlankByte(v.bytes[|v.bytes| - 1]))
  }

  lemma LowerBytesSame(a: Bytes, b: Bytes)
    ensures LowerBytes(a) == LowerBytes(b) <==> SameType(a, b)
  {
    if LowerBytes(a) == LowerBytes(b) {
      forall i | 0 <= i < |a|
        ensures a[i] == b[i] || (65 <= a[i] <= 90 && b[i] == a[i] + 32) || (65 <= b[i] <= 90 && a[i] == b[i] + 32)
      {
        assert LowerBytes(a)[i] == LowerBytes(b)[i];
      }
    }
  }

  lemma ListedLowered(names: seq<Bytes>, kind: Bytes)
    ensures LowerBytes(kind) in LowerAll(names) <==> Listed(names, kind)
  {
    forall i | 0 <= i < |names| ensures LowerAll(names)[i] == LowerBytes(kind) <==> SameType(names[i], kind) {
      LowerBytesSame(names[i], kind);
    }
    if Listed(names, kind) {
      var i :| 0 <= i < |names| && SameType(names[i], kind);
      assert LowerAll(names)[i] == LowerBytes(kind);
    }
  }

  /** Base64 is used for raw values, for listed types in any case, and for text that is no safe string. */
  lemma EncodedIff(names: seq<Bytes>, kind: Bytes, v: Value)
    ensures NeedsBase64(LowerAll(names), kind, v) <==> v.Raw? || Listed(names, kind) || !SafeString(v.bytes)
  {
    ListedLowered(names, kind);
  }

  /** What stands in the file for one value, with the colons and blanks written out. */
  lemma LineOfValue(names: seq<Bytes>, kind: Bytes, v: Value)
    ensures AttrLine(LowerAll(names), kind, v) ==
              if v.Raw? || Listed(names, kind) || !SafeString(v.bytes) then kind + [58, 58, 32] + Encode(v.bytes)
              else kind + [58, 32] + v.bytes
  {
    EncodedIff(names, kind, v);
    EncodeBytesUnwrapped(v.bytes);
  }

  lemma CanonIdentity(names: seq<Bytes>, kind: Bytes, v: Value)
    ensures Canon(LowerAll(names), kind, v) == v.bytes <==> Survives(names, kind, v)
  {
    EncodedIff(names, kind, v);
    StripIdentity(IsBlank, v.bytes);
  }

  // ----- one attribute line

  lemma AttrLineSplit(base64Attrs: seq<Bytes>, kind: Bytes, v: Value)
    ensures AttrLine(base64Attrs, kind, v) ==
              kind + [COLON] +
                if NeedsBase64(base64Attrs, kind, v) then [COLON, SPACE] + Encode(v.bytes) else [SPACE] + v.bytes
  {
    EncodeBytesUnwrapped(v.bytes);
    assert kind + [COLON, COLON, SPACE] + Encode(v.bytes) == kind + [COLON] + ([COLON, SPACE] + Encode(v.bytes));
    assert kind + [COLON, SPACE] + v.bytes == kind + [COLON] + ([SPACE] + v.bytes);
  }

  lemma EncodeUnbroken(s: Bytes)
    ensures Unbroken(Encode(s))
  {
    EncodeSymbols(s);
    forall i | 0 <= i < |Encode(s)| ensures Encode(s)[i] != LF && Encode(s)[i] != CR {
      assert Encode(s)[i] in Encode(s);
    }
  }

  /** An attribute line never breaks, and starts neither a comment nor a continuation. */
  lemma AttrLineLogical(base64Attrs: seq<Bytes>, kind: Bytes, v: Value)
    requires Logical(kind)
    ensures Logical(AttrLine(base64Attrs, kind, v)) && AttrLine(base64Attrs, kind, v) != []
  {
    var tail := if NeedsBase64(base64Attrs, kind, v) then [COLON, SPACE] + Encode(v.bytes) else [SPACE] + v.bytes;
    AttrLineSplit(base64Attrs, kind, v);
    EncodeUnbroken(v.bytes);
    assert Unbroken(tail);
    assert Unbroken(kind + [COLON] + tail);
    assert (kind + [COLON] + tail)[0] == if kind == [] then COLON else kind[0];
  }

  lemma StripBlank(s: Bytes)
    ensures Strip(IsBlank, [SPACE] + s) == Strip(IsBlank, s)
  {
    assert ([SPACE] + s)[1..] == s;
  }

  lemma DecodeAfterBlank(s: Bytes)
    ensures Decode([SPACE] + Encode(s)) == Some(s)
  {
    assert ([SPACE] + Encode(s))[1..] == Encode(s);
    DecodeEncode(s);
  }

  lemma SplitAtColon(kind: Bytes, tail: Bytes)
    requires COLON !in kind
    ensures var line := kind + [COLON] + tail;
      IndexOf(line, COLON) == |kind| < |line| && line[..|kind|] == kind && line[|kind| + 1..] == tail
  {
    IndexOfConcat(kind, COLON, tail);
  }

  /** What an attribute line reads as, by what stands behind its first colon. */
  lemma ParseAfterColon(kind: Bytes, tail: Bytes)
    requires Ascii(kind) && COLON !in kind && tail != []
    ensures tail[0] == COLON && Decode(tail[1..]).Some? ==>
              ParseAttr(kind + [COLON] + tail) == Some((kind, Decode(tail[1..]).value))
    ensures tail[0] != COLON && tail[0] != LESS ==>
        ParseAttr(kind + [COLON] + tail) == Some((kind, Strip(IsBlank, tail)))
  {
    var line := kind + [COLON] + tail;
    SplitAtColon(kind, tail);
    assert line[|kind| + 1] == tail[0];
    assert line[|kind| + 2..] == tail[1..];
  }

  /** One attribute, written and read. */
  lemma ParseAttrLine(base64Attrs: seq<Bytes>, kind: Bytes, v: Value)
    requires Ascii(kind) && COLON !in kind
    ensures ParseAttr(AttrLine(base64Attrs, kind, v)) == Some((kind, Canon(base64Attrs, kind, v)))
  {
    AttrLineSplit(base64Attrs, kind, v);
    if NeedsBase64(base64Attrs, kind, v) {
      var tail := [COLON, SPACE] + Encode(v.bytes);
      assert tail[1..] == [SPACE] + Encode(v.bytes);
      DecodeAfterBlank(v.bytes);
      ParseAfterColon(kind, tail);
    } else {
      StripBlank(v.bytes);
      ParseAfterColon(kind, [SPACE] + v.bytes);
    }
  }

  // ----- one record

  function CanonAll(base64Attrs: seq<Bytes>, kind: Bytes, values: seq<Value>): (r: seq<Bytes>)
    ensures |r| == |values|
    ensures forall i :: 0 <= i < |values| ==> r[i] == Canon(base64Attrs, kind, values[i])
  {
    seq(|values|, i requires 0 <= i < |values| => Canon(base64Attrs, kind, values[i]))
  }

  predicate Retained(ignored: seq<Bytes>, a: Attribute) {
    a.values != [] && LowerBytes(a.kind) !in ignored
  }

  /** What an entry reads back as: attributes without values and ignored ones disappear. */
  function Normal(base64Attrs: seq<Bytes>, ignored: seq<Bytes>, entry: seq<Attribute>): seq<Parsed> {
    if entry == [] then []
    else
      var last := entry[|entry| - 1];
      Normal(base64Attrs, ignored, entry[..|entry| - 1]) +
      if Retained(ignored, last) then [Parsed(last.kind, CanonAll(base64Attrs, last.kind, last.values))] else []
  }

  function NormalRecord(base64Attrs: seq<Bytes>, ignored: seq<Bytes>, r: Record): ParsedRecord {
    ParsedRecord(Some(Canon(base64Attrs, DN, LdifWriter.Text(r.dn))), Normal(base64Attrs, ignored, r.entry))
  }

  ghost predicate HasKind(entry: seq<Parsed>, kind: Bytes) {
    exists i :: 0 <= i < |entry| && entry[i].kind == kind
  }

  lemma {:induction false} NormalKinds(base64Attrs: seq<Bytes>, ignored: seq<Bytes>, entry: seq<Attribute>, kind: Bytes)
    requires forall i :: 0 <= i < |entry| ==> entry[i].kind != kind
    ensures !HasKind(Normal(base64Attrs, ignored, entry), kind)
  {
    if entry != [] {
      NormalKinds(base64Attrs, ignored, entry[..|entry| - 1], kind);
    }
  }

  lemma AddFirstValue(entry: seq<Parsed>, kind: Bytes, value: Bytes)
    requires !HasKind(entry, kind)
    ensures AddValue(entry, kind, value) == entry + [Parsed(kind, [value])]
  {
  }

  lemma AddNextValue(entry: seq<Parsed>, kind: Bytes, values: seq<Bytes>, value: Bytes)
    requires !HasKind(entry, kind)
    ensures AddValue(entry + [Parsed(kind, values)], kind, value) == entry + [Parsed(kind, values + [value])]
  {
    var all := entry + [Parsed(kind, values)];
    var i := KindIndex(all, kind);
    assert all[|entry|].kind == kind;
    assert forall j :: 0 <= j < |entry| ==> all[j] == entry[j];
  }

  /** A record with the values of one more attribute. */
  function WithValues(s: Settings, r: ParsedRecord, kind: Bytes, values: seq<Bytes>): ParsedRecord {
    if values == [] || LowerBytes(kind) in s.ignored then r else r.(entry := r.entry + [Parsed(kind, values)])
  }

  lemma ParseOneMore(base64Attrs: seq<Bytes>, s: Settings, r: ParsedRecord, kind: Bytes, values: seq<Bytes>, v: Value)
    requires r.dn.Some? && WritableType(kind) && !HasKind(r.entry, kind)
    ensures ParseLine(s, WithValues(s, r, kind, values), AttrLine(base64Attrs, kind, v))
         == Some(WithValues(s, r, kind, values + [Canon(base64Attrs, kind, v)]))
  {
    var c := Canon(base64Attrs, kind, v);
    ParseAttrLine(base64Attrs, kind, v);
    AddFirstValue(r.entry, kind, c);
    AddNextValue(r.entry, kind, values, c);
    assert [] + [c] == [c];
  }

  lemma CanonAllSnoc(base64Attrs: seq<Bytes>, kind: Bytes, values: seq<Value>, n: nat)
    requires n < |values|
    ensures CanonAll(base64Attrs, kind, values[..n + 1])
         == CanonAll(base64Attrs, kind, values[..n]) + [Canon(base64Attrs, kind, values[n])]
  {
  }

  /** The values of one attribute, read after the lines before it. */
  lemma {:induction false} ParseValueLines(base64Attrs: seq<Bytes>, s: Settings, before: seq<Bytes>, r: ParsedRecord,
    kind: Bytes, values: seq<Value>)
    requires ParseLines(s, before) == Some(r) && r.dn.Some?
    requires WritableType(kind) && !HasKind(r.entry, kind)
    ensures ParseLines(s, before + ValueLines(base64Attrs, kind, values))
         == Some(WithValues(s, r, kind, CanonAll(base64Attrs, kind, values)))
  {
    if values == [] {
      assert before + ValueLines(base64Attrs, kind, values) == before;
    } else {
      var n := |values| - 1;
      var init, line := values[..n], AttrLine(base64Attrs, kind, values[n]);
      assert values[..n + 1] == values;
      ParseValueLines(base64Attrs, s, before, r, kind, init);
      ValueLinesSnoc(base64Attrs, kind, values, n);
      CanonAllSnoc(base64Attrs, kind, values, n);
      Assoc(before, ValueLines(base64Attrs, kind, init), [line]);
      ParseLinesSnoc(s, before + ValueLines(base64Attrs, kind, init), line);
      ParseOneMore(base64Attrs, s, r, kind, CanonAll(base64Attrs, kind, init), values[n]);
    }
  }

  lemma ParseLinesSnoc(s: Settings, lines: seq<Bytes>, line: Bytes)
    ensures ParseLines(s, lines + [line]) ==
              if ParseLines(s, lines).None? then None else ParseLine(s, ParseLines(s, lines).value, line)
  {
    assert (lines + [line])[..|lines|] == lines;
  }

  /** The dn line and the attribute lines of one record. */
  lemma {:induction false} ParseRecordLines(base64Attrs: seq<Bytes>, s: Settings, dn: Bytes, entry: seq<Attribute>)
    requires WritableEntry(entry)
    requires s.strict ==> s.isDn(Canon(base64Attrs, DN, LdifWriter.Text(dn)))
    ensures ParseLines(s, RecordLines(base64Attrs, Record(dn, entry))) ==
        Some(NormalRecord(base64Attrs, s.ignored, Record(dn, entry)))
  {
    var first := AttrLine(base64Attrs, DN, LdifWriter.Text(dn));
    if entry == [] {
      assert RecordLines(base64Attrs, Record(dn, entry)) == [] + [first];
      ParseLinesSnoc(s, [], first);
      ParseAttrLine(base64Attrs, DN, LdifWriter.Text(dn));
    } else {
      var init, last := entry[..|entry| - 1], entry[|entry| - 1];
      var before := RecordLines(base64Attrs, Record(dn, init));
      ParseRecordLines(base64Attrs, s, dn, init);
      NormalKinds(base64Attrs, s.ignored, init, last.kind);
      ParseValueLines(base64Attrs, s, before, NormalRecord(base64Attrs, s.ignored, Record(dn, init)), last.kind,
        last.values);
      Assoc([first], EntryLines(base64Attrs, init), ValueLines(base64Attrs, last.kind, last.values));
      assert Normal(base64Attrs, s.ignored, init) + [] == Normal(base64Attrs, s.ignored, init);
    }
  }

  // ----- all the records

  /** A list of non-empty lines. */
  predicate Solid(lines: seq<Bytes>) {
    forall i :: 0 <= i < |lines| ==> lines[i] != []
  }

  lemma {:induction false} BlockOfLines(pending: seq<Bytes>, lines: seq<Bytes>, rest: seq<Bytes>)
    requires Solid(lines) && pending + lines != []
    ensures BlocksFrom(pending, lines + [[]] + rest) == [pending + lines] + BlocksFrom([], rest)
    decreases |lines|
  {
    var all := lines + [[]] + rest;
    if lines == [] {
      assert all[1..] == rest;
      assert pending + lines == pending;
    } else {
      assert all[0] == lines[0] && all[1..] == lines[1..] + [[]] + rest;
      BlockOfLines(pending + [lines[0]], lines[1..], rest);
      assert pending + [lines[0]] + lines[1..] == pending + lines;
    }
  }

  /** The lines of one record form one block. */
  lemma {:induction false} EntryLinesSolid(base64Attrs: seq<Bytes>, entry: seq<Attribute>)
    requires forall i :: 0 <= i < |entry| ==> WritableType(entry[i].kind)
    ensures Solid(EntryLines(base64Attrs, entry))
    ensures forall i :: 0 <= i < |EntryLines(base64Attrs, entry)| ==> Logical(EntryLines(base64Attrs, entry)[i])
  {
    if entry != [] {
      var last := entry[|entry| - 1];
      EntryLinesSolid(base64Attrs, entry[..|entry| - 1]);
      var lines := ValueLines(base64Attrs, last.kind, last.values);
      forall i | 0 <= i < |lines| ensures lines[i] != [] && Logical(lines[i]) {
        AttrLineLogical(base64Attrs, last.kind, last.values[i]);
      }
    }
  }

  lemma RecordLinesSolid(base64Attrs: seq<Bytes>, r: Record)
    requires WritableEntry(r.entry)
    ensures var lines := RecordLines(base64Attrs, r);
      lines != [] && Solid(lines) && forall i :: 0 <= i < |lines| ==> Logical(lines[i])
  {
    AttrLineLogical(base64Attrs, DN, LdifWriter.Text(r.dn));
    EntryLinesSolid(base64Attrs, r.entry);
  }

  ghost predicate WritableRecord(base64Attrs: seq<Bytes>, s: Settings, r: Record) {
    WritableEntry(r.entry) && (s.strict ==> s.isDn(Canon(base64Attrs, DN, LdifWriter.Text(r.dn))))
  }

  ghost predicate Writable(base64Attrs: seq<Bytes>, s: Settings, records: seq<Record>) {
    forall i :: 0 <= i < |records| ==> WritableRecord(base64Attrs, s, records[i])
  }

  function BlocksOf(base64Attrs: seq<Bytes>, records: seq<Record>): (r: seq<seq<Bytes>>)
    ensures |r| == |records|
    ensures forall i :: 0 <= i < |records| ==> r[i] == RecordLines(base64Attrs, records[i])
  {
    seq(|records|, i requires 0 <= i < |records| => RecordLines(base64Attrs, records[i]))
  }

  lemma LogicalConcat(a: seq<Bytes>, b: seq<Bytes>)
    requires forall i :: 0 <= i < |a| ==> Logical(a[i])
    requires forall i :: 0 <= i < |b| ==> Logical(b[i])
    ensures forall i :: 0 <= i < |a + b| ==> Logical((a + b)[i])
  {
  }

  lemma {:induction false} BlocksOfAllLines(base64Attrs: seq<Bytes>, s: Settings, records: seq<Record>)
    requires Writable(base64Attrs, s, records)
    ensures BlocksFrom([], AllLines(base64Attrs, records)) == BlocksOf(base64Attrs, records)
    ensures forall i :: 0 <= i < |AllLines(base64Attrs, records)| ==> Logical(AllLines(base64Attrs, records)[i])
  {
    if records != [] {
      var lines := RecordLines(base64Attrs, records[0]);
      assert WritableRecord(base64Attrs, s, records[0]);
      RecordLinesSolid(base64Attrs, records[0]);
      var rest := AllLines(base64Attrs, records[1..]);
      BlocksOfAllLines(base64Attrs, s, records[1..]);
      BlockOfLines([], lines, rest);
      assert [] + lines == lines;
      assert BlocksOf(base64Attrs, records) == [lines] + BlocksOf(base64Attrs, records[1..]);
      LogicalConcat(lines + [[]], rest);
    }
  }

  function NormalRecords(base64Attrs: seq<Bytes>, ignored: seq<Bytes>, records: seq<Record>): (r: seq<ParsedRecord>)
    ensures |r| == |records|
    ensures forall i :: 0 <= i < |records| ==> r[i] == NormalRecord(base64Attrs, ignored, records[i])
  {
    seq(|records|, i requires 0 <= i < |records| => NormalRecord(base64Attrs, ignored, records[i]))
  }

  lemma ParseBlocksSnoc(s: Settings, blocks: seq<seq<Bytes>>, block: seq<Bytes>, rs: seq<ParsedRecord>, r: ParsedRecord)
    requires ParseBlocks(s, blocks) == Some(rs) && ParseLines(s, block) == Some(r)
    ensures ParseBlocks(s, blocks + [block]) == Some(rs + [r])
  {
    assert (blocks + [block])[..|blocks|] == blocks;
  }

  lemma RecordsSnoc(base64Attrs: seq<Bytes>, s: Settings, init: seq<Record>, last: Record)
    ensures BlocksOf(base64Attrs, init + [last]) == BlocksOf(base64Attrs, init) + [RecordLines(base64Attrs, last)]
    ensures NormalRecords(base64Attrs, s.ignored, init + [last])
         == NormalRecords(base64Attrs, s.ignored, init) + [NormalRecord(base64Attrs, s.ignored, last)]
  {
  }

  lemma ParseWritable(base64Attrs: seq<Bytes>, s: Settings, r: Record)
    requires WritableRecord(base64Attrs, s, r)
    ensures ParseLines(s, RecordLines(base64Attrs, r)) == Some(NormalRecord(base64Attrs, s.ignored, r))
  {
    ParseRecordLines(base64Attrs, s, r.dn, r.entry);
  }

  lemma {:induction false} ParseBlocksOf(base64Attrs: seq<Bytes>, s: Settings, records: seq<Record>)
    requires Writable(base64Attrs, s, records)
    ensures ParseBlocks(s, BlocksOf(base64Attrs, records)) == Some(NormalRecords(base64Attrs, s.ignored, records))
  {
    if records != [] {
      var init, last := records[..|records| - 1], records[|records| - 1];
      var r := NormalRecord(base64Attrs, s.ignored, last);
      assert records == init + [last];
      assert WritableRecord(base64Attrs, s, last);
      ParseWritable(base64Attrs, s, last);
      ParseBlocksOf(base64Attrs, s, init);
      RecordsSnoc(base64Attrs, s, init, last);
      ParseBlocksSnoc(s, BlocksOf(base64Attrs, init), RecordLines(base64Attrs, last),
        NormalRecords(base64Attrs, s.ignored, init), r);
    }
  }

  /** The text of a list of records. */
  function Output(base64Attrs: seq<Bytes>, cols: nat, sep: Bytes, records: seq<Record>): Bytes
    requires cols >= 2
  {
    FoldAll(AllLines(base64Attrs, records), cols, sep)
  }

  /**
   Parsing the written text gives one record per record, in order, each in its normal form; the
   parser counts as many records as there are, and no physical line is wider than asked.
   */
  lemma ParseOfOutput(base64Attrs: seq<Bytes>, cols: nat, sep: Bytes, s: Settings, records: seq<Record>)
    requires cols >= 2 && IsLineSep(sep) && Writable(base64Attrs, s, records)
    ensures var text := Output(base64Attrs, cols, sep, records);
      && Parse(s, text) == Some(NormalRecords(base64Attrs, s.ignored, records))
      && |BlocksFrom([], LogicalLines(text))| == |records|
      && forall l :: l in PhysicalLines(text) ==> Fits(l, cols)
  {
    BlocksOfAllLines(base64Attrs, s, records);
    UnfoldFoldAll(AllLines(base64Attrs, records), cols, sep);
    ParseBlocksOf(base64Attrs, s, records);
  }

  // ----- lines that carry no attribute

  /** A line that starts with a hash disappears, unless the next one continues it. */
  lemma CommentDropped(line: Bytes, rest: seq<Bytes>)
    requires line != [] && line[0] == 35 && StripSep(line) != []
    requires rest == [] || rest[0] == [] || rest[0][0] != 32
    ensures Unfold([line] + rest) == Unfold(rest)
  {
    assert ([line] + rest)[1..] == rest && rest[..0] == [] && rest[0..] == rest;
    assert StripSep(line) + Glue([]) == StripSep(line);
    assert StripSep(line)[0] == 35;
  }

  /** `version:` before the dn says nothing; `:<` names a resource that is not fetched. */
  lemma SpecialLines(s: Settings, kind: Bytes, tail: Bytes)
    requires Ascii(kind) && COLON !in kind
    ensures ParseAttr(kind + [58, 60] + tail) == Some((kind, []))
    ensures kind == [118, 101, 114, 115, 105, 111, 110] ==>
        ParseLine(s, ParsedRecord(None, []), kind + [58, 60] + tail) == Some(ParsedRecord(None, []))
  {
    assert kind + [58, 60] + tail == kind + [COLON] + ([60] + tail);
    SplitAtColon(kind, [60] + tail);
    assert (kind + [COLON] + ([60] + tail))[|kind| + 1] == 60;
  }

  /** Which bytes are stripped from a plain value, and of which an attribute type may consist. */
  lemma ByteClasses(b: Byte)
    ensures IsBlank(b) <==> b == 9 || b == 10 || b == 11 || b == 12 || b == 13 || b == 32
    ensures Ascii([b]) <==> 0 <= b <= 127
  {
    assert [b][0] == b;
  }

  // ----- exactly when nothing is lost

  function Plain(a: Attribute): Parsed {
    Parsed(a.kind, seq(|a.values|, i requires 0 <= i < |a.values| => a.values[i].bytes))
  }

  function PlainEntry(entry: seq<Attribute>): (r: seq<Parsed>)
    ensures |r| == |entry|
    ensures forall i :: 0 <= i < |entry| ==> r[i] == Plain(entry[i])
  {
    seq(|entry|, i requires 0 <= i < |entry| => Plain(entry[i]))
  }

  /** The records themselves, text and raw values alike as their bytes. */
  function PlainRecords(records: seq<Record>): (r: seq<ParsedRecord>)
    ensures |r| == |records|
    ensures forall i :: 0 <= i < |records| ==> r[i] == ParsedRecord(Some(records[i].dn), PlainEntry(records[i].entry))
  {
    seq(|records|, i requires 0 <= i < |records| => ParsedRecord(Some(records[i].dn), PlainEntry(records[i].entry)))
  }

  predicate Faithful(names: seq<Bytes>, ignored: seq<Bytes>, a: Attribute) {
    && a.values != [] && !Listed(ignored, a.kind)
    && forall i :: 0 <= i < |a.values| ==> Survives(names, a.kind, a.values[i])
  }

  predicate FaithfulEntry(names: seq<Bytes>, ignored: seq<Bytes>, entry: seq<Attribute>) {
    forall i :: 0 <= i < |entry| ==> Faithful(names, ignored, entry[i])
  }

  lemma CanonAllIdentity(names: seq<Bytes>, a: Attribute)
    ensures Parsed(a.kind, CanonAll(LowerAll(names), a.kind, a.values)) == Plain(a)
       <==> forall i :: 0 <= i < |a.values| ==> Survives(names, a.kind, a.values[i])
  {
    var canon, plain := CanonAll(LowerAll(names), a.kind, a.values), Plain(a).values;
    forall i | 0 <= i < |a.values| ensures canon[i] == plain[i] <==> Survives(names, a.kind, a.values[i]) {
      CanonIdentity(names, a.kind, a.values[i]);
    }
    if forall i :: 0 <= i < |a.values| ==> Survives(names, a.kind, a.values[i]) {
      assert canon == plain;
    }
  }

  lemma {:induction false} NormalIdentity(names: seq<Bytes>, ignored: seq<Bytes>, entry: seq<Attribute>)
    ensures |Normal(LowerAll(names), LowerAll(ignored), entry)| <= |entry|
    ensures Normal(LowerAll(names), LowerAll(ignored), entry) == PlainEntry(entry) <==>
              FaithfulEntry(names, ignored, entry)
  {
    if entry != [] {
      var init, last := entry[..|entry| - 1], entry[|entry| - 1];
      NormalIdentity(names, ignored, init);
      CanonAllIdentity(names, last);
      ListedLowered(ignored, last.kind);
      assert PlainEntry(entry) == PlainEntry(init) + [Plain(last)];
      assert FaithfulEntry(names, ignored, entry) <==>
        FaithfulEntry(names, ignored, init) && Faithful(names, ignored, last) by {
        assert forall i :: 0 <= i < |init| ==> init[i] == entry[i];
      }
      if Retained(LowerAll(ignored), last) {
        var n := Normal(LowerAll(names), LowerAll(ignored), init);
        var p := Parsed(last.kind, CanonAll(LowerAll(names), last.kind, last.values));
        SnocEqual(n, p, PlainEntry(init), Plain(last));
      }
    }
  }

  lemma SnocEqual<T>(a: seq<T>, x: T, b: seq<T>, y: T)
    ensures a + [x] == b + [y] <==> a == b && x == y
  {
    if a + [x] == b + [y] {
      assert a == (a + [x])[..|a|] && b == (b + [y])[..|b|];
      assert x == (a + [x])[|a|] && y == (b + [y])[|b|];
    }
  }

  /** Nothing of the record is lost. */
  predicate Lossless(names: seq<Bytes>, ignored: seq<Bytes>, r: Record) {
    Survives(names, [100, 110], LdifWriter.Text(r.dn)) && FaithfulEntry(names, ignored, r.entry)
  }

  lemma LosslessIff(names: seq<Bytes>, ignored: seq<Bytes>, r: Record)
    ensures NormalRecord(LowerAll(names), LowerAll(ignored), r) == ParsedRecord(Some(r.dn), PlainEntry(r.entry)) <==>
              Lossless(names, ignored, r)
  {
    CanonIdentity(names, DN, LdifWriter.Text(r.dn));
    NormalIdentity(names, ignored, r.entry);
  }

  /**
   The records come back unchanged exactly when no value list is empty, no attribute is ignored, and
   every dn and value is raw, of a type listed for base64, no safe string, or without blanks at its ends.
   */
  lemma RoundTripIff(names: seq<Bytes>, cols: nat, sep: Bytes, s: Settings, records: seq<Record>)
    requires cols >= 2 && IsLineSep(sep) && Writable(LowerAll(names), Lowered(s), records)
    ensures Parse(Lowered(s), Output(LowerAll(names), cols, sep, records)) == Some(PlainRecords(records))
       <==> forall i :: 0 <= i < |records| ==> Lossless(names, s.ignored, records[i])
  {
    ParseOfOutput(LowerAll(names), cols, sep, Lowered(s), records);
    var normal, plain := NormalRecords(LowerAll(names), LowerAll(s.ignored), records), PlainRecords(records);
    forall i | 0 <= i < |records| ensures normal[i] == plain[i] <==> Lossless(names, s.ignored, records[i]) {
      LosslessIff(names, s.ignored, records[i]);
    }
    assert normal == plain <==> forall i :: 0 <= i < |records| ==> normal[i] == plain[i];
  }

  // ----- the two programs together

  lemma {:induction false} AllLinesSnoc(base64Attrs: seq<Bytes>, records: seq<Record>, r: Record)
    ensures AllLines(base64Attrs, records + [r]) ==
        AllLines(base64Attrs, records) + (RecordLines(base64Attrs, r) + [[]])
  {
    if records == [] {
      assert ([r])[1..] == [];
      assert RecordLines(base64Attrs, r) + [[]] + [] == [] + (RecordLines(base64Attrs, r) + [[]]);
      assert [] + [r] == [r];
    } else {
      assert (records + [r])[1..] == records[1..] + [r];
      AllLinesSnoc(base64Attrs, records[1..], r);
      Assoc(RecordLines(base64Attrs, records[0]) + [[]], AllLines(base64Attrs, records[1..]),
        RecordLines(base64Attrs, r) + [[]]);
    }
  }

  lemma AsciiRecord(base64Attrs: seq<Bytes>, s: Settings, records: seq<Record>, i: nat)
    requires Writable(base64Attrs, s, records) && i < |records|
    ensures AsciiTypes(records[i].entry)
  {
    assert WritableRecord(base64Attrs, s, records[i]);
  }

  lemma OutputSnoc(base64Attrs: seq<Bytes>, cols: nat, sep: Bytes, records: seq<Record>, i: nat)
    requires cols >= 2 && i < |records|
    ensures Output(base64Attrs, cols, sep, records[..i + 1]) ==
              Output(base64Attrs, cols, sep, records[..i]) +
                FoldAll(RecordLines(base64Attrs, records[i]) + [[]], cols, sep)
  {
    AllLinesSnoc(base64Attrs, records[..i], records[i]);
    FoldAllConcat(AllLines(base64Attrs, records[..i]), RecordLines(base64Attrs, records[i]) + [[]], cols, sep);
    assert records[..i] + [records[i]] == records[..i + 1];
  }

  method WriteAll(writer: LDIFWriter, s: Settings, records: seq<Record>)
    requires writer.cols >= 2 && writer.output == [] && writer.recordsWritten == 0
    requires Writable(writer.base64Attrs, s, records)
    modifies writer
    ensures writer.recordsWritten == |records|
    ensures writer.output == Output(writer.base64Attrs, writer.cols, writer.lineSep, records)
  {
    for i := 0 to |records|
      invariant writer.recordsWritten == i
      invariant writer.output == Output(writer.base64Attrs, writer.cols, writer.lineSep, records[..i])
    {
      AsciiRecord(writer.base64Attrs, s, records, i);
      OutputSnoc(writer.base64Attrs, writer.cols, writer.lineSep, records, i);
      var ok := writer.Unparse(records[i]);
    }
    assert records[..|records|] == records;
  }

  /**
   Write every record, then read the text: the counts agree, the records come back in normal form, and
   they come back unchanged exactly when nothing of them is lost.
   */
  method WriteAndRead(names: seq<Bytes>, cols: nat, sep: Bytes, s: Settings, records: seq<Record>)
    returns (written: nat, read: nat, parsed: Option<seq<ParsedRecord>>)
    requires cols >= 2 && IsLineSep(sep)
    requires Writable(LowerAll(names), Lowered(s), records)
    ensures written == read == |records|
    ensures parsed == Some(NormalRecords(LowerAll(names), LowerAll(s.ignored), records))
    ensures parsed == Some(PlainRecords(records)) <==>
              forall i :: 0 <= i < |records| ==> Lossless(names, s.ignored, records[i])
  {
    var writer := new LDIFWriter(names, cols, sep);
    WriteAll(writer, Lowered(s), records);
    ParseOfOutput(writer.base64Attrs, cols, sep, Lowered(s), records);
    RoundTripIff(names, cols, sep, s, records);
    var parser := new LDIFParser(writer.output, s);
    parsed := parser.ParseAll();
    written, read := writer.recordsWritten, parser.recordsRead;
  }
}
