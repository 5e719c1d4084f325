/** Reading LDIF entry records: logical lines, blocks, attributes, records. */
module LdifParser {
  import opened Wrappers
  import opened Sequences
  import opened Text
  import opened Base64
  import opened LdifLines
  import opened LdifWriter

  /** White space as bytes.strip sees it. */
  predicate IsBlank(b: Byte) {
    9 <= b <= 13 || b == SPACE
  }

  /** What the caller chose; isDn recognises distinguished names. */
  datatype Settings = Settings(strict: bool, ignored: seq<Bytes>, isDn: Bytes -> bool)

  /** The settings as the parser keeps them: ignored types are compared in lower case. */
  function Lowered(s: Settings): Settings {
    s.(ignored := LowerAll(s.ignored))
  }

  datatype Parsed = Parsed(kind: Bytes, values: seq<Bytes>)

  datatype ParsedRecord = ParsedRecord(dn: Option<Bytes>, entry: seq<Parsed>)

  const VERSION: Bytes := [118, 101, 114, 115, 105, 111, 110]
  const LESS: Byte := 60

  /** Groups of non-empty lines, the ones collected so far first. */
  function BlocksFrom(pending: seq<Bytes>, lines: seq<Bytes>): seq<seq<Bytes>>
    decreases |lines|
  {
    if lines == [] then
      if pending == [] then [] else [pending]
    else if lines[0] != [] then
      BlocksFrom(pending + [lines[0]], lines[1..])
    else if pending != [] then
      [pending] + BlocksFrom([], lines[1..])
    else
      BlocksFrom([], lines[1..])
  }

  /** One attribute line; None where the program raises. URL processing is off. */
  function ParseAttr(line: Bytes): Option<(Bytes, Bytes)> {
    var i := IndexOf(line, COLON);
    if i == |line| || !Ascii(line[..i]) then None
    else if i + 1 < |line| && line[i + 1] == COLON then
      var value :- Decode(line[i + 2..]);
      Some((line[..i], value))
    else if i + 1 < |line| && line[i + 1] == LESS then
      Some((line[..i], []))
    else
      Some((line[..i], Strip(IsBlank, line[i + 1..])))
  }

  /** Where an attribute type stands in an entry, or the length of the entry. */
  function KindIndex(entry: seq<Parsed>, kind: Bytes): (i: nat)
    ensures i <= |entry|
    ensures i < |entry| ==> entry[i].kind == kind
    ensures forall j :: 0 <= j < i ==> entry[j].kind != kind
  {
    if entry == [] || entry[0].kind == kind then 0 else 1 + KindIndex(entry[1..], kind)
  }

  /** One more value for a known type, or a new type at the end. */
  function AddValue(entry: seq<Parsed>, kind: Bytes, value: Bytes): seq<Parsed> {
    var i := KindIndex(entry, kind);
    if i < |entry| then entry[i := Parsed(kind, entry[i].values + [value])] else entry + [Parsed(kind, [value])]
  }

  /** One line of a record; None where a strict parser raises. */
  function ParseLine(settings: Settings, r: ParsedRecord, line: Bytes): Option<ParsedRecord> {
    var attr :- ParseAttr(line);
    var (kind, value) := attr;
    if kind == VERSION && r.dn.None? then Some(r)
    else if kind == DN then
      if settings.strict && (r.dn.Some? || !settings.isDn(value)) then None else Some(r.(dn := Some(value)))
    else if r.dn.None? then
      if settings.strict then None else Some(r)
    else if LowerBytes(kind) in settings.ignored then Some(r)
    else Some(r.(entry := AddValue(r.entry, kind, value)))
  }

  function ParseLines(settings: Settings, lines: seq<Bytes>): Option<ParsedRecord> {
    if lines == [] then Some(ParsedRecord(None, []))
    else
      var r :- ParseLines(settings, lines[..|lines| - 1]);
      ParseLine(settings, r, lines[|lines| - 1])
  }

  function ParseBlocks(settings: Settings, blocks: seq<seq<Bytes>>): Option<seq<ParsedRecord>> {
    if blocks == [] then Some([])
    else
      var init :- ParseBlocks(settings, blocks[..|blocks| - 1]);
      var last :- ParseLines(settings, blocks[|blocks| - 1]);
      Some(init + [last])
  }

  /** How many blocks are taken: all of them, or those up to and with the first one that raises. */
  function Taken(settings: Settings, blocks: seq<seq<Bytes>>): (n: nat)
    ensures n <= |blocks|
    ensures ParseBlocks(settings, blocks).Some? ==> n == |blocks| == |ParseBlocks(settings, blocks).value|
  {
    if blocks == [] then 0
    else
      var init := blocks[..|blocks| - 1];
      if ParseBlocks(settings, init).Some? then Taken(settings, init) + 1 else Taken(settings, init)
  }

  /** No block behind one that raises is taken. */
  lemma {:induction false} TakenStops(settings: Settings, blocks: seq<seq<Bytes>>, n: nat)
    requires n <= |blocks| && ParseBlocks(settings, blocks[..n]).None?
    ensures ParseBlocks(settings, blocks).None? && Taken(settings, blocks) == Taken(settings, blocks[..n])
  {
    if n == |blocks| {
      assert blocks[..n] == blocks;
    } else {
      assert blocks[..|blocks| - 1][..n] == blocks[..n];
      TakenStops(settings, blocks[..|blocks| - 1], n);
    }
  }

  function LogicalLines(text: Bytes): seq<Bytes> {
    Unfold(PhysicalLines(text))
  }

  function Parse(settings: Settings, text: Bytes): Option<seq<ParsedRecord>> {
    ParseBlocks(settings, BlocksFrom([], LogicalLines(text)))
  }

  lemma {:induction false} ParseLinesFails(settings: Settings, lines: seq<Bytes>, n: nat)
    requires n <= |lines| && ParseLines(settings, lines[..n]).None?
    ensures ParseLines(settings, lines).None?
  {
    if n == |lines| {
      assert lines[..n] == lines;
    } else {
      assert lines[..|lines| - 1][..n] == lines[..n];
      ParseLinesFails(settings, lines[..|lines| - 1], n);
    }
  }

  lemma RunAt(lines: seq<Bytes>, n: nat)
    requires n <= |lines| && forall i :: 0 <= i < n ==> Continues(lines[i])
    requires n == |lines| || !Continues(lines[n])
    ensures Run(lines) == n
  {
    assert lines == lines[..n] + lines[n..];
    RunOfContinuations(lines[..n], lines[n..]);
  }

  class LDIFParser {
    const input: Bytes
    const settings: Settings
    var pos: nat
    var recordsRead: nat

    constructor (input: Bytes, settings: Settings)
      ensures this.input == input && this.settings == Lowered(settings) && pos == 0 && recordsRead == 0
    {
      this.input := input;
      this.settings := settings.(ignored := LowerAll(settings.ignored));
      pos := 0;
      recordsRead := 0;
    }

    ghost function Rest(): seq<Bytes>
      requires pos <= |input|
      reads this
    {
      PhysicalLines(input[pos..])
    }

    /** The line just read, when there is one, with what is still unread. */
    ghost function Pending(line: Bytes): seq<Bytes>
      requires pos <= |input|
      reads this
    {
      if line == [] then [] else [line] + Rest()
    }

    /** The next physical line, or nothing at the end. */
    method ReadLine() returns (line: Bytes)
      requires pos <= |input|
      modifies this`pos
      ensures old(pos) <= pos <= |input| && pos - old(pos) == |line|
      ensures line == [] ==> Rest() == []
      ensures Pending(line) == old(Rest())
    {
      var rest := input[pos..];
      var n := LineLength(rest);
      line := rest[..n];
      pos := pos + n;
      assert rest[n..] == input[pos..];
    }

    /** Append the lines that continue the first one; `next` is the line that does not. */
    method UnfoldOne(first: Bytes) returns (line: Bytes, next: Bytes)
      requires pos <= |input|
      modifies this`pos
      ensures old(pos) <= pos <= |input| && |next| <= pos - old(pos)
      ensures next == [] ==> Rest() == []
      ensures Unfold([first] + old(Rest())) == Kept(line) + Unfold(Pending(next))
    {
      ghost var rest, k := Rest(), 0;
      line := StripSep(first);
      assert Gathered(first, rest, 0, line, rest);
      next := ReadLine();
      while next != [] && next[0] == SPACE
        invariant old(pos) <= pos <= |input| && |next| <= pos - old(pos)
        invariant Gathered(first, rest, k, line, Pending(next))
        invariant next == [] ==> Rest() == []
        decreases |input| - pos + |next|
      {
        GatherStep(first, rest, k, line, next, Rest());
        line := line + Tail(StripSep(next));
        k := k + 1;
        next := ReadLine();
      }
      UnfoldNext(first, rest, k, line, Pending(next));
    }

    method IterUnfoldedLines() returns (lines: seq<Bytes>)
      requires pos <= |input|
      modifies this`pos
      ensures lines == Unfold(old(Rest()))
    {
      ghost var all := Unfold(Rest());
      lines := [];
      var line := ReadLine();
      assert lines + Unfold(Pending(line)) == all;
      while line != []
        invariant pos <= |input| && lines + Unfold(Pending(line)) == all
        decreases |input| - pos + |line|
      {
        var unfolded, next := UnfoldOne(line);
        Assoc(lines, Kept(unfolded), Unfold(Pending(next)));
        lines := Keep(lines, unfolded);
        line := next;
      }
    }

    /** Comments are skipped. */
    static method Keep(lines: seq<Bytes>, unfolded: Bytes) returns (more: seq<Bytes>)
      ensures more == lines + Kept(unfolded)
    {
      more := lines;
      if unfolded == [] || unfolded[0] != HASH {
        more := more + [unfolded];
      }
    }

    /** The blocks between empty lines. */
    method IterBlocks() returns (blocks: seq<seq<Bytes>>)
      requires pos <= |input|
      modifies this`pos
      ensures blocks == BlocksFrom([], Unfold(old(Rest())))
    {
      var all := IterUnfoldedLines();
      blocks := [];
      var lines: seq<Bytes> := [];
      for i := 0 to |all|
        invariant blocks + BlocksFrom(lines, all[i..]) == BlocksFrom([], all)
      {
        BlocksStep(lines, all, i);
        Assoc(blocks, [lines], BlocksFrom([], all[i + 1..]));
        if all[i] != [] {
          lines := lines + [all[i]];
        } else if lines != [] {
          blocks := blocks + [lines];
          lines := [];
        }
      }
      if lines != [] {
        blocks := blocks + [lines];
      }
      assert blocks + [] == blocks;
    }

    method ParseEntryRecord(lines: seq<Bytes>) returns (r: Option<ParsedRecord>)
      ensures r == ParseLines(settings, lines)
    {
      var record := ParsedRecord(None, []);
      for i := 0 to |lines|
        invariant ParseLines(settings, lines[..i]) == Some(record)
      {
        assert lines[..i + 1][..i] == lines[..i];
        var attr := ParseAttr(lines[i]);
        if attr.None? {
          ParseLinesFails(settings, lines, i + 1);
          return None;
        }
        var (kind, value) := attr.value;
        if kind == VERSION && record.dn.None? {
          continue;
        }
        if kind == DN {
          if settings.strict && (record.dn.Some? || !settings.isDn(value)) {
            ParseLinesFails(settings, lines, i + 1);
            return None;
          }
          record := record.(dn := Some(value));
          continue;
        }
        if record.dn.None? {
          if settings.strict {
            ParseLinesFails(settings, lines, i + 1);
            return None;
          }
          continue;
        }
        if LowerBytes(kind) in settings.ignored {
          continue;
        }
        record := record.(entry := AddValue(record.entry, kind, value));
      }
      assert lines[..|lines|] == lines;
      return Some(record);
    }

    /** Each block is counted as it is taken, and then parsed. */
    method ParseRecords(blocks: seq<seq<Bytes>>) returns (r: Option<seq<ParsedRecord>>)
      modifies this`recordsRead
      ensures r == ParseBlocks(settings, blocks)
      ensures recordsRead == old(recordsRead) + Taken(settings, blocks)
    {
      var records: seq<ParsedRecord> := [];
      for i := 0 to |blocks|
        invariant ParseBlocks(settings, blocks[..i]) == Some(records)
        invariant recordsRead == old(recordsRead) + Taken(settings, blocks[..i])
      {
        assert blocks[..i + 1][..i] == blocks[..i];
        recordsRead := recordsRead + 1;
        var record := ParseEntryRecord(blocks[i]);
        if record.None? {
          TakenStops(settings, blocks, i + 1);
          return None;
        }
        records := records + [record.value];
      }
      assert blocks[..|blocks|] == blocks;
      return Some(records);
    }

    /** All the records of the input, or None where one raises; counted are the blocks taken by then. */
    method ParseAll() returns (r: Option<seq<ParsedRecord>>)
      requires pos == 0
      modifies this
      ensures r == Parse(settings, input)
      ensures recordsRead == old(recordsRead) + Taken(settings, BlocksFrom([], LogicalLines(input)))
    {
      assert input[0..] == input;
      var blocks := IterBlocks();
      r := ParseRecords(blocks);
    }
  }

  lemma BlocksStep(pending: seq<Bytes>, all: seq<Bytes>, i: nat)
    requires i < |all|
    ensures BlocksFrom(pending, all[i..]) ==
              if all[i] != [] then BlocksFrom(pending + [all[i]], all[i + 1..])
              else if pending != [] then [pending] + BlocksFrom([], all[i + 1..])
              else BlocksFrom([], all[i + 1..])
  {
    assert all[i..][1..] == all[i + 1..];
  }

  /** A line with the first continuation lines glued on, and the lines not yet read. */
  ghost predicate Gathered(first: Bytes, rest: seq<Bytes>, k: nat, line: Bytes, unread: seq<Bytes>) {
    && k <= |rest| && line == StripSep(first) + Glue(rest[..k]) && rest[k..] == unread
    && forall i :: 0 <= i < k ==> Continues(rest[i])
  }

  lemma GatherStep(first: Bytes, rest: seq<Bytes>, k: nat, line: Bytes, next: Bytes, more: seq<Bytes>)
    requires Gathered(first, rest, k, line, [next] + more) && Continues(next)
    ensures Gathered(first, rest, k + 1, line + Tail(StripSep(next)), more)
  {
    assert rest[k] == rest[k..][0];
    assert rest[k + 1..] == rest[k..][1..];
    assert rest[..k + 1][..k] == rest[..k];
    Assoc(StripSep(first), Glue(rest[..k]), Tail(StripSep(next)));
  }

  /** One turn of the unfolding loop. */
  lemma UnfoldNext(first: Bytes, rest: seq<Bytes>, k: nat, line: Bytes, unread: seq<Bytes>)
    requires Gathered(first, rest, k, line, unread) && (unread == [] || !Continues(unread[0]))
    ensures Unfold([first] + rest) == Kept(line) + Unfold(unread)
  {
    assert k < |rest| ==> rest[k] == rest[k..][0];
    RunAt(rest, k);
    assert ([first] + rest)[1..] == rest;
  }
}
