/**
 * Server-sent events as a client reads them, after section 9.2.6 of the WHATWG HTML standard: lines,
 * fields, and the events dispatched at blank lines. Blocks are the lines of one event; whatever is
 * written as a sequence of blocks is read as the sequence of their messages.
 */
module EventStream {
  import opened ByteText

  const LF: byte := 0x0A
  const CR: byte := 0x0D
  const SPACE: byte := 0x20

  const DATA: Bytes := [0x64, 0x61, 0x74, 0x61]           // data
  const EVENT: Bytes := [0x65, 0x76, 0x65, 0x6E, 0x74]    // event

  predicate OneLine(s: Bytes) {
    LF !in s && CR !in s
  }

  ghost predicate AllOneLine(lines: seq<Bytes>) {
    forall i | 0 <= i < |lines| :: OneLine(lines[i])
  }

  // ---------- lines ----------

  /** Where the first line of s ends, or |s|. */
  function LineEnd(s: Bytes): (n: nat)
    ensures n <= |s| && OneLine(s[..n]) && (n < |s| ==> s[n] == LF || s[n] == CR)
  {
    if s == [] || s[0] == LF || s[0] == CR then 0 else
      var n := 1 + LineEnd(s[1..]);
      assert s[..n] == [s[0]] + s[1..][..n - 1];
      n
  }

  /** The terminated lines of s, each ended by CR LF, by LF or by CR. */
  function Lines(s: Bytes): seq<Bytes>
    decreases |s|
  {
    var n := LineEnd(s);
    if n == |s| then []
    else if s[n] == CR && n + 1 < |s| && s[n + 1] == LF then [s[..n]] + Lines(s[n + 2..])
    else [s[..n]] + Lines(s[n + 1..])
  }

  function Unlines(lines: seq<Bytes>): Bytes {
    if lines == [] then [] else lines[0] + [LF] + Unlines(lines[1..])
  }

  lemma {:induction false} LineEndAt(line: Bytes, rest: Bytes)
    requires OneLine(line) && rest != [] && (rest[0] == LF || rest[0] == CR)
    ensures LineEnd(line + rest) == |line|
  {
    if line == [] {
      assert line + rest == rest;
    } else {
      assert (line + rest)[1..] == line[1..] + rest;
      LineEndAt(line[1..], rest);
    }
  }

  lemma {:induction false} LinesOfUnlines(lines: seq<Bytes>)
    requires AllOneLine(lines)
    ensures Lines(Unlines(lines)) == lines
  {
    if lines != [] {
      var line, rest := lines[0], Unlines(lines[1..]);
      assert line + [LF] + rest == line + ([LF] + rest);
      LineEndAt(line, [LF] + rest);
      var s := Unlines(lines);
      assert s[..|line|] == line && s[|line| + 1..] == rest;
      LinesOfUnlines(lines[1..]);
    }
  }

  lemma {:induction false} UnlinesConcat(a: seq<Bytes>, b: seq<Bytes>)
    ensures Unlines(a + b) == Unlines(a) + Unlines(b)
  {
    if a == [] {
      assert a + b == b;
    } else {
      assert (a + b)[1..] == a[1..] + b;
      UnlinesConcat(a[1..], b);
    }
  }

  // ---------- fields ----------

  datatype Field = NoField | Field(name: Bytes, value: Bytes)

  function ColonIn(line: Bytes): (n: nat)
    ensures n <= |line| && COLON !in line[..n] && (n < |line| ==> line[n] == COLON)
  {
    if line == [] || line[0] == COLON then 0 else
      var n := 1 + ColonIn(line[1..]);
      assert line[..n] == [line[0]] + line[1..][..n - 1];
      n
  }

  /** Both sides read a line alike: a name, and after a colon and at most one space a value. */
  function ParseSSEField(line: Bytes): (f: Field)
    ensures f.NoField? <==> [COLON] <= line || line == []
    ensures f.Field? ==> f.name != [] && COLON !in f.name
    ensures f.Field? ==>
      || (line == f.name && f.value == [])
      || line == f.name + [COLON, SPACE] + f.value
      || (line == f.name + [COLON] + f.value && !([SPACE] <= f.value))
  {
    if line == [] || line[0] == COLON then NoField
    else
      var n := ColonIn(line);
      if n == |line| then
        assert line[..n] == line;
        Field(line, [])
      else
        var value := line[n + 1..];
        assert line == line[..n] + [COLON] + value;
        if [SPACE] <= value then
          assert value == [SPACE] + value[1..];
          Field(line[..n], value[1..])
        else Field(line[..n], value)
  }

  function FieldLine(name: Bytes, value: Bytes): Bytes {
    name + ([COLON, SPACE] + value)
  }

  lemma {:induction false} ColonAfter(name: Bytes, rest: Bytes)
    requires COLON !in name && rest != [] && rest[0] == COLON
    ensures ColonIn(name + rest) == |name|
  {
    if name == [] {
      assert name + rest == rest;
    } else {
      assert (name + rest)[1..] == name[1..] + rest;
      ColonAfter(name[1..], rest);
    }
  }

  lemma FieldRoundTrip(name: Bytes, value: Bytes)
    requires name != [] && COLON !in name
    ensures ParseSSEField(FieldLine(name, value)) == Field(name, value)
    ensures OneLine(FieldLine(name, value)) <==> OneLine(name) && OneLine(value)
  {
    var line := FieldLine(name, value);
    ColonAfter(name, [COLON, SPACE] + value);
    assert line[..|name|] == name && line[|name| + 1..] == [SPACE] + value;
    assert ([SPACE] + value)[1..] == value;
    assert forall b | b in value || b in name :: b in line;
  }

  // ---------- events ----------

  /** A dispatched event; its data is that of its data lines, joined by LF. */
  datatype Message = Message(name: Bytes, data: seq<Bytes>)

  /** A client with its buffers and what it has dispatched. */
  datatype Client = Client(name: Bytes, data: seq<Bytes>, seen: seq<Message>)

  function Hear(c: Client, line: Bytes): Client {
    if line == [] then
      Client([], [], c.seen + if c.data == [] then [] else [Message(c.name, c.data)])
    else
      match ParseSSEField(line)
      case NoField => c
      case Field(name, value) =>
        if name == EVENT then c.(name := value)
        else if name == DATA then c.(data := c.data + [value])
        else c
  }

  function HearAll(c: Client, lines: seq<Bytes>): Client
    decreases |lines|
  {
    if lines == [] then c else HearAll(Hear(c, lines[0]), lines[1..])
  }

  /** The byte order mark, in UTF-8. */
  const MARK: Bytes := [0xEF, 0xBB, 0xBF]

  /** Decoding removes one byte order mark in front. */
  function WithoutMark(s: Bytes): Bytes {
    if MARK <= s then s[|MARK|..] else s
  }

  /** What a client has dispatched after reading s. */
  function View(s: Bytes): seq<Message> {
    HearAll(Client([], [], []), Lines(WithoutMark(s))).seen
  }

  lemma {:induction false} HearConcat(c: Client, a: seq<Bytes>, b: seq<Bytes>)
    ensures HearAll(c, a + b) == HearAll(HearAll(c, a), b)
    decreases |a|
  {
    if a == [] {
      assert a + b == b;
    } else {
      assert (a + b)[1..] == a[1..] + b;
      HearConcat(Hear(c, a[0]), a[1..], b);
    }
  }

  // ---------- blocks ----------

  type Block = seq<Bytes>

  /** The lines of one event: only the last one is blank. */
  predicate IsBlock(b: Block) {
    b != [] && if b[0] == [] then |b| == 1 else IsBlock(b[1..])
  }

  /** The last event name in b, or name. */
  function NameIn(b: Block, name: Bytes): Bytes
    decreases |b|
  {
    if b == [] then name
    else
      var f := ParseSSEField(b[0]);
      NameIn(b[1..], if f.Field? && f.name == EVENT then f.value else name)
  }

  /** The values of the data lines of b. */
  function DataIn(b: Block): seq<Bytes>
    decreases |b|
  {
    if b == [] then []
    else
      var f := ParseSSEField(b[0]);
      (if f.Field? && f.name == DATA then [f.value] else []) + DataIn(b[1..])
  }

  function MessageOf(b: Block): seq<Message> {
    if DataIn(b) == [] then [] else [Message(NameIn(b, []), DataIn(b))]
  }

  function Messages(blocks: seq<Block>): seq<Message> {
    if blocks == [] then [] else Messages(blocks[..|blocks| - 1]) + MessageOf(blocks[|blocks| - 1])
  }

  function Flat(blocks: seq<Block>): seq<Bytes> {
    if blocks == [] then [] else Flat(blocks[..|blocks| - 1]) + blocks[|blocks| - 1]
  }

  function Dispatched(seen: seq<Message>, name: Bytes, data: seq<Bytes>): Client {
    Client([], [], if data == [] then seen else seen + [Message(name, data)])
  }

  /** A line that is not blank changes the buffers. */
  lemma LineHeard(c: Client, b: Block)
    requires b != [] && b[0] != []
    ensures var c' := Hear(c, b[0]);
            && c'.seen == c.seen && NameIn(b[1..], c'.name) == NameIn(b, c.name)
            && c'.data + DataIn(b[1..]) == c.data + DataIn(b)
  {
    var f := ParseSSEField(b[0]);
    var rest := DataIn(b[1..]);
    if f.Field? && f.name == DATA {
      assert DataIn(b) == [f.value] + rest;
      Regroup(c.data, [f.value], rest);
    } else {
      assert DataIn(b) == [] + rest == rest;
    }
  }

  lemma {:induction false} BlockHeard(c: Client, b: Block)
    requires IsBlock(b)
    ensures HearAll(c, b) == Dispatched(c.seen, NameIn(b, c.name), c.data + DataIn(b))
    decreases |b|
  {
    if b[0] == [] {
      BlankHeard(c, b);
    } else {
      LineHeard(c, b);
      BlockHeard(Hear(c, b[0]), b[1..]);
    }
  }

  lemma BlankHeard(c: Client, b: Block)
    requires |b| == 1 && b[0] == []
    ensures HearAll(c, b) == Dispatched(c.seen, NameIn(b, c.name), c.data + DataIn(b))
  {
    assert b[1..] == [];
    assert HearAll(c, b) == Hear(c, []);
    assert DataIn(b[1..]) == [] && DataIn(b) == [] && c.data + [] == c.data;
    assert NameIn(b, c.name) == NameIn(b[1..], c.name) == c.name;
    assert c.seen + [] == c.seen;
  }

  lemma {:induction false} BlocksHeard(blocks: seq<Block>)
    requires forall i | 0 <= i < |blocks| :: IsBlock(blocks[i])
    ensures HearAll(Client([], [], []), Flat(blocks)) == Client([], [], Messages(blocks))
  {
    if blocks != [] {
      var n := |blocks| - 1;
      BlocksHeard(blocks[..n]);
      HearConcat(Client([], [], []), Flat(blocks[..n]), blocks[n]);
      BlockHeard(Client([], [], Messages(blocks[..n])), blocks[n]);
      assert Messages(blocks[..n]) + [] == Messages(blocks[..n]);
      assert [] + DataIn(blocks[n]) == DataIn(blocks[n]);
    }
  }

  lemma {:induction false} FlatConcat(a: seq<Block>, b: seq<Block>)
    ensures Flat(a + b) == Flat(a) + Flat(b)
  {
    if b == [] {
      assert a + b == a;
    } else {
      var n := |b| - 1;
      assert (a + b)[..|a + b| - 1] == a + b[..n];
      FlatConcat(a, b[..n]);
      Regroup(Flat(a), Flat(b[..n]), b[n]);
    }
  }

  /** The first line of the first block begins with a byte order mark. */
  predicate Marked(blocks: seq<Block>) {
    blocks != [] && blocks[0] != [] && MARK <= blocks[0][0]
  }

  lemma MarkInLine(line: Bytes, rest: Bytes)
    requires MARK <= line + ([LF] + rest)
    ensures MARK <= line
  {
    var s := line + ([LF] + rest);
    assert s[|line|] == LF;
    assert forall i | 0 <= i < |MARK| :: s[i] == MARK[i];
  }

  lemma FirstBlockFlat(blocks: seq<Block>)
    requires blocks != []
    ensures Flat(blocks) == blocks[0] + Flat(blocks[1..])
  {
    var first := [blocks[0]];
    assert blocks == first + blocks[1..];
    FlatConcat(first, blocks[1..]);
    assert Flat(first) == Flat([]) + blocks[0] == blocks[0];
  }

  lemma FirstLineWritten(line: Bytes, lines: seq<Bytes>)
    ensures Unlines([line] + lines) == line + ([LF] + Unlines(lines))
  {
    assert ([line] + lines)[1..] == lines;
    Assoc(line, [LF], Unlines(lines));
  }

  lemma MarkInBlocks(blocks: seq<Block>)
    requires forall i | 0 <= i < |blocks| :: IsBlock(blocks[i])
    requires MARK <= Unlines(Flat(blocks))
    ensures Marked(blocks)
  {
    if blocks != [] {
      var b, more := blocks[0], Flat(blocks[1..]);
      FirstBlockFlat(blocks);
      WithFirst(b);
      Regroup([b[0]], b[1..], more);
      FirstLineWritten(b[0], b[1..] + more);
      MarkInLine(b[0], Unlines(b[1..] + more));
    }
  }

  /** A client that reads blocks dispatches their messages. */
  lemma ViewOfBlocks(blocks: seq<Block>)
    requires forall i | 0 <= i < |blocks| :: IsBlock(blocks[i])
    requires AllOneLine(Flat(blocks)) && !Marked(blocks)
    ensures View(Unlines(Flat(blocks))) == Messages(blocks)
  {
    if MARK <= Unlines(Flat(blocks)) { MarkInBlocks(blocks); }
    LinesOfUnlines(Flat(blocks));
    BlocksHeard(blocks);
  }
}
