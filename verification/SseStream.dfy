/**
 * restoreSSEStream: from the bytes of the upstream to the bytes the client reads. The loop collects
 * lines into events; on proper input the lines and events it sees are those of the standard, so that
 * what is proved of whole runs over events holds from bytes to bytes.
 */
module SseStream {
  import opened ByteText
  import opened Restore
  import opened Streaming
  import opened EventStream
  import opened Sse
  import opened SseRestorer
  import opened ClientView

  /** The lines of s as ReadString returns them, with their terminators. */
  function RawLines(s: Bytes): seq<Bytes>
    decreases |s|
  {
    if s == [] then [] else [s[..ReadString(s)]] + RawLines(s[ReadString(s)..])
  }

  function FirstBlank(lines: seq<Bytes>): (n: nat)
    ensures n <= |lines| && (n < |lines| ==> lines[n] == [])
    ensures forall i | 0 <= i < n :: lines[i] != []
  {
    if lines == [] || lines[0] == [] then 0 else 1 + FirstBlank(lines[1..])
  }

  /** The events of a stream: blank lines end them, but for the last one if the stream ends before. */
  function Grouped(lines: seq<Bytes>): seq<Block>
    decreases |lines|
  {
    if lines == [] then []
    else
      var n := FirstBlank(lines);
      if n == |lines| then [lines] else [lines[..n + 1]] + Grouped(lines[n + 1..])
  }

  function Events(src: Bytes): seq<Block> {
    Grouped(Contents(RawLines(src)))
  }

  lemma FirstBlankIs(lines: seq<Bytes>, n: nat)
    requires n <= |lines| && (forall i | 0 <= i < n :: lines[i] != []) && (n < |lines| ==> lines[n] == [])
    ensures FirstBlank(lines) == n
  {
  }

  /** A block that has been read is the first one of what remained. */
  lemma GroupedBlock(some: seq<Bytes>, rest: seq<Bytes>)
    requires forall i | 0 <= i < |some| :: some[i] != []
    ensures Grouped(some + [[]] + rest) == [some + [[]]] + Grouped(rest)
  {
    var lines := some + [[]] + rest;
    FirstBlankIs(lines, |some|);
    assert lines[..|some| + 1] == some + [[]] && lines[|some| + 1..] == rest;
  }

  lemma RunMore(lib: Library, m: Mapping, blocks: seq<Block>, orders: seq<seq<Bytes>>, b: Block, order: seq<Bytes>)
    requires RunOrders(lib, m, blocks, orders) && OrderAt(lib, Ran(lib, m, blocks, orders).after, b, order)
    ensures RunOrders(lib, m, blocks + [b], orders + [order])
    ensures var r := Ran(lib, m, blocks, orders);
            var p := Processed(lib, m, r.after, b, order);
            Ran(lib, m, blocks + [b], orders + [order]) == Out(r.out + p.out, p.after)
  {
    assert (blocks + [b])[..|blocks|] == blocks && (orders + [order])[..|blocks|] == orders;
  }

  lemma BytesConcat(a: seq<Block>, b: seq<Block>)
    ensures Unlines(Flat(a + b)) == Unlines(Flat(a)) + Unlines(Flat(b))
  {
    FlatConcat(a, b);
    UnlinesConcat(Flat(a), Flat(b));
  }

  /** What has been written after blocks. */
  ghost predicate Wrote(lib: Library, m: Mapping, blocks: seq<Block>, orders: seq<seq<Bytes>>, out: Bytes, s: State) {
    && RunOrders(lib, m, blocks, orders)
    && out == Unlines(Flat(Ran(lib, m, blocks, orders).out)) && s == Ran(lib, m, blocks, orders).after
  }

  lemma WroteMore(lib: Library, m: Mapping, blocks: seq<Block>, orders: seq<seq<Bytes>>, out: Bytes, s: State,
    b: Block, order: seq<Bytes>, event: Bytes)
    requires Wrote(lib, m, blocks, orders, out, s) && OrderAt(lib, s, b, order)
    requires event == Unlines(Flat(Processed(lib, m, s, b, order).out))
    ensures Wrote(lib, m, blocks + [b], orders + [order], out + event, Processed(lib, m, s, b, order).after)
  {
    RunMore(lib, m, blocks, orders, b, order);
    BytesConcat(Ran(lib, m, blocks, orders).out, Processed(lib, m, s, b, order).out);
  }

  /** The events of src: blocks are done, lines belong to the current one, rest is unread. */
  ghost predicate Reading(src: Bytes, blocks: seq<Block>, lines: seq<Bytes>, rest: Bytes) {
    && (forall i | 0 <= i < |lines| :: TrimSSELine(lines[i]) != [])
    && Events(src) == blocks + Grouped(Contents(lines) + Contents(RawLines(rest)))
  }

  lemma ReadOn(src: Bytes, blocks: seq<Block>, lines: seq<Bytes>, rest: Bytes)
    requires Reading(src, blocks, lines, rest) && rest != []
    ensures var line, rest' := rest[..ReadString(rest)], rest[ReadString(rest)..];
            if TrimSSELine(line) == [] then Reading(src, blocks + [Contents(lines + [line])], [], rest')
            else Reading(src, blocks, lines + [line], rest')
  {
    var line, rest' := rest[..ReadString(rest)], rest[ReadString(rest)..];
    var head, tail := Contents(lines), Contents(RawLines(rest'));
    RawHead(rest);
    assert Contents(lines + [line]) == head + [TrimSSELine(line)];
    Regroup(head, [TrimSSELine(line)], tail);
    if TrimSSELine(line) == [] {
      GroupedBlock(head, tail);
      assert Contents([]) + tail == tail;
      Regroup(blocks, [head + [[]]], Grouped(tail));
    }
  }

  /** out is what may be written for src, for some orders of Go's random iterations. */
  ghost predicate Streamed(lib: Library, m: Mapping, src: Bytes, out: Bytes) {
    exists orders, last ::
      && RunOrders(lib, m, Events(src), orders)
      && FlushOrder(Ran(lib, m, Events(src), orders).after.pending, last)
      && out == Written(lib, m, Events(src), orders, last)
  }

  /** The bytes of a run and its last flush. */
  ghost function Written(lib: Library, m: Mapping, blocks: seq<Block>, orders: seq<seq<Bytes>>, last: seq<Bytes>): Bytes
    requires |orders| == |blocks|
  {
    var r := Ran(lib, m, blocks, orders);
    Unlines(Flat(r.out + FlushBlocks(lib, m, r.after, last)))
  }

  /** Reading line by line; the last event may lack its blank line. */
  method RestoreEvents(restorer: Restorer, src: Bytes) returns (out: Bytes, ghost orders: seq<seq<Bytes>>)
    requires restorer.Valid() && restorer.Abs() == INITIAL
    modifies restorer
    ensures restorer.Valid()
    ensures Wrote(restorer.lib, restorer.mapping, Events(src), orders, out, restorer.Abs())
  {
    var lines: seq<Bytes> := [];
    var rest := src;
    out, orders := [], [];
    ghost var blocks: seq<Block> := [];
    assert Contents(lines) + Contents(RawLines(rest)) == Contents(RawLines(src));
    assert [] + Events(src) == Events(src);
    while rest != []
      invariant restorer.Valid()
      invariant Reading(src, blocks, lines, rest)
      invariant Wrote(restorer.lib, restorer.mapping, blocks, orders, out, restorer.Abs())
      decreases |rest|
    {
      ReadOn(src, blocks, lines, rest);
      var line := rest[..ReadString(rest)];
      rest := rest[ReadString(rest)..];
      lines := lines + [line];
      if TrimSSELine(line) == [] {
        ghost var before := restorer.Abs();
        var event;
        ghost var order;
        event, order := restorer.ProcessEvent(lines);
        WroteMore(restorer.lib, restorer.mapping, blocks, orders, out, before, Contents(lines), order, event);
        out, orders, blocks := out + event, orders + [order], blocks + [Contents(lines)];
        lines := [];
      }
    }
    assert Contents(RawLines([])) == [] && Contents(lines) + [] == Contents(lines);
    if |lines| > 0 {
      ghost var before := restorer.Abs();
      var event;
      ghost var order;
      event, order := restorer.ProcessEvent(lines);
      FirstBlankIs(Contents(lines), |lines|);
      WroteMore(restorer.lib, restorer.mapping, blocks, orders, out, before, Contents(lines), order, event);
      out, orders, blocks := out + event, orders + [order], blocks + [Contents(lines)];
    }
    assert blocks == Events(src);
  }

  /** Reading and writing do not fail. */
  method RestoreSSEStream(lib: Library, src: Bytes, mapping: Mapping) returns (out: Bytes)
    requires ShapedKeys(mapping)
    ensures Streamed(lib, mapping, src, out)
  {
    var restorer := new Restorer(lib, mapping);
    ghost var orders;
    out, orders := RestoreEvents(restorer, src);
    var flushed;
    ghost var last;
    flushed, last := restorer.FlushAll();
    ghost var r := Ran(lib, mapping, Events(src), orders);
    BytesConcat(r.out, FlushBlocks(lib, mapping, r.after, last));
    out := out + flushed;
    assert out == Written(lib, mapping, Events(src), orders, last);
  }

  // ---------- the bytes of the upstream ----------

  /** Lines end with LF or CR LF, there is no other CR and no byte order mark in front, and the last line is blank. */
  ghost predicate Proper(src: Bytes) {
    && ProperLines(src) && !(MARK <= src)
    && (src != [] ==> Contents(RawLines(src))[|Contents(RawLines(src))| - 1] == [])
  }

  ghost predicate ProperLines(src: Bytes) {
    && (forall i | 0 <= i < |src| && src[i] == CR :: i + 1 < |src| && src[i + 1] == LF)
    && (src != [] ==> src[|src| - 1] == LF)
  }

  lemma ReadStringAt(s: Bytes, j: nat)
    requires j < |s| && s[j] == LF && forall i | 0 <= i < j :: s[i] != LF
    ensures ReadString(s) == j + 1
  {
    var n := ReadString(s);
    assert forall i | 0 <= i < n - 1 :: s[i] == s[..n - 1][i];
    assert n == |s| || s[n - 1] == LF;
  }

  lemma TrimEnd(line: Bytes)
    requires OneLine(line)
    ensures TrimSSELine(line) == line
    ensures TrimSSELine(line + [LF]) == line && TrimSSELine(line + [CR, LF]) == line
  {
    assert (line + [LF])[..|line|] == line;
    assert (line + [CR, LF])[..|line| + 1] == line + [CR] && (line + [CR])[..|line|] == line;
  }

  lemma BeforeLineEnd(s: Bytes)
    ensures forall i | 0 <= i < LineEnd(s) :: s[i] != LF && s[i] != CR
  {
    forall i | 0 <= i < LineEnd(s) ensures s[i] != LF && s[i] != CR { assert s[i] == s[..LineEnd(s)][i]; }
  }

  lemma LineIsEnded(src: Bytes)
    requires ProperLines(src) && src != []
    ensures LineEnd(src) < |src|
    ensures src[LineEnd(src)] == CR ==> LineEnd(src) + 1 < |src| && src[LineEnd(src) + 1] == LF
  {
    BeforeLineEnd(src);
  }

  /** The first line, as both sides see it. */
  lemma FirstLine(src: Bytes)
    requires ProperLines(src) && src != []
    ensures var n, r := LineEnd(src), ReadString(src);
            && n < |src| && TrimSSELine(src[..r]) == src[..n]
            && r == if src[n] == CR then n + 2 else n + 1
  {
    LineIsEnded(src);
    BeforeLineEnd(src);
    var n := LineEnd(src);
    TrimEnd(src[..n]);
    if src[n] == CR {
      assert ReadString(src) == n + 2;
      UpTo(src, n, n + 2);
    } else {
      ReadStringAt(src, n);
      UpTo(src, n, n + 1);
    }
  }

  lemma UpTo(s: Bytes, n: nat, r: nat)
    requires n < r <= |s|
    ensures r == n + 1 ==> s[..r] == s[..n] + [s[n]]
    ensures r == n + 2 ==> s[..r] == s[..n] + [s[n], s[n + 1]]
  {
  }

  lemma RawHead(src: Bytes)
    requires src != []
    ensures Contents(RawLines(src))
        == [TrimSSELine(src[..ReadString(src)])] + Contents(RawLines(src[ReadString(src)..]))
  {
    var raw := RawLines(src);
    ContentsHead(raw, 0);
    assert raw[0..] == raw && raw[1..] == RawLines(src[ReadString(src)..]);
  }

  lemma LinesHead(src: Bytes, n: nat, r: nat)
    requires n == LineEnd(src) && n < |src|
    requires if src[n] == CR then r == n + 2 <= |src| && src[n + 1] == LF else r == n + 1
    ensures Lines(src) == [src[..n]] + Lines(src[r..])
  {
    if src[n] == CR {
      assert Lines(src) == [src[..n]] + Lines(src[n + 2..]);
    } else {
      assert Lines(src) == [src[..n]] + Lines(src[n + 1..]);
    }
  }

  /** Reading up to LF and trimming gives the lines of the standard. */
  lemma {:induction false} LinesAgree(src: Bytes)
    requires ProperLines(src)
    ensures Lines(src) == Contents(RawLines(src))
    decreases |src|
  {
    if src != [] {
      LineIsEnded(src);
      FirstLine(src);
      var r := ReadString(src);
      LinesHead(src, LineEnd(src), r);
      RawHead(src);
      assert ProperLines(src[r..]);
      LinesAgree(src[r..]);
    }
  }

  lemma {:induction false} GroupedFlat(lines: seq<Bytes>)
    ensures Flat(Grouped(lines)) == lines
    decreases |lines|
  {
    if lines != [] {
      var n := FirstBlank(lines);
      FirstBlockFlat(Grouped(lines));
      if n < |lines| {
        GroupedFlat(lines[n + 1..]);
        BackTogether(lines, n + 1);
      }
    }
  }

  lemma BackTogether<T>(s: seq<T>, n: nat)
    requires n <= |s|
    ensures s[..n] + s[n..] == s
  {
  }

  lemma {:induction false} BlockIs(b: Block)
    requires b != [] && b[|b| - 1] == [] && forall i | 0 <= i < |b| - 1 :: b[i] != []
    ensures IsBlock(b)
  {
    if |b| > 1 { BlockIs(b[1..]); }
  }

  lemma {:induction false} GroupedBlocks(lines: seq<Bytes>)
    requires lines != [] ==> lines[|lines| - 1] == []
    ensures forall i | 0 <= i < |Grouped(lines)| :: IsBlock(Grouped(lines)[i])
    decreases |lines|
  {
    if lines != [] {
      var n := FirstBlank(lines);
      assert n < |lines|;
      BlockIs(lines[..n + 1]);
      GroupedBlocks(lines[n + 1..]);
    }
  }

  lemma {:induction false} LinesAreLines(s: Bytes)
    ensures AllOneLine(Lines(s))
    decreases |s|
  {
    var n := LineEnd(s);
    if n < |s| {
      LinesAreLines(s[n + 1..]);
      if n + 2 <= |s| { LinesAreLines(s[n + 2..]); }
    }
  }

  lemma {:induction false} FlatParts(blocks: seq<Block>)
    requires AllOneLine(Flat(blocks))
    ensures forall i | 0 <= i < |blocks| :: AllOneLine(blocks[i])
  {
    if blocks != [] {
      var n := |blocks| - 1;
      var front := Flat(blocks[..n]);
      assert forall i | 0 <= i < |front| :: front[i] == Flat(blocks)[i];
      assert forall i | 0 <= i < |blocks[n]| :: blocks[n][i] == Flat(blocks)[|front| + i];
      FlatParts(blocks[..n]);
    }
  }

  lemma NoMarkInEvents(src: Bytes)
    requires Proper(src)
    ensures !Marked(Events(src))
  {
    if src != [] {
      FirstLine(src);
      RawHead(src);
      var lines := Contents(RawLines(src));
      assert lines[0] == src[..LineEnd(src)];
      var n := FirstBlank(lines);
      assert Events(src)[0][0] == lines[0];
      assert MARK <= src[..LineEnd(src)] ==> MARK <= src;
    }
  }

  /** The client and the restorer see the same events in proper input. */
  lemma EventsOfProper(src: Bytes)
    requires Proper(src)
    ensures GoodBlocks(Events(src)) && View(src) == Messages(Events(src)) && !Marked(Events(src))
  {
    var lines := Contents(RawLines(src));
    NoMarkInEvents(src);
    LinesAgree(src);
    LinesAreLines(src);
    GroupedFlat(lines);
    assert lines != [] ==> src != [];
    GroupedBlocks(lines);
    FlatParts(Events(src));
    BlocksHeard(Events(src));
  }

  /** Every data line of src is tame. */
  ghost predicate TameStream(lib: Library, m: Mapping, src: Bytes) {
    forall i | 0 <= i < |Events(src)| :: AllTame(lib, m, NameIn(Events(src)[i], []), DataIn(Events(src)[i]))
  }

  /**
   * From bytes to bytes: for proper input, whatever order Go visits its maps in, a client that reads
   * the output is told of every stream the segment-wise restored text that the upstream sent, and is
   * shown the upstream's other messages with their payloads restored, in the same order.
   */
  lemma EndToEnd(lib: Library, m: Mapping, src: Bytes, out: Bytes, key: Bytes)
    requires Lawful(lib) && Sound(m) && Proper(src) && TameStream(lib, m, src) && Streamed(lib, m, src, out)
    ensures var told := Spoken(lib, m, Events(src), key);
            SaidIn(lib, View(out), key) == told.done + Restored(m, told.open)
    ensures ShownIn(lib, View(out)) == Restoring(lib, m, ShownIn(lib, View(src)))
    ensures ShapesRestored(lib, m, ShownIn(lib, View(src)), ShownIn(lib, View(out)))
  {
    var orders, last :|
      && RunOrders(lib, m, Events(src), orders)
      && FlushOrder(Ran(lib, m, Events(src), orders).after.pending, last)
      && out == Written(lib, m, Events(src), orders, last);
    EventsOfProper(src);
    var blocks := Events(src);
    assert AllAcceptable(lib, m, blocks);
    ClientSees(lib, m, blocks, orders, last, key);
    FlatOneLine(blocks);
    ViewOfBlocks(blocks);
  }

  /** On the wire, byte by byte: what a client makes of a data line and a blank line. */
  lemma DataOnWire(value: Bytes)
    requires OneLine(value)
    ensures View([0x64, 0x61, 0x74, 0x61, 0x3A, 0x20] + value + [0x0A] + [0x0A]) == [Message([], [value])]
  {
    OneEventView([], value);
    FieldBytes(value);
    var data := FieldLine(DATA, value) + [LF] + [LF];
    assert [] + data == data;
  }

  /** With an event line in front. */
  lemma EventOnWire(name: Bytes, value: Bytes)
    requires OneLine(name) && OneLine(value) && name != []
    ensures View([0x65, 0x76, 0x65, 0x6E, 0x74, 0x3A, 0x20] + name + [0x0A]
                 + ([0x64, 0x61, 0x74, 0x61, 0x3A, 0x20] + value + [0x0A] + [0x0A])) == [Message(name, [value])]
  {
    OneEventView(name, value);
    FieldBytes(value);
    FieldBytes(name);
  }

  lemma FieldBytes(s: Bytes)
    ensures FieldLine(DATA, s) == [0x64, 0x61, 0x74, 0x61, 0x3A, 0x20] + s
    ensures FieldLine(EVENT, s) == [0x65, 0x76, 0x65, 0x6E, 0x74, 0x3A, 0x20] + s
  {
    Assoc(DATA, [COLON, SPACE], s);
    Assoc(EVENT, [COLON, SPACE], s);
    assert DATA + [COLON, SPACE] == [0x64, 0x61, 0x74, 0x61, 0x3A, 0x20];
    assert EVENT + [COLON, SPACE] == [0x65, 0x76, 0x65, 0x6E, 0x74, 0x3A, 0x20];
  }

  lemma OneEventView(name: Bytes, value: Bytes)
    requires OneLine(name) && OneLine(value)
    ensures View((if name == [] then [] else FieldLine(EVENT, name) + [LF]) + (FieldLine(DATA, value) + [LF] + [LF]))
         == [Message(name, [value])]
  {
    var b := EventLines(name, value);
    EventLinesForm(name, value);
    EventBytes(name, value);
    assert [b][..0] == [] && Flat([b]) == Flat([]) + b == b;
    assert Messages([b]) == Messages([]) + MessageOf(b) == [Message(name, [value])];
    assert !Marked([b]);
    ViewOfBlocks([b]);
  }
}
