/** When the restorer flushes, and what a client knows when an event is dispatched. */
module Dispatch {
  import opened ByteText
  import opened Restore
  import opened Streaming
  import opened EventStream
  import opened Sse
  import opened ClientView

  // ---------- which events make the restorer flush ----------

  predicate NoEventField(b: Block) {
    forall i | 0 <= i < |b| :: ParseSSEField(b[i]).Field? ==> ParseSSEField(b[i]).name != EVENT
  }

  /** No event line comes after a data line. */
  predicate NameFirst(b: Block)
    decreases |b|
  {
    b != [] ==>
      if ParseSSEField(b[0]).Field? && ParseSSEField(b[0]).name == DATA then NoEventField(b[1..])
      else NameFirst(b[1..])
  }

  /** Both decoders see the same in value, but for numbers. */
  ghost predicate SameDecoded(lib: Library, value: Bytes) {
    && (lib.trimSpace(value) == DONE ==> lib.unmarshal(value).Failed?)
    && (lib.trimSpace(value) != DONE ==>
          match (lib.unmarshal(value), lib.decode(value))
          case (Failed, Failed) => true
          case (Decoded(a), Decoded(b)) => forall name :: HasDeltaText(a, name) <==> HasDeltaText(b, name)
          case _ => false)
  }

  ghost predicate AllSameDecoded(lib: Library, values: seq<Bytes>) {
    forall i | 0 <= i < |values| :: SameDecoded(lib, values[i])
  }

  predicate HasDeltaLine(lines: seq<Line>) {
    exists i | 0 <= i < |lines| :: lines[i].Delta?
  }

  lemma {:induction false} NameStays(b: Block, name: Bytes)
    requires NoEventField(b)
    ensures NameIn(b, name) == name
    decreases |b|
  {
    if b != [] {
      assert NoEventField(b[1..]) by { assert forall i | 0 <= i < |b[1..]| :: b[1..][i] == b[i + 1]; }
      NameStays(b[1..], name);
    }
  }

  lemma NoEventIsNameFirst(b: Block)
    requires NoEventField(b)
    ensures NameFirst(b)
    decreases |b|
  {
    if b != [] {
      assert NoEventField(b[1..]) by { assert forall i | 0 <= i < |b[1..]| :: b[1..][i] == b[i + 1]; }
      NoEventIsNameFirst(b[1..]);
    }
  }

  lemma DeltaLineHead(l: Line, rest: seq<Line>)
    ensures HasDeltaLine([l] + rest) <==> l.Delta? || HasDeltaLine(rest)
  {
    var all := [l] + rest;
    if HasDeltaLine(rest) {
      var i :| 0 <= i < |rest| && rest[i].Delta?;
      assert all[i + 1].Delta?;
    }
    if l.Delta? { assert all[0].Delta?; }
    if HasDeltaLine(all) {
      var i :| 0 <= i < |all| && all[i].Delta?;
      assert i > 0 ==> all[i] == rest[i - 1];
    }
  }

  lemma SameDecodedTail(lib: Library, value: Bytes, values: seq<Bytes>)
    requires AllSameDecoded(lib, [value] + values)
    ensures SameDecoded(lib, value) && AllSameDecoded(lib, values)
  {
    assert ([value] + values)[0] == value;
    forall i | 0 <= i < |values| ensures SameDecoded(lib, values[i]) { assert ([value] + values)[i + 1] == values[i]; }
  }

  /**
   * inspectSSEEvent and transformData agree on what is a delta event when event names come first and
   * the two decoders agree.
   */
  lemma {:induction false} InspectionAgrees(lib: Library, b: Block, name: Bytes)
    requires NameFirst(b) && AllSameDecoded(lib, DataIn(b))
    ensures HasDelta(lib, b, name) <==> HasDeltaLine(Read(lib, NameIn(b, name), DataIn(b)))
    decreases |b|
  {
    if b != [] {
      var f := ParseSSEField(b[0]);
      if f.Field? && f.name == DATA {
        var rest := DataIn(b[1..]);
        SameDecodedTail(lib, f.value, rest);
        NoEventIsNameFirst(b[1..]);
        NameStays(b[1..], name);
        InspectionAgrees(lib, b[1..], name);
        assert ([f.value] + rest)[1..] == rest;
        DeltaLineHead(Classify(lib, name, f.value), Read(lib, name, rest));
        assert lib.unmarshal(f.value).Decoded? && HasDeltaText(lib.unmarshal(f.value).payload, name)
            <==> Classify(lib, name, f.value).Delta?;
      } else {
        assert DataIn(b) == [] + DataIn(b[1..]) == DataIn(b[1..]);
        InspectionAgrees(lib, b[1..], if f.Field? && f.name == EVENT then f.value else name);
      }
    }
  }

  /** Then an event is flushed before if and only if it holds no delta. */
  lemma FlushingExactly(lib: Library, b: Block)
    requires NameFirst(b) && AllSameDecoded(lib, DataIn(b))
    ensures Flushing(lib, b) <==> !HasDeltaLine(BlockRead(lib, b))
  {
    InspectionAgrees(lib, b, []);
  }

  // ---------- the moment an event is dispatched ----------

  lemma {:induction false} RunPrefix(lib: Library, m: Mapping, blocks: seq<Block>, orders: seq<seq<Bytes>>, i: nat)
    requires i <= |blocks| && RunOrders(lib, m, blocks, orders)
    ensures RunOrders(lib, m, blocks[..i], orders[..i])
    ensures Ran(lib, m, blocks[..i], orders[..i]).out <= Ran(lib, m, blocks, orders).out
    decreases |blocks|
  {
    if i == |blocks| {
      assert blocks[..i] == blocks && orders[..i] == orders;
    } else {
      var n := |blocks| - 1;
      RunPrefix(lib, m, blocks[..n], orders[..n], i);
      assert blocks[..n][..i] == blocks[..i] && orders[..n][..i] == orders[..i];
    }
  }

  lemma RunAt(lib: Library, m: Mapping, blocks: seq<Block>, orders: seq<seq<Bytes>>, i: nat)
    requires i < |blocks| && RunOrders(lib, m, blocks, orders)
    ensures RunOrders(lib, m, blocks[..i], orders[..i])
    ensures var r := Ran(lib, m, blocks[..i], orders[..i]);
            && OrderAt(lib, r.after, blocks[i], orders[i])
            && r.out + Processed(lib, m, r.after, blocks[i], orders[i]).out <= Ran(lib, m, blocks, orders).out
  {
    RunPrefix(lib, m, blocks, orders, i);
    RunPrefix(lib, m, blocks, orders, i + 1);
    var some, before := blocks[..i + 1], orders[..i + 1];
    assert some[..i] == blocks[..i] && before[..i] == orders[..i] && some[i] == blocks[i] && before[i] == orders[i];
  }

  /**
   * Whenever an event that makes the restorer flush is written, what has been written before it makes
   * the client's knowledge of every stream complete: nothing is pending, and it has been told exactly
   * the restored segments of all earlier events.
   */
  lemma CompleteBeforeEvent(lib: Library, m: Mapping, blocks: seq<Block>, orders: seq<seq<Bytes>>, i: nat, key: Bytes)
    returns (front: seq<Block>)
    requires Lawful(lib) && Sound(m) && AllAcceptable(lib, m, blocks) && RunOrders(lib, m, blocks, orders)
    requires i < |blocks| && Flushing(lib, blocks[i]) && !Marked(blocks)
    ensures var s := Flushed(Ran(lib, m, blocks[..i], orders[..i]).after);
            front + [TransformLines(lib, m, s, NameIn(blocks[i], []), blocks[i]).out] <= Ran(lib, m, blocks, orders).out
    ensures var told := Spoken(lib, m, blocks[..i], key);
            SaidIn(lib, View(Unlines(Flat(front))), key) == told.done + Restored(m, told.open)
    ensures ShownIn(lib, View(Unlines(Flat(front))))
        == Restoring(lib, m, ShownIn(lib, View(Unlines(Flat(blocks[..i])))))
    ensures ShapesRestored(lib, m, ShownIn(lib, View(Unlines(Flat(blocks[..i])))),
                           ShownIn(lib, View(Unlines(Flat(front)))))
  {
    RunAt(lib, m, blocks, orders, i);
    AcceptablePrefix(lib, m, blocks, i);
    front := FlushedFirst(lib, m, blocks, orders, i);
    ToldBefore(lib, m, blocks[..i], orders[..i], orders[i], key, front);
  }

  lemma ToldBefore(lib: Library, m: Mapping, some: seq<Block>, orders: seq<seq<Bytes>>, order: seq<Bytes>, key: Bytes,
    front: seq<Block>)
    requires Lawful(lib) && Sound(m) && AllAcceptable(lib, m, some) && RunOrders(lib, m, some, orders)
    requires FlushOrder(Ran(lib, m, some, orders).after.pending, order) && !Marked(some)
    requires front == Ran(lib, m, some, orders).out + FlushBlocks(lib, m, Ran(lib, m, some, orders).after, order)
    ensures SaidIn(lib, View(Unlines(Flat(front))), key)
         == Spoken(lib, m, some, key).done + Restored(m, Spoken(lib, m, some, key).open)
    ensures ShownIn(lib, View(Unlines(Flat(front)))) == Restoring(lib, m, ShownIn(lib, View(Unlines(Flat(some)))))
    ensures ShapesRestored(lib, m, ShownIn(lib, View(Unlines(Flat(some)))), ShownIn(lib, View(Unlines(Flat(front)))))
  {
    ClientSees(lib, m, some, orders, order, key);
  }

  lemma FlushedFirst(lib: Library, m: Mapping, blocks: seq<Block>, orders: seq<seq<Bytes>>, i: nat)
    returns (front: seq<Block>)
    requires i < |blocks| && RunOrders(lib, m, blocks, orders) && Flushing(lib, blocks[i])
    ensures var r := Ran(lib, m, blocks[..i], orders[..i]);
            && front == r.out + FlushBlocks(lib, m, r.after, orders[i])
            && front + [TransformLines(lib, m, Flushed(r.after), NameIn(blocks[i], []), blocks[i]).out]
               <= Ran(lib, m, blocks, orders).out
  {
    RunAt(lib, m, blocks, orders, i);
    var r := Ran(lib, m, blocks[..i], orders[..i]);
    var flushed := FlushBlocks(lib, m, r.after, orders[i]);
    front := r.out + flushed;
    Regroup(r.out, flushed, [TransformLines(lib, m, Flushed(r.after), NameIn(blocks[i], []), blocks[i]).out]);
  }
}
