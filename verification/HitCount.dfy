/**
 * What the restorer counts over a whole run: every placeholder of every segment once, although pending
 * text is restored, and counted, again together with what follows it.
 */
module HitCount {
  import opened ByteText
  import opened Restore
  import opened Streaming
  import opened Utf8
  import opened EventStream
  import opened Sse
  import opened ClientView

  /** The raw text of the open segment of every stream. */
  type Opens = map<Bytes, Bytes>

  ghost function SumHits(m: Mapping, opens: Opens, keys: set<Bytes>): multiset<Bytes>
    requires keys <= opens.Keys
    decreases |keys|
  {
    if keys == {} then multiset{}
    else
      var k :| k in keys;
      multiset(Hits(m, opens[k])) + SumHits(m, opens, keys - {k})
  }

  ghost function OpenHits(m: Mapping, opens: Opens): multiset<Bytes> {
    SumHits(m, opens, opens.Keys)
  }

  lemma {:induction false} SumWith(m: Mapping, opens: Opens, keys: set<Bytes>, k: Bytes)
    requires keys <= opens.Keys && k in keys
    ensures SumHits(m, opens, keys) == multiset(Hits(m, opens[k])) + SumHits(m, opens, keys - {k})
    decreases |keys|
  {
    var k0 :| k0 in keys && SumHits(m, opens, keys) == multiset(Hits(m, opens[k0])) + SumHits(m, opens, keys - {k0});
    if k != k0 {
      SumWith(m, opens, keys - {k0}, k);
      SumWith(m, opens, keys - {k}, k0);
      assert keys - {k0} - {k} == keys - {k} - {k0};
    }
  }

  lemma {:induction false} SumWithout(m: Mapping, opens: Opens, keys: set<Bytes>, k: Bytes, text: Bytes)
    requires keys <= opens.Keys && k !in keys && k in opens
    ensures SumHits(m, opens[k := text], keys) == SumHits(m, opens, keys)
    decreases |keys|
  {
    if keys != {} {
      var k0 :| k0 in keys;
      SumWith(m, opens, keys, k0);
      SumWith(m, opens[k := text], keys, k0);
      SumWithout(m, opens, keys - {k0}, k, text);
    }
  }

  /** One stream changes. */
  lemma OpenHitsStep(m: Mapping, opens: Opens, k: Bytes, text: Bytes, added: multiset<Bytes>)
    requires k in opens && multiset(Hits(m, text)) == multiset(Hits(m, opens[k])) + added
    ensures OpenHits(m, opens[k := text]) == OpenHits(m, opens) + added
  {
    var changed := opens[k := text];
    assert changed.Keys == opens.Keys;
    SumWith(m, opens, opens.Keys, k);
    SumWith(m, changed, opens.Keys, k);
    SumWithout(m, opens, opens.Keys - {k}, k, text);
  }

  /** The hits of the open text, when y follows, are those already counted and those of pending and y. */
  ghost predicate CountsAt(m: Mapping, open: Bytes, pending: Bytes, y: Bytes) {
    multiset(Hits(m, open + y)) == multiset(Hits(m, open)) + multiset(Hits(m, pending + y))
  }

  ghost predicate Counting(m: Mapping, open: Bytes, pending: Bytes) {
    forall y :: CountsAt(m, open, pending, y)
  }

  lemma CountingText(m: Mapping, open: Bytes, pending: Bytes, text: Bytes)
    requires Sound(m) && Counting(m, open, pending)
    ensures var p := Feed(m, KeepBytes(m), pending, text);
            && Counting(m, open + text, p.pending)
            && multiset(Hits(m, open + text)) == multiset(Hits(m, open)) + multiset(p.hits)
  {
    Utf8KeysAreRuneKeys(m);
    var p := Feed(m, KeepBytes(m), pending, text);
    assert CountsAt(m, open, pending, text);
    forall y ensures CountsAt(m, open + text, p.pending, y) {
      assert CountsAt(m, open, pending, text + y);
      Assoc(open, text, y);
      Assoc(pending, text, y);
      FeedIsStep(m, KeepBytes(m), pending, text, y);
      HitsConcat(p.hits, Hits(m, p.pending + y));
    }
  }

  lemma HitsConcat(a: seq<Bytes>, b: seq<Bytes>)
    ensures multiset(a + b) == multiset(a) + multiset(b)
  {
  }

  ghost predicate AllCounting(m: Mapping, opens: Opens, pending: map<Bytes, Bytes>) {
    forall key | key in opens :: Counting(m, opens[key], Get(pending, key))
  }

  /** The streams of the deltas in lines are known. */
  ghost predicate KeysKnown(lines: seq<Line>, opens: Opens) {
    forall i | 0 <= i < |lines| && lines[i].Delta? :: lines[i].key in opens
  }

  ghost function Extended(opens: Opens, lines: seq<Line>): Opens {
    map key | key in opens :: opens[key] + TextFor(lines, key)
  }

  ghost function OtherHits(lib: Library, m: Mapping, lines: seq<Line>): multiset<Bytes> {
    if lines == [] then multiset{}
    else (if lines[0].Other? then RewrittenHits(lib, m, lines[0].value) else multiset{}) + OtherHits(lib, m, lines[1..])
  }

  lemma {:induction false} OtherHitsConcat(lib: Library, m: Mapping, a: seq<Line>, b: seq<Line>)
    ensures OtherHits(lib, m, a + b) == OtherHits(lib, m, a) + OtherHits(lib, m, b)
  {
    if a == [] {
      assert a + b == b;
    } else {
      assert (a + b)[1..] == a[1..] + b;
      OtherHitsConcat(lib, m, a[1..], b);
    }
  }

  lemma ExtendedConcat(opens: Opens, a: seq<Line>, b: seq<Line>)
    ensures Extended(opens, a + b) == Extended(Extended(opens, a), b)
  {
    forall key | key in opens
      ensures opens[key] + TextFor(a + b, key) == (opens[key] + TextFor(a, key)) + TextFor(b, key)
    {
      TextConcat(a, b, key);
      Assoc(opens[key], TextFor(a, key), TextFor(b, key));
    }
  }

  // ---------- one event ----------

  /** after follows from s by reading lines. */
  ghost predicate CountedLines(lib: Library, m: Mapping, s: State, after: State, opens: Opens, lines: seq<Line>) {
    && AllCounting(m, Extended(opens, lines), after.pending)
    && after.hits + OpenHits(m, opens) == s.hits + OtherHits(lib, m, lines) + OpenHits(m, Extended(opens, lines))
  }

  lemma ExtendedByOne(opens: Opens, l: Line)
    requires l.Delta? ==> l.key in opens
    ensures Extended(opens, [l]) == if l.Delta? then opens[l.key := opens[l.key] + l.text] else opens
    ensures Extended(opens, []) == opens
  {
    forall key | key in opens
      ensures opens[key] + TextFor([l], key) == if l.Delta? && l.key == key then opens[key] + l.text else opens[key]
      ensures opens[key] + TextFor([], key) == opens[key]
    {
      OneText(l, key);
    }
  }

  lemma OneOther(lib: Library, m: Mapping, l: Line)
    ensures OtherHits(lib, m, [l]) == if l.Other? then RewrittenHits(lib, m, l.value) else multiset{}
  {
    assert [l][1..] == [] && OtherHits(lib, m, []) == multiset{};
  }

  lemma CountDelta(lib: Library, m: Mapping, s: State, after: State, opens: Opens, l: Line)
    requires Sound(m) && AllCounting(m, opens, s.pending) && KeysKnown([l], opens) && l.Delta?
    requires after.pending == PendingAfter(m, s, l)
    requires after.hits == s.hits + multiset(FeedKey(m, s, l.key, l.text).hits)
    ensures CountedLines(lib, m, s, after, opens, [l])
  {
    assert [l][0].Delta?;
    ExtendedByOne(opens, l);
    OneOther(lib, m, l);
    CountingText(m, opens[l.key], Get(s.pending, l.key), l.text);
    OpenHitsStep(m, opens, l.key, opens[l.key] + l.text, multiset(FeedKey(m, s, l.key, l.text).hits));
  }

  lemma CountLine(lib: Library, m: Mapping, s: State, eventName: Bytes, line: Bytes, opens: Opens)
    requires Sound(m) && AllCounting(m, opens, s.pending) && KeysKnown(Read(lib, eventName, DataIn([line])), opens)
    ensures CountedLines(lib, m, s, TransformLine(lib, m, s, eventName, line).after, opens,
        Read(lib, eventName, DataIn([line])))
  {
    var f := ParseSSEField(line);
    var r := TransformLine(lib, m, s, eventName, line);
    if f.Field? && f.name == DATA {
      assert DataIn([line]) == [f.value];
      OneRead(lib, eventName, f.value);
      CountData(lib, m, s, eventName, f.value, opens);
    } else {
      assert DataIn([line]) == [];
      ExtendedByOne(opens, Other([]));
    }
  }

  lemma CountData(lib: Library, m: Mapping, s: State, eventName: Bytes, value: Bytes, opens: Opens)
    requires Sound(m) && AllCounting(m, opens, s.pending) && KeysKnown([Classify(lib, eventName, value)], opens)
    ensures CountedLines(lib, m, s, TransformData(lib, m, s, eventName, value).after, opens,
        [Classify(lib, eventName, value)])
  {
    var l := Classify(lib, eventName, value);
    var r := TransformData(lib, m, s, eventName, value);
    match l
    case Delta(_, _) =>
      CountDelta(lib, m, s, r.after, opens, l);
    case Other(_) =>
      assert [l][0].Other?;
      ExtendedByOne(opens, l);
      OneOther(lib, m, l);
  }

  lemma CountBoth(lib: Library, m: Mapping, s: State, mid: State, after: State, opens: Opens, a: seq<Line>,
    b: seq<Line>)
    requires CountedLines(lib, m, s, mid, opens, a) && CountedLines(lib, m, mid, after, Extended(opens, a), b)
    ensures CountedLines(lib, m, s, after, opens, a + b)
  {
    var middle := Extended(opens, a);
    ExtendedConcat(opens, a, b);
    OtherHitsConcat(lib, m, a, b);
    SumsAddUp(s.hits, OtherHits(lib, m, a), OpenHits(m, opens), mid.hits, OpenHits(m, middle),
      OtherHits(lib, m, b), after.hits, OpenHits(m, Extended(middle, b)));
  }

  lemma SumsAddUp<T>(s: multiset<T>, a: multiset<T>, o: multiset<T>, s1: multiset<T>, o1: multiset<T>,
    b: multiset<T>, s2: multiset<T>, o2: multiset<T>)
    requires s1 + o == s + a + o1 && s2 + o1 == s1 + b + o2
    ensures s2 + o == s + (a + b) + o2
  {
    forall x ensures (s2 + o)[x] == (s + (a + b) + o2)[x] {
      assert (s1 + o)[x] == (s + a + o1)[x] && (s2 + o1)[x] == (s1 + b + o2)[x];
    }
  }

  lemma {:induction false} CountLines(lib: Library, m: Mapping, s: State, eventName: Bytes, b: Block, opens: Opens)
    requires Sound(m) && AllCounting(m, opens, s.pending) && KeysKnown(Read(lib, eventName, DataIn(b)), opens)
    ensures CountedLines(lib, m, s, TransformLines(lib, m, s, eventName, b).after, opens,
        Read(lib, eventName, DataIn(b)))
    decreases |b|
  {
    if b == [] {
      ExtendedByOne(opens, Other([]));
    } else {
      var first := TransformLine(lib, m, s, eventName, b[0]);
      var head, tail := Read(lib, eventName, DataIn([b[0]])), Read(lib, eventName, DataIn(b[1..]));
      WithFirst(b);
      DataHead(b[0], b[1..]);
      ReadConcat(lib, eventName, DataIn([b[0]]), DataIn(b[1..]));
      assert KeysKnown(head + tail, opens);
      KnownParts(head, tail, opens);
      CountLine(lib, m, s, eventName, b[0], opens);
      CountLines(lib, m, first.after, eventName, b[1..], Extended(opens, head));
      CountBoth(lib, m, s, first.after, TransformLines(lib, m, s, eventName, b).after, opens, head, tail);
    }
  }

  lemma KnownParts(a: seq<Line>, b: seq<Line>, opens: Opens)
    requires KeysKnown(a + b, opens)
    ensures KeysKnown(a, opens) && KeysKnown(b, Extended(opens, a))
  {
    forall i | 0 <= i < |a| && a[i].Delta? ensures a[i].key in opens { assert (a + b)[i] == a[i]; }
    forall i | 0 <= i < |b| && b[i].Delta? ensures b[i].key in opens { assert (a + b)[|a| + i] == b[i]; }
  }

  // ---------- whole runs ----------

  /** The open segments of the streams keys after blocks. */
  ghost function OpensOf(lib: Library, m: Mapping, blocks: seq<Block>, keys: set<Bytes>): Opens {
    map key | key in keys :: Spoken(lib, m, blocks, key).open
  }

  /** The placeholders in all finished segments of the streams keys, and in all other data lines. */
  ghost function FinishedHits(lib: Library, m: Mapping, blocks: seq<Block>, keys: set<Bytes>): multiset<Bytes> {
    if blocks == [] then multiset{}
    else
      var n := |blocks| - 1;
      FinishedHits(lib, m, blocks[..n], keys)
      + (if Flushing(lib, blocks[n]) then OpenHits(m, OpensOf(lib, m, blocks[..n], keys)) else multiset{})
      + OtherHits(lib, m, BlockRead(lib, blocks[n]))
  }

  ghost predicate StreamsKnown(lib: Library, blocks: seq<Block>, keys: set<Bytes>) {
    forall i, j | 0 <= i < |blocks| && 0 <= j < |BlockRead(lib, blocks[i])| && BlockRead(lib, blocks[i])[j].Delta? ::
      BlockRead(lib, blocks[i])[j].key in keys
  }

  /** The opens when block n starts: all empty after a flush. */
  ghost function Cleared(lib: Library, b: Block, opens: Opens): Opens {
    if Flushing(lib, b) then map key | key in opens :: [] else opens
  }

  lemma {:induction false} EmptyHits(m: Mapping, opens: Opens, keys: set<Bytes>)
    requires keys <= opens.Keys && forall key | key in keys :: opens[key] == []
    ensures SumHits(m, opens, keys) == multiset{}
    decreases |keys|
  {
    if keys != {} {
      var k :| k in keys;
      SumWith(m, opens, keys, k);
      EmptyHits(m, opens, keys - {k});
    }
  }

  lemma NothingCounting(m: Mapping)
    ensures Counting(m, [], [])
  {
    forall y ensures CountsAt(m, [], [], y) { assert [] + y == y; }
  }

  lemma CountBlock(lib: Library, m: Mapping, s: State, b: Block, order: seq<Bytes>, opens: Opens)
    requires Sound(m) && AllCounting(m, opens, s.pending) && KeysKnown(BlockRead(lib, b), opens)
    ensures var after := Processed(lib, m, s, b, order).after;
            var opens' := Extended(Cleared(lib, b, opens), BlockRead(lib, b));
            && AllCounting(m, opens', after.pending)
            && after.hits + (if Flushing(lib, b) then multiset{} else OpenHits(m, opens))
               == s.hits + OtherHits(lib, m, BlockRead(lib, b)) + OpenHits(m, opens')
  {
    var s' := if Flushing(lib, b) then Flushed(s) else s;
    var cleared := Cleared(lib, b, opens);
    if Flushing(lib, b) {
      NothingCounting(m);
      EmptyHits(m, cleared, cleared.Keys);
    }
    CountLines(lib, m, s', NameIn(b, []), b, cleared);
  }

  /**
   * Whatever way the text of the streams is cut into deltas and interleaved: the placeholders counted
   * are exactly those in the raw text of every segment of every stream, and those in the other data
   * lines. Nothing is counted twice through pending text, and nothing is missed.
   */
  lemma {:induction false} HitsConserved(lib: Library, m: Mapping, blocks: seq<Block>, orders: seq<seq<Bytes>>,
    keys: set<Bytes>)
    requires Sound(m) && |orders| == |blocks| && StreamsKnown(lib, blocks, keys)
    ensures Ran(lib, m, blocks, orders).after.hits
         == FinishedHits(lib, m, blocks, keys) + OpenHits(m, OpensOf(lib, m, blocks, keys))
    ensures AllCounting(m, OpensOf(lib, m, blocks, keys), Ran(lib, m, blocks, orders).after.pending)
    decreases |blocks|
  {
    var opens := OpensOf(lib, m, blocks, keys);
    if blocks == [] {
      NothingCounting(m);
      EmptyHits(m, opens, opens.Keys);
    } else {
      var n := |blocks| - 1;
      var some, b := blocks[..n], blocks[n];
      var before := OpensOf(lib, m, some, keys);
      assert forall i | 0 <= i < n :: some[i] == blocks[i];
      HitsConserved(lib, m, some, orders[..n], keys);
      CountBlock(lib, m, Ran(lib, m, some, orders[..n]).after, b, orders[n], before);
      OpensStep(lib, m, blocks, keys);
      TotalStep(Ran(lib, m, some, orders[..n]).after.hits, FinishedHits(lib, m, some, keys), OpenHits(m, before),
        Flushing(lib, b), Ran(lib, m, blocks, orders).after.hits, OtherHits(lib, m, BlockRead(lib, b)),
        OpenHits(m, opens));
    }
  }

  lemma TotalStep<T>(s: multiset<T>, done: multiset<T>, o: multiset<T>, flushing: bool, s1: multiset<T>,
    other: multiset<T>, o1: multiset<T>)
    requires s == done + o && s1 + (if flushing then multiset{} else o) == s + other + o1
    ensures s1 == done + (if flushing then o else multiset{}) + other + o1
  {
    forall x ensures s1[x] == (done + (if flushing then o else multiset{}) + other + o1)[x] {
      assert (s1 + (if flushing then multiset{} else o))[x] == (s + other + o1)[x];
    }
  }

  lemma OpensStep(lib: Library, m: Mapping, blocks: seq<Block>, keys: set<Bytes>)
    requires blocks != []
    ensures var n := |blocks| - 1;
            OpensOf(lib, m, blocks, keys)
            == Extended(Cleared(lib, blocks[n], OpensOf(lib, m, blocks[..n], keys)), BlockRead(lib, blocks[n]))
  {
  }
}
