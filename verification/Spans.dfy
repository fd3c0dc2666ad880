/** filter.mergeSpans: the leftmost-longest choice among overlapping detector hits. */
module Spans {
  import opened ByteText
  import opened Sorting

  datatype Span = Span(start: int, end: int, tag: Bytes)

  predicate ValidSpan(s: Span) {
    0 <= s.start < s.end
  }

  /** The order mergeSpans sorts by, stably: earlier start first, at the same start the longer one. */
  predicate Before(a: Span, b: Span) {
    a.start < b.start || (a.start == b.start && a.end > b.end)
  }

  function ValidSpans(spans: seq<Span>): seq<Span> {
    if spans == [] then []
    else (if ValidSpan(spans[0]) then [spans[0]] else []) + ValidSpans(spans[1..])
  }

  /** Keep every span that starts at or after the end of the span kept last. */
  function Greedy(sorted: seq<Span>, lastEnd: int): seq<Span> {
    if sorted == [] then []
    else if sorted[0].start >= lastEnd then [sorted[0]] + Greedy(sorted[1..], sorted[0].end)
    else Greedy(sorted[1..], lastEnd)
  }

  function Merged(spans: seq<Span>): seq<Span> {
    Greedy(StableSort(Before, ValidSpans(spans)), -1)
  }

  method MergeSpans(spans: seq<Span>) returns (merged: seq<Span>)
    ensures merged == Merged(spans)
    ensures LeftmostLongest(merged, spans, 0)
    ensures forall k | k in merged :: FirstWith(spans, k.start, k.end) == [k]
    ensures forall k | k in merged :: k in spans && 0 <= k.start < k.end
    ensures forall v | v in spans && 0 <= v.start < v.end :: exists k :: k in merged && k.start <= v.start < k.end
  {
    var valid: seq<Span> := [];
    assert spans[0..] == spans;
    for i := 0 to |spans|
      invariant valid + ValidSpans(spans[i..]) == ValidSpans(spans)
    {
      if ValidSpan(spans[i]) {
        valid := valid + [spans[i]];
      }
    }
    assert valid == ValidSpans(spans);
    valid := StableSort(Before, valid);
    merged := [];
    var lastEnd := -1;
    assert valid[0..] == valid;
    for i := 0 to |valid|
      invariant merged + Greedy(valid[i..], lastEnd) == Greedy(valid, -1)
    {
      if valid[i].start >= lastEnd {
        merged := merged + [valid[i]];
        lastEnd := valid[i].end;
      }
    }
    MergedIsLeftmostLongest(spans);
    MergedPrefersEarlierHit(spans);
    FirstBytesCovered(spans);
  }

  // ---------- what is chosen, without saying how ----------

  /** Of the valid spans that start at free or later, k starts first and among those is longest. */
  ghost predicate FirstAndLongest(k: Span, spans: seq<Span>, free: int) {
    && k in spans && ValidSpan(k) && k.start >= free
    && forall v | v in spans && ValidSpan(v) && v.start >= free :: !Before(v, k)
  }

  /**
   * From left to right, each kept span is the earliest and among those the longest of the valid
   * spans that start where the previous one has ended or later, and none is left after the last.
   */
  ghost predicate LeftmostLongest(kept: seq<Span>, spans: seq<Span>, free: int) {
    if kept == [] then forall v | v in spans && ValidSpan(v) :: v.start < free
    else FirstAndLongest(kept[0], spans, free) && LeftmostLongest(kept[1..], spans, kept[0].end)
  }

  lemma BeforeIsStrict()
    ensures Strict(Before)
  {
  }

  lemma {:induction false} ValidSpansSelects(s: seq<Span>)
    ensures forall v :: v in ValidSpans(s) <==> v in s && ValidSpan(v)
  {
    if s != [] { ValidSpansSelects(s[1..]); }
  }

  lemma {:induction false} GreedyChooses(s: seq<Span>, free: int)
    requires Sorted(Before, s) && forall v | v in s :: ValidSpan(v)
    ensures LeftmostLongest(Greedy(s, free), s, free)
    decreases |s|
  {
    if s != [] {
      var rest := s[1..];
      assert s == [s[0]] + rest;
      var free' := if s[0].start >= free then s[0].end else free;
      GreedyChooses(rest, free');
      EarlierSpansDoNotMatter(Greedy(rest, free'), rest, s, free');
      if s[0].start >= free {
        assert FirstAndLongest(s[0], s, free);
      }
    }
  }

  /** Only spans that start at free or later matter from there on. */
  lemma {:induction false} EarlierSpansDoNotMatter(kept: seq<Span>, spans: seq<Span>, more: seq<Span>, free: int)
    requires LeftmostLongest(kept, spans, free)
    requires forall v | ValidSpan(v) && v.start >= free :: v in spans <==> v in more
    ensures LeftmostLongest(kept, more, free)
    decreases |kept|
  {
    if kept != [] {
      assert FirstAndLongest(kept[0], more, free);
      EarlierSpansDoNotMatter(kept[1..], spans, more, kept[0].end);
    }
  }

  lemma MergedIsLeftmostLongest(spans: seq<Span>)
    ensures LeftmostLongest(Merged(spans), spans, 0)
  {
    var sorted := StableSort(Before, ValidSpans(spans));
    ValidSpansSelects(spans);
    BeforeIsStrict();
    StableSortSorts(Before, ValidSpans(spans));
    GreedyChooses(sorted, -1);
    EarlierSpansDoNotMatter(Merged(spans), sorted, spans, -1);
  }

  /** The first byte of every valid span is covered by a kept span. */
  lemma {:induction false} FirstByteCovered(kept: seq<Span>, spans: seq<Span>, free: int, v: Span) returns (k: Span)
    requires LeftmostLongest(kept, spans, free) && v in spans && ValidSpan(v) && v.start >= free
    ensures k in kept && k.start <= v.start < k.end
    decreases |kept|
  {
    k := kept[0];
    assert kept == [kept[0]] + kept[1..];
    if v.start >= k.end {
      k := FirstByteCovered(kept[1..], spans, k.end, v);
    }
  }

  /** Kept spans are spans that were detected, and no detected span is left out with its first byte. */
  lemma FirstBytesCovered(spans: seq<Span>)
    ensures forall k | k in Merged(spans) :: k in spans && 0 <= k.start < k.end
    ensures forall v | v in spans && 0 <= v.start < v.end ::
              exists k :: k in Merged(spans) && k.start <= v.start < k.end
  {
    var kept := Merged(spans);
    MergedIsLeftmostLongest(spans);
    KeptAreApart(kept, spans, 0);
    forall v | v in spans && 0 <= v.start < v.end ensures exists k :: k in kept && k.start <= v.start < k.end {
      var k := FirstByteCovered(kept, spans, 0, v);
    }
  }

  /** The chosen intervals depend on which spans were detected, not on the order they came in. */
  lemma {:induction false} ChoiceUnique(kept1: seq<Span>, spans1: seq<Span>, kept2: seq<Span>,
    spans2: seq<Span>, free: int)
    requires LeftmostLongest(kept1, spans1, free) && LeftmostLongest(kept2, spans2, free)
    requires SameIntervals(spans1, spans2)
    ensures |kept1| == |kept2| && forall i | 0 <= i < |kept1| :: SameInterval(kept1[i], kept2[i])
    decreases |kept1|
  {
    if kept1 != [] {
      var k := Twin(kept1[0], spans1, spans2);
      assert kept2 != [];
    }
    if kept2 != [] {
      var k := Twin(kept2[0], spans2, spans1);
      var k' := Twin(kept1[0], spans1, spans2);
      assert SameInterval(kept1[0], kept2[0]);
      ChoiceUnique(kept1[1..], spans1, kept2[1..], spans2, kept1[0].end);
    }
  }

  // ---------- two detectors, one interval ----------

  /** The first span of the list with this interval, if there is one. */
  function FirstWith(spans: seq<Span>, start: int, end: int): seq<Span> {
    if spans == [] then []
    else if spans[0].start == start && spans[0].end == end then [spans[0]]
    else FirstWith(spans[1..], start, end)
  }

  lemma {:induction false} InsertIsStable(x: Span, s: seq<Span>, start: int, end: int)
    ensures FirstWith(Insert(Before, x, s), start, end) == FirstWith([x] + s, start, end)
  {
    assert ([x] + s)[1..] == s;
    if s != [] && Before(s[0], x) {
      InsertIsStable(x, s[1..], start, end);
      assert ([x] + s[1..])[1..] == s[1..];
      assert Insert(Before, x, s)[1..] == Insert(Before, x, s[1..]);
    }
  }

  lemma {:induction false} StableSortIsStable(s: seq<Span>, start: int, end: int)
    ensures FirstWith(StableSort(Before, s), start, end) == FirstWith(s, start, end)
  {
    if s != [] {
      var t := StableSort(Before, s[1..]);
      InsertIsStable(s[0], t, start, end);
      StableSortIsStable(s[1..], start, end);
      assert ([s[0]] + t)[1..] == t;
    }
  }

  lemma {:induction false} ValidSpansKeepFirst(s: seq<Span>, start: int, end: int)
    requires 0 <= start < end
    ensures FirstWith(ValidSpans(s), start, end) == FirstWith(s, start, end)
  {
    if s != [] {
      ValidSpansKeepFirst(s[1..], start, end);
      var rest := ValidSpans(s[1..]);
      assert ([s[0]] + rest)[1..] == rest && [] + rest == rest;
    }
  }

  lemma {:induction false} GreedyKeepsFirst(s: seq<Span>, free: int, k: Span)
    requires k in Greedy(s, free) && forall v | v in s :: ValidSpan(v)
    ensures FirstWith(s, k.start, k.end) == [k] && k.start >= free
    decreases |s|
  {
    var rest := s[1..];
    assert s == [s[0]] + rest && s[0] in s;
    if s[0].start < free {
      GreedyKeepsFirst(rest, free, k);
    } else if k != s[0] {
      assert k in Greedy(rest, s[0].end);
      GreedyKeepsFirst(rest, s[0].end, k);
    }
  }

  /** When two detectors report the same interval, the one listed first gives the label. */
  lemma MergedPrefersEarlierHit(spans: seq<Span>)
    ensures forall k | k in Merged(spans) :: FirstWith(spans, k.start, k.end) == [k]
  {
    var valid := ValidSpans(spans);
    ValidSpansSelects(spans);
    BeforeIsStrict();
    StableSortSorts(Before, valid);
    forall k | k in Merged(spans) ensures FirstWith(spans, k.start, k.end) == [k] {
      GreedyKeepsFirst(StableSort(Before, valid), -1, k);
      StableSortIsStable(valid, k.start, k.end);
      assert k in valid by { FirstWithIsMember(StableSort(Before, valid), k.start, k.end); }
      ValidSpansKeepFirst(spans, k.start, k.end);
    }
  }

  lemma {:induction false} FirstWithIsMember(s: seq<Span>, start: int, end: int)
    ensures forall k | k in FirstWith(s, start, end) :: k in s
  {
    if s != [] { FirstWithIsMember(s[1..], start, end); }
  }

  // ---------- the order of the input ----------

  predicate SameInterval(a: Span, b: Span) {
    a.start == b.start && a.end == b.end
  }

  ghost predicate HasInterval(spans: seq<Span>, start: int, end: int) {
    exists v :: v in spans && v.start == start && v.end == end
  }

  ghost predicate SameIntervals(a: seq<Span>, b: seq<Span>) {
    forall start, end :: HasInterval(a, start, end) <==> HasInterval(b, start, end)
  }

  lemma Twin(v: Span, a: seq<Span>, b: seq<Span>) returns (w: Span)
    requires v in a && SameIntervals(a, b)
    ensures w in b && SameInterval(v, w)
  {
    assert HasInterval(a, v.start, v.end);
    w :| w in b && w.start == v.start && w.end == v.end;
  }

  lemma MergeIgnoresOrder(spans1: seq<Span>, spans2: seq<Span>)
    requires SameIntervals(spans1, spans2)
    ensures |Merged(spans1)| == |Merged(spans2)|
    ensures forall i | 0 <= i < |Merged(spans1)| :: SameInterval(Merged(spans1)[i], Merged(spans2)[i])
  {
    MergedIsLeftmostLongest(spans1);
    MergedIsLeftmostLongest(spans2);
    ChoiceUnique(Merged(spans1), spans1, Merged(spans2), spans2, 0);
  }

  // ---------- when no tail stays ----------

  predicate Within(v: Span, k: Span) {
    k.start <= v.start && v.end <= k.end
  }

  predicate ShareByte(u: Span, v: Span) {
    u.start < v.end && v.start < u.end
  }

  ghost predicate Contains(spans: seq<Span>, u: Span, v: Span) {
    exists w :: w in spans && ValidSpan(w) && Within(u, w) && Within(v, w)
  }

  /** Any two valid spans that share a byte lie together inside some valid span. */
  ghost predicate Joined(spans: seq<Span>) {
    forall u, v | u in spans && v in spans && ValidSpan(u) && ValidSpan(v) && ShareByte(u, v) :: Contains(spans, u, v)
  }

  /** Every valid span lies wholly inside one kept span. */
  ghost predicate WhollyKept(kept: seq<Span>, spans: seq<Span>) {
    forall v | v in spans && ValidSpan(v) :: exists k :: k in kept && Within(v, k)
  }

  /** No valid span that starts before free ends behind it. */
  ghost predicate NothingCrosses(spans: seq<Span>, free: int) {
    forall v | v in spans && ValidSpan(v) && v.start < free :: v.end <= free
  }

  lemma NothingCrossesKept(k: Span, spans: seq<Span>, free: int)
    requires Joined(spans) && NothingCrosses(spans, free) && FirstAndLongest(k, spans, free)
    ensures NothingCrosses(spans, k.end)
  {
    forall v | v in spans && ValidSpan(v) && v.start < k.end ensures v.end <= k.end {
      if v.end > k.end {
        assert Contains(spans, k, v);
        var w :| w in spans && ValidSpan(w) && Within(k, w) && Within(v, w);
        assert Before(w, k);
      }
    }
  }

  lemma {:induction false} JoinedAreKept(kept: seq<Span>, spans: seq<Span>, free: int, v: Span) returns (k: Span)
    requires Joined(spans) && NothingCrosses(spans, free) && LeftmostLongest(kept, spans, free)
    requires v in spans && ValidSpan(v) && v.start >= free
    ensures k in kept && Within(v, k)
    decreases |kept|
  {
    k := kept[0];
    assert kept == [kept[0]] + kept[1..];
    NothingCrossesKept(k, spans, free);
    if v.start >= k.end {
      k := JoinedAreKept(kept[1..], spans, k.end, v);
    }
  }

  lemma {:induction false} KeptAreApart(kept: seq<Span>, spans: seq<Span>, free: int)
    requires LeftmostLongest(kept, spans, free)
    ensures forall k | k in kept :: k in spans && ValidSpan(k) && k.start >= free
    ensures forall k, k' | k in kept && k' in kept && ShareByte(k, k') :: k == k'
    decreases |kept|
  {
    if kept != [] {
      KeptAreApart(kept[1..], spans, kept[0].end);
      assert kept == [kept[0]] + kept[1..];
    }
  }

  lemma WhollyKeptAreJoined(kept: seq<Span>, spans: seq<Span>, u: Span, v: Span, k: Span, k': Span)
    requires LeftmostLongest(kept, spans, 0) && ValidSpan(u) && ValidSpan(v) && ShareByte(u, v)
    requires k in kept && Within(u, k) && k' in kept && Within(v, k')
    ensures Contains(spans, u, v)
  {
    KeptAreApart(kept, spans, 0);
    assert ShareByte(k, k');
  }

  /**
   * Each valid span is redacted as part of one entity, and nothing of it stays in the text, if and
   * only if any two valid spans that share a byte lie together inside some valid span of the input.
   */
  lemma WhollyKeptExactly(spans: seq<Span>)
    ensures Joined(spans) <==> WhollyKept(Merged(spans), spans)
  {
    var kept := Merged(spans);
    MergedIsLeftmostLongest(spans);
    if Joined(spans) {
      forall v | v in spans && ValidSpan(v) ensures exists k :: k in kept && Within(v, k) {
        var k := JoinedAreKept(kept, spans, 0, v);
      }
    }
    if WhollyKept(kept, spans) {
      forall u, v | u in spans && v in spans && ValidSpan(u) && ValidSpan(v) && ShareByte(u, v)
        ensures Contains(spans, u, v)
      {
        var k :| k in kept && Within(u, k);
        var k' :| k' in kept && Within(v, k');
        WhollyKeptAreJoined(kept, spans, u, v, k, k');
      }
    }
  }

  predicate Holds(k: Span, x: int) {
    k.start <= x < k.end
  }

  /** Every byte of every valid span lies in some kept span. */
  ghost predicate BytesKept(kept: seq<Span>, spans: seq<Span>) {
    forall v, x | v in spans && ValidSpan(v) && Holds(v, x) :: exists k :: k in kept && Holds(k, x)
  }

  ghost predicate StartsAt(spans: seq<Span>, x: int) {
    exists w :: w in spans && ValidSpan(w) && w.start == x
  }

  /** Where a valid span reaches beyond a kept one, another valid span starts. */
  ghost predicate TakenUp(kept: seq<Span>, spans: seq<Span>) {
    forall k, v | k in kept && v in spans && ValidSpan(v) && v.start < k.end < v.end :: StartsAt(spans, k.end)
  }

  /** What is kept of the byte behind a kept span starts there. */
  lemma NextKept(kept: seq<Span>, spans: seq<Span>, k: Span, k': Span)
    requires LeftmostLongest(kept, spans, 0) && k in kept && k' in kept && Holds(k', k.end)
    ensures k'.start == k.end && ValidSpan(k') && k' in spans
  {
    KeptAreApart(kept, spans, 0);
    assert k'.start < k.end ==> ShareByte(k, k');
  }

  lemma {:induction false} ByteIsKept(kept: seq<Span>, spans: seq<Span>, v: Span, x: int, k: Span) returns (k': Span)
    requires LeftmostLongest(kept, spans, 0) && TakenUp(kept, spans)
    requires v in spans && ValidSpan(v) && Holds(v, x)
    requires k in kept && k.start <= x && v.start < k.end
    ensures k' in kept && Holds(k', x)
    decreases x - k.end
  {
    k' := k;
    if k.end <= x {
      assert StartsAt(spans, k.end);
      var w :| w in spans && ValidSpan(w) && w.start == k.end;
      var next := FirstByteCovered(kept, spans, 0, w);
      NextKept(kept, spans, k, next);
      k' := ByteIsKept(kept, spans, v, x, next);
    }
  }

  /** Not a byte of any valid span stays in the text if and only if what reaches beyond kept spans is taken up. */
  lemma BytesKeptExactly(spans: seq<Span>)
    ensures BytesKept(Merged(spans), spans) <==> TakenUp(Merged(spans), spans)
  {
    var kept := Merged(spans);
    MergedIsLeftmostLongest(spans);
    if TakenUp(kept, spans) {
      forall v, x | v in spans && ValidSpan(v) && Holds(v, x) ensures exists k :: k in kept && Holds(k, x) {
        var first := FirstByteCovered(kept, spans, 0, v);
        var k := ByteIsKept(kept, spans, v, x, first);
      }
    }
    if BytesKept(kept, spans) {
      forall k, v | k in kept && v in spans && ValidSpan(v) && v.start < k.end < v.end
        ensures StartsAt(spans, k.end)
      {
        assert Holds(v, k.end);
        var k' :| k' in kept && Holds(k', k.end);
        NextKept(kept, spans, k, k');
      }
    }
  }
}
