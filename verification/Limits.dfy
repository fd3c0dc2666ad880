/** Inputs on which the unconditional forms of the main properties fail. */
module Limits {
  import opened ByteText
  import opened Restore
  import opened Streaming
  import opened Placeholders
  import opened Sorting
  import opened Spans
  import opened Redaction
  import opened RoundTrip

  /** [a_0] */
  const KEY: Bytes := [OPEN, 0x61, UNDERSCORE, 0x30, CLOSE]

  lemma KeyFits(original: Bytes)
    ensures var m: Mapping := map[KEY := original]; ShapedKeys(m) && RuneKeys(m) && KeepBytes(m) == 4
  {
    var m: Mapping := map[KEY := original];
    assert forall k | k in m :: k == KEY;
    assert KEY in m && |KEY| == 5;
  }

  /**
   * The original of [a_0] is "[": streamed as "[a_0]", "a_0]" it is restored to one key more than at
   * once, because the pending "[" and the second chunk make up a key.
   */
  lemma StreamingCanFail()
    ensures var m: Mapping := map[KEY := [OPEN]];
            && ShapedKeys(m) && RuneKeys(m)
            && !Faithful(m, KeepBytes(m), [KEY, KEY[1..]])
  {
    var m: Mapping := map[KEY := [OPEN]];
    KeyFits([OPEN]);
    assert Meets(m[KEY], KEY, 0);
    MeetingBetrays(m, 4, KEY, KEY, 0);
    assert [] + KEY == KEY;
    assert Betrayal(KEY, [OPEN], KEY, 0) == [KEY, KEY[1..]];
  }

  const LABEL: Bytes := [OPEN, 0x61, CLOSE]
  const TEXT: Bytes := KEY + [0x78]

  /** What RedactReversible returns for the text "[a_0]x" and the span of x with label [a]. */
  function Misleading(): ReversibleResult {
    var e := Entity(LABEL, 5, 6, [0x78], KEY);
    ReversibleResult(Result(KEY + KEY, true, 1, [e]), map[KEY := [0x78]])
  }

  lemma OneSpanMerged(s: Span)
    requires ValidSpan(s)
    ensures Merged([s]) == [s]
  {
    assert [s][1..] == [];
    assert ValidSpans([s]) == [s] + ValidSpans([]) == [s];
    assert StableSort(Before, [s]) == Insert(Before, s, StableSort(Before, [])) == [s];
    assert Greedy([s], -1) == [s] + Greedy([], s.end) == [s];
  }

  /** Its placeholder is the one allocated for the first span. */
  lemma MisleadingPlaceholder()
    ensures Allocated([(LABEL, [0x78])], 0) == KEY
  {
    assert Rank([(LABEL, [0x78])], LABEL, 0) == 0;
    assert Decimal(0) == [0x30];
  }

  lemma MisleadingRebuilt()
    ensures Placed(TEXT, Misleading().result.entities, 0)
    ensures Rebuilt(TEXT, Misleading().result.entities, 0) == KEY + KEY
  {
    var ents := Misleading().result.entities;
    assert ents[1..] == [] && TEXT[6..] == [] && TEXT[0..5] == KEY;
    assert Placed(TEXT, [], 6) && Rebuilt(TEXT, [], 6) == [];
    RebuiltStep(TEXT, ents, 0);
  }

  /** res is what RedactReversible returns for text when the detectors report spans. */
  ghost predicate RedactsTo(text: Bytes, spans: seq<Span>, res: ReversibleResult) {
    && Detected(text, spans) && (forall s | s in spans :: LabelFits(s.tag))
    && Reversible(text, Merged(spans), res)
  }

  lemma MisleadingIsRedaction()
    ensures RedactsTo(TEXT, [Span(5, 6, LABEL)], Misleading())
  {
    var s := Span(5, 6, LABEL);
    var res := Misleading();
    OneSpanMerged(s);
    MisleadingRebuilt();
    MisleadingPlaceholder();
    assert TEXT[5..6] == [0x78];
    assert WordsOf(res.result.entities) == [(LABEL, [0x78])];
    assert res.result.entities[0].placeholder == KEY;
    assert Describe(res.result.entities, [s], TEXT);
    assert MapsBack(res.mapping, res.result.entities);
  }

  lemma MisleadingRestored()
    ensures Restored(Misleading().mapping, Misleading().result.redacted) == [0x78, 0x78]
  {
    KeyFits([0x78]);
    TwoKeysRestored(KEY, [0x78]);
  }

  /** The text "[a_0]x", of which the detectors find x, is redacted to "[a_0][a_0]" and comes back as "xx". */
  lemma RoundTripCanFail()
    ensures RedactsTo(TEXT, [Span(5, 6, LABEL)], Misleading())
    ensures Restored(Misleading().mapping, Misleading().result.redacted) == [0x78, 0x78]
    ensures TEXT != [0x78, 0x78]
  {
    MisleadingIsRedaction();
    MisleadingRestored();
    assert |TEXT| == 6;
  }

  lemma TwoKeysRestored(k: Bytes, original: Bytes)
    requires Shaped(k)
    ensures Restored(map[k := original], k + k) == original + original
  {
    var m: Mapping := map[k := original];
    RestoredKey(m, k, k);
    RestoredKey(m, k, []);
    assert k + [] == k && Restored(m, []) == [] && original + [] == original;
  }

  /** Of two overlapping spans only the first is kept; the end of the second stays in the text. */
  lemma TailCanStay(tag: Bytes)
    ensures var a, b := Span(0, 2, tag), Span(1, 3, tag);
            && Merged([a, b]) == [a] && !(exists k :: k in Merged([a, b]) && Holds(k, 2))
            && !Joined([a, b]) && !TakenUp(Merged([a, b]), [a, b])
  {
    var a, b := Span(0, 2, tag), Span(1, 3, tag);
    assert [a, b][1..] == [b] && [b][1..] == [];
    assert ValidSpans([b]) == [b] + ValidSpans([]) == [b];
    assert ValidSpans([a, b]) == [a] + [b] == [a, b];
    assert StableSort(Before, [b]) == Insert(Before, b, StableSort(Before, [])) == [b];
    assert StableSort(Before, [a, b]) == Insert(Before, a, [b]) == [a, b];
    assert Greedy([], 2) == [] && Greedy([b], 2) == Greedy([], 2);
    assert Greedy([a, b], -1) == [a] + Greedy([b], 2) == [a];
    assert b in [a, b] && Holds(b, 2);
    WhollyKeptExactly([a, b]);
    BytesKeptExactly([a, b]);
  }
}
