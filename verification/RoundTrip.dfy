/** Restoring a redacted text, at once and in chunks. */
module RoundTrip {
  import opened ByteText
  import opened Restore
  import opened Streaming
  import opened Placeholders
  import opened Spans
  import opened Redaction
  import opened Replacer

  /** The mapping can undo the entities: every placeholder stands for what its entity covers. */
  ghost predicate Undoes(m: Mapping, text: Bytes, ents: seq<Entity>) {
    && ShapedKeys(m)
    && forall e | e in ents ::
         && e.placeholder in m && 0 <= e.start <= e.end <= |text| && m[e.placeholder] == text[e.start..e.end]
  }

  /** No key of the mapping occurs between the entities. */
  ghost predicate GapsClean(m: Mapping, text: Bytes, ents: seq<Entity>, prev: int)
    requires Placed(text, ents, prev)
  {
    if ents == [] then Clean(m, text[prev..])
    else Clean(m, text[prev..ents[0].start]) && GapsClean(m, text, ents[1..], ents[0].end)
  }

  function PlaceholdersOf(ents: seq<Entity>): seq<Bytes> {
    if ents == [] then [] else [ents[0].placeholder] + PlaceholdersOf(ents[1..])
  }

  lemma UndoesRest(m: Mapping, text: Bytes, ents: seq<Entity>)
    requires Undoes(m, text, ents) && ents != []
    ensures Undoes(m, text, ents[1..]) && ents[0] in ents
  {
  }

  lemma AllocatedShaped(words: Words, i: nat)
    requires i < |words| && LabelFits(words[i].0)
    ensures Shaped(Allocated(words, i)) && RuneStart(Allocated(words, i)[1])
  {
    PlaceholderShaped(words[i].0, Rank(words, words[i].0, First(words, i)));
  }

  lemma KeysAreShaped(text: Bytes, kept: seq<Span>, res: ReversibleResult)
    requires Reversible(text, kept, res) && forall k | k in kept :: LabelFits(k.tag)
    ensures ShapedKeys(res.mapping) && RuneKeys(res.mapping)
  {
    var ents := res.result.entities;
    forall k | k in res.mapping ensures Shaped(k) && RuneStart(k[1]) {
      var i :| 0 <= i < |ents| && ents[i].placeholder == k;
      assert kept[i] in kept;
      AllocatedShaped(WordsOf(ents), i);
    }
  }

  /** What RedactReversible returns can be undone. */
  lemma ReversibleUndoes(text: Bytes, kept: seq<Span>, res: ReversibleResult)
    requires Reversible(text, kept, res) && forall k | k in kept :: LabelFits(k.tag)
    ensures Undoes(res.mapping, text, res.result.entities) && RuneKeys(res.mapping)
  {
    var ents := res.result.entities;
    KeysAreShaped(text, kept, res);
    forall e | e in ents
      ensures e.placeholder in res.mapping && 0 <= e.start <= e.end <= |text|
      ensures res.mapping[e.placeholder] == text[e.start..e.end]
    {
      var i :| 0 <= i < |ents| && ents[i] == e;
    }
  }

  lemma RestoredGap(m: Mapping, text: Bytes, ents: seq<Entity>, prev: int)
    requires Undoes(m, text, ents) && Placed(text, ents, prev) && ents != []
    ensures var gap, p := text[prev..ents[0].start], ents[0].placeholder;
            var rest := Rebuilt(text, ents[1..], ents[0].end);
            && Restored(m, Rebuilt(text, ents, prev)) == Restored(m, gap) + (m[p] + Restored(m, rest))
            && Hits(m, Rebuilt(text, ents, prev)) == Hits(m, gap) + ([p] + Hits(m, rest))
  {
    var gap, p := text[prev..ents[0].start], ents[0].placeholder;
    var rest := Rebuilt(text, ents[1..], ents[0].end);
    assert ents[0] in ents;
    RebuiltStep(text, ents, prev);
    NoStraddleBeforeKey(m, gap, p, rest);
    RestoredSplit(m, gap, p + rest);
    RestoredKey(m, p, rest);
  }

  lemma Thirds(s: Bytes, a: int, b: int, c: int)
    requires 0 <= a <= b <= c <= |s|
    ensures s[a..] == s[a..b] + (s[b..c] + s[c..])
  {
  }

  /** Redacting and restoring gives the text back when no key of the mapping occurs between the entities. */
  lemma {:induction false} RoundTrips(m: Mapping, text: Bytes, ents: seq<Entity>, prev: int)
    requires Undoes(m, text, ents) && Placed(text, ents, prev) && GapsClean(m, text, ents, prev)
    ensures Restored(m, Rebuilt(text, ents, prev)) == text[prev..]
    ensures Hits(m, Rebuilt(text, ents, prev)) == PlaceholdersOf(ents)
    decreases |ents|
  {
    if ents == [] {
      assert Rebuilt(text, ents, prev) == text[prev..];
      RestoredClean(m, text[prev..]);
    } else {
      var e := ents[0];
      UndoesRest(m, text, ents);
      RestoredGap(m, text, ents, prev);
      RestoredClean(m, text[prev..e.start]);
      RoundTrips(m, text, ents[1..], e.end);
      Thirds(text, prev, e.start, e.end);
    }
  }

  /** At least the entities are hit, and nothing else exactly when the gaps are clean. */
  lemma {:induction false} HitsExactly(m: Mapping, text: Bytes, ents: seq<Entity>, prev: int)
    requires Undoes(m, text, ents) && Placed(text, ents, prev)
    ensures |Hits(m, Rebuilt(text, ents, prev))| >= |ents|
    ensures |Hits(m, Rebuilt(text, ents, prev))| == |ents| <==> GapsClean(m, text, ents, prev)
    decreases |ents|
  {
    if ents == [] {
      assert Rebuilt(text, ents, prev) == text[prev..];
      CleanIffNoHits(m, text[prev..]);
    } else {
      var e := ents[0];
      UndoesRest(m, text, ents);
      RestoredGap(m, text, ents, prev);
      HitsExactly(m, text, ents[1..], e.end);
      CleanIffNoHits(m, text[prev..e.start]);
    }
  }

  lemma {:induction false} PlaceholdersCount(ents: seq<Entity>)
    ensures |PlaceholdersOf(ents)| == |ents|
  {
    if ents != [] { PlaceholdersCount(ents[1..]); }
  }

  /**
   * Restoring a redacted text replaces exactly the placeholders that were put in, in order, if and
   * only if no key of the mapping occurs in the text between the entities; then the text comes back.
   */
  lemma RoundTripExactly(m: Mapping, text: Bytes, ents: seq<Entity>)
    requires Undoes(m, text, ents) && Placed(text, ents, 0)
    ensures GapsClean(m, text, ents, 0) <==> Hits(m, Rebuilt(text, ents, 0)) == PlaceholdersOf(ents)
    ensures GapsClean(m, text, ents, 0) ==> Restored(m, Rebuilt(text, ents, 0)) == text
  {
    PlaceholdersCount(ents);
    HitsExactly(m, text, ents, 0);
    if GapsClean(m, text, ents, 0) {
      RoundTrips(m, text, ents, 0);
      assert text[0..] == text;
    }
  }

  lemma {:induction false} CleanTextHasCleanGaps(m: Mapping, text: Bytes, ents: seq<Entity>, prev: int)
    requires Placed(text, ents, prev) && Clean(m, text)
    ensures GapsClean(m, text, ents, prev)
    decreases |ents|
  {
    if ents == [] {
      CleanWindow(m, text, prev, |text|);
    } else {
      CleanWindow(m, text, prev, ents[0].start);
      CleanTextHasCleanGaps(m, text, ents[1..], ents[0].end);
    }
  }

  /**
   * Whatever the detectors found: RestoreText, in every order in which Go may range over the mapping,
   * undoes RedactReversible when none of the mapping's keys occurs in the text.
   */
  lemma RedactThenRestore(text: Bytes, kept: seq<Span>, res: ReversibleResult, pairs: Pairs)
    requires Reversible(text, kept, res) && forall k | k in kept :: LabelFits(k.tag)
    requires Clean(res.mapping, text) && Enumerates(pairs, res.mapping)
    ensures RestoreTextIn(res.result.redacted, pairs) == text
  {
    ReversibleUndoes(text, kept, res);
    CleanTextHasCleanGaps(res.mapping, text, res.result.entities, 0);
    RoundTripExactly(res.mapping, text, res.result.entities);
    RestoreTextIsRestored(res.mapping, pairs, res.result.redacted);
  }
}
