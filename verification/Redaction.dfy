/** filter.Redact and filter.RedactReversible: replacing spans by placeholders. */
module Redaction {
  import opened ByteText
  import opened Restore
  import opened Placeholders
  import opened Spans

  datatype Entity = Entity(kind: Bytes, start: int, end: int, text: Bytes, placeholder: Bytes)

  datatype Result = Result(redacted: Bytes, hit: bool, count: nat, entities: seq<Entity>)

  datatype ReversibleResult = ReversibleResult(result: Result, mapping: Mapping)

  // ---------- texts with holes ----------

  /** The entities lie in the text from prev on, in order and without overlap. */
  predicate Placed(text: Bytes, ents: seq<Entity>, prev: int) {
    if ents == [] then 0 <= prev <= |text|
    else
      && 0 <= prev <= ents[0].start < ents[0].end <= |text|
      && Placed(text, ents[1..], ents[0].end)
  }

  function LastEnd(ents: seq<Entity>, prev: int): int {
    if ents == [] then prev else ents[|ents| - 1].end
  }

  /** The text from prev to the end of the last entity, with placeholders for the entities. */
  function RebuiltTo(text: Bytes, ents: seq<Entity>, prev: int): Bytes
    requires Placed(text, ents, prev)
  {
    if ents == [] then []
    else text[prev..ents[0].start] + ents[0].placeholder + RebuiltTo(text, ents[1..], ents[0].end)
  }

  lemma {:induction false} PlacedAppend(text: Bytes, ents: seq<Entity>, prev: int, e: Entity)
    requires Placed(text, ents, prev)
    requires LastEnd(ents, prev) <= e.start < e.end <= |text|
    ensures Placed(text, ents + [e], prev)
    ensures 0 <= prev <= LastEnd(ents, prev) <= |text|
    ensures RebuiltTo(text, ents + [e], prev)
         == RebuiltTo(text, ents, prev) + text[LastEnd(ents, prev)..e.start] + e.placeholder
    decreases |ents|
  {
    if ents == [] {
      assert ents + [e] == [e] && [e][1..] == [];
    } else {
      var head := text[prev..ents[0].start] + ents[0].placeholder;
      PlacedAppend(text, ents[1..], ents[0].end, e);
      assert (ents + [e])[1..] == ents[1..] + [e];
      var tail := RebuiltTo(text, ents[1..], ents[0].end);
      Assoc(head, tail, text[LastEnd(ents, prev)..e.start]);
      Assoc(head, tail + text[LastEnd(ents, prev)..e.start], e.placeholder);
    }
  }

  lemma {:induction false} LastEndInText(text: Bytes, ents: seq<Entity>, prev: int)
    requires Placed(text, ents, prev)
    ensures 0 <= prev <= LastEnd(ents, prev) <= |text|
    decreases |ents|
  {
    if ents != [] { LastEndInText(text, ents[1..], ents[0].end); }
  }

  /** The text from prev on, with placeholders for the entities. */
  function Rebuilt(text: Bytes, ents: seq<Entity>, prev: int): Bytes
    requires Placed(text, ents, prev)
  {
    LastEndInText(text, ents, prev);
    RebuiltTo(text, ents, prev) + text[LastEnd(ents, prev)..]
  }

  lemma RebuiltStep(text: Bytes, ents: seq<Entity>, prev: int)
    requires Placed(text, ents, prev) && ents != []
    ensures Rebuilt(text, ents, prev)
         == text[prev..ents[0].start] + (ents[0].placeholder + Rebuilt(text, ents[1..], ents[0].end))
  {
    LastEndInText(text, ents, prev);
    LastEndInText(text, ents[1..], ents[0].end);
    assert LastEnd(ents, prev) == LastEnd(ents[1..], ents[0].end);
    var gap, p, r := text[prev..ents[0].start], ents[0].placeholder, RebuiltTo(text, ents[1..], ents[0].end);
    var tail := text[LastEnd(ents, prev)..];
    Assoc(gap + p, r, tail);
    Assoc(gap, p, r + tail);
  }

  // ---------- the operations ----------

  /** Every valid span the detectors report lies in the text. */
  ghost predicate Detected(text: Bytes, spans: seq<Span>) {
    forall s | s in spans && ValidSpan(s) :: s.end <= |text|
  }

  /** What the i-th entity must say about the i-th kept span, apart from its placeholder. */
  ghost predicate Describe(ents: seq<Entity>, kept: seq<Span>, text: Bytes) {
    && |ents| == |kept|
    && forall i | 0 <= i < |ents| ::
         && ents[i].kind == kept[i].tag && ents[i].start == kept[i].start && ents[i].end == kept[i].end
         && 0 <= ents[i].start <= ents[i].end <= |text| && ents[i].text == text[ents[i].start..ents[i].end]
  }

  /** The kept spans lie in the text, in order and without overlap. */
  ghost predicate InOrder(kept: seq<Span>, text: Bytes) {
    && (forall i | 0 <= i < |kept| :: 0 <= kept[i].start < kept[i].end <= |text|)
    && (forall i | 0 < i < |kept| :: kept[i - 1].end <= kept[i].start)
  }

  lemma {:induction false} KeptInOrder(text: Bytes, spans: seq<Span>, kept: seq<Span>, free: int)
    requires Detected(text, spans) && LeftmostLongest(kept, spans, free)
    ensures InOrder(kept, text)
    ensures kept != [] ==> free <= kept[0].start
    decreases |kept|
  {
    if kept != [] {
      KeptInOrder(text, spans, kept[1..], kept[0].end);
      assert kept == [kept[0]] + kept[1..];
    }
  }

  /** The state of the rebuilding loop after i kept spans. */
  ghost predicate Building(text: Bytes, kept: seq<Span>, i: nat, ents: seq<Entity>, prev: int, b: Bytes)
    requires i <= |kept|
  {
    && Describe(ents, kept[..i], text)
    && Placed(text, ents, 0)
    && prev == LastEnd(ents, 0) && 0 <= prev <= |text|
    && b == RebuiltTo(text, ents, 0)
  }

  lemma BuildNext(text: Bytes, kept: seq<Span>, i: nat, ents: seq<Entity>, prev: int, b: Bytes, e: Entity)
    requires i < |kept| && InOrder(kept, text) && Building(text, kept, i, ents, prev, b)
    requires e.kind == kept[i].tag && e.start == kept[i].start && e.end == kept[i].end
    requires e.text == text[kept[i].start..kept[i].end]
    ensures prev <= kept[i].start
    ensures Building(text, kept, i + 1, ents + [e], kept[i].end, b + text[prev..kept[i].start] + e.placeholder)
  {
    assert kept[..i + 1] == kept[..i] + [kept[i]];
    PlacedAppend(text, ents, 0, e);
  }

  lemma Built(text: Bytes, kept: seq<Span>, ents: seq<Entity>, prev: int, b: Bytes)
    requires Building(text, kept, |kept|, ents, prev, b)
    ensures Describe(ents, kept, text) && Placed(text, ents, 0)
    ensures b + text[prev..] == Rebuilt(text, ents, 0)
  {
    assert kept[..|kept|] == kept;
  }

  /** The entities as they would be if their labels were their placeholders. */
  function Labelled(ents: seq<Entity>): seq<Entity> {
    seq(|ents|, i requires 0 <= i < |ents| => ents[i].(placeholder := ents[i].kind))
  }

  method Redact(text: Bytes, spans: seq<Span>) returns (res: Result)
    requires Detected(text, spans)
    ensures Describe(res.entities, Merged(spans), text)
    ensures forall e | e in res.entities :: e.placeholder == []
    ensures Placed(text, Labelled(res.entities), 0)
    ensures res.redacted == Rebuilt(text, Labelled(res.entities), 0)
    ensures forall i | 0 <= i < |res.entities| ::
              && Labelled(res.entities)[i].placeholder == Merged(spans)[i].tag
              && Labelled(res.entities)[i].start == Merged(spans)[i].start
              && Labelled(res.entities)[i].end == Merged(spans)[i].end
    ensures res.count == |Merged(spans)| && (res.hit <==> res.count > 0)
  {
    var merged := MergeSpans(spans);
    KeptInOrder(text, spans, merged, 0);
    res := LabelKept(text, merged);
    LabelsWritten(text, res.entities, merged);
  }

  lemma LabelsWritten(text: Bytes, ents: seq<Entity>, kept: seq<Span>)
    requires Describe(ents, kept, text)
    ensures forall i | 0 <= i < |ents| ::
              && Labelled(ents)[i].placeholder == kept[i].tag
              && Labelled(ents)[i].start == kept[i].start && Labelled(ents)[i].end == kept[i].end
  {
  }

  /** The loop of Redact: every kept span is replaced by its label. */
  method LabelKept(text: Bytes, merged: seq<Span>) returns (res: Result)
    requires InOrder(merged, text)
    ensures Describe(res.entities, merged, text)
    ensures forall e | e in res.entities :: e.placeholder == []
    ensures Placed(text, Labelled(res.entities), 0)
    ensures res.redacted == Rebuilt(text, Labelled(res.entities), 0)
    ensures res.count == |merged| && (res.hit <==> res.count > 0)
  {
    var b: Bytes := [];
    var prev := 0;
    var entities: seq<Entity> := [];
    ghost var labelled: seq<Entity> := [];
    for i := 0 to |merged|
      invariant Building(text, merged, i, labelled, prev, b)
      invariant |entities| == i
      invariant forall j | 0 <= j < i ::
                  entities[j] == labelled[j].(placeholder := []) && labelled[j].placeholder == labelled[j].kind
    {
      var s := merged[i];
      var e := Entity(s.tag, s.start, s.end, text[s.start..s.end], []);
      BuildNext(text, merged, i, labelled, prev, b, e.(placeholder := s.tag));
      b := b + text[prev..s.start];
      b := b + s.tag;
      prev := s.end;
      entities := entities + [e];
      labelled := labelled + [e.(placeholder := s.tag)];
    }
    Built(text, merged, labelled, prev, b);
    assert Labelled(entities) == labelled;
    b := b + text[prev..];
    res := Result(b, |merged| > 0, |merged|, entities);
  }

  // ---------- allocation of placeholders ----------

  /** What a placeholder stands for: a label and an original. */
  type Words = seq<(Bytes, Bytes)>

  function WordsOf(ents: seq<Entity>): Words {
    seq(|ents|, i requires 0 <= i < |ents| => (ents[i].kind, ents[i].text))
  }

  function FirstFrom(words: Words, i: nat, j: nat): (r: nat)
    requires j <= i < |words|
    ensures j <= r <= i && words[r] == words[i] && forall x | j <= x < r :: words[x] != words[i]
    decreases i - j
  {
    if words[j] == words[i] then j else FirstFrom(words, i, j + 1)
  }

  /** Where the i-th word appears first. */
  function First(words: Words, i: nat): (r: nat)
    requires i < |words|
    ensures r <= i && words[r] == words[i] && forall x | 0 <= x < r :: words[x] != words[i]
  {
    FirstFrom(words, i, 0)
  }

  /** How many different words with this label appear before position n. */
  function Rank(words: Words, tag: Bytes, n: nat): nat
    requires n <= |words|
  {
    if n == 0 then 0
    else Rank(words, tag, n - 1) + if words[n - 1].0 == tag && First(words, n - 1) == n - 1 then 1 else 0
  }

  /** The placeholder of the i-th word: its label, numbered by first appearance. */
  function Allocated(words: Words, i: nat): Bytes
    requires i < |words|
  {
    IndexedPlaceholder(words[i].0, Rank(words, words[i].0, First(words, i)))
  }

  ghost predicate LabelsFitIn(words: Words) {
    forall i | 0 <= i < |words| :: LabelFits(words[i].0)
  }

  lemma {:induction false} RankGrows(words: Words, tag: Bytes, n: nat, n': nat)
    requires n <= n' <= |words|
    ensures Rank(words, tag, n) <= Rank(words, tag, n')
    ensures n < n' && words[n].0 == tag && First(words, n) == n ==> Rank(words, tag, n) < Rank(words, tag, n')
    decreases n'
  {
    if n < n' { RankGrows(words, tag, n, n' - 1); }
  }

  /** Two spans share a placeholder if and only if they have the same label and the same original. */
  lemma AllocatedInjective(words: Words, i: nat, j: nat)
    requires LabelsFitIn(words) && i < |words| && j < |words|
    ensures Allocated(words, i) == Allocated(words, j) <==> words[i] == words[j]
  {
    var fi, fj := First(words, i), First(words, j);
    if words[i] == words[j] {
      assert fi == fj;
    } else if Allocated(words, i) == Allocated(words, j) {
      var tag := words[i].0;
      PlaceholderInjective(tag, Rank(words, tag, fi), words[j].0, Rank(words, words[j].0, fj));
      assert First(words, fi) == fi && First(words, fj) == fj;
      RankGrows(words, tag, if fi < fj then fi else fj, if fi < fj then fj else fi);
    }
  }

  /** The indices a label uses are exactly 0 up to the number of its words, each given out once. */
  lemma {:induction false} IndicesDense(words: Words, tag: Bytes, n: nat, r: nat) returns (i: nat)
    requires n <= |words| && r < Rank(words, tag, n)
    ensures i < n && words[i].0 == tag && First(words, i) == i && Rank(words, tag, i) == r
    decreases n
  {
    if words[n - 1].0 == tag && First(words, n - 1) == n - 1 && Rank(words, tag, n - 1) == r {
      i := n - 1;
    } else {
      i := IndicesDense(words, tag, n - 1, r);
    }
  }

  /** The different originals with this label among the first n words. */
  function Originals(words: Words, tag: Bytes, n: nat): set<Bytes>
    requires n <= |words|
  {
    set j | 0 <= j < n && words[j].0 == tag :: words[j].1
  }

  lemma {:induction false} RankCounts(words: Words, tag: Bytes, n: nat)
    requires n <= |words|
    ensures Rank(words, tag, n) == |Originals(words, tag, n)|
  {
    if n > 0 {
      RankCounts(words, tag, n - 1);
      var before, original := Originals(words, tag, n - 1), words[n - 1].1;
      if words[n - 1].0 == tag {
        assert Originals(words, tag, n) == before + {original};
        var f := First(words, n - 1);
        assert f < n - 1 ==> words[f].1 in before;
        if original in before {
          var j :| 0 <= j < n - 1 && words[j].0 == tag && words[j].1 == original;
          assert words[j] == words[n - 1];
          assert before + {original} == before;
        }
      } else {
        assert Originals(words, tag, n) == before;
      }
    }
  }

  /**
   * A placeholder, byte by byte: the label up to its bracket, an underscore, the number of different
   * originals with this label before the first appearance of this one, in decimal, and the bracket.
   */
  lemma AllocatedExactly(words: Words, i: nat, first: nat) returns (digits: Bytes)
    requires i < |words| && first < |words| && LabelFits(words[i].0)
    requires words[first] == words[i] && forall x | 0 <= x < first :: words[x] != words[i]
    ensures Allocated(words, i) == words[i].0[..|words[i].0| - 1] + ([0x5F] + digits + [0x5D])
    ensures Spelled(digits, |set j | 0 <= j < first && words[j].0 == words[i].0 :: words[j].1|)
  {
    var tag := words[i].0;
    assert First(words, i) == first;
    RankCounts(words, tag, first);
    digits := PlaceholderPrinted(tag, Rank(words, tag, first));
    assert Originals(words, tag, first) == set j | 0 <= j < first && words[j].0 == tag :: words[j].1;
  }

  /** The mapping of a redaction: exactly the used placeholders, each to its original. */
  ghost predicate MapsBack(m: Mapping, ents: seq<Entity>) {
    && (forall i | 0 <= i < |ents| :: ents[i].placeholder in m && m[ents[i].placeholder] == ents[i].text)
    && (forall p | p in m :: exists i | 0 <= i < |ents| :: ents[i].placeholder == p)
  }

  /** Everything RedactReversible promises when kept is what mergeSpans leaves. */
  ghost predicate Reversible(text: Bytes, kept: seq<Span>, res: ReversibleResult) {
    var ents := res.result.entities;
    && Describe(ents, kept, text)
    && Placed(text, ents, 0)
    && res.result.redacted == Rebuilt(text, ents, 0)
    && res.result.count == |ents| && (res.result.hit <==> |ents| > 0)
    && (forall i | 0 <= i < |ents| :: ents[i].placeholder == Allocated(WordsOf(ents), i))
    && MapsBack(res.mapping, ents)
  }

  /** The placeholders of the first n words. */
  function Placement(words: Words, n: nat): (place: seq<Bytes>)
    requires n <= |words|
    ensures |place| == n
  {
    if n == 0 then [] else Placement(words, n - 1) + [Allocated(words, n - 1)]
  }

  lemma {:induction false} PlacementAt(words: Words, n: nat, i: nat)
    requires i < n <= |words|
    ensures Placement(words, n)[i] == Allocated(words, i)
    decreases n
  {
    if i < n - 1 { PlacementAt(words, n - 1, i); }
  }

  function WordKey(word: (Bytes, Bytes)): Bytes {
    SeenKey(word.0, word.1)
  }

  /** After i words: the placeholder of every one of them is remembered, and nothing else. */
  ghost predicate Remembers(words: Words, place: seq<Bytes>, i: nat, seen: map<Bytes, Bytes>)
    requires i <= |words| == |place|
  {
    && (forall j | 0 <= j < i :: WordKey(words[j]) in seen && seen[WordKey(words[j])] == place[j])
    && (forall key | key in seen :: exists j | 0 <= j < i :: key == WordKey(words[j]))
  }

  /** A Go map read: a missing counter is 0. */
  function Counted(counters: map<Bytes, nat>, tag: Bytes): nat {
    if tag in counters then counters[tag] else 0
  }

  ghost predicate Counts(words: Words, i: nat, counters: map<Bytes, nat>)
    requires i <= |words|
  {
    forall tag :: Rank(words, tag, i) == Counted(counters, tag)
  }

  lemma WordSeen(words: Words, place: seq<Bytes>, i: nat, seen: map<Bytes, Bytes>) returns (j: nat)
    requires LabelsFitIn(words) && place == Placement(words, |words|) && i < |words|
    requires Remembers(words, place, i, seen) && WordKey(words[i]) in seen
    ensures j < i && words[j] == words[i] && seen[WordKey(words[i])] == place[j] == place[i]
  {
    j :| 0 <= j < i && WordKey(words[i]) == WordKey(words[j]);
    SeenKeyInjective(words[i].0, words[i].1, words[j].0, words[j].1);
    PlacementAt(words, |words|, i);
    PlacementAt(words, |words|, j);
    AllocatedInjective(words, i, j);
  }

  /** A word seen for the first time gets a placeholder that no earlier word has. */
  lemma WordFresh(words: Words, place: seq<Bytes>, i: nat, seen: map<Bytes, Bytes>, counters: map<Bytes, nat>)
    requires LabelsFitIn(words) && place == Placement(words, |words|) && i < |words|
    requires Remembers(words, place, i, seen) && WordKey(words[i]) !in seen && Counts(words, i, counters)
    ensures place[i] == IndexedPlaceholder(words[i].0, Counted(counters, words[i].0))
    ensures forall j | 0 <= j < i :: place[j] != place[i]
    ensures Counts(words, i + 1, counters[words[i].0 := Counted(counters, words[i].0) + 1])
  {
    assert forall j | 0 <= j < i :: words[j] != words[i];
    CountsNext(words, i, counters, true);
    PlacementAt(words, |words|, i);
    forall j | 0 <= j < i ensures place[j] != place[i] {
      PlacementAt(words, |words|, j);
      AllocatedInjective(words, i, j);
    }
  }

  lemma RemembersNext(words: Words, place: seq<Bytes>, i: nat, seen: map<Bytes, Bytes>)
    requires |place| == |words| && i < |words| && Remembers(words, place, i, seen)
    requires WordKey(words[i]) in seen ==> seen[WordKey(words[i])] == place[i]
    ensures Remembers(words, place, i + 1, seen[WordKey(words[i]) := place[i]])
  {
    var seen' := seen[WordKey(words[i]) := place[i]];
    forall key | key in seen' ensures exists j | 0 <= j < i + 1 :: key == WordKey(words[j]) {
      if key != WordKey(words[i]) {
        var j :| 0 <= j < i && key == WordKey(words[j]);
      }
    }
  }

  /** A word counts at its first appearance only. */
  lemma CountsNext(words: Words, i: nat, counters: map<Bytes, nat>, novel: bool)
    requires i < |words| && Counts(words, i, counters)
    requires novel <==> forall j | 0 <= j < i :: words[j] != words[i]
    ensures Counts(words, i + 1,
                   if novel then counters[words[i].0 := Counted(counters, words[i].0) + 1] else counters)
    ensures novel ==> Rank(words, words[i].0, First(words, i)) == Counted(counters, words[i].0)
  {
    assert First(words, i) == i <==> novel;
    var counters' := if novel then counters[words[i].0 := Counted(counters, words[i].0) + 1] else counters;
    forall tag ensures Rank(words, tag, i + 1) == Counted(counters', tag) {
      assert Rank(words, tag, i) == Counted(counters, tag);
    }
    assert Rank(words, words[i].0, i) == Counted(counters, words[i].0);
  }

  /** After i words the mapping holds their placeholders, each with its original, and nothing else. */
  ghost predicate Mapped(words: Words, place: seq<Bytes>, i: nat, m: Mapping)
    requires i <= |words| == |place|
  {
    && (forall j | 0 <= j < i :: place[j] in m && m[place[j]] == words[j].1)
    && (forall p | p in m :: exists j | 0 <= j < i :: p == place[j])
  }

  lemma MappedNext(words: Words, place: seq<Bytes>, i: nat, m: Mapping)
    requires i < |words| == |place| && Mapped(words, place, i, m)
    requires forall j | 0 <= j < i && place[j] == place[i] :: words[j] == words[i]
    ensures Mapped(words, place, i + 1, m[place[i] := words[i].1])
  {
    var m' := m[place[i] := words[i].1];
    forall p | p in m' ensures exists j | 0 <= j < i + 1 :: p == place[j] {
      if p != place[i] {
        var j :| 0 <= j < i && p == place[j];
      }
    }
  }

  /** The state of the allocation after i words. */
  ghost predicate Allocating(words: Words, place: seq<Bytes>, i: nat,
                             seen: map<Bytes, Bytes>, m: Mapping, counters: map<Bytes, nat>)
  {
    && LabelsFitIn(words) && place == Placement(words, |words|) && i <= |words|
    && Remembers(words, place, i, seen)
    && Mapped(words, place, i, m)
    && Counts(words, i, counters)
  }

  lemma AllocateSeen(words: Words, place: seq<Bytes>, i: nat,
                     seen: map<Bytes, Bytes>, m: Mapping, counters: map<Bytes, nat>)
    requires Allocating(words, place, i, seen, m, counters) && i < |words| && WordKey(words[i]) in seen
    ensures seen[WordKey(words[i])] == place[i]
    ensures Allocating(words, place, i + 1, seen, m, counters)
  {
    var j := WordSeen(words, place, i, seen);
    CountsNext(words, i, counters, false);
    RemembersNext(words, place, i, seen);
    SameMap(seen, WordKey(words[i]), place[i]);
    MappedSeen(words, place, i, j, m);
  }

  lemma SameMap(m: map<Bytes, Bytes>, k: Bytes, v: Bytes)
    requires k in m && m[k] == v
    ensures m[k := v] == m
  {
  }

  lemma MappedSeen(words: Words, place: seq<Bytes>, i: nat, j: nat, m: Mapping)
    requires i < |words| == |place| && Mapped(words, place, i, m)
    requires j < i && place[j] == place[i] && words[j] == words[i]
    ensures Mapped(words, place, i + 1, m)
  {
    forall p | p in m ensures exists x | 0 <= x < i + 1 :: p == place[x] {
      var x :| 0 <= x < i && p == place[x];
    }
  }

  lemma AllocateFresh(words: Words, place: seq<Bytes>, i: nat,
                      seen: map<Bytes, Bytes>, m: Mapping, counters: map<Bytes, nat>)
    requires Allocating(words, place, i, seen, m, counters) && i < |words| && WordKey(words[i]) !in seen
    ensures IndexedPlaceholder(words[i].0, Counted(counters, words[i].0)) == place[i]
    ensures Allocating(words, place, i + 1, seen[WordKey(words[i]) := place[i]], m[place[i] := words[i].1],
                       counters[words[i].0 := Counted(counters, words[i].0) + 1])
  {
    WordFresh(words, place, i, seen, counters);
    RemembersNext(words, place, i, seen);
    MappedNext(words, place, i, m);
  }

  /** The entities carry the placeholders of the words they stand for. */
  ghost predicate Carry(ents: seq<Entity>, place: seq<Bytes>) {
    |ents| <= |place| && forall j | 0 <= j < |ents| :: ents[j].placeholder == place[j]
  }

  lemma CarryNext(ents: seq<Entity>, place: seq<Bytes>, e: Entity)
    requires Carry(ents, place) && |ents| < |place| && e.placeholder == place[|ents|]
    ensures Carry(ents + [e], place)
  {
  }

  lemma AllocationBacks(words: Words, place: seq<Bytes>, ents: seq<Entity>, m: Mapping)
    requires words == WordsOf(ents) && place == Placement(words, |words|) && Mapped(words, place, |words|, m)
    requires Carry(ents, place)
    ensures forall i | 0 <= i < |ents| :: ents[i].placeholder == Allocated(words, i)
    ensures MapsBack(m, ents)
  {
    forall i | 0 <= i < |ents| ensures ents[i].placeholder == Allocated(words, i) {
      PlacementAt(words, |words|, i);
    }
    forall p | p in m ensures exists i | 0 <= i < |ents| :: ents[i].placeholder == p {
      var i :| 0 <= i < |words| && p == place[i];
      assert ents[i].placeholder == p;
    }
    forall i | 0 <= i < |ents|
      ensures ents[i].placeholder in m && m[ents[i].placeholder] == ents[i].text
    {
      assert place[i] in m && words[i].1 == ents[i].text;
    }
  }

  lemma Finished(text: Bytes, kept: seq<Span>, ents: seq<Entity>, prev: int, b: Bytes, place: seq<Bytes>, m: Mapping)
    requires InOrder(kept, text) && Building(text, kept, |kept|, ents, prev, b)
    requires var words := KeptWords(text, kept);
             place == Placement(words, |words|) && Mapped(words, place, |words|, m)
    requires Carry(ents, place)
    ensures Reversible(text, kept, ReversibleResult(Result(b + text[prev..], |ents| > 0, |ents|, ents), m))
  {
    Built(text, kept, ents, prev, b);
    SameWords(text, kept, ents);
    AllocationBacks(WordsOf(ents), place, ents, m);
    IsReversible(text, kept, ents, m);
  }

  lemma SameWords(text: Bytes, kept: seq<Span>, ents: seq<Entity>)
    requires InOrder(kept, text) && Describe(ents, kept, text)
    ensures WordsOf(ents) == KeptWords(text, kept)
  {
  }

  lemma IsReversible(text: Bytes, kept: seq<Span>, ents: seq<Entity>, m: Mapping)
    requires Describe(ents, kept, text) && Placed(text, ents, 0) && MapsBack(m, ents)
    requires forall i | 0 <= i < |ents| :: ents[i].placeholder == Allocated(WordsOf(ents), i)
    ensures Reversible(text, kept, ReversibleResult(Result(Rebuilt(text, ents, 0), |ents| > 0, |ents|, ents), m))
  {
  }

  method RedactReversible(text: Bytes, spans: seq<Span>) returns (res: ReversibleResult)
    requires Detected(text, spans) && forall s | s in spans :: LabelFits(s.tag)
    ensures Reversible(text, Merged(spans), res)
  {
    var merged := MergeSpans(spans);
    KeptInOrder(text, spans, merged, 0);
    KeptLabelsFit(text, spans, merged);
    res := ReplaceKept(text, merged);
  }

  /** The first half of the loop body of RedactReversible: find or make the placeholder of a span. */
  method Allocate(ghost words: Words, ghost place: seq<Bytes>, ghost i: nat, tag: Bytes, original: Bytes,
                  seen: map<Bytes, Bytes>, mapping: Mapping, counters: map<Bytes, nat>)
    returns (placeholder: Bytes, seen': map<Bytes, Bytes>, mapping': Mapping, counters': map<Bytes, nat>)
    requires i < |words| && words[i] == (tag, original)
    requires Allocating(words, place, i, seen, mapping, counters)
    ensures Allocating(words, place, i + 1, seen', mapping', counters')
    ensures placeholder == place[i]
  {
    var key := SeenKey(tag, original);
    assert key == WordKey(words[i]);
    if key in seen {
      AllocateSeen(words, place, i, seen, mapping, counters);
      return seen[key], seen, mapping, counters;
    } else {
      AllocateFresh(words, place, i, seen, mapping, counters);
      var n := Counted(counters, tag);
      placeholder := IndexedPlaceholder(tag, n);
      counters' := counters[tag := n + 1];
      seen' := seen[key := placeholder];
      mapping' := mapping[placeholder := original];
    }
  }

  /** The loop of RedactReversible over the kept spans. */
  /** The first i kept spans have been replaced. */
  ghost predicate Replacing(text: Bytes, kept: seq<Span>, words: Words, place: seq<Bytes>, i: nat, ents: seq<Entity>,
                            prev: int, b: Bytes, seen: map<Bytes, Bytes>, m: Mapping, counters: map<Bytes, nat>)
  {
    && i <= |kept| && Building(text, kept, i, ents, prev, b) && Carry(ents, place)
    && Allocating(words, place, i, seen, m, counters)
  }

  lemma ReplaceNext(text: Bytes, kept: seq<Span>, place: seq<Bytes>, i: nat, ents: seq<Entity>, prev: int, b: Bytes,
    e: Entity)
    requires i < |kept| == |place| && InOrder(kept, text) && Building(text, kept, i, ents, prev, b)
    requires Carry(ents, place) && e.placeholder == place[i]
    requires e.kind == kept[i].tag && e.start == kept[i].start && e.end == kept[i].end
    requires e.text == text[kept[i].start..kept[i].end]
    ensures prev <= kept[i].start
    ensures Building(text, kept, i + 1, ents + [e], kept[i].end, b + text[prev..kept[i].start] + e.placeholder)
    ensures Carry(ents + [e], place)
  {
    BuildNext(text, kept, i, ents, prev, b, e);
    CarryNext(ents, place, e);
  }

  lemma KeptWord(text: Bytes, kept: seq<Span>, i: nat)
    requires InOrder(kept, text) && i < |kept|
    ensures |KeptWords(text, kept)| == |kept|
    ensures 0 <= kept[i].start <= kept[i].end <= |text|
    ensures KeptWords(text, kept)[i] == (kept[i].tag, text[kept[i].start..kept[i].end])
  {
  }

  /** One kept span is replaced, by a placeholder that is remembered or new. */
  method ReplaceOne(text: Bytes, kept: seq<Span>, ghost words: Words, ghost place: seq<Bytes>, i: nat,
    ents: seq<Entity>, prev: int, b: Bytes, seen: map<Bytes, Bytes>, mapping: Mapping, counters: map<Bytes, nat>)
    returns (e: Entity, b': Bytes, seen': map<Bytes, Bytes>, mapping': Mapping, counters': map<Bytes, nat>)
    requires InOrder(kept, text) && words == KeptWords(text, kept) && |place| == |words| && i < |kept|
    requires Replacing(text, kept, words, place, i, ents, prev, b, seen, mapping, counters)
    ensures Replacing(text, kept, words, place, i + 1, ents + [e], kept[i].end, b', seen', mapping', counters')
  {
    KeptWord(text, kept, i);
    var s := kept[i];
    var original := text[s.start..s.end];
    var placeholder;
    placeholder, seen', mapping', counters' :=
      Allocate(words, place, i, s.tag, original, seen, mapping, counters);
    e := Entity(s.tag, s.start, s.end, original, placeholder);
    ReplaceNext(text, kept, place, i, ents, prev, b, e);
    b' := b + text[prev..s.start];
    b' := b' + placeholder;
  }

  method ReplaceKept(text: Bytes, merged: seq<Span>) returns (res: ReversibleResult)
    requires InOrder(merged, text) && LabelsFitIn(KeptWords(text, merged))
    ensures Reversible(text, merged, res)
  {
    ghost var words := KeptWords(text, merged);
    ghost var place := Placement(words, |words|);
    var seen: map<Bytes, Bytes> := map[];
    var mapping: Mapping := map[];
    var counters: map<Bytes, nat> := map[];
    var b: Bytes := [];
    var prev := 0;
    var entities: seq<Entity> := [];
    for i := 0 to |merged|
      invariant Replacing(text, merged, words, place, i, entities, prev, b, seen, mapping, counters)
    {
      var e;
      e, b, seen, mapping, counters :=
        ReplaceOne(text, merged, words, place, i, entities, prev, b, seen, mapping, counters);
      prev := merged[i].end;
      entities := entities + [e];
    }
    Finished(text, merged, entities, prev, b, place, mapping);
    b := b + text[prev..];
    res := ReversibleResult(Result(b, |merged| > 0, |merged|, entities), mapping);
  }

  lemma KeptLabelsFit(text: Bytes, spans: seq<Span>, kept: seq<Span>)
    requires InOrder(kept, text) && LeftmostLongest(kept, spans, 0) && forall s | s in spans :: LabelFits(s.tag)
    ensures LabelsFitIn(KeptWords(text, kept))
  {
    var words := KeptWords(text, kept);
    KeptDetected(spans, kept, 0);
    forall i | 0 <= i < |words| ensures LabelFits(words[i].0) {
      assert kept[i] in spans;
    }
  }

  lemma {:induction false} KeptDetected(spans: seq<Span>, kept: seq<Span>, free: int)
    requires LeftmostLongest(kept, spans, free)
    ensures forall k | k in kept :: k in spans
    decreases |kept|
  {
    if kept != [] {
      KeptDetected(spans, kept[1..], kept[0].end);
      assert kept == [kept[0]] + kept[1..];
    }
  }

  /** The words of the kept spans. */
  ghost function KeptWords(text: Bytes, kept: seq<Span>): (words: Words)
    requires InOrder(kept, text)
  {
    seq(|kept|, i requires 0 <= i < |kept| => (kept[i].tag, text[kept[i].start..kept[i].end]))
  }
}
