/** Gateway.redactBody: redacting a request body without touching its protocol identifiers. */
module RequestBody {
  import opened ByteText
  import opened Restore
  import opened JsonText
  import opened ByteRanges
  import opened ProtectedJson
  import opened Placeholders
  import opened Spans
  import opened Redaction
  import opened RoundTrip
  import opened Protection

  /** The ranges of all fields, field by field. */
  function AllRanges(body: Bytes, fields: seq<Bytes>, protects: (Bytes, Bytes) -> bool): seq<ByteRange> {
    if fields == [] then []
    else
      (if fields[0] == [] then [] else Search(body, fields[0], protects, 0))
      + AllRanges(body, fields[1..], protects)
  }

  /** Some string value of the tree that is to be protected shares a byte with start..end. */
  ghost predicate TreeProtects(doc: Element, fields: seq<Bytes>, protects: (Bytes, Bytes) -> bool,
                               start: int, end: int)
  {
    exists f, r :: f in fields && r in InElement(doc, f, protects, 0) && start < r.end && end > r.start
  }

  ghost predicate PlainFields(fields: seq<Bytes>) {
    forall f | f in fields :: PlainField(f)
  }

  /** valid is the verdict of json.Valid on the body. */
  method ProtectedJSONValueRangesForFields(body: Bytes, fields: seq<Bytes>, protects: (Bytes, Bytes) -> bool,
    valid: bool)
    returns (ranges: seq<ByteRange>)
    ensures body == [] || !valid ==> ranges == []
    ensures body != [] && valid ==>
              ranges == var all := AllRanges(body, fields, protects); if |all| <= 1 then all else Merge(all)
    ensures body != [] && valid && PlainFields(fields) ==>
              forall doc, start, end | Parses(body, doc) && start < end ::
                TouchesAny(start, end, ranges) <==> TreeProtects(doc, fields, protects, start, end)
  {
    ranges := [];
    if PlainFields(fields) { RangesAreTree(body, fields, protects); }
    if |body| == 0 || |fields| == 0 || !valid {
      return;
    }
    assert fields[0..] == fields;
    for i := 0 to |fields|
      invariant ranges + AllRanges(body, fields[i..], protects) == AllRanges(body, fields, protects)
    {
      AllRangesStep(body, fields, protects, i, ranges);
      if fields[i] == [] {
        continue;
      }
      var found := ProtectedJSONValueRangesForField(body, fields[i], protects);
      ranges := ranges + found;
    }
    assert ranges == AllRanges(body, fields, protects) by {
      assert fields[|fields|..] == [] && ranges + [] == ranges;
    }
    if |ranges| <= 1 {
      return;
    }
    var a := new ByteRange[|ranges|](i requires 0 <= i < |ranges| => ranges[i]);
    assert a[..] == ranges;
    var n := MergeByteRanges(a);
    ranges := a[..n];
    assert ranges == Merge(AllRanges(body, fields, protects));
  }

  lemma AllRangesStep(body: Bytes, fields: seq<Bytes>, protects: (Bytes, Bytes) -> bool, i: nat, ranges: seq<ByteRange>)
    requires i < |fields|
    ensures ranges + AllRanges(body, fields[i..], protects)
         == (if fields[i] == [] then ranges else ranges + Search(body, fields[i], protects, 0))
            + AllRanges(body, fields[i + 1..], protects)
  {
    assert fields[i..][1..] == fields[i + 1..];
  }

  method RedactBody(body: Bytes, spans: seq<Span>, fields: seq<Bytes>, protects: (Bytes, Bytes) -> bool, valid: bool)
    returns (res: ReversibleResult, protectedRanges: nat, ghost full: ReversibleResult)
    requires Detected(body, spans) && forall s | s in spans :: LabelFits(s.tag)
    ensures Reversible(body, Merged(spans), full)
    ensures Redacts(body, full) && Redacts(body, res)
    ensures MapsOnly(res.mapping, full.mapping, res.result.entities)
    ensures body == [] || !valid ==> res == full && protectedRanges == 0
    ensures body != [] && valid ==>
              res.result.entities == Surviving(full.result.entities, AllRanges(body, fields, protects))
    ensures body != [] && valid && PlainFields(fields) ==>
              forall doc, e | Parses(body, doc) ::
                e in res.result.entities <==>
                e in full.result.entities && !TreeProtects(doc, fields, protects, e.start, e.end)
  {
    var found := RedactReversible(body, spans);
    full := found;
    if PlainFields(fields) { EntitiesSurviveTree(body, fields, protects, full.result.entities); }
    MergedLabelsFit(spans);
    ReversibleRedacts(body, Merged(spans), full);
    var protected := ProtectedJSONValueRangesForFields(body, fields, protects, valid);
    ghost var all := AllRanges(body, fields, protects);
    if body != [] && valid {
      EntitiesNonEmpty(body, full.result.entities, 0);
      SameSurvivors(full.result.entities, protected, all);
    }
    if |protected| == 0 {
      SurvivingPlaced(body, full.result.entities, protected, 0);
      NoneProtected(full.result.entities);
      assert MapsOnly(full.mapping, full.mapping, full.result.entities);
      return found, 0, full;
    }
    res := FilterReversibleResult(body, found, protected);
    protectedRanges := |protected|;
  }

  lemma MergedLabelsFit(spans: seq<Span>)
    requires forall s | s in spans :: LabelFits(s.tag)
    ensures forall k | k in Merged(spans) :: LabelFits(k.tag)
  {
    MergedIsLeftmostLongest(spans);
    KeptDetected(spans, Merged(spans), 0);
  }

  lemma ReversibleRedacts(body: Bytes, kept: seq<Span>, res: ReversibleResult)
    requires Reversible(body, kept, res) && forall k | k in kept :: LabelFits(k.tag)
    ensures Redacts(body, res)
  {
    ReversibleUndoes(body, kept, res);
    var ents := res.result.entities;
    forall e | e in ents ensures e.placeholder != [] { PlaceholderNotEmpty(res.mapping, e.placeholder); }
    assert forall e | e in ents :: 0 <= e.start <= e.end <= |body| && e.text == body[e.start..e.end];
  }

  lemma PlaceholderNotEmpty(m: Mapping, p: Bytes)
    requires ShapedKeys(m) && p in m
    ensures p != []
  {
  }

  lemma {:induction false} NoneProtected(ents: seq<Entity>)
    ensures Surviving(ents, []) == ents
    decreases |ents|
  {
    if ents != [] {
      NoneProtected(ents[1..]);
      assert !TouchesAny(ents[0].start, ents[0].end, []);
      assert ents == [ents[0]] + ents[1..];
    }
  }

  lemma EntitiesNonEmpty(body: Bytes, ents: seq<Entity>, prev: int)
    requires Placed(body, ents, prev)
    ensures forall e | e in ents :: e.start < e.end
  {
    forall e | e in ents ensures e.start < e.end { StartsBehind(body, ents, prev, e); }
  }

  /** Merging the ranges first makes no difference to which entities survive. */
  lemma {:induction false} SameSurvivors(ents: seq<Entity>, protected: seq<ByteRange>, all: seq<ByteRange>)
    requires protected == if |all| <= 1 then all else Merge(all)
    requires forall e | e in ents :: e.start < e.end
    ensures Surviving(ents, protected) == Surviving(ents, all)
    decreases |ents|
  {
    if ents != [] {
      assert ents[0] in ents && forall e | e in ents[1..] :: e in ents;
      MergeKeepsAnswers(all, ents[0].start, ents[0].end);
      SameSurvivors(ents[1..], protected, all);
    }
  }

  // ---------- the identifiers survive ----------

  lemma {:induction false} InAllRanges(body: Bytes, doc: Element, fields: seq<Bytes>,
    protects: (Bytes, Bytes) -> bool, field: Bytes)
    requires Parses(body, doc) && field in fields && forall f | f in fields :: PlainField(f)
    ensures forall r | r in InElement(doc, field, protects, 0) :: r in AllRanges(body, fields, protects)
    decreases |fields|
  {
    assert fields[0] in fields && forall f | f in fields[1..] :: f in fields;
    if field == fields[0] {
      SearchIsExact(body, doc, field, protects);
    } else {
      assert field in fields[1..];
      InAllRanges(body, doc, fields[1..], protects, field);
    }
  }

  /** A range is found for some field if and only if it is a value of the tree to protect for a listed field. */
  lemma {:induction false} RangesExactly(body: Bytes, doc: Element, fields: seq<Bytes>,
    protects: (Bytes, Bytes) -> bool)
    requires Parses(body, doc) && PlainFields(fields)
    ensures forall r :: r in AllRanges(body, fields, protects) <==>
              exists f :: f in fields && r in InElement(doc, f, protects, 0)
    decreases |fields|
  {
    if fields != [] {
      WithFirst(fields);
      assert forall f | f in fields[1..] :: f in fields;
      RangesExactly(body, doc, fields[1..], protects);
      SearchIsExact(body, doc, fields[0], protects);
    }
  }

  lemma TreeTouches(body: Bytes, doc: Element, fields: seq<Bytes>, protects: (Bytes, Bytes) -> bool,
    start: int, end: int)
    requires Parses(body, doc) && PlainFields(fields)
    ensures TouchesAny(start, end, AllRanges(body, fields, protects))
       <==> TreeProtects(doc, fields, protects, start, end)
  {
    RangesExactly(body, doc, fields, protects);
    if TouchesAny(start, end, AllRanges(body, fields, protects)) {
      var r :| r in AllRanges(body, fields, protects) && Touches(start, end, r);
      var f :| f in fields && r in InElement(doc, f, protects, 0);
    }
    if TreeProtects(doc, fields, protects, start, end) {
      var f, r :| f in fields && r in InElement(doc, f, protects, 0) && start < r.end && end > r.start;
      assert Touches(start, end, r) && r in AllRanges(body, fields, protects);
    }
  }

  lemma RangesAreTree(body: Bytes, fields: seq<Bytes>, protects: (Bytes, Bytes) -> bool)
    requires PlainFields(fields)
    ensures forall doc, start, end | Parses(body, doc) && start < end ::
              var all := AllRanges(body, fields, protects);
              var ranges := if |all| <= 1 then all else Merge(all);
              TouchesAny(start, end, ranges) <==> TreeProtects(doc, fields, protects, start, end)
  {
    var all := AllRanges(body, fields, protects);
    forall doc, start, end | Parses(body, doc) && start < end
      ensures TouchesAny(start, end, if |all| <= 1 then all else Merge(all))
         <==> TreeProtects(doc, fields, protects, start, end)
    {
      MergeKeepsAnswers(all, start, end);
      TreeTouches(body, doc, fields, protects, start, end);
    }
  }

  /** Of any entities, those survive that share a byte with no value of the tree to protect. */
  lemma EntitiesSurviveTree(body: Bytes, fields: seq<Bytes>, protects: (Bytes, Bytes) -> bool, ents: seq<Entity>)
    requires PlainFields(fields)
    ensures forall doc, e | Parses(body, doc) ::
              e in Surviving(ents, AllRanges(body, fields, protects)) <==>
              e in ents && !TreeProtects(doc, fields, protects, e.start, e.end)
  {
    var all := AllRanges(body, fields, protects);
    SurvivingExactly(ents, all);
    forall doc, e: Entity | Parses(body, doc)
      ensures e in Surviving(ents, all) <==> e in ents && !TreeProtects(doc, fields, protects, e.start, e.end)
    {
      TreeTouches(body, doc, fields, protects, e.start, e.end);
      assert TouchesAny(e.start, e.end, all) <==> exists r :: r in all && e.start < r.end && e.end > r.start;
    }
  }

  /**
   * In a JSON request every identifier to be protected reaches the upstream byte for byte, at its
   * place moved by the redactions before it, whatever the detectors reported.
   */
  lemma IdentifiersSurvive(body: Bytes, doc: Element, fields: seq<Bytes>, protects: (Bytes, Bytes) -> bool,
                           full: ReversibleResult, res: ReversibleResult, field: Bytes, r: ByteRange)
    requires Parses(body, doc) && field in fields && forall f | f in fields :: PlainField(f)
    requires Redacts(body, full) && Redacts(body, res)
    requires res.result.entities == Surviving(full.result.entities, AllRanges(body, fields, protects))
    requires r in InElement(doc, field, protects, 0)
    ensures 0 <= r.start < r.end <= |body|
    ensures StandsAt(res.result.redacted, r.start + MovedBy(res.result.entities, r.start), body, r.start, r.end)
  {
    assert PlainField(field);
    FoundInBody(body, doc, protects, field, r);
    InAllRanges(body, doc, fields, protects, field);
    RangeSurvives(body, AllRanges(body, fields, protects), full, res, r);
  }

  lemma RangeSurvives(body: Bytes, ranges: seq<ByteRange>, full: ReversibleResult, res: ReversibleResult, r: ByteRange)
    requires Redacts(body, full) && Redacts(body, res)
    requires res.result.entities == Surviving(full.result.entities, ranges)
    requires r in ranges && 0 <= r.start < r.end <= |body|
    ensures StandsAt(res.result.redacted, r.start + MovedBy(res.result.entities, r.start), body, r.start, r.end)
  {
    var kept := res.result.entities;
    SurvivorsUntouched(full.result.entities, ranges, r);
    KeptAt(body, kept, r.start, r.end);
  }

  lemma FoundInBody(body: Bytes, doc: Element, protects: (Bytes, Bytes) -> bool, field: Bytes, r: ByteRange)
    requires Parses(body, doc) && PlainField(field) && r in InElement(doc, field, protects, 0)
    ensures 0 <= r.start < r.end <= |body| && protects(field, body[r.start..r.end])
  {
    SearchIsExact(body, doc, field, protects);
    SearchSeparated(body, field, protects, 0);
  }
}
