/** filterReversibleResult: undoing the redaction where it touches a protected range. */
module Protection {
  import opened ByteText
  import opened Restore
  import opened ByteRanges
  import opened Redaction
  import opened RoundTrip

  /** What filterReversibleResult expects of the redaction it is given. */
  ghost predicate Redacts(body: Bytes, res: ReversibleResult) {
    var ents := res.result.entities;
    && Placed(body, ents, 0)
    && res.result.redacted == Rebuilt(body, ents, 0)
    && res.result.count == |ents| && (res.result.hit <==> |ents| > 0)
    && MapsBack(res.mapping, ents)
    && forall e | e in ents :: e.placeholder != [] && 0 <= e.start <= e.end <= |body| && e.text == body[e.start..e.end]
  }

  /** The entities that touch no protected range. */
  ghost function Surviving(ents: seq<Entity>, protected: seq<ByteRange>): seq<Entity> {
    if ents == [] then []
    else (if TouchesAny(ents[0].start, ents[0].end, protected) then [] else [ents[0]]) + Surviving(ents[1..], protected)
  }

  lemma {:induction false} SurvivingPlaced(body: Bytes, ents: seq<Entity>, protected: seq<ByteRange>, prev: int)
    requires Placed(body, ents, prev)
    ensures Placed(body, Surviving(ents, protected), prev)
    ensures forall e | e in Surviving(ents, protected) :: e in ents && !TouchesAny(e.start, e.end, protected)
    ensures |Surviving(ents, protected)| <= |ents|
    ensures |Surviving(ents, protected)| == |ents| ==> Surviving(ents, protected) == ents
    decreases |ents|
  {
    SurvivingAreSome(ents, protected);
    if ents != [] {
      var rest := Surviving(ents[1..], protected);
      SurvivingPlaced(body, ents[1..], protected, ents[0].end);
      if TouchesAny(ents[0].start, ents[0].end, protected) {
        assert Surviving(ents, protected) == rest;
        SurvivingAreSome(ents[1..], protected);
        assert Placed(body, rest, prev);
      } else {
        assert ([ents[0]] + rest)[1..] == rest;
      }
    }
  }

  lemma {:induction false} SurvivingAreSome(ents: seq<Entity>, protected: seq<ByteRange>)
    ensures var kept := Surviving(ents, protected);
            && (forall e | e in kept :: e in ents && !TouchesAny(e.start, e.end, protected))
            && |kept| <= |ents| && (|kept| == |ents| ==> kept == ents)
  {
    if ents != [] {
      SurvivingAreSome(ents[1..], protected);
      assert ents == [ents[0]] + ents[1..];
    }
  }

  /** Exactly the entities that share a byte with no protected range survive. */
  lemma {:induction false} SurvivingExactly(ents: seq<Entity>, protected: seq<ByteRange>)
    ensures forall e :: e in Surviving(ents, protected) <==>
              e in ents && !exists r :: r in protected && e.start < r.end && e.end > r.start
  {
    if ents != [] {
      SurvivingExactly(ents[1..], protected);
      WithFirst(ents);
      var e := ents[0];
      assert TouchesAny(e.start, e.end, protected) <==>
        exists r :: r in protected && e.start < r.end && e.end > r.start;
    }
  }

  lemma {:induction false} StartsBehind(body: Bytes, ents: seq<Entity>, prev: int, e: Entity)
    requires Placed(body, ents, prev) && e in ents
    ensures 0 <= prev <= e.start < e.end <= |body|
    decreases |ents|
  {
    if e != ents[0] {
      assert e in ents[1..];
      StartsBehind(body, ents[1..], ents[0].end, e);
    }
  }

  /** The mapping of the surviving entities. */
  ghost predicate MapsOnly(m: Mapping, m0: Mapping, ents: seq<Entity>) {
    && (forall p | p in m :: p in m0 && m[p] == m0[p])
    && (forall p :: p in m <==> exists i | 0 <= i < |ents| :: ents[i].placeholder == p)
  }

  method FilterReversibleResult(body: Bytes, res: ReversibleResult, protected: seq<ByteRange>)
    returns (out: ReversibleResult)
    requires Redacts(body, res)
    ensures out.result.entities == Surviving(res.result.entities, protected)
    ensures forall e :: e in out.result.entities <==>
              e in res.result.entities && !exists r :: r in protected && e.start < r.end && e.end > r.start
    ensures Redacts(body, out)
    ensures MapsOnly(out.mapping, res.mapping, out.result.entities)
  {
    ghost var all := res.result.entities;
    SurvivingPlaced(body, all, protected, 0);
    SurvivingExactly(all, protected);
    if |res.result.entities| == 0 {
      return res;
    }
    var entities := Survivors(res.result.entities, protected);
    if |entities| == |res.result.entities| {
      return res;
    }
    var mapping := SurvivingMapping(entities);
    var redacted := RebuildText(body, entities);
    ReducedMapping(res.mapping, all, mapping, entities);
    out := ReversibleResult(Result(redacted, |entities| > 0, |entities|, entities), mapping);
  }

  method RebuildText(body: Bytes, entities: seq<Entity>) returns (b: Bytes)
    requires Placed(body, entities, 0)
    ensures b == Rebuilt(body, entities, 0)
  {
    b := [];
    var prev := 0;
    assert entities[0..] == entities && entities[..0] == [];
    for i := 0 to |entities|
      invariant Placed(body, entities[..i], 0) && prev == LastEnd(entities[..i], 0)
      invariant Placed(body, entities[i..], prev)
      invariant b == RebuiltTo(body, entities[..i], 0)
    {
      LastEndInText(body, entities[i..], prev);
      PlacedAppend(body, entities[..i], 0, entities[i]);
      assert entities[..i + 1] == entities[..i] + [entities[i]];
      assert entities[i..][1..] == entities[i + 1..];
      b := b + body[prev..entities[i].start];
      b := b + entities[i].placeholder;
      prev := entities[i].end;
    }
    assert entities[..|entities|] == entities;
    LastEndInText(body, entities, 0);
    b := b + body[prev..];
  }

  method Survivors(ents: seq<Entity>, protected: seq<ByteRange>) returns (out: seq<Entity>)
    ensures out == Surviving(ents, protected)
  {
    out := [];
    assert ents[0..] == ents;
    for i := 0 to |ents|
      invariant out + Surviving(ents[i..], protected) == Surviving(ents, protected)
    {
      ghost var before := out;
      var overlaps := OverlapsProtectedRange(ents[i].start, ents[i].end, protected);
      SurvivingStep(ents, i, protected, before);
      if overlaps {
        continue;
      }
      out := out + [ents[i]];
    }
  }

  lemma SurvivingStep(ents: seq<Entity>, i: nat, protected: seq<ByteRange>, out: seq<Entity>)
    requires i < |ents|
    ensures out + Surviving(ents[i..], protected)
         == (if TouchesAny(ents[i].start, ents[i].end, protected) then out else out + [ents[i]])
            + Surviving(ents[i + 1..], protected)
  {
    assert ents[i..][1..] == ents[i + 1..];
  }

  method SurvivingMapping(ents: seq<Entity>) returns (m: Mapping)
    requires forall e | e in ents :: e.placeholder != []
    ensures forall p :: p in m <==> exists i | 0 <= i < |ents| :: ents[i].placeholder == p
    ensures forall p | p in m :: exists i | 0 <= i < |ents| :: ents[i].placeholder == p && m[p] == ents[i].text
  {
    m := map[];
    for i := 0 to |ents|
      invariant forall j | 0 <= j < i :: ents[j].placeholder in m
      invariant forall p | p in m :: exists j | 0 <= j < i :: ents[j].placeholder == p && m[p] == ents[j].text
    {
      assert ents[i] in ents;
      ghost var before := m;
      if ents[i].placeholder != [] {
        m := m[ents[i].placeholder := ents[i].text];
      }
      forall p | p in m ensures exists j | 0 <= j < i + 1 :: ents[j].placeholder == p && m[p] == ents[j].text {
        if p != ents[i].placeholder {
          var j :| 0 <= j < i && ents[j].placeholder == p && before[p] == ents[j].text;
        }
      }
    }
  }

  lemma ReducedMapping(m0: Mapping, all: seq<Entity>, m: Mapping, ents: seq<Entity>)
    requires MapsBack(m0, all) && forall e | e in ents :: e in all
    requires forall p :: p in m <==> exists i | 0 <= i < |ents| :: ents[i].placeholder == p
    requires forall p | p in m :: exists i | 0 <= i < |ents| :: ents[i].placeholder == p && m[p] == ents[i].text
    ensures MapsOnly(m, m0, ents) && MapsBack(m, ents)
  {
    forall i | 0 <= i < |ents|
      ensures ents[i].placeholder in m0 && m0[ents[i].placeholder] == ents[i].text
    {
      assert ents[i] in all;
      var x :| 0 <= x < |all| && all[x] == ents[i];
    }
  }

  // ---------- what protection keeps ----------

  /** How much longer or shorter the text gets by the entities that end at or before s. */
  ghost function MovedBy(ents: seq<Entity>, s: int): int {
    if ents == [] || ents[0].end > s then 0
    else |ents[0].placeholder| - (ents[0].end - ents[0].start) + MovedBy(ents[1..], s)
  }

  /** No entity touches the bytes from s to e. */
  ghost predicate Untouched(ents: seq<Entity>, s: int, e: int) {
    forall x | x in ents :: x.end <= s || e <= x.start
  }

  /** The bytes body[s..e] stand in text at offset at. */
  ghost predicate StandsAt(text: Bytes, at: int, body: Bytes, s: int, e: int) {
    && 0 <= s <= e <= |body| && 0 <= at && at + (e - s) <= |text|
    && text[at..at + (e - s)] == body[s..e]
  }

  /** A range that no entity touches stands in the rebuilt text byte for byte, moved by MovedBy. */
  lemma {:induction false} RangeKept(body: Bytes, ents: seq<Entity>, prev: int, s: int, e: int, at: int)
    requires Placed(body, ents, prev) && Untouched(ents, s, e)
    requires prev <= s < e <= |body| && at == s - prev + MovedBy(ents, s)
    ensures StandsAt(Rebuilt(body, ents, prev), at, body, s, e)
    decreases |ents|
  {
    if ents == [] {
      StandsInFirst(body, prev, |body|, [], s, e, at);
      assert Rebuilt(body, ents, prev) == body[prev..|body|] + [];
    } else {
      RebuiltStep(body, ents, prev);
      var x := ents[0];
      assert x in ents;
      var gap, p, rest := body[prev..x.start], x.placeholder, Rebuilt(body, ents[1..], x.end);
      if x.end <= s {
        var at' := s - x.end + MovedBy(ents[1..], s);
        RangeKept(body, ents[1..], x.end, s, e, at');
        StandsInThird(gap, p, rest, at', body, s, e, at);
      } else {
        StandsInFirst(body, prev, x.start, p + rest, s, e, at);
      }
    }
  }

  lemma StandsInThird(a: Bytes, b: Bytes, c: Bytes, at: int, body: Bytes, s: int, e: int, at': int)
    requires StandsAt(c, at, body, s, e) && at' == |a| + |b| + at
    ensures StandsAt(a + (b + c), at', body, s, e)
  {
    assert (a + (b + c))[at'..at' + (e - s)] == c[at..at + (e - s)];
  }

  lemma StandsInFirst(body: Bytes, prev: int, end: int, rest: Bytes, s: int, e: int, at: int)
    requires 0 <= prev <= s <= e <= end <= |body| && at == s - prev
    ensures StandsAt(body[prev..end] + rest, at, body, s, e)
  {
    var n := e - s;
    var t, u := (body[prev..end] + rest)[at..at + n], body[s..e];
    assert |t| == |u| && forall i | 0 <= i < n :: t[i] == u[i];
  }

  /** Every protected range survives byte for byte. */
  lemma ProtectedKept(body: Bytes, ents: seq<Entity>, protected: seq<ByteRange>, r: ByteRange)
    requires Placed(body, ents, 0) && r in protected && 0 <= r.start < r.end <= |body|
    ensures var kept := Surviving(ents, protected);
            && Placed(body, kept, 0)
            && StandsAt(Rebuilt(body, kept, 0), r.start + MovedBy(kept, r.start), body, r.start, r.end)
  {
    SurvivingPlaced(body, ents, protected, 0);
    SurvivorsUntouched(ents, protected, r);
    KeptAt(body, Surviving(ents, protected), r.start, r.end);
  }

  lemma SurvivorsUntouched(ents: seq<Entity>, protected: seq<ByteRange>, r: ByteRange)
    requires r in protected
    ensures Untouched(Surviving(ents, protected), r.start, r.end)
  {
    SurvivingExactly(ents, protected);
  }

  lemma KeptAt(body: Bytes, kept: seq<Entity>, s: int, e: int)
    requires Placed(body, kept, 0) && Untouched(kept, s, e) && 0 <= s < e <= |body|
    ensures StandsAt(Rebuilt(body, kept, 0), s + MovedBy(kept, s), body, s, e)
  {
    RangeKept(body, kept, 0, s, e, s + MovedBy(kept, s));
  }

  /** Restoring the filtered redaction with the reduced mapping gives the body back. */
  lemma ProtectedRestores(body: Bytes, res: ReversibleResult, out: ReversibleResult)
    requires Undoes(res.mapping, body, res.result.entities)
    requires Redacts(body, out) && MapsOnly(out.mapping, res.mapping, out.result.entities)
    ensures GapsClean(out.mapping, body, out.result.entities, 0)
       <==> Hits(out.mapping, out.result.redacted) == PlaceholdersOf(out.result.entities)
    ensures Clean(out.mapping, body) ==> GapsClean(out.mapping, body, out.result.entities, 0)
    ensures GapsClean(out.mapping, body, out.result.entities, 0) ==> Restored(out.mapping, out.result.redacted) == body
  {
    assert Undoes(out.mapping, body, out.result.entities);
    RoundTripExactly(out.mapping, body, out.result.entities);
    if Clean(out.mapping, body) { CleanTextHasCleanGaps(out.mapping, body, out.result.entities, 0); }
  }
}
