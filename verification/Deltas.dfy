/** Which payloads are deltas, byte by byte. */
module Deltas {
  import opened ByteText
  import opened DecodedJson
  import opened EventStream
  import opened Sse

  /** typ ends in ".delta", or contains "_delta". */
  ghost predicate NamesDelta(typ: Bytes) {
    || (|typ| >= 6 && typ[|typ| - 6..] == [0x2E, 0x64, 0x65, 0x6C, 0x74, 0x61])
    || exists i :: UnderscoreDeltaAt(typ, i)
  }

  predicate UnderscoreDeltaAt(typ: Bytes, i: int) {
    && 0 <= i && i + 5 < |typ|
    && typ[i] == 0x5F && typ[i + 1] == 0x64 && typ[i + 2] == 0x65
    && typ[i + 3] == 0x6C && typ[i + 4] == 0x74 && typ[i + 5] == 0x61
  }

  /** The string under "type" or, if there is none or it is empty, the name of the event. */
  ghost predicate Typed(o: Object, eventName: Bytes, typ: Bytes) {
    var named := [0x74, 0x79, 0x70, 0x65];
    if named in o && o[named].Str? && o[named].text != [] then typ == o[named].text else typ == eventName
  }

  /** The payload is a delta with this text. */
  ghost predicate CarriesDelta(o: Object, eventName: Bytes, text: Bytes) {
    var delta := [0x64, 0x65, 0x6C, 0x74, 0x61];
    && delta in o && o[delta] == Str(text)
    && exists typ :: Typed(o, eventName, typ) && NamesDelta(typ)
  }

  lemma AtExactly(typ: Bytes, i: int)
    ensures OccursAt(typ, UNDERSCORE_DELTA, i) <==> UnderscoreDeltaAt(typ, i)
  {
    if 0 <= i && i + 5 < |typ| {
      assert typ[i..i + 6] == [typ[i], typ[i + 1], typ[i + 2], typ[i + 3], typ[i + 4], typ[i + 5]];
    }
  }

  lemma SuffixExactly(typ: Bytes)
    ensures OccursAt(typ, DOT_DELTA, |typ| - |DOT_DELTA|)
       <==> |typ| >= 6 && typ[|typ| - 6..] == [0x2E, 0x64, 0x65, 0x6C, 0x74, 0x61]
  {
    if |typ| >= 6 { assert typ[|typ| - 6..] == typ[|typ| - 6..|typ|]; }
  }

  lemma IsDeltaExactly(typ: Bytes)
    ensures IsDeltaEvent(typ) <==> NamesDelta(typ)
  {
    SuffixExactly(typ);
    forall i ensures OccursAt(typ, UNDERSCORE_DELTA, i) <==> UnderscoreDeltaAt(typ, i) {
      AtExactly(typ, i);
    }
    if i :| UnderscoreDeltaAt(typ, i) { assert 0 <= i <= |typ| && OccursAt(typ, UNDERSCORE_DELTA, i); }
  }

  lemma HasDeltaExactly(o: Object, eventName: Bytes)
    ensures HasDeltaText(o, eventName) <==> exists text :: CarriesDelta(o, eventName, text)
    ensures HasDeltaText(o, eventName) ==> CarriesDelta(o, eventName, o[DELTA].text)
  {
    var typ := TypeOf(o, eventName);
    IsDeltaExactly(typ);
    assert forall other :: Typed(o, eventName, other) <==> other == typ;
    if HasDeltaText(o, eventName) { assert CarriesDelta(o, eventName, o[DELTA].text); }
  }

  /** A data line is read as the text of a delta exactly when its payload carries it, and else as it is. */
  lemma ReadExactly(lib: Library, eventName: Bytes, value: Bytes)
    ensures var l := Classify(lib, eventName, value);
            && (l.Other? ==> l.value == value)
            && forall text :: (l.Delta? && l.text == text) <==>
                 && lib.trimSpace(value) != [0x5B, 0x44, 0x4F, 0x4E, 0x45, 0x5D]
                 && lib.decode(value).Decoded? && CarriesDelta(lib.decode(value).payload, eventName, text)
  {
    if lib.decode(value).Decoded? { HasDeltaExactly(lib.decode(value).payload, eventName); }
  }

  // ---------- inspecting an event ----------

  ghost predicate FieldAt(lines: seq<Bytes>, i: int, name: Bytes, value: Bytes) {
    0 <= i < |lines| && ParseSSEField(lines[i]) == Field(name, value)
  }

  ghost predicate EventAt(lines: seq<Bytes>, i: int) {
    exists name :: FieldAt(lines, i, [0x65, 0x76, 0x65, 0x6E, 0x74], name)
  }

  /** name is that of the "event" line j, the last one before line i, or start if there is none and j is -1. */
  ghost predicate NamedBy(lines: seq<Bytes>, i: int, start: Bytes, name: Bytes, j: int) {
    && -1 <= j < i
    && (if j == -1 then name == start else FieldAt(lines, j, [0x65, 0x76, 0x65, 0x6E, 0x74], name))
    && forall l | j < l < i :: !EventAt(lines, l)
  }

  /** Line i is a "data" line whose value is strictly decoded to a delta, under the name read so far. */
  ghost predicate DeltaAt(lib: Library, lines: seq<Bytes>, i: int, start: Bytes, value: Bytes, name: Bytes, j: int) {
    && FieldAt(lines, i, [0x64, 0x61, 0x74, 0x61], value) && NamedBy(lines, i, start, name, j)
    && lib.unmarshal(value).Decoded? && exists text :: CarriesDelta(lib.unmarshal(value).payload, name, text)
  }

  ghost predicate SomeDelta(lib: Library, lines: seq<Bytes>, start: Bytes) {
    exists i, value, name, j :: DeltaAt(lib, lines, i, start, value, name, j)
  }

  /** The name after the first line. */
  function NameAfter(line: Bytes, start: Bytes): Bytes {
    var f := ParseSSEField(line);
    if f.Field? && f.name == EVENT then f.value else start
  }

  lemma FieldShift(lines: seq<Bytes>, j: int)
    requires lines != [] && j > 0
    ensures forall name, value :: FieldAt(lines, j, name, value) <==> FieldAt(lines[1..], j - 1, name, value)
    ensures EventAt(lines, j) <==> EventAt(lines[1..], j - 1)
  {
    forall name, value ensures FieldAt(lines, j, name, value) <==> FieldAt(lines[1..], j - 1, name, value) {
      assert j < |lines| ==> lines[j] == lines[1..][j - 1];
    }
    if EventAt(lines, j) {
      var name :| FieldAt(lines, j, [0x65, 0x76, 0x65, 0x6E, 0x74], name);
      assert FieldAt(lines[1..], j - 1, [0x65, 0x76, 0x65, 0x6E, 0x74], name);
    }
    if EventAt(lines[1..], j - 1) {
      var name :| FieldAt(lines[1..], j - 1, [0x65, 0x76, 0x65, 0x6E, 0x74], name);
      assert FieldAt(lines, j, [0x65, 0x76, 0x65, 0x6E, 0x74], name);
    }
  }

  lemma FirstIsEvent(lines: seq<Bytes>, start: Bytes)
    requires lines != []
    ensures EventAt(lines, 0) ==> FieldAt(lines, 0, [0x65, 0x76, 0x65, 0x6E, 0x74], NameAfter(lines[0], start))
    ensures !EventAt(lines, 0) ==> NameAfter(lines[0], start) == start
  {
    var f := ParseSSEField(lines[0]);
    if f.Field? && f.name == EVENT { assert FieldAt(lines, 0, [0x65, 0x76, 0x65, 0x6E, 0x74], f.value); }
  }

  lemma NameInRest(lines: seq<Bytes>, i: int, start: Bytes, name: Bytes, j: int)
    requires lines != [] && i > 0 && NamedBy(lines, i, start, name, j)
    ensures NamedBy(lines[1..], i - 1, NameAfter(lines[0], start), name, if j > 0 then j - 1 else -1)
  {
    FirstIsEvent(lines, start);
    if j > 0 { FieldShift(lines, j); }
    var j' := if j > 0 then j - 1 else -1;
    forall l | j' < l < i - 1 ensures !EventAt(lines[1..], l) {
      FieldShift(lines, l + 1);
      assert !EventAt(lines, l + 1);
    }
  }

  lemma NameInWhole(lines: seq<Bytes>, i: int, start: Bytes, name: Bytes, j: int) returns (j': int)
    requires lines != [] && i > 0 && NamedBy(lines[1..], i - 1, NameAfter(lines[0], start), name, j)
    ensures NamedBy(lines, i, start, name, j')
  {
    FirstIsEvent(lines, start);
    j' := if j >= 0 then j + 1 else if EventAt(lines, 0) then 0 else -1;
    if j >= 0 { FieldShift(lines, j + 1); }
    forall l | j' < l < i ensures !EventAt(lines, l) {
      if l > 0 {
        FieldShift(lines, l);
        assert !EventAt(lines[1..], l - 1);
      }
    }
  }

  /** The inspection finds a delta exactly when one of the data lines is one under the name read so far. */
  lemma {:induction false} InspectsExactly(lib: Library, lines: seq<Bytes>, start: Bytes)
    ensures HasDelta(lib, lines, start) <==> SomeDelta(lib, lines, start)
    decreases |lines|
  {
    if lines != [] {
      InspectsExactly(lib, lines[1..], NameAfter(lines[0], start));
      HasDeltaStep(lib, lines, start);
      if i, value, name, j :| DeltaAt(lib, lines, i, start, value, name, j) {
        if i > 0 {
          NameInRest(lines, i, start, name, j);
          FieldShift(lines, i);
          assert DeltaAt(lib, lines[1..], i - 1, NameAfter(lines[0], start), value, name, if j > 0 then j - 1 else -1);
        }
      }
      if i, value, name, j :| DeltaAt(lib, lines[1..], i, NameAfter(lines[0], start), value, name, j) {
        var j' := NameInWhole(lines, i + 1, start, name, j);
        FieldShift(lines, i + 1);
        assert DeltaAt(lib, lines, i + 1, start, value, name, j');
      }
    }
  }

  /** What the first line contributes. */
  lemma HasDeltaStep(lib: Library, lines: seq<Bytes>, start: Bytes)
    requires lines != []
    ensures HasDelta(lib, lines, start) <==>
      || (exists value :: DeltaAt(lib, lines, 0, start, value, start, -1))
      || HasDelta(lib, lines[1..], NameAfter(lines[0], start))
    ensures forall value, name, j :: DeltaAt(lib, lines, 0, start, value, name, j) ==> name == start && j == -1
  {
    var f := ParseSSEField(lines[0]);
    if f.Field? && f.name == DATA && lib.unmarshal(f.value).Decoded? {
      HasDeltaExactly(lib.unmarshal(f.value).payload, start);
      assert NamedBy(lines, 0, start, start, -1) && FieldAt(lines, 0, [0x64, 0x61, 0x74, 0x61], f.value);
      assert HasDeltaText(lib.unmarshal(f.value).payload, start) ==> DeltaAt(lib, lines, 0, start, f.value, start, -1);
    }
  }

  /** The name found is that of the last "event" line. */
  lemma {:induction false} NameInExactly(lines: seq<Bytes>, start: Bytes) returns (j: int)
    ensures NamedBy(lines, |lines|, start, NameIn(lines, start), j)
    decreases |lines|
  {
    if lines == [] {
      j := -1;
    } else {
      j := NameInExactly(lines[1..], NameAfter(lines[0], start));
      j := NameInWhole(lines, |lines|, start, NameIn(lines, start), j);
    }
  }
}
