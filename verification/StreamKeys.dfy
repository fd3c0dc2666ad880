/** When two deltas belong to the same stream. */
module StreamKeys {
  import opened ByteText
  import opened DecodedJson
  import opened Sse

  /** What an id counts as: its text, the spelling of a number, or nothing. */
  ghost predicate Spells(v: Json, text: Bytes) {
    || (v.Str? && text == v.text)
    || (v.Number? && text == v.spelling)
    || (!v.Str? && !v.Number? && text == [])
  }

  /** Both payloads have the id, spelled alike, or neither has it. */
  ghost predicate SameID(a: Object, b: Object, field: Bytes) {
    && (field in a <==> field in b)
    && (field in a && field in b ==> exists text :: Spells(a[field], text) && Spells(b[field], text))
  }

  /** No '|' in the ids. */
  ghost predicate PlainIDs(o: Object, fields: seq<Bytes>) {
    forall f, text | f in fields && f in o && Spells(o[f], text) :: 0x7C !in text
  }

  /** Where b first stands in s, or |s|. */
  function FirstOf(s: Bytes, b: byte): nat {
    if s == [] || s[0] == b then 0 else 1 + FirstOf(s[1..], b)
  }

  lemma {:induction false} FirstBehind(t: Bytes, r: Bytes, b: byte)
    requires b !in t && (r == [] || r[0] == b)
    ensures FirstOf(t + r, b) == |t|
    ensures (t + r)[..|t|] == t && (t + r)[|t|..] == r
  {
    if t == [] {
      assert t + r == r;
    } else {
      assert (t + r)[1..] == t[1..] + r;
      FirstBehind(t[1..], r, b);
    }
  }

  predicate BarOrEnd(s: Bytes) {
    s == [] || s[0] == 0x7C
  }

  lemma UpToBar(t: Bytes, r: Bytes, t': Bytes, r': Bytes)
    requires t + r == t' + r' && 0x7C !in t && 0x7C !in t' && BarOrEnd(r) && BarOrEnd(r')
    ensures t == t' && r == r'
  {
    FirstBehind(t, r, 0x7C);
    FirstBehind(t', r', 0x7C);
  }

  lemma UpToEquals(f: Bytes, x: Bytes, g: Bytes, y: Bytes)
    requires f + (EQUALS + x) == g + (EQUALS + y) && 0x3D !in f && 0x3D !in g
    ensures f == g && x == y
  {
    FirstBehind(f, EQUALS + x, 0x3D);
    FirstBehind(g, EQUALS + y, 0x3D);
    assert (EQUALS + x)[1..] == x && (EQUALS + y)[1..] == y;
  }

  ghost predicate FieldNames(fields: seq<Bytes>) {
    Unrepeated(fields) && forall f: Bytes | f in fields :: (0x7C as byte) !in f && (0x3D as byte) !in f
  }

  lemma NamesOfRest(fields: seq<Bytes>)
    requires FieldNames(fields) && fields != []
    ensures FieldNames(fields[1..]) && fields[0] !in fields[1..]
    ensures (0x7C as byte) !in fields[0] && (0x3D as byte) !in fields[0]
  {
    WithFirst(fields);
    assert fields[0] in fields && forall f | f in fields[1..] :: f in fields;
  }

  lemma PartsOf(o: Object, fields: seq<Bytes>)
    requires fields != []
    ensures fields[0] !in o ==> IDParts(o, fields) == IDParts(o, fields[1..])
    ensures fields[0] in o ==>
      && Spells(o[fields[0]], KeyString(o[fields[0]]))
      && IDParts(o, fields) == BAR + (fields[0] + (EQUALS + (KeyString(o[fields[0]]) + IDParts(o, fields[1..]))))
  {
    var f, rest := fields[0], IDParts(o, fields[1..]);
    if f in o {
      var t := KeyString(o[f]);
      Assoc(BAR + f + EQUALS, t, rest);
      Assoc(BAR + f, EQUALS, t + rest);
      Assoc(BAR, f, EQUALS + (t + rest));
    }
  }

  /** What is written begins with the first field present. */
  lemma {:induction false} PartsBegin(o: Object, fields: seq<Bytes>) returns (f: Bytes, x: Bytes)
    ensures BarOrEnd(IDParts(o, fields))
    ensures IDParts(o, fields) != [] ==> f in fields && f in o && IDParts(o, fields) == BAR + (f + (EQUALS + x))
  {
    f, x := [], [];
    if fields != [] {
      PartsOf(o, fields);
      if fields[0] in o {
        f, x := fields[0], KeyString(o[fields[0]]) + IDParts(o, fields[1..]);
      } else {
        f, x := PartsBegin(o, fields[1..]);
      }
    }
  }

  lemma {:induction false} SpelledAlike(a: Json, b: Json)
    ensures KeyString(a) == KeyString(b) <==> exists text :: Spells(a, text) && Spells(b, text)
  {
    assert Spells(a, KeyString(a)) && Spells(b, KeyString(b));
    assert forall text :: Spells(a, text) <==> text == KeyString(a);
    assert forall text :: Spells(b, text) <==> text == KeyString(b);
  }

  /** A field that only one payload has shows. */
  lemma OnlyOneHas(a: Object, b: Object, fields: seq<Bytes>)
    requires fields != [] && FieldNames(fields) && fields[0] in a && fields[0] !in b
    ensures IDParts(a, fields) != IDParts(b, fields)
  {
    PartsOf(a, fields);
    PartsOf(b, fields);
    NamesOfRest(fields);
    var g, y := PartsBegin(b, fields[1..]);
    var f, x := fields[0], KeyString(a[fields[0]]) + IDParts(a, fields[1..]);
    if IDParts(a, fields) == IDParts(b, fields) {
      assert IDParts(b, fields)[0] == 0x7C;
      assert (BAR + (f + (EQUALS + x)))[1..] == f + (EQUALS + x) && (BAR + (g + (EQUALS + y)))[1..] == g + (EQUALS + y);
      UpToEquals(f, x, g, y);
    }
  }

  lemma {:induction false} PartsExactly(a: Object, b: Object, fields: seq<Bytes>)
    requires FieldNames(fields) && PlainIDs(a, fields) && PlainIDs(b, fields)
    ensures IDParts(a, fields) == IDParts(b, fields) <==> forall f | f in fields :: SameID(a, b, f)
  {
    if fields != [] {
      var f, rest := fields[0], fields[1..];
      NamesOfRest(fields);
      WithFirst(fields);
      PartsExactly(a, b, rest);
      PartsOf(a, fields);
      PartsOf(b, fields);
      if f in a && f in b {
        BothHave(a, b, fields);
      } else if f in a {
        OnlyOneHas(a, b, fields);
        assert !SameID(a, b, f);
      } else if f in b {
        OnlyOneHas(b, a, fields);
        assert !SameID(a, b, f);
      }
    }
  }

  lemma BothHave(a: Object, b: Object, fields: seq<Bytes>)
    requires fields != [] && FieldNames(fields) && PlainIDs(a, fields) && PlainIDs(b, fields)
    requires fields[0] in a && fields[0] in b
    ensures IDParts(a, fields) == IDParts(b, fields)
       <==> SameID(a, b, fields[0]) && IDParts(a, fields[1..]) == IDParts(b, fields[1..])
  {
    var f, rest := fields[0], fields[1..];
    PartsOf(a, fields);
    PartsOf(b, fields);
    NamesOfRest(fields);
    assert f in fields;
    SpelledAlike(a[f], b[f]);
    var t, t' := KeyString(a[f]), KeyString(b[f]);
    var r, r' := IDParts(a, rest), IDParts(b, rest);
    var g, x := PartsBegin(a, rest);
    var g', x' := PartsBegin(b, rest);
    if IDParts(a, fields) == IDParts(b, fields) {
      var p := BAR + (f + EQUALS);
      Assoc(BAR, f, EQUALS + (t + r));
      Assoc(BAR, f, EQUALS + (t' + r'));
      UpToEquals(f, t + r, f, t' + r') by {
        assert IDParts(a, fields)[1..] == f + (EQUALS + (t + r)) && IDParts(b, fields)[1..] == f + (EQUALS + (t' + r'));
      }
      UpToBar(t, r, t', r');
    }
  }

  lemma IDFieldNames()
    ensures FieldNames(ID_FIELDS)
  {
    assert forall i | 0 <= i < |ID_FIELDS| :: 0x7C !in ID_FIELDS[i] && 0x3D !in ID_FIELDS[i];
  }

  /**
   * Two deltas belong to the same stream if and only if they have the same type and the same item_id,
   * output_index, content_index, summary_index and call_id, each present in both or in neither, when no
   * type or id contains '|'.
   */
  lemma SameStreamExactly(typ: Bytes, a: Object, typ': Bytes, b: Object)
    requires 0x7C !in typ && 0x7C !in typ' && PlainIDs(a, ID_FIELDS) && PlainIDs(b, ID_FIELDS)
    ensures DeltaKey(typ, a) == DeltaKey(typ', b) <==>
      && typ == typ'
      && SameID(a, b, [0x69, 0x74, 0x65, 0x6D, 0x5F, 0x69, 0x64])
      && SameID(a, b, [0x6F, 0x75, 0x74, 0x70, 0x75, 0x74, 0x5F, 0x69, 0x6E, 0x64, 0x65, 0x78])
      && SameID(a, b, [0x63, 0x6F, 0x6E, 0x74, 0x65, 0x6E, 0x74, 0x5F, 0x69, 0x6E, 0x64, 0x65, 0x78])
      && SameID(a, b, [0x73, 0x75, 0x6D, 0x6D, 0x61, 0x72, 0x79, 0x5F, 0x69, 0x6E, 0x64, 0x65, 0x78])
      && SameID(a, b, [0x63, 0x61, 0x6C, 0x6C, 0x5F, 0x69, 0x64])
  {
    IDFieldNames();
    PartsExactly(a, b, ID_FIELDS);
    var f, x := PartsBegin(a, ID_FIELDS);
    var g, y := PartsBegin(b, ID_FIELDS);
    if DeltaKey(typ, a) == DeltaKey(typ', b) {
      UpToBar(typ, IDParts(a, ID_FIELDS), typ', IDParts(b, ID_FIELDS));
    }
    assert (forall f | f in ID_FIELDS :: SameID(a, b, f)) <==> forall i | 0 <= i < 5 :: SameID(a, b, ID_FIELDS[i]);
  }
}
