/**
 * What a client sees of the restored stream, compared with what the upstream sent: line by line, event
 * by event and flush by flush up to whole runs. For every stream the client has been told the restored
 * text of all finished segments and a part of the open one, of which it lacks just what restoring the
 * pending text will add; and every message that holds more than deltas comes in order, restored.
 */
module ClientView {
  import opened ByteText
  import opened Restore
  import opened Streaming
  import opened Placeholders
  import opened Utf8
  import opened DecodedJson
  import opened RestoreJson
  import opened EventStream
  import opened Sse

  const NESTING := 10000

  // ---------- what is assumed of the library and of the mapping ----------

  /** A JSON value in UTF-8: what a decoder returns and an encoder writes unchanged. */
  ghost predicate EncodableHere(lib: Library, v: Json) {
    match v
    case Str(s) => ValidUtf8(s)
    case Obj(members) => forall k | k in members :: ValidUtf8(k)
    case Number(spelling) => lib.isNumber(spelling)
    case Unsupported => false
    case _ => true
  }

  /** How many containers, v included, may lie around the place of v. */
  function Room(v: Json): nat {
    if v.Arr? || v.Obj? then NESTING - 1 else NESTING
  }

  /** No more than NESTING containers are nested in one another. */
  ghost predicate FitsAt(lib: Library, v: Json, path: Path) {
    |path| <= Room(v) && EncodableHere(lib, v)
  }

  ghost predicate Encodable(lib: Library, o: Object) {
    forall path | At(Obj(o), path).Value? :: FitsAt(lib, At(Obj(o), path).value, path)
  }

  ghost predicate Lawful(lib: Library) {
    && (forall o | Encodable(lib, o) :: Encodes(lib, o))
    && (forall value | lib.decode(value).Decoded? :: Encodable(lib, lib.decode(value).payload))
    && lib.trimSpace(DONE) == DONE
  }

  /** What is encoded is one line, is not [DONE] and is decoded to the same object. */
  ghost predicate Encodes(lib: Library, o: Object) {
    var value := lib.marshal(o);
    lib.decode(value) == Decoded(o) && OneLine(value) && lib.trimSpace(value) != DONE
  }

  /** The mappings for which streaming is faithful, in UTF-8. */
  ghost predicate Sound(m: Mapping) {
    ShapedKeys(m) && Utf8Mapping(m) && Apart(m, KeepBytes(m))
  }

  /**
   * Restoring this data line does not turn it into something else: the type of a delta is one line, that
   * of another payload with a delta field has no placeholder, and restored text is one line and no delta.
   */
  ghost predicate Tame(lib: Library, m: Mapping, eventName: Bytes, value: Bytes) {
    if lib.trimSpace(value) == DONE then true
    else
      match lib.decode(value)
      case Failed => OneLine(Restored(m, value)) && Classify(lib, eventName, Restored(m, value)).Other?
      case Decoded(o) =>
        if HasDeltaText(o, eventName) then OneLine(TypeOf(o, eventName))
        else DELTA in o && o[DELTA].Str? ==> Clean(m, StringAt(o, TYPE))
  }

  // ---------- encodable objects ----------

  /** Where a value lies inside an object with another text for its delta. */
  lemma PathWith(o: Object, s: Bytes, path: Path)
    requires path != []
    ensures var found := At(Obj(o[DELTA := Str(s)]), path);
            if path[0] == Key(DELTA) then found.Value? ==> |path| == 1 && found.value == Str(s)
            else found == At(Obj(o), path)
  {
    var o' := o[DELTA := Str(s)];
    if path[0] == Key(DELTA) {
      assert At(Obj(o'), path) == At(Str(s), path[1..]);
      assert At(Str(s), path[1..]).Value? ==> path[1..] == [];
    } else {
      assert Child(Obj(o'), path[0]) == Child(Obj(o), path[0]);
    }
  }

  lemma EncodableWith(lib: Library, o: Object, s: Bytes)
    requires Encodable(lib, o) && ValidUtf8(s)
    ensures Encodable(lib, o[DELTA := Str(s)])
  {
    var o' := o[DELTA := Str(s)];
    forall path | At(Obj(o'), path).Value? ensures FitsAt(lib, At(Obj(o'), path).value, path) {
      FitsWith(lib, o, s, path);
    }
  }

  lemma FitsWith(lib: Library, o: Object, s: Bytes, path: Path)
    requires Encodable(lib, o) && ValidUtf8(s) && At(Obj(o[DELTA := Str(s)]), path).Value?
    ensures FitsAt(lib, At(Obj(o[DELTA := Str(s)]), path).value, path)
  {
    if path == [] {
      DeltaIsUtf8();
      assert At(Obj(o), []) == Value(Obj(o));
    } else {
      PathWith(o, s, path);
    }
  }

  lemma DeltaIsUtf8()
    ensures ValidUtf8(DELTA)
  {
    AsciiIsUtf8(DELTA);
  }

  lemma EncodableText(lib: Library, o: Object, field: Bytes)
    requires Encodable(lib, o) && field in o && o[field].Str?
    ensures ValidUtf8(o[field].text)
  {
    assert At(Obj(o), [Key(field)]) == At(o[field], []) == Value(o[field]);
  }

  /** A decoded payload can be restored, and the result can be encoded. */
  lemma RestoredPayload(lib: Library, m: Mapping, o: Object)
    requires Sound(m) && Encodable(lib, o)
    ensures RestoreJSON(Obj(o), m).Value? && RestoreJSON(Obj(o), m).value.Obj?
    ensures Encodable(lib, RestoreJSON(Obj(o), m).value.members)
  {
    FailsExactly(m, Obj(o));
    assert !EncodableHere(lib, Unsupported);
    assert forall path :: At(Obj(o), path).Value? ==> FitsAt(lib, At(Obj(o), path).value, path);
    var w := RestoreJSON(Obj(o), m).value;
    forall path | At(w, path).Value? ensures FitsAt(lib, At(w, path).value, path) {
      RestoredEverywhere(m, Obj(o), w, path);
      RestoredFits(lib, m, At(Obj(o), path).value, At(w, path).value, path);
    }
    assert w == Obj(w.members);
  }

  lemma RestoredFits(lib: Library, m: Mapping, before: Json, after: Json, path: Path)
    requires Sound(m) && FitsAt(lib, before, path) && RestoredHere(m, before, after)
    ensures FitsAt(lib, after, path)
  {
    if before.Str? { RestoredIsUtf8(m, before.text); }
  }

  // ---------- payloads with a delta ----------

  lemma {:induction false} IDPartsStay(o: Object, v: Json, fields: seq<Bytes>)
    requires DELTA !in fields
    ensures IDParts(o[DELTA := v], fields) == IDParts(o, fields)
  {
    if fields != [] { IDPartsStay(o, v, fields[1..]); }
  }

  /** Another text in place of the delta leaves type and key of the payload. */
  lemma OtherDelta(o: Object, eventName: Bytes, s: Bytes)
    requires HasDeltaText(o, eventName)
    ensures var o' := o[DELTA := Str(s)];
            && HasDeltaText(o', eventName) && TypeOf(o', eventName) == TypeOf(o, eventName)
            && DeltaKey(TypeOf(o', eventName), o') == DeltaKey(TypeOf(o, eventName), o)
  {
    assert |TYPE| != |DELTA|;
    assert forall i | 0 <= i < |ID_FIELDS| :: |ID_FIELDS[i]| != |DELTA|;
    IDPartsStay(o, Str(s), ID_FIELDS);
  }

  lemma DeltaRead(lib: Library, o: Object, eventName: Bytes)
    requires Lawful(lib) && Encodable(lib, o) && HasDeltaText(o, eventName)
    ensures Classify(lib, eventName, lib.marshal(o)) == Delta(DeltaKey(TypeOf(o, eventName), o), o[DELTA].text)
    ensures OneLine(lib.marshal(o))
  {
    assert Encodes(lib, o);
  }

  // ---------- the state ----------

  /** A payload and an event name that a client takes for a delta of the stream key, whatever its text. */
  ghost predicate Carrier(lib: Library, key: Bytes, name: Bytes, o: Object) {
    && Encodable(lib, o) && HasDeltaText(o, name) && OneLine(name)
    && DeltaKey(TypeOf(o, name), o) == key
  }

  /** What is pending for a stream can be flushed so that a client takes it for a delta of that stream. */
  ghost predicate Flushable(lib: Library, s: State, key: Bytes) {
    Get(s.pending, key) != [] ==>
      && key in s.lastEvent && key in s.lastObject && ValidUtf8(s.pending[key])
      && Carrier(lib, key, s.lastEvent[key], s.lastObject[key])
  }

  ghost predicate Ready(lib: Library, s: State) {
    forall key :: Flushable(lib, s, key)
  }

  /** The payload that is written for a delta is remembered with a name under which it can be flushed. */
  lemma Remembered(lib: Library, o: Object, eventName: Bytes, text: Bytes)
    requires HasDeltaText(o, eventName) && Encodable(lib, o) && ValidUtf8(text)
    requires OneLine(TypeOf(o, eventName)) && OneLine(eventName)
    ensures var typ := TypeOf(o, eventName);
            Carrier(lib, DeltaKey(typ, o), if eventName == [] then typ else eventName, o[DELTA := Str(text)])
    ensures Encodable(lib, o[DELTA := Str(text)])
  {
    var typ := TypeOf(o, eventName);
    var name := if eventName == [] then typ else eventName;
    EncodableWith(lib, o, text);
    assert TypeOf(o, name) == typ;
    OtherDelta(o, name, text);
  }

  lemma StaysReady(lib: Library, s: State, key: Bytes, pending: Bytes, name: Bytes, o: Object, hits: multiset<Bytes>)
    requires Ready(lib, s) && ValidUtf8(pending) && Carrier(lib, key, name, o)
    ensures Ready(lib, State(s.pending[key := pending], s.lastEvent[key := name], s.lastObject[key := o], hits))
  {
    var after := State(s.pending[key := pending], s.lastEvent[key := name], s.lastObject[key := o], hits);
    forall k ensures Flushable(lib, after, k) {
      assert Flushable(lib, s, k);
    }
  }

  lemma FeedKeyIsUtf8(lib: Library, m: Mapping, s: State, key: Bytes, text: Bytes)
    requires Sound(m) && Ready(lib, s) && ValidUtf8(text)
    ensures ValidUtf8(FeedKey(m, s, key, text).emitted) && ValidUtf8(FeedKey(m, s, key, text).pending)
  {
    assert Flushable(lib, s, key);
    FeedIsUtf8(m, KeepBytes(m), Get(s.pending, key), text);
  }

  lemma AfterDeltaReady(lib: Library, m: Mapping, s: State, eventName: Bytes, o: Object)
    requires Sound(m) && Ready(lib, s) && HasDeltaText(o, eventName) && Encodable(lib, o)
    requires OneLine(TypeOf(o, eventName)) && OneLine(eventName)
    ensures Ready(lib, AfterDelta(m, s, eventName, o).after)
    ensures Encodable(lib, AfterDelta(m, s, eventName, o).out)
  {
    var typ := TypeOf(o, eventName);
    var key := DeltaKey(typ, o);
    EncodableText(lib, o, DELTA);
    FeedKeyIsUtf8(lib, m, s, key, o[DELTA].text);
    var p := FeedKey(m, s, key, o[DELTA].text);
    Remembered(lib, o, eventName, p.emitted);
    StaysReady(lib, s, key, p.pending, if eventName == [] then typ else eventName, o[DELTA := Str(p.emitted)],
      s.hits + multiset(p.hits));
  }

  /** What is read of a restored line, when l was sent. */
  ghost function Reply(lib: Library, m: Mapping, s: State, l: Line): Line {
    match l
    case Delta(key, text) => Delta(key, FeedKey(m, s, key, text).emitted)
    case Other(value) => Other(Rewritten(lib, m, value))
  }

  ghost function PendingAfter(m: Mapping, s: State, l: Line): map<Bytes, Bytes> {
    match l
    case Delta(key, text) => s.pending[key := FeedKey(m, s, key, text).pending]
    case Other(_) => s.pending
  }

  lemma DeltaStep(lib: Library, m: Mapping, s: State, eventName: Bytes, o: Object)
    requires Lawful(lib) && Sound(m) && Ready(lib, s) && OneLine(eventName)
    requires HasDeltaText(o, eventName) && Encodable(lib, o) && OneLine(TypeOf(o, eventName))
    ensures var r := AfterDelta(m, s, eventName, o);
            var l := Delta(DeltaKey(TypeOf(o, eventName), o), o[DELTA].text);
            && OneLine(lib.marshal(r.out)) && Classify(lib, eventName, lib.marshal(r.out)) == Reply(lib, m, s, l)
            && Ready(lib, r.after) && r.after.pending == PendingAfter(m, s, l)
  {
    AfterDeltaReady(lib, m, s, eventName, o);
    var r := AfterDelta(m, s, eventName, o);
    OtherDelta(o, eventName, FeedKey(m, s, DeltaKey(TypeOf(o, eventName), o), o[DELTA].text).emitted);
    DeltaRead(lib, r.out, eventName);
  }

  lemma HitsStayReady(lib: Library, s: State, hits: multiset<Bytes>)
    requires Ready(lib, s)
    ensures Ready(lib, s.(hits := hits))
  {
    forall k ensures Flushable(lib, s.(hits := hits), k) { assert Flushable(lib, s, k); }
  }

  /** One data line: what the client reads of the restored line. */
  lemma DataStep(lib: Library, m: Mapping, s: State, eventName: Bytes, value: Bytes)
    requires Lawful(lib) && Sound(m) && Ready(lib, s) && OneLine(eventName) && Tame(lib, m, eventName, value)
    ensures var r := TransformData(lib, m, s, eventName, value);
            var l := Classify(lib, eventName, value);
            && OneLine(r.out) && Classify(lib, eventName, r.out) == Reply(lib, m, s, l)
            && Ready(lib, r.after) && r.after.pending == PendingAfter(m, s, l)
  {
    match Classify(lib, eventName, value)
    case Delta(_, _) =>
      DeltaStep(lib, m, s, eventName, lib.decode(value).payload);
    case Other(_) =>
      OtherStep(lib, m, eventName, value);
      HitsStayReady(lib, s, s.hits + RewrittenHits(lib, m, value));
  }

  lemma OtherStep(lib: Library, m: Mapping, eventName: Bytes, value: Bytes)
    requires Lawful(lib) && Sound(m) && Tame(lib, m, eventName, value) && Classify(lib, eventName, value).Other?
    ensures var out := Rewritten(lib, m, value);
            OneLine(out) && Classify(lib, eventName, out) == Other(out)
  {
    if lib.trimSpace(value) != DONE && lib.decode(value).Decoded? {
      var o := lib.decode(value).payload;
      RestoredPayload(lib, m, o);
      var w := RestoreJSON(Obj(o), m).value.members;
      RestoredDelta(m, o, w, eventName);
      assert Classify(lib, eventName, lib.marshal(w)) == Other(lib.marshal(w)) && OneLine(lib.marshal(w));
    }
  }

  /** Restoring a payload whose type has no placeholder makes it no delta. */
  lemma RestoredDelta(m: Mapping, o: Object, w: Object, eventName: Bytes)
    requires RestoreJSON(Obj(o), m) == Value(Obj(w)) && !HasDeltaText(o, eventName)
    requires DELTA in o && o[DELTA].Str? ==> Clean(m, StringAt(o, TYPE))
    ensures !HasDeltaText(w, eventName)
  {
    RestoredField(m, o, w, DELTA);
    RestoredField(m, o, w, TYPE);
    if DELTA in o && o[DELTA].Str? { RestoredClean(m, StringAt(o, TYPE)); }
  }

  lemma RestoredField(m: Mapping, o: Object, w: Object, field: Bytes)
    requires RestoreJSON(Obj(o), m) == Value(Obj(w))
    ensures field in w && w[field].Str? <==> field in o && o[field].Str?
    ensures field in o && o[field].Str? ==> w[field].text == Restored(m, o[field].text)
  {
    RestoredChild(m, Obj(o), Obj(w), Key(field));
  }

  // ---------- the text of one stream ----------

  /** The lines a client reads from the data of an event. */
  ghost function Read(lib: Library, eventName: Bytes, data: seq<Bytes>): seq<Line> {
    if data == [] then [] else [Classify(lib, eventName, data[0])] + Read(lib, eventName, data[1..])
  }

  /** The text that lines add to the stream key. */
  ghost function TextFor(lines: seq<Line>, key: Bytes): Bytes {
    if lines == [] then []
    else (if lines[0].Delta? && lines[0].key == key then lines[0].text else []) + TextFor(lines[1..], key)
  }

  ghost predicate ContinuesAt(m: Mapping, open: Bytes, e: Bytes, pending: Bytes, y: Bytes) {
    Restored(m, open + y) == e + Restored(m, pending + y)
  }

  /**
   * said is what the client has been told of a stream: the finished part done and some e of the open
   * segment, of which it lacks what restoring the pending text adds, whatever follows.
   */
  ghost predicate Keeps(m: Mapping, done: Bytes, open: Bytes, said: Bytes, pending: Bytes) {
    exists e :: said == done + e && forall y :: ContinuesAt(m, open, e, pending, y)
  }

  lemma KeepsText(m: Mapping, done: Bytes, open: Bytes, said: Bytes, pending: Bytes, text: Bytes)
    requires Sound(m) && Keeps(m, done, open, said, pending)
    ensures var p := Feed(m, KeepBytes(m), pending, text);
            Keeps(m, done, open + text, said + p.emitted, p.pending)
  {
    Utf8KeysAreRuneKeys(m);
    var p := Feed(m, KeepBytes(m), pending, text);
    var e :| said == done + e && forall y :: ContinuesAt(m, open, e, pending, y);
    Assoc(done, e, p.emitted);
    forall y ensures ContinuesAt(m, open + text, e + p.emitted, p.pending, y) {
      assert ContinuesAt(m, open, e, pending, text + y);
      Assoc(open, text, y);
      Assoc(pending, text, y);
      FeedIsStep(m, KeepBytes(m), pending, text, y);
      Assoc(e, p.emitted, Restored(m, p.pending + y));
    }
  }

  lemma KeepsFlush(m: Mapping, done: Bytes, open: Bytes, said: Bytes, pending: Bytes)
    requires Keeps(m, done, open, said, pending)
    ensures said + Restored(m, pending) == done + Restored(m, open)
    ensures Keeps(m, done + Restored(m, open), [], said + Restored(m, pending), [])
  {
    var e :| said == done + e && forall y :: ContinuesAt(m, open, e, pending, y);
    assert ContinuesAt(m, open, e, pending, []);
    assert open + [] == open && pending + [] == pending;
    Assoc(done, e, Restored(m, pending));
    var all := done + Restored(m, open);
    assert all == all + [];
    forall y ensures ContinuesAt(m, [], [], [], y) {
      assert [] + y == y && [] + Restored(m, y) == Restored(m, y);
    }
  }

  // ---------- one event ----------

  ghost predicate AllTame(lib: Library, m: Mapping, eventName: Bytes, data: seq<Bytes>) {
    forall i | 0 <= i < |data| :: Tame(lib, m, eventName, data[i])
  }

  /** One line of an event, by what the client reads. */
  lemma LineStep(lib: Library, m: Mapping, s: State, eventName: Bytes, line: Bytes)
    requires Lawful(lib) && Sound(m) && Ready(lib, s) && OneLine(eventName)
    requires OneLine(line) && AllTame(lib, m, eventName, DataIn([line]))
    ensures var r := TransformLine(lib, m, s, eventName, line);
            && SameKind(line, r.out) && Ready(lib, r.after)
            && var f := ParseSSEField(line);
               f.Field? && f.name == DATA ==>
                 ParseSSEField(r.out) == Field(DATA, TransformData(lib, m, s, eventName, f.value).out)
  {
    var f := ParseSSEField(line);
    if f.Field? && f.name == DATA {
      assert DataIn([line])[0] == f.value;
      DataStep(lib, m, s, eventName, f.value);
      FieldRoundTrip(DATA, TransformData(lib, m, s, eventName, f.value).out);
    }
  }

  lemma DataHead(line: Bytes, rest: Block)
    ensures DataIn([line] + rest) == DataIn([line]) + DataIn(rest)
  {
    assert ([line] + rest)[1..] == rest && [line][1..] == [] && DataIn([]) == [];
  }

  lemma TameConcat(lib: Library, m: Mapping, eventName: Bytes, a: seq<Bytes>, b: seq<Bytes>)
    requires AllTame(lib, m, eventName, a + b)
    ensures AllTame(lib, m, eventName, a) && AllTame(lib, m, eventName, b)
  {
    forall i | 0 <= i < |a| ensures Tame(lib, m, eventName, a[i]) { assert (a + b)[i] == a[i]; }
    forall i | 0 <= i < |b| ensures Tame(lib, m, eventName, b[i]) { assert (a + b)[|a| + i] == b[i]; }
  }

  lemma TameHead(lib: Library, m: Mapping, eventName: Bytes, b: Block)
    requires b != [] && AllTame(lib, m, eventName, DataIn(b))
    ensures AllTame(lib, m, eventName, DataIn([b[0]])) && AllTame(lib, m, eventName, DataIn(b[1..]))
    ensures DataIn(b) == DataIn([b[0]]) + DataIn(b[1..])
  {
    WithFirst(b);
    DataHead(b[0], b[1..]);
    TameConcat(lib, m, eventName, DataIn([b[0]]), DataIn(b[1..]));
  }

  ghost predicate SameForm(a: Block, b: Block) {
    && |a| == |b| && AllOneLine(b) && (IsBlock(a) <==> IsBlock(b))
    && forall name :: NameIn(a, name) == NameIn(b, name)
  }

  /** A line and its restoration: both blank, or both data, or the same. */
  ghost predicate SameKind(line: Bytes, out: Bytes) {
    && OneLine(out) && (out == [] <==> line == [])
    && (line == out || (ParseSSEField(line).Field? && ParseSSEField(line).name == DATA
                        && ParseSSEField(out).Field? && ParseSSEField(out).name == DATA))
  }

  lemma FormHead(line: Bytes, a: Block, out: Bytes, b: Block)
    requires SameKind(line, out) && SameForm(a, b)
    ensures SameForm([line] + a, [out] + b)
  {
    assert ([line] + a)[1..] == a && ([out] + b)[1..] == b;
    assert DATA != EVENT;
  }

  /** The restored event has the same form and the same name. */
  lemma {:induction false} EventForm(lib: Library, m: Mapping, s: State, eventName: Bytes, b: Block)
    requires Lawful(lib) && Sound(m) && Ready(lib, s) && OneLine(eventName)
    requires AllOneLine(b) && AllTame(lib, m, eventName, DataIn(b))
    ensures var r := TransformLines(lib, m, s, eventName, b); Ready(lib, r.after) && SameForm(b, r.out)
    decreases |b|
  {
    if b != [] {
      TameHead(lib, m, eventName, b);
      LineStep(lib, m, s, eventName, b[0]);
      var first := TransformLine(lib, m, s, eventName, b[0]);
      EventForm(lib, m, first.after, eventName, b[1..]);
      WithFirst(b);
      FormHead(b[0], b[1..], first.out, TransformLines(lib, m, first.after, eventName, b[1..]).out);
    }
  }

  lemma DataOut(lib: Library, m: Mapping, s: State, eventName: Bytes, b: Block)
    requires Lawful(lib) && Sound(m) && Ready(lib, s) && OneLine(eventName)
    requires b != [] && AllOneLine(b) && AllTame(lib, m, eventName, DataIn(b))
    ensures var first := TransformLine(lib, m, s, eventName, b[0]);
            var rest := TransformLines(lib, m, first.after, eventName, b[1..]);
            var out := TransformLines(lib, m, s, eventName, b).out;
            && DataIn(out) == DataIn([first.out]) + DataIn(rest.out)
            && DataIn(b) == DataIn([b[0]]) + DataIn(b[1..])
            && Ready(lib, first.after)
            && AllTame(lib, m, eventName, DataIn(b[1..]))
            && Read(lib, eventName, DataIn(out))
                == Read(lib, eventName, DataIn([first.out])) + Read(lib, eventName, DataIn(rest.out))
            && Read(lib, eventName, DataIn(b))
                == Read(lib, eventName, DataIn([b[0]])) + Read(lib, eventName, DataIn(b[1..]))
  {
    TameHead(lib, m, eventName, b);
    LineStep(lib, m, s, eventName, b[0]);
    var first := TransformLine(lib, m, s, eventName, b[0]);
    var rest := TransformLines(lib, m, first.after, eventName, b[1..]);
    DataHead(first.out, rest.out);
    ReadConcat(lib, eventName, DataIn([first.out]), DataIn(rest.out));
    ReadConcat(lib, eventName, DataIn([b[0]]), DataIn(b[1..]));
  }

  lemma {:induction false} ReadConcat(lib: Library, eventName: Bytes, a: seq<Bytes>, b: seq<Bytes>)
    ensures Read(lib, eventName, a + b) == Read(lib, eventName, a) + Read(lib, eventName, b)
  {
    if a == [] {
      assert a + b == b;
    } else {
      assert (a + b)[1..] == a[1..] + b;
      ReadConcat(lib, eventName, a[1..], b);
    }
  }

  lemma {:induction false} TextConcat(a: seq<Line>, b: seq<Line>, key: Bytes)
    ensures TextFor(a + b, key) == TextFor(a, key) + TextFor(b, key)
  {
    if a == [] {
      assert a + b == b;
    } else {
      assert (a + b)[1..] == a[1..] + b;
      TextConcat(a[1..], b, key);
    }
  }

  lemma OneRead(lib: Library, eventName: Bytes, value: Bytes)
    ensures Read(lib, eventName, [value]) == [Classify(lib, eventName, value)]
  {
    assert [value][1..] == [];
    assert Read(lib, eventName, []) == [];
  }

  /** At most one line was read, and it is answered. */
  ghost predicate Answers(lib: Library, m: Mapping, s: State, before: seq<Line>, after: seq<Line>,
    pending: map<Bytes, Bytes>) {
    || (before == [] == after && pending == s.pending)
    || (|before| == 1 && after == [Reply(lib, m, s, before[0])] && pending == PendingAfter(m, s, before[0]))
  }

  lemma DataReads(lib: Library, m: Mapping, s: State, eventName: Bytes, value: Bytes)
    requires Lawful(lib) && Sound(m) && Ready(lib, s) && OneLine(eventName) && Tame(lib, m, eventName, value)
    ensures var r := TransformData(lib, m, s, eventName, value);
            var l := Classify(lib, eventName, value);
            && Read(lib, eventName, [value]) == [l]
            && Read(lib, eventName, [r.out]) == [Reply(lib, m, s, l)]
            && r.after.pending == PendingAfter(m, s, l)
  {
    DataStep(lib, m, s, eventName, value);
    OneRead(lib, eventName, value);
    OneRead(lib, eventName, TransformData(lib, m, s, eventName, value).out);
  }

  lemma LineReads(lib: Library, m: Mapping, s: State, eventName: Bytes, line: Bytes)
    requires Lawful(lib) && Sound(m) && Ready(lib, s) && OneLine(eventName)
    requires OneLine(line) && AllTame(lib, m, eventName, DataIn([line]))
    ensures var r := TransformLine(lib, m, s, eventName, line);
            var before, after := Read(lib, eventName, DataIn([line])), Read(lib, eventName, DataIn([r.out]));
            Answers(lib, m, s, before, after, r.after.pending)
  {
    LineStep(lib, m, s, eventName, line);
    var f := ParseSSEField(line);
    if f.Field? && f.name == DATA {
      assert DataIn([line]) == [f.value] && DataIn([line])[0] == f.value;
      DataReads(lib, m, s, eventName, f.value);
      assert DataIn([TransformLine(lib, m, s, eventName, line).out])
          == [TransformData(lib, m, s, eventName, f.value).out];
    } else {
      assert DataIn([line]) == [];
    }
  }

  lemma OneText(l: Line, key: Bytes)
    ensures TextFor([l], key) == if l.Delta? && l.key == key then l.text else []
    ensures TextFor([], key) == []
  {
    assert [l][1..] == [];
  }

  /** What one line does to the text of one stream. */
  lemma LineText(lib: Library, m: Mapping, s: State, eventName: Bytes, line: Bytes, key: Bytes, done: Bytes,
    open: Bytes, said: Bytes)
    requires Lawful(lib) && Sound(m) && Ready(lib, s) && OneLine(eventName)
    requires OneLine(line) && AllTame(lib, m, eventName, DataIn([line]))
    requires Keeps(m, done, open, said, Get(s.pending, key))
    ensures var r := TransformLine(lib, m, s, eventName, line);
            Keeps(m, done, open + TextFor(Read(lib, eventName, DataIn([line])), key),
                  said + TextFor(Read(lib, eventName, DataIn([r.out])), key), Get(r.after.pending, key))
  {
    LineReads(lib, m, s, eventName, line);
    var r := TransformLine(lib, m, s, eventName, line);
    var before, after := Read(lib, eventName, DataIn([line])), Read(lib, eventName, DataIn([r.out]));
    AnswerText(lib, m, s, before, after, r.after.pending, key, done, open, said);
  }

  lemma AnswerText(lib: Library, m: Mapping, s: State, before: seq<Line>, after: seq<Line>,
    pending: map<Bytes, Bytes>, key: Bytes, done: Bytes, open: Bytes, said: Bytes)
    requires Sound(m) && Keeps(m, done, open, said, Get(s.pending, key)) && Answers(lib, m, s, before, after, pending)
    ensures Keeps(m, done, open + TextFor(before, key), said + TextFor(after, key), Get(pending, key))
  {
    if before == [] {
      OneText(Other([]), key);
      assert open + [] == open && said + [] == said;
    } else {
      assert before == [before[0]];
      LineKeeps(lib, m, s, before[0], key, done, open, said);
    }
  }

  lemma LineKeeps(lib: Library, m: Mapping, s: State, l: Line, key: Bytes, done: Bytes, open: Bytes, said: Bytes)
    requires Sound(m) && Keeps(m, done, open, said, Get(s.pending, key))
    ensures Keeps(m, done, open + TextFor([l], key), said + TextFor([Reply(lib, m, s, l)], key),
                  Get(PendingAfter(m, s, l), key))
  {
    OneText(l, key);
    OneText(Reply(lib, m, s, l), key);
    if l.Delta? && l.key == key {
      KeepsText(m, done, open, said, Get(s.pending, key), l.text);
    } else {
      assert open + [] == open && said + [] == said;
    }
  }

  lemma {:induction false} EventText(lib: Library, m: Mapping, s: State, eventName: Bytes, b: Block, key: Bytes,
    done: Bytes, open: Bytes, said: Bytes)
    requires Lawful(lib) && Sound(m) && Ready(lib, s) && OneLine(eventName)
    requires AllOneLine(b) && AllTame(lib, m, eventName, DataIn(b))
    requires Keeps(m, done, open, said, Get(s.pending, key))
    ensures var r := TransformLines(lib, m, s, eventName, b);
            Keeps(m, done, open + TextFor(Read(lib, eventName, DataIn(b)), key),
                  said + TextFor(Read(lib, eventName, DataIn(r.out)), key), Get(r.after.pending, key))
    decreases |b|
  {
    if b == [] {
      assert open + [] == open && said + [] == said;
    } else {
      TameHead(lib, m, eventName, b);
      DataOut(lib, m, s, eventName, b);
      var first := TransformLine(lib, m, s, eventName, b[0]);
      var rest := TransformLines(lib, m, first.after, eventName, b[1..]);
      var in0, in1 := Read(lib, eventName, DataIn([b[0]])), Read(lib, eventName, DataIn(b[1..]));
      var out0, out1 := Read(lib, eventName, DataIn([first.out])), Read(lib, eventName, DataIn(rest.out));
      LineText(lib, m, s, eventName, b[0], key, done, open, said);
      EventText(lib, m, first.after, eventName, b[1..], key, done, open + TextFor(in0, key), said + TextFor(out0, key));
      TextConcat(in0, in1, key);
      TextConcat(out0, out1, key);
      Assoc(open, TextFor(in0, key), TextFor(in1, key));
      Assoc(said, TextFor(out0, key), TextFor(out1, key));
    }
  }

  // ---------- everything but the text of the streams ----------

  /** A line with the text of its delta taken out. */
  function Mask(l: Line): Line {
    match l
    case Delta(key, _) => Delta(key, [])
    case Other(_) => l
  }

  ghost function Masked(lines: seq<Line>): seq<Line> {
    if lines == [] then [] else [Mask(lines[0])] + Masked(lines[1..])
  }

  /** The lines as they should come out, with the text of the deltas taken out. */
  ghost function Expected(lib: Library, m: Mapping, lines: seq<Line>): seq<Line> {
    if lines == [] then []
    else
      var first := if lines[0].Delta? then Mask(lines[0]) else Other(Rewritten(lib, m, lines[0].value));
      [first] + Expected(lib, m, lines[1..])
  }

  lemma {:induction false} EventMask(lib: Library, m: Mapping, s: State, eventName: Bytes, b: Block)
    requires Lawful(lib) && Sound(m) && Ready(lib, s) && OneLine(eventName)
    requires AllOneLine(b) && AllTame(lib, m, eventName, DataIn(b))
    ensures var r := TransformLines(lib, m, s, eventName, b);
            Masked(Read(lib, eventName, DataIn(r.out))) == Expected(lib, m, Read(lib, eventName, DataIn(b)))
    decreases |b|
  {
    if b != [] {
      TameHead(lib, m, eventName, b);
      DataOut(lib, m, s, eventName, b);
      LineReads(lib, m, s, eventName, b[0]);
      var first := TransformLine(lib, m, s, eventName, b[0]);
      EventMask(lib, m, first.after, eventName, b[1..]);
      MaskHead(lib, m, s, Read(lib, eventName, DataIn([b[0]])), Read(lib, eventName, DataIn(b[1..])));
      var rest := TransformLines(lib, m, first.after, eventName, b[1..]);
      MaskHead(lib, m, s, Read(lib, eventName, DataIn([first.out])), Read(lib, eventName, DataIn(rest.out)));
    }
  }

  lemma MaskHead(lib: Library, m: Mapping, s: State, head: seq<Line>, rest: seq<Line>)
    requires |head| <= 1
    ensures Masked(head + rest) == (if head == [] then [] else [Mask(head[0])]) + Masked(rest)
    ensures Expected(lib, m, head + rest)
        == (if head == [] then [] else [Mask(Reply(lib, m, s, head[0]))]) + Expected(lib, m, rest)
  {
    if head == [] {
      assert head + rest == rest;
    } else {
      assert (head + rest)[1..] == rest;
    }
  }

  // ---------- what a client has been told ----------

  ghost function BlockRead(lib: Library, b: Block): seq<Line> {
    Read(lib, NameIn(b, []), DataIn(b))
  }

  /** The text of the stream key in all messages. */
  ghost function SaidIn(lib: Library, messages: seq<Message>, key: Bytes): Bytes {
    if messages == [] then []
    else
      var n := |messages| - 1;
      SaidIn(lib, messages[..n], key) + TextFor(Read(lib, messages[n].name, messages[n].data), key)
  }

  /** A message without the text of its deltas. */
  datatype Shape = Shape(name: Bytes, lines: seq<Line>)

  predicate OnlyDeltas(lines: seq<Line>) {
    forall i | 0 <= i < |lines| :: lines[i].Delta?
  }

  ghost function ShapeOf(name: Bytes, lines: seq<Line>): seq<Shape> {
    if OnlyDeltas(lines) then [] else [Shape(name, Masked(lines))]
  }

  /** The messages that hold more than deltas, in order. */
  ghost function ShownIn(lib: Library, messages: seq<Message>): seq<Shape> {
    if messages == [] then []
    else
      var n := |messages| - 1;
      ShownIn(lib, messages[..n]) + ShapeOf(messages[n].name, Read(lib, messages[n].name, messages[n].data))
  }

  ghost function Restoring(lib: Library, m: Mapping, shapes: seq<Shape>): seq<Shape> {
    seq(|shapes|, i requires 0 <= i < |shapes| => Shape(shapes[i].name, Expected(lib, m, shapes[i].lines)))
  }

  lemma MessagesStep(lib: Library, blocks: seq<Block>, b: Block, key: Bytes)
    ensures SaidIn(lib, Messages(blocks + [b]), key)
        == SaidIn(lib, Messages(blocks), key) + TextFor(BlockRead(lib, b), key)
    ensures ShownIn(lib, Messages(blocks + [b]))
        == ShownIn(lib, Messages(blocks)) + ShapeOf(NameIn(b, []), BlockRead(lib, b))
  {
    assert (blocks + [b])[..|blocks|] == blocks;
    var messages := Messages(blocks);
    if DataIn(b) == [] {
      assert messages + [] == messages;
      assert SaidIn(lib, messages, key) + [] == SaidIn(lib, messages, key);
    } else {
      var msg := Message(NameIn(b, []), DataIn(b));
      assert (messages + [msg])[..|messages|] == messages;
    }
  }

  // ---------- flushing ----------

  lemma {:induction false} NameIsOneLine(b: Block, name: Bytes)
    requires AllOneLine(b) && OneLine(name)
    ensures OneLine(NameIn(b, name))
    decreases |b|
  {
    if b != [] {
      var f := ParseSSEField(b[0]);
      if f.Field? {
        assert forall x | x in f.value :: x in b[0];
        NameIsOneLine(b[1..], if f.name == EVENT then f.value else name);
      } else {
        NameIsOneLine(b[1..], name);
      }
    }
  }

  /** A field line in front of other lines. */
  lemma FieldHead(name: Bytes, value: Bytes, rest: Block)
    requires (name == DATA || name == EVENT) && OneLine(value) && AllOneLine(rest)
    ensures var b := [FieldLine(name, value)] + rest;
            && AllOneLine(b) && (IsBlock(b) <==> IsBlock(rest))
            && DataIn(b) == (if name == DATA then [value] else []) + DataIn(rest)
            && forall n :: NameIn(b, n) == NameIn(rest, if name == EVENT then value else n)
  {
    FieldRoundTrip(name, value);
    assert ([FieldLine(name, value)] + rest)[1..] == rest;
  }

  lemma EventLinesForm(name: Bytes, value: Bytes)
    requires OneLine(name) && OneLine(value)
    ensures var b := EventLines(name, value);
            IsBlock(b) && AllOneLine(b) && NameIn(b, []) == name && DataIn(b) == [value]
  {
    assert AllOneLine([[]]) && IsBlock([[]]) && DataIn([[]]) == [];
    assert forall n :: NameIn([[]], n) == NameIn([], n) == n;
    FieldHead(DATA, value, [[]]);
    var b := [FieldLine(DATA, value)] + [[]];
    assert b == [FieldLine(DATA, value), []];
    if name == [] {
      assert EventLines(name, value) == b;
    } else {
      FieldHead(EVENT, name, b);
      assert EventLines(name, value) == [FieldLine(EVENT, name)] + b;
    }
  }

  /** A client takes the flush of a stream for one more delta of it. */
  lemma FlushRead(lib: Library, m: Mapping, s: State, key: Bytes)
    requires Lawful(lib) && Sound(m) && Flushable(lib, s, key) && Get(s.pending, key) != []
    ensures var b := FlushBlock(lib, m, s, key);
            && IsBlock(b) && AllOneLine(b)
            && BlockRead(lib, b) == [Delta(key, Restored(m, Get(s.pending, key)))]
            && NameIn(b, []) == s.lastEvent[key] && |DataIn(b)| == 1
            && lib.decode(DataIn(b)[0]) == Decoded(s.lastObject[key][DELTA := Str(Restored(m, s.pending[key]))])
  {
    var name, o, text := s.lastEvent[key], s.lastObject[key], Restored(m, s.pending[key]);
    RestoredIsUtf8(m, s.pending[key]);
    EncodableWith(lib, o, text);
    OtherDelta(o, name, text);
    DeltaRead(lib, o[DELTA := Str(text)], name);
    var value := lib.marshal(o[DELTA := Str(text)]);
    EventLinesForm(name, value);
    OneRead(lib, name, value);
    assert Encodes(lib, o[DELTA := Str(text)]);
  }

  ghost predicate GoodBlocks(blocks: seq<Block>) {
    forall i | 0 <= i < |blocks| :: IsBlock(blocks[i]) && AllOneLine(blocks[i])
  }

  lemma GoodMore(blocks: seq<Block>, b: Block)
    requires GoodBlocks(blocks) && IsBlock(b) && AllOneLine(b)
    ensures GoodBlocks(blocks + [b])
  {
  }

  lemma DeltaIsNotShown(name: Bytes, key: Bytes, text: Bytes)
    ensures ShapeOf(name, [Delta(key, text)]) == []
  {
  }

  /** Between before and after the client is told text of the stream key, and shown nothing. */
  ghost predicate Tells(lib: Library, before: seq<Block>, after: seq<Block>, key: Bytes, text: Bytes) {
    && GoodBlocks(after)
    && ShownIn(lib, Messages(after)) == ShownIn(lib, Messages(before))
    && SaidIn(lib, Messages(after), key) == SaidIn(lib, Messages(before), key) + text
  }

  lemma TellsBoth(lib: Library, a: seq<Block>, b: seq<Block>, c: seq<Block>, key: Bytes, one: Bytes, two: Bytes)
    requires Tells(lib, a, b, key, one) && Tells(lib, b, c, key, two)
    ensures Tells(lib, a, c, key, one + two)
  {
    Assoc(SaidIn(lib, Messages(a), key), one, two);
  }

  lemma FlushTells(lib: Library, m: Mapping, s: State, blocks: seq<Block>, flushed: Bytes, key: Bytes)
    requires Lawful(lib) && Sound(m) && Ready(lib, s) && Get(s.pending, flushed) != [] && GoodBlocks(blocks)
    ensures Tells(lib, blocks, blocks + [FlushBlock(lib, m, s, flushed)], key,
                  if key == flushed then Restored(m, Get(s.pending, key)) else [])
  {
    assert Flushable(lib, s, flushed);
    FlushRead(lib, m, s, flushed);
    var b := FlushBlock(lib, m, s, flushed);
    MessagesStep(lib, blocks, b, key);
    OneText(Delta(flushed, Restored(m, Get(s.pending, flushed))), key);
    DeltaIsNotShown(NameIn(b, []), flushed, Restored(m, Get(s.pending, flushed)));
    GoodMore(blocks, b);
  }

  /** What flushing the streams of order adds to the stream key. */
  ghost function Due(m: Mapping, s: State, order: seq<Bytes>, key: Bytes): Bytes {
    if key in order then Restored(m, Get(s.pending, key)) else []
  }

  lemma DueStep(m: Mapping, s: State, order: seq<Bytes>, flushed: Bytes, key: Bytes)
    requires flushed !in order
    ensures Due(m, s, order + [flushed], key)
         == Due(m, s, order, key) + if key == flushed then Restored(m, Get(s.pending, key)) else []
  {
  }

  /** One more stream is flushed. */
  lemma FlushMore(lib: Library, m: Mapping, s: State, blocks: seq<Block>, some: seq<Block>, order: seq<Bytes>,
    flushed: Bytes, key: Bytes)
    requires Lawful(lib) && Sound(m) && Ready(lib, s) && Get(s.pending, flushed) != [] && flushed !in order
    requires Tells(lib, blocks, blocks + some, key, Due(m, s, order, key))
    ensures Tells(lib, blocks, blocks + (some + [FlushBlock(lib, m, s, flushed)]), key,
        Due(m, s, order + [flushed], key))
  {
    FlushTells(lib, m, s, blocks + some, flushed, key);
    DueStep(m, s, order, flushed, key);
    TellsMore(lib, blocks, some, FlushBlock(lib, m, s, flushed), key, Due(m, s, order, key),
      if key == flushed then Restored(m, Get(s.pending, key)) else []);
  }

  lemma TellsMore(lib: Library, blocks: seq<Block>, some: seq<Block>, b: Block, key: Bytes, one: Bytes, two: Bytes)
    requires Tells(lib, blocks, blocks + some, key, one) && Tells(lib, blocks + some, (blocks + some) + [b], key, two)
    ensures Tells(lib, blocks, blocks + (some + [b]), key, one + two)
  {
    Regroup(blocks, some, [b]);
    TellsBoth(lib, blocks, blocks + some, blocks + (some + [b]), key, one, two);
  }

  lemma TellsNothing(lib: Library, blocks: seq<Block>, key: Bytes)
    requires GoodBlocks(blocks)
    ensures Tells(lib, blocks, blocks + [], key, [])
  {
    assert blocks + [] == blocks;
    assert SaidIn(lib, Messages(blocks), key) + [] == SaidIn(lib, Messages(blocks), key);
  }

  /** Flushing in any order: every stream is told what it lacks, nothing else is shown. */
  lemma {:induction false} FlushAllTells(lib: Library, m: Mapping, s: State, order: seq<Bytes>,
    blocks: seq<Block>, key: Bytes)
    requires Lawful(lib) && Sound(m) && Ready(lib, s) && GoodBlocks(blocks)
    requires Unrepeated(order) && forall k | k in order :: Get(s.pending, k) != []
    ensures Tells(lib, blocks, blocks + FlushBlocks(lib, m, s, order), key, Due(m, s, order, key))
  {
    if order == [] {
      TellsNothing(lib, blocks, key);
    } else {
      var n := |order| - 1;
      var rest, flushed := order[..n], order[n];
      WithLast(order);
      FlushAllTells(lib, m, s, rest, blocks, key);
      FlushMore(lib, m, s, blocks, FlushBlocks(lib, m, s, rest), rest, flushed, key);
    }
  }

  // ---------- whole runs ----------

  /** The text of one stream cut at the flushes: finished segments are restored, the last one is raw. */
  datatype Segments = Segments(done: Bytes, open: Bytes)

  ghost function Spoken(lib: Library, m: Mapping, blocks: seq<Block>, key: Bytes): Segments {
    if blocks == [] then Segments([], [])
    else
      var n := |blocks| - 1;
      var s := Spoken(lib, m, blocks[..n], key);
      Speak(lib, m, s, blocks[n], key)
  }

  ghost predicate Acceptable(lib: Library, m: Mapping, b: Block) {
    IsBlock(b) && AllOneLine(b) && AllTame(lib, m, NameIn(b, []), DataIn(b))
  }

  lemma {:induction false} ExpectedOfMasked(lib: Library, m: Mapping, lines: seq<Line>)
    ensures Expected(lib, m, Masked(lines)) == Expected(lib, m, lines)
    ensures OnlyDeltas(Masked(lines)) <==> OnlyDeltas(lines)
    ensures OnlyDeltas(Expected(lib, m, lines)) <==> OnlyDeltas(lines)
  {
    if lines != [] {
      ExpectedOfMasked(lib, m, lines[1..]);
      assert Masked(lines)[1..] == Masked(lines[1..]);
      OnlyDeltasHead(lines);
      OnlyDeltasHead(Masked(lines));
      OnlyDeltasHead(Expected(lib, m, lines));
    }
  }

  lemma OnlyDeltasHead(lines: seq<Line>)
    requires lines != []
    ensures OnlyDeltas(lines) <==> lines[0].Delta? && OnlyDeltas(lines[1..])
  {
    assert forall i | 1 <= i < |lines| :: lines[i] == lines[1..][i - 1];
  }

  lemma ShapesMatch(lib: Library, m: Mapping, name: Bytes, sent: seq<Line>, read: seq<Line>)
    requires Masked(read) == Expected(lib, m, sent)
    ensures ShapeOf(name, read) == Restoring(lib, m, ShapeOf(name, sent))
  {
    ExpectedOfMasked(lib, m, read);
    ExpectedOfMasked(lib, m, sent);
  }

  lemma RestoringConcat(lib: Library, m: Mapping, a: seq<Shape>, b: seq<Shape>)
    ensures Restoring(lib, m, a + b) == Restoring(lib, m, a) + Restoring(lib, m, b)
  {
  }

  /** The flush before an event, if there is one. */
  lemma FlushStep(lib: Library, m: Mapping, s: State, order: seq<Bytes>, out: seq<Block>, key: Bytes,
    done: Bytes, open: Bytes)
    requires Lawful(lib) && Sound(m) && Ready(lib, s) && GoodBlocks(out) && FlushOrder(s.pending, order)
    requires Keeps(m, done, open, SaidIn(lib, Messages(out), key), Get(s.pending, key))
    ensures var all := out + FlushBlocks(lib, m, s, order);
            && GoodBlocks(all) && ShownIn(lib, Messages(all)) == ShownIn(lib, Messages(out))
            && SaidIn(lib, Messages(all), key) == done + Restored(m, open)
            && Keeps(m, done + Restored(m, open), [], SaidIn(lib, Messages(all), key), [])
  {
    FlushAllTells(lib, m, s, order, out, key);
    KeepsFlush(m, done, open, SaidIn(lib, Messages(out), key), Get(s.pending, key));
    assert Due(m, s, order, key) == Restored(m, Get(s.pending, key));
  }

  /** The lines of an event themselves. */
  lemma EventStep(lib: Library, m: Mapping, s: State, b: Block, out: seq<Block>, key: Bytes, done: Bytes, open: Bytes)
    requires Lawful(lib) && Sound(m) && Ready(lib, s) && GoodBlocks(out) && Acceptable(lib, m, b)
    requires Keeps(m, done, open, SaidIn(lib, Messages(out), key), Get(s.pending, key))
    ensures var r := TransformLines(lib, m, s, NameIn(b, []), b);
            && GoodBlocks(out + [r.out]) && Ready(lib, r.after)
            && ShownIn(lib, Messages(out + [r.out]))
               == ShownIn(lib, Messages(out)) + Restoring(lib, m, ShapeOf(NameIn(b, []), BlockRead(lib, b)))
            && Keeps(m, done, open + TextFor(BlockRead(lib, b), key),
                     SaidIn(lib, Messages(out + [r.out]), key), Get(r.after.pending, key))
  {
    var name := NameIn(b, []);
    NameIsOneLine(b, []);
    EventForm(lib, m, s, name, b);
    EventText(lib, m, s, name, b, key, done, open, SaidIn(lib, Messages(out), key));
    EventMask(lib, m, s, name, b);
    var r := TransformLines(lib, m, s, name, b);
    assert NameIn(r.out, []) == name;
    ShapesMatch(lib, m, name, BlockRead(lib, b), BlockRead(lib, r.out));
    MessagesStep(lib, out, r.out, key);
    GoodMore(out, r.out);
  }

  /** How an event changes the segments of one stream. */
  ghost function Speak(lib: Library, m: Mapping, s: Segments, b: Block, key: Bytes): Segments {
    var t := if Flushing(lib, b) then Segments(s.done + Restored(m, s.open), []) else s;
    Segments(t.done, t.open + TextFor(BlockRead(lib, b), key))
  }

  /** The client, the state and the segments of one stream agree. */
  ghost predicate InStep(lib: Library, m: Mapping, s: State, out: seq<Block>, key: Bytes, told: Segments) {
    && GoodBlocks(out) && Ready(lib, s)
    && Keeps(m, told.done, told.open, SaidIn(lib, Messages(out), key), Get(s.pending, key))
  }

  /** As InStep, and shown is what the client has been shown besides. */
  ghost predicate Agree(lib: Library, m: Mapping, s: State, out: seq<Block>, key: Bytes, told: Segments,
    shown: seq<Shape>) {
    InStep(lib, m, s, out, key, told) && ShownIn(lib, Messages(out)) == shown
  }

  lemma FlushedReady(lib: Library, s: State)
    ensures Ready(lib, Flushed(s))
    ensures forall key :: Get(Flushed(s).pending, key) == []
  {
    forall key ensures Flushable(lib, Flushed(s), key) { assert Get(Flushed(s).pending, key) == []; }
  }

  lemma FlushAgrees(lib: Library, m: Mapping, s: State, order: seq<Bytes>, out: seq<Block>, key: Bytes,
    told: Segments, shown: seq<Shape>)
    requires Lawful(lib) && Sound(m) && FlushOrder(s.pending, order) && Agree(lib, m, s, out, key, told, shown)
    ensures Agree(lib, m, Flushed(s), out + FlushBlocks(lib, m, s, order), key,
                  Segments(told.done + Restored(m, told.open), []), shown)
  {
    FlushStep(lib, m, s, order, out, key, told.done, told.open);
    FlushedReady(lib, s);
  }

  lemma EventAgrees(lib: Library, m: Mapping, s: State, b: Block, out: seq<Block>, key: Bytes, told: Segments,
    shown: seq<Shape>)
    requires Lawful(lib) && Sound(m) && Acceptable(lib, m, b) && Agree(lib, m, s, out, key, told, shown)
    ensures var r := TransformLines(lib, m, s, NameIn(b, []), b);
            Agree(lib, m, r.after, out + [r.out], key, Segments(told.done, told.open + TextFor(BlockRead(lib, b), key)),
                  shown + Restoring(lib, m, ShapeOf(NameIn(b, []), BlockRead(lib, b))))
  {
    EventStep(lib, m, s, b, out, key, told.done, told.open);
  }

  /** One event, with the flush before it. */
  lemma BlockStep(lib: Library, m: Mapping, s: State, b: Block, order: seq<Bytes>, out: seq<Block>, key: Bytes,
    told: Segments, shown: seq<Shape>)
    requires Lawful(lib) && Sound(m) && Acceptable(lib, m, b) && OrderAt(lib, s, b, order)
    requires Agree(lib, m, s, out, key, told, shown)
    ensures var r := Processed(lib, m, s, b, order);
            Agree(lib, m, r.after, out + r.out, key, Speak(lib, m, told, b, key),
                  shown + Restoring(lib, m, ShapeOf(NameIn(b, []), BlockRead(lib, b))))
  {
    var flushed := FlushBlocks(lib, m, s, order);
    if Flushing(lib, b) {
      var line := TransformLines(lib, m, Flushed(s), NameIn(b, []), b).out;
      FlushAgrees(lib, m, s, order, out, key, told, shown);
      EventAgrees(lib, m, Flushed(s), b, out + flushed, key, Segments(told.done + Restored(m, told.open), []), shown);
      Regroup(out, flushed, [line]);
    } else {
      var line := TransformLines(lib, m, s, NameIn(b, []), b).out;
      EventAgrees(lib, m, s, b, out, key, told, shown);
      assert flushed + [line] == [line];
    }
  }

  ghost predicate AllAcceptable(lib: Library, m: Mapping, blocks: seq<Block>) {
    forall i | 0 <= i < |blocks| :: Acceptable(lib, m, blocks[i])
  }

  /** The start of a run. */
  lemma StartsInStep(lib: Library, m: Mapping, key: Bytes)
    ensures Agree(lib, m, INITIAL, [], key, Segments([], []), [])
  {
    assert forall k :: Flushable(lib, INITIAL, k);
    assert SaidIn(lib, [], key) == [] + [];
    forall y ensures ContinuesAt(m, [], [], [], y) {
      assert [] + y == y && [] + Restored(m, y) == Restored(m, y);
    }
  }

  lemma ShownStep(lib: Library, m: Mapping, blocks: seq<Block>)
    requires blocks != []
    ensures var n := |blocks| - 1;
            Restoring(lib, m, ShownIn(lib, Messages(blocks)))
            == Restoring(lib, m, ShownIn(lib, Messages(blocks[..n])))
               + Restoring(lib, m, ShapeOf(NameIn(blocks[n], []), BlockRead(lib, blocks[n])))
  {
    var n := |blocks| - 1;
    WithLast(blocks);
    MessagesStep(lib, blocks[..n], blocks[n], []);
    RestoringConcat(lib, m, ShownIn(lib, Messages(blocks[..n])),
        ShapeOf(NameIn(blocks[n], []), BlockRead(lib, blocks[n])));
  }

  /** The last step of a run. */
  lemma RunLast(lib: Library, m: Mapping, blocks: seq<Block>, orders: seq<seq<Bytes>>, key: Bytes)
    requires blocks != [] && RunOrders(lib, m, blocks, orders)
    ensures var n := |blocks| - 1;
            && RunOrders(lib, m, blocks[..n], orders[..n])
            && var r := Ran(lib, m, blocks[..n], orders[..n]);
               var p := Processed(lib, m, r.after, blocks[n], orders[n]);
               && OrderAt(lib, r.after, blocks[n], orders[n])
               && Ran(lib, m, blocks, orders) == Out(r.out + p.out, p.after)
               && Spoken(lib, m, blocks, key) == Speak(lib, m, Spoken(lib, m, blocks[..n], key), blocks[n], key)
  {
  }

  lemma AcceptablePrefix(lib: Library, m: Mapping, blocks: seq<Block>, i: nat)
    requires AllAcceptable(lib, m, blocks) && i <= |blocks|
    ensures AllAcceptable(lib, m, blocks[..i]) && (!Marked(blocks) ==> !Marked(blocks[..i]))
    ensures i < |blocks| ==> Acceptable(lib, m, blocks[i])
  {
    forall j | 0 <= j < i ensures Acceptable(lib, m, blocks[..i][j]) { assert Acceptable(lib, m, blocks[j]); }
    if i < |blocks| { assert Acceptable(lib, m, blocks[i]); }
  }

  /** The client has been told and shown what it should after a run. */
  ghost predicate RunAgrees(lib: Library, m: Mapping, blocks: seq<Block>, orders: seq<seq<Bytes>>, key: Bytes)
    requires |orders| == |blocks|
  {
    var r := Ran(lib, m, blocks, orders);
    Agree(lib, m, r.after, r.out, key, Spoken(lib, m, blocks, key), Restoring(lib, m, ShownIn(lib, Messages(blocks))))
  }

  /** At every moment of every run, whatever the orders of its flushes. */
  lemma {:induction false} RunInStep(lib: Library, m: Mapping, blocks: seq<Block>, orders: seq<seq<Bytes>>, key: Bytes)
    requires Lawful(lib) && Sound(m) && AllAcceptable(lib, m, blocks) && RunOrders(lib, m, blocks, orders)
    ensures RunAgrees(lib, m, blocks, orders, key)
    decreases |blocks|
  {
    if blocks == [] {
      StartsInStep(lib, m, key);
    } else {
      var n := |blocks| - 1;
      AcceptablePrefix(lib, m, blocks, n);
      RunInStepLast(lib, m, blocks, orders, key);
      RunInStep(lib, m, blocks[..n], orders[..n], key);
    }
  }

  lemma RunInStepLast(lib: Library, m: Mapping, blocks: seq<Block>, orders: seq<seq<Bytes>>, key: Bytes)
    requires Lawful(lib) && Sound(m) && blocks != [] && Acceptable(lib, m, blocks[|blocks| - 1])
    requires RunOrders(lib, m, blocks, orders)
    ensures var n := |blocks| - 1;
            && RunOrders(lib, m, blocks[..n], orders[..n])
            && (RunAgrees(lib, m, blocks[..n], orders[..n], key) ==> RunAgrees(lib, m, blocks, orders, key))
  {
    var n := |blocks| - 1;
    RunLast(lib, m, blocks, orders, key);
    if RunAgrees(lib, m, blocks[..n], orders[..n], key) {
      var r := Ran(lib, m, blocks[..n], orders[..n]);
      BlockStep(lib, m, r.after, blocks[n], orders[n], r.out, key, Spoken(lib, m, blocks[..n], key),
        Restoring(lib, m, ShownIn(lib, Messages(blocks[..n]))));
      ShownStep(lib, m, blocks);
    }
  }

  lemma {:induction false} FlatOneLine(blocks: seq<Block>)
    requires GoodBlocks(blocks)
    ensures AllOneLine(Flat(blocks))
  {
    if blocks != [] { FlatOneLine(blocks[..|blocks| - 1]); }
  }

  /** No byte order mark comes to stand in front. */
  lemma {:induction false} NoMarkWritten(lib: Library, m: Mapping, blocks: seq<Block>, orders: seq<seq<Bytes>>)
    requires RunOrders(lib, m, blocks, orders) && !Marked(blocks) && GoodBlocks(blocks)
    ensures var r := Ran(lib, m, blocks, orders);
            && !Marked(r.out) && (r.out == [] <==> blocks == []) && (blocks == [] ==> r.after == INITIAL)
    decreases |blocks|
  {
    if blocks != [] {
      var n := |blocks| - 1;
      RunLast(lib, m, blocks, orders, []);
      NoMarkWritten(lib, m, blocks[..n], orders[..n]);
      if n == 0 {
        NothingToFlush(lib, orders[0]);
        FirstLineUnmarked(lib, m, INITIAL, blocks[0]);
        FirstLineUnmarked(lib, m, Flushed(INITIAL), blocks[0]);
      }
    }
  }

  lemma NothingToFlush(lib: Library, order: seq<Bytes>)
    ensures FlushOrder(INITIAL.pending, order) ==> order == []
  {
    if order != [] { assert order[0] in order && Get(INITIAL.pending, order[0]) == []; }
  }

  lemma FirstLineUnmarked(lib: Library, m: Mapping, s: State, b: Block)
    requires IsBlock(b) && !(MARK <= b[0])
    ensures !Marked([TransformLines(lib, m, s, NameIn(b, []), b).out])
  {
    var line := TransformLine(lib, m, s, NameIn(b, []), b[0]).out;
    if line != b[0] { assert line[0] == DATA[0] != MARK[0]; }
  }

  // ---------- what the client is shown, by what was sent ----------

  /** The data line read is the data line sent, restored: [DONE], text, or a payload path by path. */
  ghost predicate ValueRestored(lib: Library, m: Mapping, sent: Bytes, read: Bytes) {
    if lib.trimSpace(sent) == [0x5B, 0x44, 0x4F, 0x4E, 0x45, 0x5D] then read == [0x5B, 0x44, 0x4F, 0x4E, 0x45, 0x5D]
    else
      match lib.decode(sent)
      case Failed => read == Restored(m, sent)
      case Decoded(o) => lib.decode(read).Decoded? && IsRestored(m, Obj(o), Obj(lib.decode(read).payload))
  }

  /** The same lines, deltas in the same places; the others restored. */
  ghost predicate LinesRestored(lib: Library, m: Mapping, sent: seq<Line>, read: seq<Line>) {
    && |sent| == |read|
    && forall i | 0 <= i < |sent| ::
         if sent[i].Delta? then read[i] == sent[i]
         else read[i].Other? && ValueRestored(lib, m, sent[i].value, read[i].value)
  }

  ghost predicate ShapesRestored(lib: Library, m: Mapping, sent: seq<Shape>, read: seq<Shape>) {
    && |sent| == |read|
    && forall i | 0 <= i < |sent| ::
         sent[i].name == read[i].name && LinesRestored(lib, m, sent[i].lines, read[i].lines)
  }

  lemma RewrittenValue(lib: Library, m: Mapping, value: Bytes)
    requires Lawful(lib) && Sound(m)
    ensures ValueRestored(lib, m, value, Rewritten(lib, m, value))
  {
    if lib.trimSpace(value) != DONE && lib.decode(value).Decoded? {
      var o := lib.decode(value).payload;
      RestoredPayload(lib, m, o);
      RestoreJSONIsRestored(m, Obj(o));
      var w := RestoreJSON(Obj(o), m).value.members;
      assert Encodes(lib, w);
    }
  }

  lemma {:induction false} ExpectedIsRestored(lib: Library, m: Mapping, lines: seq<Line>)
    requires Lawful(lib) && Sound(m)
    ensures LinesRestored(lib, m, Masked(lines), Expected(lib, m, Masked(lines)))
  {
    if lines != [] {
      ExpectedIsRestored(lib, m, lines[1..]);
      if lines[0].Other? { RewrittenValue(lib, m, lines[0].value); }
      ExpectedHead(lib, m, lines);
    }
  }

  lemma ExpectedHead(lib: Library, m: Mapping, lines: seq<Line>)
    requires lines != [] && LinesRestored(lib, m, Masked(lines[1..]), Expected(lib, m, Masked(lines[1..])))
    requires lines[0].Other? ==> ValueRestored(lib, m, lines[0].value, Rewritten(lib, m, lines[0].value))
    ensures LinesRestored(lib, m, Masked(lines), Expected(lib, m, Masked(lines)))
  {
    var sent := Masked(lines);
    assert sent[1..] == Masked(lines[1..]) && sent[0] == Mask(lines[0]);
    var read := Expected(lib, m, sent);
    assert read[1..] == Expected(lib, m, sent[1..]);
    forall i | 0 <= i < |sent|
      ensures if sent[i].Delta? then read[i] == sent[i]
              else read[i].Other? && ValueRestored(lib, m, sent[i].value, read[i].value)
    {
      if i > 0 { assert sent[i] == sent[1..][i - 1] && read[i] == read[1..][i - 1]; }
    }
  }

  lemma {:induction false} RestoringIsRestored(lib: Library, m: Mapping, messages: seq<Message>)
    requires Lawful(lib) && Sound(m)
    ensures ShapesRestored(lib, m, ShownIn(lib, messages), Restoring(lib, m, ShownIn(lib, messages)))
  {
    if messages != [] {
      var n := |messages| - 1;
      RestoringIsRestored(lib, m, messages[..n]);
      ExpectedIsRestored(lib, m, Read(lib, messages[n].name, messages[n].data));
    }
  }

  /**
   * Client-view preservation. After any run and a flush in any order (that before a non-delta event, or
   * the one at the end), a client that reads the bytes written has been told, of every stream, exactly
   * the segment-wise restored text of that stream; and of everything else it has been shown the same
   * messages in the same order, with their payloads restored.
   */
  lemma ClientSees(lib: Library, m: Mapping, blocks: seq<Block>, orders: seq<seq<Bytes>>, last: seq<Bytes>, key: Bytes)
    requires Lawful(lib) && Sound(m) && AllAcceptable(lib, m, blocks) && RunOrders(lib, m, blocks, orders)
    requires FlushOrder(Ran(lib, m, blocks, orders).after.pending, last) && !Marked(blocks)
    ensures var r := Ran(lib, m, blocks, orders);
            var sent := View(Unlines(Flat(blocks)));
            var read := View(Unlines(Flat(r.out + FlushBlocks(lib, m, r.after, last))));
            var told := Spoken(lib, m, blocks, key);
            && SaidIn(lib, read, key) == told.done + Restored(m, told.open)
            && ShownIn(lib, read) == Restoring(lib, m, ShownIn(lib, sent))
            && ShapesRestored(lib, m, ShownIn(lib, sent), ShownIn(lib, read))
  {
    var r := Ran(lib, m, blocks, orders);
    var told := Spoken(lib, m, blocks, key);
    RunInStep(lib, m, blocks, orders, key);
    FlushStep(lib, m, r.after, last, r.out, key, told.done, told.open);
    var all := r.out + FlushBlocks(lib, m, r.after, last);
    assert GoodBlocks(blocks) by { assert forall i | 0 <= i < |blocks| :: Acceptable(lib, m, blocks[i]); }
    NoMarkWritten(lib, m, blocks, orders);
    NothingToFlush(lib, last);
    FlatOneLine(all);
    ViewOfBlocks(all);
    FlatOneLine(blocks);
    ViewOfBlocks(blocks);
    RestoringIsRestored(lib, m, Messages(blocks));
  }
}
