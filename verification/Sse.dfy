/** The streaming restorer of the gateway: server-sent events in, server-sent events out. */
module Sse {
  import opened ByteText
  import opened Restore
  import opened Streaming
  import opened DecodedJson
  import opened RestoreJson
  import opened EventStream

  type Object = map<Bytes, Json>
  datatype Decoded = Failed | Decoded(payload: Object)

  /**
   * The library functions the restorer calls: a JSON decoder that stops after the first value, a
   * strict one, an encoder, and strings.TrimSpace. isNumber holds of the spellings of JSON numbers.
   */
  datatype Library = Library(
    decode: Bytes -> Decoded,
    unmarshal: Bytes -> Decoded,
    marshal: Object -> Bytes,
    trimSpace: Bytes -> Bytes,
    isNumber: Bytes -> bool)

  const DONE: Bytes := [0x5B, 0x44, 0x4F, 0x4E, 0x45, 0x5D]               // [DONE]
  const TYPE: Bytes := [0x74, 0x79, 0x70, 0x65]                           // type
  const DELTA: Bytes := [0x64, 0x65, 0x6C, 0x74, 0x61]                    // delta
  const DOT_DELTA: Bytes := [0x2E, 0x64, 0x65, 0x6C, 0x74, 0x61]          // .delta
  const UNDERSCORE_DELTA: Bytes := [0x5F, 0x64, 0x65, 0x6C, 0x74, 0x61]   // _delta
  const BAR: Bytes := [0x7C]
  const EQUALS: Bytes := [0x3D]
  const ID_FIELDS: seq<Bytes> := [
    [0x69, 0x74, 0x65, 0x6D, 0x5F, 0x69, 0x64],                                               // item_id
    [0x6F, 0x75, 0x74, 0x70, 0x75, 0x74, 0x5F, 0x69, 0x6E, 0x64, 0x65, 0x78],                 // output_index
    [0x63, 0x6F, 0x6E, 0x74, 0x65, 0x6E, 0x74, 0x5F, 0x69, 0x6E, 0x64, 0x65, 0x78],           // content_index
    [0x73, 0x75, 0x6D, 0x6D, 0x61, 0x72, 0x79, 0x5F, 0x69, 0x6E, 0x64, 0x65, 0x78],           // summary_index
    [0x63, 0x61, 0x6C, 0x6C, 0x5F, 0x69, 0x64]                                                // call_id
  ]

  // ---------- reading a payload ----------

  function StringAt(o: Object, field: Bytes): Bytes {
    if field in o && o[field].Str? then o[field].text else []
  }

  function TypeOf(o: Object, eventName: Bytes): Bytes {
    if StringAt(o, TYPE) == [] then eventName else StringAt(o, TYPE)
  }

  predicate IsDeltaEvent(typ: Bytes) {
    || OccursAt(typ, DOT_DELTA, |typ| - |DOT_DELTA|)
    || exists i | 0 <= i <= |typ| :: OccursAt(typ, UNDERSCORE_DELTA, i)
  }

  function KeyString(v: Json): Bytes {
    match v
    case Str(s) => s
    case Number(spelling) => spelling
    case _ => []
  }

  function IDParts(o: Object, fields: seq<Bytes>): Bytes {
    if fields == [] then []
    else (if fields[0] in o then BAR + fields[0] + EQUALS + KeyString(o[fields[0]]) else []) + IDParts(o, fields[1..])
  }

  function DeltaKey(typ: Bytes, o: Object): Bytes {
    typ + IDParts(o, ID_FIELDS)
  }

  predicate HasDeltaText(o: Object, eventName: Bytes) {
    DELTA in o && o[DELTA].Str? && IsDeltaEvent(TypeOf(o, eventName))
  }

  /** What one data line of an event means: a piece of the text of one stream, or something else. */
  datatype Line = Delta(key: Bytes, text: Bytes) | Other(value: Bytes)

  function Classify(lib: Library, eventName: Bytes, value: Bytes): Line {
    if lib.trimSpace(value) == DONE then Other(value)
    else
      match lib.decode(value)
      case Failed => Other(value)
      case Decoded(o) =>
        if HasDeltaText(o, eventName) then Delta(DeltaKey(TypeOf(o, eventName), o), o[DELTA].text) else Other(value)
  }

  /** The answer of inspectSSEEvent: the event name counts only for the data lines behind it. */
  function HasDelta(lib: Library, lines: seq<Bytes>, eventName: Bytes): bool
    decreases |lines|
  {
    if lines == [] then false
    else
      match ParseSSEField(lines[0])
      case NoField => HasDelta(lib, lines[1..], eventName)
      case Field(name, value) =>
        if name == EVENT then HasDelta(lib, lines[1..], value)
        else
          || (name == DATA && lib.unmarshal(value).Decoded? && HasDeltaText(lib.unmarshal(value).payload, eventName))
          || HasDelta(lib, lines[1..], eventName)
  }

  // ---------- the state ----------

  /** The restorer's maps, and the placeholders it has replaced so far. */
  datatype State = State(
    pending: map<Bytes, Bytes>,
    lastEvent: map<Bytes, Bytes>,
    lastObject: map<Bytes, Object>,
    hits: multiset<Bytes>)

  const INITIAL := State(map[], map[], map[], multiset{})

  function Get(m: map<Bytes, Bytes>, key: Bytes): Bytes {
    if key in m then m[key] else []
  }

  ghost function FeedKey(m: Mapping, s: State, key: Bytes, text: Bytes): Progress {
    Feed(m, KeepBytes(m), Get(s.pending, key), text)
  }

  /** A data line that carries no delta, restored. */
  ghost function Rewritten(lib: Library, m: Mapping, value: Bytes): Bytes {
    if lib.trimSpace(value) == DONE then DONE
    else
      match lib.decode(value)
      case Failed => Restored(m, value)
      case Decoded(o) =>
        if RestoreJSON(Obj(o), m).Value? then lib.marshal(RestoreJSON(Obj(o), m).value.members) else value
  }

  /** out is what a data line without a delta becomes: [DONE], restored text, or the restored payload. */
  ghost predicate WrittenFor(lib: Library, m: Mapping, value: Bytes, out: Bytes) {
    if lib.trimSpace(value) == [0x5B, 0x44, 0x4F, 0x4E, 0x45, 0x5D] then out == [0x5B, 0x44, 0x4F, 0x4E, 0x45, 0x5D]
    else
      match lib.decode(value)
      case Failed => out == Restored(m, value)
      case Decoded(o) =>
        || (HasUnsupported(Obj(o)) && out == value)
        || (!HasUnsupported(Obj(o)) && exists w :: out == lib.marshal(w) && IsRestored(m, Obj(o), Obj(w)))
  }

  lemma RewrittenExactly(lib: Library, m: Mapping, value: Bytes)
    ensures WrittenFor(lib, m, value, Rewritten(lib, m, value))
  {
    if lib.decode(value).Decoded? {
      var v := Obj(lib.decode(value).payload);
      FailsExactly(m, v);
      RestoreJSONIsRestored(m, v);
      if RestoreJSON(v, m).Value? {
        var w := RestoreJSON(v, m).value.members;
        assert RestoreJSON(v, m).value == Obj(w);
        assert lib.marshal(w) == lib.marshal(w) && IsRestored(m, v, Obj(w));
      }
    }
  }

  ghost function RewrittenHits(lib: Library, m: Mapping, value: Bytes): multiset<Bytes> {
    if lib.trimSpace(value) == DONE then multiset{}
    else
      match lib.decode(value)
      case Failed => multiset(Hits(m, value))
      case Decoded(o) => if RestoreJSON(Obj(o), m).Value? then TreeHits(Obj(o), m) else multiset{}
  }

  datatype Out<T> = Out(out: T, after: State)

  /** One delta of the stream key, in the payload o. */
  ghost function AfterDelta(m: Mapping, s: State, eventName: Bytes, o: Object): Out<Object>
    requires HasDeltaText(o, eventName)
  {
    var typ := TypeOf(o, eventName);
    var key := DeltaKey(typ, o);
    var p := FeedKey(m, s, key, o[DELTA].text);
    var o' := o[DELTA := Str(p.emitted)];
    Out(o', State(
          s.pending[key := p.pending],
          s.lastEvent[key := if eventName == [] then typ else eventName],
          s.lastObject[key := o'],
          s.hits + multiset(p.hits)))
  }

  /** One data line: what is written for its value, and the state behind it. */
  ghost function TransformData(lib: Library, m: Mapping, s: State, eventName: Bytes, value: Bytes): Out<Bytes> {
    match Classify(lib, eventName, value)
    case Delta(_, _) =>
      var r := AfterDelta(m, s, eventName, lib.decode(value).payload);
      Out(lib.marshal(r.out), r.after)
    case Other(_) =>
      Out(Rewritten(lib, m, value), s.(hits := s.hits + RewrittenHits(lib, m, value)))
  }

  ghost function TransformLine(lib: Library, m: Mapping, s: State, eventName: Bytes, line: Bytes): Out<Bytes> {
    var f := ParseSSEField(line);
    if f.Field? && f.name == DATA then
      var r := TransformData(lib, m, s, eventName, f.value);
      Out(FieldLine(DATA, r.out), r.after)
    else Out(line, s)
  }

  ghost function TransformLines(lib: Library, m: Mapping, s: State, eventName: Bytes,
    lines: seq<Bytes>): Out<seq<Bytes>>
    decreases |lines|
  {
    if lines == [] then Out([], s)
    else
      var first := TransformLine(lib, m, s, eventName, lines[0]);
      var rest := TransformLines(lib, m, first.after, eventName, lines[1..]);
      Out([first.out] + rest.out, rest.after)
  }

  // ---------- flushing ----------

  /** The streams with something pending, each once: one order in which Go may range over them. */
  ghost predicate FlushOrder(pending: map<Bytes, Bytes>, order: seq<Bytes>) {
    && (forall key :: key in order <==> Get(pending, key) != [])
    && Unrepeated(order)
  }

  ghost function FlushPayload(m: Mapping, s: State, key: Bytes): Object {
    var o := if key in s.lastObject then s.lastObject[key] else map[TYPE := Str(Get(s.lastEvent, key))];
    o[DELTA := Str(Restored(m, Get(s.pending, key)))]
  }

  /** The event that flushes one stream. */
  ghost function FlushBlock(lib: Library, m: Mapping, s: State, key: Bytes): Block {
    EventLines(Get(s.lastEvent, key), lib.marshal(FlushPayload(m, s, key)))
  }

  function EventLines(name: Bytes, value: Bytes): Block {
    (if name == [] then [] else [FieldLine(EVENT, name)]) + [FieldLine(DATA, value), []]
  }

  ghost function FlushBlocks(lib: Library, m: Mapping, s: State, order: seq<Bytes>): seq<Block> {
    if order == [] then []
    else FlushBlocks(lib, m, s, order[..|order| - 1]) + [FlushBlock(lib, m, s, order[|order| - 1])]
  }

  ghost function Flushed(s: State): State {
    s.(pending := map key | key in s.pending :: [])
  }

  // ---------- whole events ----------

  /** Whether an event makes everything pending be flushed first. */
  predicate Flushing(lib: Library, block: Block) {
    !HasDelta(lib, block, [])
  }

  ghost predicate OrderAt(lib: Library, s: State, block: Block, order: seq<Bytes>) {
    if Flushing(lib, block) then FlushOrder(s.pending, order) else order == []
  }

  ghost function Processed(lib: Library, m: Mapping, s: State, block: Block, order: seq<Bytes>): Out<seq<Block>> {
    var s' := if Flushing(lib, block) then Flushed(s) else s;
    var r := TransformLines(lib, m, s', NameIn(block, []), block);
    Out(FlushBlocks(lib, m, s, order) + [r.out], r.after)
  }

  /** The events written for blocks, when the flush before block i visits the streams as in orders[i]. */
  ghost function Ran(lib: Library, m: Mapping, blocks: seq<Block>, orders: seq<seq<Bytes>>): Out<seq<Block>>
    requires |orders| == |blocks|
  {
    if blocks == [] then Out([], INITIAL)
    else
      var n := |blocks| - 1;
      var front := Ran(lib, m, blocks[..n], orders[..n]);
      var last := Processed(lib, m, front.after, blocks[n], orders[n]);
      Out(front.out + last.out, last.after)
  }

  /** orders are possible for the flushes of a run. */
  ghost predicate RunOrders(lib: Library, m: Mapping, blocks: seq<Block>, orders: seq<seq<Bytes>>) {
    && |orders| == |blocks|
    && (blocks == [] ||
        var n := |blocks| - 1;
        && RunOrders(lib, m, blocks[..n], orders[..n])
        && OrderAt(lib, Ran(lib, m, blocks[..n], orders[..n]).after, blocks[n], orders[n]))
  }
}
