/**
 * The sseRestorer object: its methods update the pending texts, the last event and the last payload of
 * every stream and the counts, and each is proved against the functions of module Sse that say what it
 * writes and what state it leaves.
 */
module SseRestorer {
  import opened ByteText
  import opened Restore
  import opened Streaming
  import opened DecodedJson
  import opened RestoreJson
  import opened EventStream
  import opened Sse
  import opened Deltas
  import Replacer

  // ---------- lines as they are read ----------

  /** strings.TrimRight(line, "\r\n"). */
  function TrimSSELine(line: Bytes): (content: Bytes)
    ensures content <= line && (content != [] ==> content[|content| - 1] != CR && content[|content| - 1] != LF)
  {
    if line != [] && (line[|line| - 1] == CR || line[|line| - 1] == LF) then TrimSSELine(line[..|line| - 1]) else line
  }

  function Contents(lines: seq<Bytes>): seq<Bytes> {
    seq(|lines|, i requires 0 <= i < |lines| => TrimSSELine(lines[i]))
  }

  /** What ReadString('\n') returns: up to and including the first LF, or all there is. */
  function ReadString(s: Bytes): (n: nat)
    ensures n <= |s| && (s != [] ==> n > 0)
    ensures LF !in s[..if n > 0 then n - 1 else 0] && (n < |s| ==> s[n - 1] == LF)
  {
    if s == [] then 0
    else if s[0] == LF then 1
    else
      var n := 1 + ReadString(s[1..]);
      assert s[..n - 1] == if n == 1 then [] else [s[0]] + s[1..][..n - 2];
      n
  }

  method RestoreText(text: Bytes, mapping: Mapping) returns (out: Bytes)
    requires ShapedKeys(mapping)
    ensures out == Restored(mapping, text)
  {
    out := Replacer.RestoreText(text, mapping);
  }

  class Restorer {
    const lib: Library
    const mapping: Mapping
    const keepBytes: int
    var pending: map<Bytes, Bytes>
    var lastDeltaEvent: map<Bytes, Bytes>
    var lastDeltaObject: map<Bytes, Object>
    var restoreCounts: Counts
    /** All placeholders replaced so far: what restoreCounts counts. */
    ghost var hits: multiset<Bytes>

    ghost predicate Valid()
      reads this
    {
      ShapedKeys(mapping) && keepBytes == KeepBytes(mapping) && CountsAre(restoreCounts, hits)
    }

    ghost function Abs(): State
      reads this
    {
      State(pending, lastDeltaEvent, lastDeltaObject, hits)
    }

    constructor (lib: Library, mapping: Mapping)
      requires ShapedKeys(mapping)
      ensures Valid() && this.lib == lib && this.mapping == mapping && Abs() == INITIAL
    {
      var maxLen: nat := 0;
      var keys := mapping.Keys;
      while keys != {}
        invariant keys <= mapping.Keys
        invariant forall k | k in mapping && k !in keys :: |k| <= maxLen
        invariant maxLen > 0 ==> exists k | k in mapping :: |k| == maxLen
        decreases |keys|
      {
        var placeholder :| placeholder in keys;
        if |placeholder| > maxLen {
          maxLen := |placeholder|;
        }
        keys := keys - {placeholder};
      }
      if maxLen == 0 {
        maxLen := 1;
      }
      assert KeepBytes(mapping) == (maxLen - 1);
      this.lib := lib;
      this.mapping := mapping;
      this.keepBytes := maxLen - 1;
      pending, lastDeltaEvent, lastDeltaObject, restoreCounts := map[], map[], map[], map[];
      hits := multiset{};
    }

    method AddRestoreCounts(counts: Counts, ghost added: multiset<Bytes>)
      requires Valid() && CountsAre(counts, added)
      modifies this`restoreCounts, this`hits
      ensures Valid() && hits == old(hits) + added
    {
      restoreCounts := MergeCounts(restoreCounts, counts, hits, added);
      hits := hits + added;
    }

    method TransformDelta(key: Bytes, delta: Bytes) returns (prefix: Bytes)
      requires Valid()
      modifies this`pending, this`restoreCounts, this`hits
      ensures Valid()
      ensures var p := FeedKey(mapping, old(Abs()), key, delta);
              && prefix == p.emitted && pending == old(pending)[key := p.pending]
              && hits == old(hits) + multiset(p.hits)
    {
      var combined := (if key in pending then pending[key] else []) + delta;
      var counts := CountPlaceholderHitsByKey(combined, mapping);
      AddRestoreCounts(counts, multiset(Hits(mapping, combined)));
      var restored := Replacer.RestoreText(combined, mapping);
      var suffix;
      prefix, suffix := SplitStreamingSuffix(restored, keepBytes);
      pending := pending[key := suffix];
    }

    /** A payload whose text is the next piece of the stream key. */
    method TransformDeltaPayload(key: Bytes, typ: Bytes, payload: Object, eventName: Bytes) returns (out: Object)
      requires Valid() && DELTA in payload && payload[DELTA].Str?
      modifies this
      ensures Valid()
      ensures var p := FeedKey(mapping, old(Abs()), key, payload[DELTA].text);
              && out == payload[DELTA := Str(p.emitted)]
              && pending == old(pending)[key := p.pending]
              && hits == old(hits) + multiset(p.hits)
      ensures lastDeltaEvent == old(lastDeltaEvent)[key := if eventName == [] then typ else eventName]
      ensures lastDeltaObject == old(lastDeltaObject)[key := out]
    {
      var prefix := TransformDelta(key, payload[DELTA].text);
      out := payload[DELTA := Str(prefix)];
      RememberDelta(key, typ, eventName, out);
    }

    method RememberDelta(key: Bytes, typ: Bytes, eventName: Bytes, payload: Object)
      modifies this`lastDeltaEvent, this`lastDeltaObject
      ensures lastDeltaEvent == old(lastDeltaEvent)[key := if eventName == [] then typ else eventName]
      ensures lastDeltaObject == old(lastDeltaObject)[key := payload]
    {
      lastDeltaEvent := lastDeltaEvent[key := eventName];
      if lastDeltaEvent[key] == [] {
        lastDeltaEvent := lastDeltaEvent[key := typ];
      }
      lastDeltaObject := lastDeltaObject[key := payload];
    }

    method TransformOtherPayload(value: Bytes, payload: Object) returns (out: Bytes)
      requires Valid()
      modifies this`restoreCounts, this`hits
      ensures Valid()
      ensures var r := RestoreJSON(Obj(payload), mapping);
              && out == (if r.Value? then lib.marshal(r.value.members) else value)
              && hits == old(hits) + if r.Value? then TreeHits(Obj(payload), mapping) else multiset{}
    {
      var counts := AddPlaceholderCountsFromValue(map[], Obj(payload), mapping, multiset{});
      var restored := RestoreJSONValue(Obj(payload), mapping);
      if restored == Nothing {
        return value;
      }
      AddRestoreCounts(counts, TreeHits(Obj(payload), mapping));
      return lib.marshal(restored.value.members);
    }

    method TransformText(value: Bytes) returns (out: Bytes)
      requires Valid()
      modifies this`restoreCounts, this`hits
      ensures Valid() && out == Restored(mapping, value) && hits == old(hits) + multiset(Hits(mapping, value))
    {
      var counts := CountPlaceholderHitsByKey(value, mapping);
      AddRestoreCounts(counts, multiset(Hits(mapping, value)));
      out := RestoreText(value, mapping);
    }

    method TransformData(value: Bytes, eventName: Bytes) returns (out: Bytes)
      requires Valid()
      modifies this
      ensures Valid()
      ensures Out(out, Abs()) == Sse.TransformData(lib, mapping, old(Abs()), eventName, value)
      ensures Classify(lib, eventName, value).Other? ==> WrittenFor(lib, mapping, value, out)
      ensures match Classify(lib, eventName, value)
              case Delta(key, text) =>
                var p := Feed(mapping, keepBytes, Get(old(pending), key), text);
                && out == lib.marshal(lib.decode(value).payload[[0x64, 0x65, 0x6C, 0x74, 0x61] := Str(p.emitted)])
                && pending == old(pending)[key := p.pending]
              case Other(_) => pending == old(pending)
    {
      RewrittenExactly(lib, mapping, value);
      if lib.trimSpace(value) == DONE {
        assert hits + multiset{} == hits;
        return DONE;
      }
      match lib.decode(value) {
        case Failed =>
          out := TransformText(value);
        case Decoded(payload) =>
          if HasDeltaText(payload, eventName) {
            var typ := TypeOf(payload, eventName);
            var transformed := TransformDeltaPayload(DeltaKey(typ, payload), typ, payload, eventName);
            return lib.marshal(transformed);
          }
          out := TransformOtherPayload(value, payload);
      }
    }

    /** One line that is not blank-trimmed yet, with its terminator. */
    method TransformLine(line: Bytes, eventName: Bytes) returns (out: Bytes)
      requires Valid()
      modifies this
      ensures Valid()
      ensures var r := Sse.TransformLine(lib, mapping, old(Abs()), eventName, TrimSSELine(line));
              out == r.out + [LF] && Abs() == r.after
    {
      var content := TrimSSELine(line);
      var field := ParseSSEField(content);
      if field.NoField? || field.name != DATA {
        return content + [LF];
      }
      var transformed := TransformData(field.value, eventName);
      out := FieldLine(DATA, transformed) + [LF];
    }

    method TransformEvent(lines: seq<Bytes>, eventName: Bytes) returns (out: Bytes)
      requires Valid()
      modifies this
      ensures Valid()
      ensures var r := TransformLines(lib, mapping, old(Abs()), eventName, Contents(lines));
              out == Unlines(r.out) && Abs() == r.after
    {
      out := [];
      ghost var all := TransformLines(lib, mapping, Abs(), eventName, Contents(lines));
      ghost var done: seq<Bytes> := [];
      assert done + all.out == all.out && lines[0..] == lines;
      for i := 0 to |lines|
        invariant Valid() && out == Unlines(done)
        invariant var rest := TransformLines(lib, mapping, Abs(), eventName, Contents(lines[i..]));
                  all == Out(done + rest.out, rest.after)
      {
        ghost var before := Abs();
        var written := TransformLine(lines[i], eventName);
        ghost var r := Sse.TransformLine(lib, mapping, before, eventName, TrimSSELine(lines[i]));
        TransformHead(lib, mapping, before, eventName, lines, i, done);
        UnlinesConcat(done, [r.out]);
        OneLineBytes(r.out);
        out := out + written;
        done := done + [r.out];
      }
      assert Contents(lines[|lines|..]) == [] && done + [] == done;
    }

    /** order is that of the flush before the event, if there is one. */
    method ProcessEvent(lines: seq<Bytes>) returns (out: Bytes, ghost order: seq<Bytes>)
      requires Valid()
      modifies this
      ensures Valid()
      ensures OrderAt(lib, old(Abs()), Contents(lines), order)
      ensures var r := Processed(lib, mapping, old(Abs()), Contents(lines), order);
              out == Unlines(Flat(r.out)) && Abs() == r.after
    {
      out, order := [], [];
      ghost var before := Abs();
      var eventName, hasDelta := InspectSSEEvent(lib, lines);
      if !hasDelta {
        out, order := FlushAll();
      }
      var event := TransformEvent(lines, eventName);
      ProcessedBytes(lib, mapping, before, Contents(lines), order);
      out := out + event;
    }

    method HasPending() returns (any: bool)
      ensures any <==> exists key :: Get(pending, key) != []
    {
      var keys := pending.Keys;
      while keys != {}
        invariant keys <= pending.Keys
        invariant forall key | key in pending && key !in keys :: pending[key] == []
        decreases |keys|
      {
        var key :| key in keys;
        if pending[key] != [] {
          assert Get(pending, key) != [];
          return true;
        }
        keys := keys - {key};
      }
      return false;
    }

    /** order is the order in which Go's random iteration happens to visit the streams. */
    method FlushAll() returns (out: Bytes, ghost order: seq<Bytes>)
      requires Valid()
      modifies this`pending
      ensures Valid() && Abs() == Flushed(old(Abs()))
      ensures FlushOrder(old(pending), order)
      ensures out == Unlines(Flat(FlushBlocks(lib, mapping, old(Abs()), order)))
    {
      var any := HasPending();
      if !any {
        NothingPending(Abs());
        return [], [];
      }
      out, order := FlushPending();
    }

    method FlushPending() returns (out: Bytes, ghost order: seq<Bytes>)
      requires Valid()
      modifies this`pending
      ensures pending == Flushed(old(Abs())).pending
      ensures FlushOrder(old(pending), order)
      ensures out == Unlines(Flat(FlushBlocks(lib, mapping, old(Abs()), order)))
    {
      out, order := [], [];
      ghost var before := Abs();
      var keys := pending.Keys;
      while keys != {}
        invariant InFlush(lib, mapping, before, Abs(), keys, order, out)
        decreases keys
      {
        var key :| key in keys;
        out, order := FlushOne(key, out, before, keys, order);
        keys := keys - {key};
      }
      AllFlushed(before, pending, order);
    }

    /** One stream of the flush that began at before, if it has something pending. */
    method FlushOne(key: Bytes, flushed: Bytes, ghost before: State, ghost keys: set<Bytes>, ghost order: seq<Bytes>)
      returns (out: Bytes, ghost order': seq<Bytes>)
      requires Valid() && InFlush(lib, mapping, before, Abs(), keys, order, flushed) && key in keys
      modifies this`pending
      ensures InFlush(lib, mapping, before, Abs(), keys - {key}, order', out)
    {
      out, order' := flushed, order;
      InFlushMore(lib, mapping, before, Abs(), keys, order, flushed, key);
      if pending[key] != [] {
        var event := FlushKey(key);
        out := flushed + event;
        order' := order + [key];
        pending := pending[key := []];
      }
    }

    /** The event that flushes one stream. */
    method FlushKey(key: Bytes) returns (out: Bytes)
      requires Valid() && key in pending
      ensures out == Unlines(FlushBlock(lib, mapping, Abs(), key))
    {
      var name := if key in lastDeltaEvent then lastDeltaEvent[key] else [];
      var payload := if key in lastDeltaObject then lastDeltaObject[key] else map[TYPE := Str(name)];
      var text := RestoreText(pending[key], mapping);
      payload := payload[DELTA := Str(text)];
      assert payload == FlushPayload(mapping, Abs(), key);
      var data := lib.marshal(payload);
      out := WriteEvent(name, data);
    }
  }

  lemma ContentsHead(lines: seq<Bytes>, i: nat)
    requires i < |lines|
    ensures Contents(lines[i..]) == [TrimSSELine(lines[i])] + Contents(lines[i + 1..])
  {
  }

  /** The transformation of the lines from i on begins with that of line i. */
  lemma TransformHead(lib: Library, m: Mapping, s: State, eventName: Bytes, lines: seq<Bytes>, i: nat, done: seq<Bytes>)
    requires i < |lines|
    ensures var r := Sse.TransformLine(lib, m, s, eventName, TrimSSELine(lines[i]));
            var rest := TransformLines(lib, m, r.after, eventName, Contents(lines[i + 1..]));
            var all := TransformLines(lib, m, s, eventName, Contents(lines[i..]));
            all.after == rest.after && done + all.out == (done + [r.out]) + rest.out
  {
    ContentsHead(lines, i);
    var line, tail := TrimSSELine(lines[i]), Contents(lines[i + 1..]);
    assert ([line] + tail)[1..] == tail;
    var r := Sse.TransformLine(lib, m, s, eventName, line);
    Regroup(done, [r.out], TransformLines(lib, m, r.after, eventName, tail).out);
  }

  lemma ProcessedBytes(lib: Library, m: Mapping, s: State, block: Block, order: seq<Bytes>)
    ensures var s' := if Flushing(lib, block) then Flushed(s) else s;
            Unlines(Flat(Processed(lib, m, s, block, order).out))
            == Unlines(Flat(FlushBlocks(lib, m, s, order)))
               + Unlines(TransformLines(lib, m, s', NameIn(block, []), block).out)
  {
    var s' := if Flushing(lib, block) then Flushed(s) else s;
    var blocks, b := FlushBlocks(lib, m, s, order), TransformLines(lib, m, s', NameIn(block, []), block).out;
    assert (blocks + [b])[..|blocks|] == blocks;
    UnlinesConcat(Flat(blocks), b);
  }

  method InspectSSEEvent(lib: Library, lines: seq<Bytes>) returns (eventName: Bytes, hasDelta: bool)
    ensures eventName == NameIn(Contents(lines), [])
    ensures hasDelta <==> HasDelta(lib, Contents(lines), [])
    ensures exists j :: NamedBy(Contents(lines), |lines|, [], eventName, j)
    ensures hasDelta <==> SomeDelta(lib, Contents(lines), [])
  {
    ghost var last := NameInExactly(Contents(lines), []);
    InspectsExactly(lib, Contents(lines), []);
    eventName, hasDelta := [], false;
    assert lines[0..] == lines;
    for i := 0 to |lines|
      invariant NameIn(Contents(lines), []) == NameIn(Contents(lines[i..]), eventName)
      invariant HasDelta(lib, Contents(lines), []) <==> hasDelta || HasDelta(lib, Contents(lines[i..]), eventName)
    {
      var content := TrimSSELine(lines[i]);
      ContentsHead(lines, i);
      assert Contents(lines[i..])[1..] == Contents(lines[i + 1..]);
      match ParseSSEField(content) {
        case NoField =>
          continue;
        case Field(name, value) =>
          if name == EVENT {
            eventName := value;
          } else if name == DATA {
            var payload := lib.unmarshal(value);
            if payload.Failed? {
              continue;
            }
            if HasDeltaText(payload.payload, eventName) {
              hasDelta := true;
            }
          }
      }
    }
    assert Contents(lines[|lines|..]) == [];
  }

  method WriteEvent(name: Bytes, data: Bytes) returns (out: Bytes)
    ensures out == Unlines(EventLines(name, data))
  {
    out := [];
    if name != [] {
      out := FieldLine(EVENT, name) + [LF];
    }
    out := out + (FieldLine(DATA, data) + [LF] + [LF]);
    EventBytes(name, data);
  }

  /** In the middle of a flush: the streams of keys are still to come, those of order are done. */
  ghost predicate HalfFlushed(before: map<Bytes, Bytes>, now: map<Bytes, Bytes>, keys: set<Bytes>, order: seq<Bytes>) {
    && now.Keys == before.Keys
    && (forall key | key in now :: now[key] == if key in keys then before[key] else [])
    && (forall key :: key in order <==> key !in keys && Get(before, key) != [])
    && Unrepeated(order)
  }

  /** The flush that began at before has come to now, and written out. */
  ghost predicate InFlush(lib: Library, m: Mapping, before: State, now: State, keys: set<Bytes>, order: seq<Bytes>,
                          out: Bytes)
  {
    && keys <= now.pending.Keys && now.lastEvent == before.lastEvent && now.lastObject == before.lastObject
    && HalfFlushed(before.pending, now.pending, keys, order)
    && out == Unlines(Flat(FlushBlocks(lib, m, before, order)))
  }

  lemma InFlushMore(lib: Library, m: Mapping, before: State, now: State, keys: set<Bytes>, order: seq<Bytes>,
                    out: Bytes, key: Bytes)
    requires InFlush(lib, m, before, now, keys, order, out) && key in keys
    ensures now.pending[key] == [] ==> InFlush(lib, m, before, now, keys - {key}, order, out)
    ensures now.pending[key] != [] ==>
              InFlush(lib, m, before, now.(pending := now.pending[key := []]), keys - {key}, order + [key],
                      out + Unlines(FlushBlock(lib, m, now, key)))
  {
    FlushedMore(before.pending, now.pending, keys, order, key);
    FlushAppends(lib, m, before, now, order, key);
  }

  lemma FlushedMore(before: map<Bytes, Bytes>, now: map<Bytes, Bytes>, keys: set<Bytes>, order: seq<Bytes>, key: Bytes)
    requires HalfFlushed(before, now, keys, order) && key in keys && key in now
    ensures Get(now, key) == Get(before, key)
    ensures now[key] == [] ==> HalfFlushed(before, now, keys - {key}, order)
    ensures now[key] != [] ==> HalfFlushed(before, now[key := []], keys - {key}, order + [key])
  {
    assert Get(before, key) == now[key];
    assert forall k :: k in order + [key] <==> k in order || k == key;
  }

  lemma NothingPending(s: State)
    requires !exists key :: Get(s.pending, key) != []
    ensures FlushOrder(s.pending, []) && Flushed(s) == s
  {
    assert forall key | key in s.pending :: s.pending[key] == Get(s.pending, key);
    assert s.pending == Flushed(s).pending;
  }

  lemma AllFlushed(before: State, now: map<Bytes, Bytes>, order: seq<Bytes>)
    requires HalfFlushed(before.pending, now, {}, order)
    ensures now == Flushed(before).pending && FlushOrder(before.pending, order)
  {
    assert forall key | key in now :: now[key] == [];
  }

  lemma OneLineBytes(line: Bytes)
    ensures Unlines([line]) == line + [LF]
  {
    var none: seq<Bytes> := [];
    assert [line][1..] == none && Unlines(none) == [];
    assert (line + [LF]) + [] == line + [LF];
  }

  lemma EventBytes(name: Bytes, data: Bytes)
    ensures Unlines(EventLines(name, data))
         == (if name == [] then [] else FieldLine(EVENT, name) + [LF]) + (FieldLine(DATA, data) + [LF] + [LF])
  {
    var event, value := FieldLine(EVENT, name), FieldLine(DATA, data);
    var blank: Block := [[]];
    OneLineBytes(event);
    OneLineBytes(value);
    OneLineBytes([]);
    UnlinesConcat([value], blank);
    assert [value] + blank == [value, []];
    assert Unlines([value, []]) == value + [LF] + [LF];
    UnlinesConcat([event], [value, []]);
    if name == [] {
      assert [] + [value, []] == [value, []];
      assert EventLines(name, data) == [value, []];
    }
  }

  /** One more stream is flushed; that others have been flushed already makes no difference to it. */
  lemma FlushAppends(lib: Library, m: Mapping, before: State, now: State, order: seq<Bytes>, key: Bytes)
    requires now.lastEvent == before.lastEvent && now.lastObject == before.lastObject
    requires Get(now.pending, key) == Get(before.pending, key)
    ensures Unlines(Flat(FlushBlocks(lib, m, before, order + [key])))
         == Unlines(Flat(FlushBlocks(lib, m, before, order))) + Unlines(FlushBlock(lib, m, now, key))
  {
    assert FlushPayload(m, before, key) == FlushPayload(m, now, key);
    assert (order + [key])[..|order|] == order;
    var blocks, b := FlushBlocks(lib, m, before, order), FlushBlock(lib, m, before, key);
    assert (blocks + [b])[..|blocks|] == blocks;
    UnlinesConcat(Flat(blocks), b);
  }
}
