/** Restoring and counting placeholders in decoded JSON. */
module RestoreJson {
  import opened ByteText
  import opened Restore
  import opened Streaming
  import opened DecodedJson
  import Replacer

  // ---------- restoring ----------

  /** The value with every string restored; an unsupported value anywhere is the error Nothing. */
  ghost function RestoreJSON(v: Json, m: Mapping): Found {
    match v
    case Str(s) => Value(Str(Restored(m, s)))
    case Arr(items) =>
      if forall i | 0 <= i < |items| :: RestoreJSON(items[i], m).Value? then
        Value(Arr(seq(|items|, i requires 0 <= i < |items| => RestoreJSON(items[i], m).value)))
      else Nothing
    case Obj(members) =>
      if forall k | k in members :: RestoreJSON(members[k], m).Value? then
        Value(Obj(map k | k in members :: RestoreJSON(members[k], m).value))
      else Nothing
    case Unsupported => Nothing
    case _ => Value(v)
  }

  method RestoreJSONValue(v: Json, mapping: Mapping) returns (out: Found)
    requires ShapedKeys(mapping)
    ensures out == RestoreJSON(v, mapping)
    decreases v
  {
    match v {
      case Str(s) =>
        var text := Replacer.RestoreText(s, mapping);
        return Value(Str(text));
      case Arr(items) =>
        out := RestoreItems(v, mapping);
      case Obj(members) =>
        out := RestoreMembers(v, mapping);
      case Unsupported =>
        return Nothing;
      case _ =>
        return Value(v);
    }
  }

  method RestoreItems(v: Json, mapping: Mapping) returns (out: Found)
    requires ShapedKeys(mapping) && v.Arr?
    ensures out == RestoreJSON(v, mapping)
    decreases v, 0
  {
    var items: seq<Json> := [];
    for i := 0 to |v.items|
      invariant |items| == i
      invariant forall j | 0 <= j < i :: RestoreJSON(v.items[j], mapping) == Value(items[j])
    {
      var restored := RestoreJSONValue(v.items[i], mapping);
      if restored == Nothing {
        return Nothing;
      }
      items := items + [restored.value];
    }
    assert items == RestoreJSON(v, mapping).value.items;
    return Value(Arr(items));
  }

  method RestoreMembers(v: Json, mapping: Mapping) returns (out: Found)
    requires ShapedKeys(mapping) && v.Obj?
    ensures out == RestoreJSON(v, mapping)
    decreases v, 0
  {
    var members: map<Bytes, Json> := map[];
    var keys := v.members.Keys;
    while keys != {}
      invariant keys <= v.members.Keys && members.Keys == v.members.Keys - keys
      invariant forall k | k in members :: RestoreJSON(v.members[k], mapping) == Value(members[k])
      decreases |keys|
    {
      var k :| k in keys;
      var restored := RestoreJSONValue(v.members[k], mapping);
      if restored == Nothing {
        return Nothing;
      }
      members := members[k := restored.value];
      keys := keys - {k};
    }
    assert members == RestoreJSON(v, mapping).value.members;
    return Value(Obj(members));
  }

  /** after is before with its own text restored; of a collection only the extent is compared. */
  ghost predicate RestoredHere(m: Mapping, before: Json, after: Json) {
    match before
    case Str(s) => after == Str(Restored(m, s))
    case Arr(items) => after.Arr? && |after.items| == |items|
    case Obj(members) => after.Obj? && after.members.Keys == members.Keys
    case _ => after == before
  }

  lemma RestoredChild(m: Mapping, v: Json, w: Json, place: Place)
    requires RestoreJSON(v, m) == Value(w)
    ensures Child(v, place).Value? <==> Child(w, place).Value?
    ensures Child(v, place).Value? ==> RestoreJSON(Child(v, place).value, m) == Child(w, place)
    ensures RestoredHere(m, v, w)
  {
  }

  /** Keys, lengths and everything but strings stay; every string, wherever it is, is restored. */
  lemma {:induction false} RestoredEverywhere(m: Mapping, v: Json, w: Json, path: Path)
    requires RestoreJSON(v, m) == Value(w)
    ensures At(v, path).Value? <==> At(w, path).Value?
    ensures At(v, path).Value? ==> RestoredHere(m, At(v, path).value, At(w, path).value)
    decreases |path|
  {
    if path == [] {
      RestoredChild(m, v, w, Key([]));
    } else {
      RestoredChild(m, v, w, path[0]);
      if Child(v, path[0]).Value? {
        RestoredEverywhere(m, Child(v, path[0]).value, Child(w, path[0]).value, path[1..]);
      }
    }
  }

  /** w has the paths, keys, lengths and scalars of v, and at every path the string of v restored. */
  ghost predicate IsRestored(m: Mapping, v: Json, w: Json) {
    forall path ::
      && (At(v, path).Value? <==> At(w, path).Value?)
      && (At(v, path).Value? ==> RestoredHere(m, At(v, path).value, At(w, path).value))
  }

  lemma RestoreJSONIsRestored(m: Mapping, v: Json)
    ensures RestoreJSON(v, m).Value? ==> IsRestored(m, v, RestoreJSON(v, m).value)
  {
    if RestoreJSON(v, m).Value? {
      forall path
        ensures At(v, path).Value? <==> At(RestoreJSON(v, m).value, path).Value?
        ensures At(v, path).Value? ==> RestoredHere(m, At(v, path).value, At(RestoreJSON(v, m).value, path).value)
      {
        RestoredEverywhere(m, v, RestoreJSON(v, m).value, path);
      }
    }
  }

  /** Some value inside v is of no JSON type. */
  ghost predicate HasUnsupported(v: Json) {
    exists path :: At(v, path) == Value(Unsupported)
  }

  lemma PathInto(v: Json, place: Place, path: Path)
    requires Child(v, place).Value?
    ensures At(v, [place] + path) == At(Child(v, place).value, path)
  {
    assert ([place] + path)[1..] == path;
  }

  lemma {:induction false} UnsupportedAt(m: Mapping, v: Json, path: Path)
    requires At(v, path) == Value(Unsupported)
    ensures RestoreJSON(v, m) == Nothing
    decreases |path|
  {
    if path != [] {
      UnsupportedAt(m, Child(v, path[0]).value, path[1..]);
    }
  }

  /** RestoreJSON fails exactly on values that are not JSON. */
  lemma {:induction false} FailsExactly(m: Mapping, v: Json)
    ensures RestoreJSON(v, m) == Nothing <==> HasUnsupported(v)
    decreases v
  {
    if HasUnsupported(v) {
      var path :| At(v, path) == Value(Unsupported);
      UnsupportedAt(m, v, path);
    } else {
      assert At(v, []) != Value(Unsupported);
      forall place | Child(v, place).Value? ensures RestoreJSON(Child(v, place).value, m).Value? {
        FailsExactly(m, Child(v, place).value);
        forall path ensures At(Child(v, place).value, path) != Value(Unsupported) { PathInto(v, place, path); }
      }
      assert v.Arr? ==> forall i: nat | i < |v.items| :: Child(v, Index(i)) == Value(v.items[i]);
      assert v.Obj? ==> forall k | k in v.members :: Child(v, Key(k)) == Value(v.members[k]);
    }
  }

  /** Restoring restored JSON changes nothing. */
  lemma {:induction false} RestoreJsonAgain(m: Mapping, v: Json, w: Json)
    requires ShapedKeys(m) && Inert(m) && RestoreJSON(v, m) == Value(w)
    ensures RestoreJSON(w, m) == Value(w)
    decreases v
  {
    match v
    case Str(s) => RestoreAgain(m, s, []);
    case Arr(items) =>
      forall i | 0 <= i < |items| ensures RestoreJSON(w.items[i], m) == Value(w.items[i]) {
        RestoreJsonAgain(m, items[i], w.items[i]);
      }
      assert RestoreJSON(w, m).value.items == w.items;
    case Obj(members) =>
      forall k | k in members ensures RestoreJSON(w.members[k], m) == Value(w.members[k]) {
        RestoreJsonAgain(m, members[k], w.members[k]);
      }
      assert RestoreJSON(w, m).value.members == w.members;
    case _ =>
  }

  // ---------- counting ----------

  type Counts = map<Bytes, nat>

  /** counts holds the multiplicities of hits, and nothing with multiplicity 0. */
  ghost predicate CountsAre(counts: Counts, hits: multiset<Bytes>) {
    && (forall k :: hits[k] == if k in counts then counts[k] else 0)
    && (forall k | k in counts :: counts[k] > 0)
  }

  method CountPlaceholderHitsByKey(s: Bytes, mapping: Mapping) returns (counts: Counts)
    requires ShapedKeys(mapping)
    ensures CountsAre(counts, multiset(Hits(mapping, s)))
  {
    HitsAreKeys(mapping, s);
    counts := map[];
    if s == [] || |mapping| == 0 {
      assert s != [] ==> mapping.Keys == {};
      RestoredClean(mapping, s);
      return;
    }
    var keys := mapping.Keys;
    while keys != {}
      invariant keys <= mapping.Keys
      invariant forall k | k in mapping && k !in keys :: Count(s, k) == if k in counts then counts[k] else 0
      invariant forall k | k in counts :: k in mapping && k !in keys && counts[k] > 0
      decreases |keys|
    {
      var placeholder :| placeholder in keys;
      var count := Count(s, placeholder);
      if count > 0 {
        counts := counts[placeholder := count];
      }
      keys := keys - {placeholder};
    }
    forall k ensures multiset(Hits(mapping, s))[k] == if k in counts then counts[k] else 0 {
      if k in mapping { HitsAreCounts(mapping, s, k); }
    }
  }

  method MergeCounts(dst: Counts, src: Counts, ghost a: multiset<Bytes>, ghost b: multiset<Bytes>) returns (out: Counts)
    requires CountsAre(dst, a) && CountsAre(src, b)
    ensures CountsAre(out, a + b)
  {
    out := dst;
    var keys := src.Keys;
    while keys != {}
      invariant keys <= src.Keys
      invariant forall k :: (if k in out then out[k] else 0) == a[k] + if k in keys then 0 else b[k]
      invariant forall k | k in out :: out[k] > 0
      decreases |keys|
    {
      var key :| key in keys;
      if src[key] > 0 {
        out := out[key := src[key] + if key in out then out[key] else 0];
      }
      keys := keys - {key};
    }
  }

  /** All keys that RestoreJSON replaces in v. */
  ghost function TreeHits(v: Json, m: Mapping): multiset<Bytes>
    decreases v, 1, 0
  {
    match v
    case Str(s) => multiset(Hits(m, s))
    case Arr(items) => ItemHits(v, m, |items|)
    case Obj(members) => MemberHits(v, m, members.Keys)
    case _ => multiset{}
  }

  ghost function ItemHits(v: Json, m: Mapping, n: nat): multiset<Bytes>
    requires v.Arr? && n <= |v.items|
    decreases v, 0, n
  {
    if n == 0 then multiset{} else ItemHits(v, m, n - 1) + TreeHits(v.items[n - 1], m)
  }

  ghost function MemberHits(v: Json, m: Mapping, keys: set<Bytes>): multiset<Bytes>
    requires v.Obj? && keys <= v.members.Keys
    decreases v, 0, |keys|
  {
    if keys == {} then multiset{}
    else
      var k :| k in keys;
      TreeHits(v.members[k], m) + MemberHits(v, m, keys - {k})
  }

  /** The members may be visited in any order. */
  lemma {:induction false} MemberHitsWith(v: Json, m: Mapping, keys: set<Bytes>, k: Bytes)
    requires v.Obj? && keys <= v.members.Keys && k in keys
    ensures MemberHits(v, m, keys) == TreeHits(v.members[k], m) + MemberHits(v, m, keys - {k})
    decreases |keys|
  {
    var k0 :| k0 in keys && MemberHits(v, m, keys) == TreeHits(v.members[k0], m) + MemberHits(v, m, keys - {k0});
    if k != k0 {
      MemberHitsWith(v, m, keys - {k0}, k);
      MemberHitsWith(v, m, keys - {k}, k0);
      assert keys - {k0} - {k} == keys - {k} - {k0};
    }
  }

  method AddPlaceholderCountsFromValue(counts: Counts, v: Json, mapping: Mapping, ghost before: multiset<Bytes>)
    returns (out: Counts)
    requires ShapedKeys(mapping) && CountsAre(counts, before)
    ensures CountsAre(out, before + TreeHits(v, mapping))
    decreases v, 1
  {
    match v {
      case Str(s) =>
        var hits := CountPlaceholderHitsByKey(s, mapping);
        out := MergeCounts(counts, hits, before, multiset(Hits(mapping, s)));
      case Arr(items) =>
        out := AddItemCounts(counts, v, mapping, before);
      case Obj(members) =>
        out := AddMemberCounts(counts, v, mapping, before);
      case _ =>
        return counts;
    }
  }

  method AddItemCounts(counts: Counts, v: Json, mapping: Mapping, ghost before: multiset<Bytes>)
    returns (out: Counts)
    requires ShapedKeys(mapping) && CountsAre(counts, before) && v.Arr?
    ensures CountsAre(out, before + ItemHits(v, mapping, |v.items|))
    decreases v, 0
  {
    out := counts;
    ghost var seen := before;
    for i := 0 to |v.items|
      invariant CountsAre(out, seen) && seen == before + ItemHits(v, mapping, i)
    {
      out := AddPlaceholderCountsFromValue(out, v.items[i], mapping, seen);
      seen := seen + TreeHits(v.items[i], mapping);
      assert before + ItemHits(v, mapping, i) + TreeHits(v.items[i], mapping) == before + ItemHits(v, mapping, i + 1);
    }
  }

  method AddMemberCounts(counts: Counts, v: Json, mapping: Mapping, ghost before: multiset<Bytes>)
    returns (out: Counts)
    requires ShapedKeys(mapping) && CountsAre(counts, before) && v.Obj?
    ensures CountsAre(out, before + MemberHits(v, mapping, v.members.Keys))
    decreases v, 0
  {
    out := counts;
    var keys := v.members.Keys;
    ghost var seen := before;
    while keys != {}
      invariant keys <= v.members.Keys && CountsAre(out, seen)
      invariant seen + MemberHits(v, mapping, keys) == before + MemberHits(v, mapping, v.members.Keys)
      decreases |keys|
    {
      var k :| k in keys;
      MemberHitsWith(v, mapping, keys, k);
      out := AddPlaceholderCountsFromValue(out, v.members[k], mapping, seen);
      seen := seen + TreeHits(v.members[k], mapping);
      keys := keys - {k};
    }
    assert MemberHits(v, mapping, {}) == multiset{};
  }

  lemma {:induction false} NoItemHits(v: Json, m: Mapping, n: nat)
    requires v.Arr? && n <= |v.items| && forall i | 0 <= i < n :: TreeHits(v.items[i], m) == multiset{}
    ensures ItemHits(v, m, n) == multiset{}
  {
    if n > 0 { NoItemHits(v, m, n - 1); }
  }

  lemma {:induction false} NoMemberHits(v: Json, m: Mapping, keys: set<Bytes>)
    requires v.Obj? && keys <= v.members.Keys && forall k | k in keys :: TreeHits(v.members[k], m) == multiset{}
    ensures MemberHits(v, m, keys) == multiset{}
    decreases |keys|
  {
    if keys != {} {
      var k :| k in keys;
      NoMemberHits(v, m, keys - {k});
      MemberHitsWith(v, m, keys, k);
    }
  }

  /** In restored JSON no placeholder is counted again. */
  lemma {:induction false} NothingLeftToCount(m: Mapping, v: Json, w: Json)
    requires ShapedKeys(m) && Inert(m) && RestoreJSON(v, m) == Value(w)
    ensures TreeHits(w, m) == multiset{}
    decreases v
  {
    match v
    case Str(s) =>
      RestoreAgain(m, s, []);
      assert s + [] == s && Restored(m, s) + [] == Restored(m, s);
      assert (Hits(m, Restored(m, s))) == [];
    case Arr(items) =>
      forall i | 0 <= i < |items| ensures TreeHits(w.items[i], m) == multiset{} {
        NothingLeftToCount(m, items[i], w.items[i]);
      }
      NoItemHits(w, m, |items|);
    case Obj(members) =>
      forall k | k in members ensures TreeHits(w.members[k], m) == multiset{} {
        NothingLeftToCount(m, members[k], w.members[k]);
      }
      assert w.members.Keys == members.Keys;
      NoMemberHits(w, m, w.members.Keys);
    case _ =>
  }

}
