/** What is counted in decoded JSON, string by string. */
module TreeCounts {
  import opened ByteText
  import opened Restore
  import opened DecodedJson
  import opened RestoreJson
  import opened Sse

  ghost predicate StringAtPath(v: Json, path: Path) {
    At(v, path).Value? && At(v, path).value.Str?
  }

  /** The replacements in the strings at the given paths, added up. */
  ghost function LeafHits(v: Json, m: Mapping, paths: seq<Path>): multiset<Bytes> {
    if paths == [] then multiset{}
    else
      (if StringAtPath(v, paths[0]) then multiset(Hits(m, At(v, paths[0]).value.text)) else multiset{})
      + LeafHits(v, m, paths[1..])
  }

  /** paths lists every string inside v that lies under one of the places, once. */
  ghost predicate LeavesUnder(v: Json, places: set<Place>, paths: seq<Path>) {
    && Unrepeated(paths)
    && forall p :: p in paths <==> p != [] && p[0] in places && StringAtPath(v, p)
  }

  /** paths lists every string inside v, once. */
  ghost predicate Leaves(v: Json, paths: seq<Path>) {
    && Unrepeated(paths)
    && forall p :: p in paths <==> StringAtPath(v, p)
  }

  function Under(place: Place, paths: seq<Path>): (r: seq<Path>)
    ensures |r| == |paths| && forall i | 0 <= i < |r| :: r[i] == [place] + paths[i]
  {
    seq(|paths|, i requires 0 <= i < |paths| => [place] + paths[i])
  }

  lemma UnderPath(v: Json, place: Place, p: Path)
    requires Child(v, place).Value?
    ensures StringAtPath(v, [place] + p) <==> StringAtPath(Child(v, place).value, p)
    ensures StringAtPath(v, [place] + p) ==> At(v, [place] + p) == At(Child(v, place).value, p)
  {
    PathInto(v, place, p);
  }

  lemma {:induction false} LeafHitsUnder(v: Json, m: Mapping, place: Place, paths: seq<Path>)
    requires Child(v, place).Value?
    ensures LeafHits(v, m, Under(place, paths)) == LeafHits(Child(v, place).value, m, paths)
  {
    if paths != [] {
      UnderPath(v, place, paths[0]);
      LeafHitsUnder(v, m, place, paths[1..]);
      assert Under(place, paths)[1..] == Under(place, paths[1..]);
    }
  }

  lemma {:induction false} LeafHitsConcat(v: Json, m: Mapping, a: seq<Path>, b: seq<Path>)
    ensures LeafHits(v, m, a + b) == LeafHits(v, m, a) + LeafHits(v, m, b)
  {
    if a == [] {
      assert a + b == b;
    } else {
      assert (a + b)[1..] == a[1..] + b;
      LeafHitsConcat(v, m, a[1..], b);
    }
  }

  lemma InUnder(place: Place, paths: seq<Path>, p: Path)
    ensures p in Under(place, paths) <==> p != [] && p[0] == place && p[1..] in paths
  {
    var r := Under(place, paths);
    if p in r {
      var i :| 0 <= i < |r| && r[i] == p;
      assert p[1..] == paths[i];
    }
    if p != [] && p[0] == place && p[1..] in paths {
      var i :| 0 <= i < |paths| && paths[i] == p[1..];
      assert r[i] == [p[0]] + p[1..] == p;
    }
  }

  lemma UnderUnrepeated(place: Place, paths: seq<Path>)
    requires Unrepeated(paths)
    ensures Unrepeated(Under(place, paths))
  {
    var r := Under(place, paths);
    forall i, j | 0 <= i < j < |r| ensures r[i] != r[j] {
      assert r[i][1..] == paths[i] && r[j][1..] == paths[j];
    }
  }

  /** One more child. */
  lemma AddChild(v: Json, places: set<Place>, paths: seq<Path>, place: Place, more: seq<Path>)
    requires LeavesUnder(v, places, paths) && place !in places && Child(v, place).Value?
    requires Leaves(Child(v, place).value, more)
    ensures LeavesUnder(v, places + {place}, paths + Under(place, more))
  {
    var under := Under(place, more);
    UnderUnrepeated(place, more);
    forall p ensures p in paths + under <==> p != [] && p[0] in places + {place} && StringAtPath(v, p) {
      InUnder(place, more, p);
      if p != [] && p[0] == place {
        assert p == [place] + p[1..];
        UnderPath(v, place, p[1..]);
      }
    }
    forall p | p in paths ensures p !in under { InUnder(place, more, p); }
    Apart(paths, under);
  }

  lemma Apart(a: seq<Path>, b: seq<Path>)
    requires Unrepeated(a) && Unrepeated(b) && forall p | p in a :: p !in b
    ensures Unrepeated(a + b)
  {
    var c := a + b;
    forall i, j | 0 <= i < j < |c| ensures c[i] != c[j] {
      if i < |a| { assert c[i] in a; }
      if j >= |a| { assert c[j] in b; }
    }
  }

  /** The tree is counted string by string: every string at every path once, and nothing else. */
  lemma {:induction false} TreeHitsAreLeafHits(v: Json, m: Mapping) returns (paths: seq<Path>)
    ensures Leaves(v, paths) && TreeHits(v, m) == LeafHits(v, m, paths)
    decreases v, 1, 0
  {
    match v
    case Str(s) =>
      paths := [[]];
      OnlyRoot(v);
      assert paths[1..] == [];
    case Arr(items) =>
      paths := ArrLeaves(v, m);
    case Obj(members) =>
      paths := ObjLeaves(v, m);
    case _ =>
      paths := [];
      OnlyRoot(v);
  }

  lemma {:induction false} ArrLeaves(v: Json, m: Mapping) returns (paths: seq<Path>)
    requires v.Arr?
    ensures Leaves(v, paths) && ItemHits(v, m, |v.items|) == LeafHits(v, m, paths)
    decreases v, 0, |v.items| + 1
  {
    var places;
    places, paths := ItemLeaves(v, m, |v.items|);
    ChildrenAreAll(v, places, paths);
  }

  lemma {:induction false} ObjLeaves(v: Json, m: Mapping) returns (paths: seq<Path>)
    requires v.Obj?
    ensures Leaves(v, paths) && MemberHits(v, m, v.members.Keys) == LeafHits(v, m, paths)
    decreases v, 0, |v.members.Keys| + 1
  {
    var places;
    places, paths := MemberLeaves(v, m, v.members.Keys);
    ChildrenAreAll(v, places, paths);
  }

  lemma OnlyRoot(v: Json)
    requires !v.Arr? && !v.Obj?
    ensures forall p :: At(v, p).Value? <==> p == []
  {
    forall p ensures At(v, p).Value? <==> p == [] {
      if p != [] { assert Child(v, p[0]) == Nothing; }
    }
  }

  lemma ChildrenAreAll(v: Json, places: set<Place>, paths: seq<Path>)
    requires LeavesUnder(v, places, paths) && !v.Str?
    requires forall place | Child(v, place).Value? :: place in places
    ensures Leaves(v, paths)
  {
    forall p ensures p in paths <==> StringAtPath(v, p) {
      if StringAtPath(v, p) && p != [] { assert Child(v, p[0]).Value?; }
    }
  }

  lemma MoreLeaves(v: Json, m: Mapping, places: set<Place>, paths: seq<Path>, place: Place, more: seq<Path>)
    requires LeavesUnder(v, places, paths) && place !in places && Child(v, place).Value?
    requires Leaves(Child(v, place).value, more)
    ensures LeavesUnder(v, places + {place}, paths + Under(place, more))
    ensures LeafHits(v, m, paths + Under(place, more))
         == LeafHits(v, m, paths) + LeafHits(Child(v, place).value, m, more)
  {
    AddChild(v, places, paths, place, more);
    LeafHitsUnder(v, m, place, more);
    LeafHitsConcat(v, m, paths, Under(place, more));
  }

  lemma {:induction false} ItemLeaves(v: Json, m: Mapping, n: nat) returns (places: set<Place>, paths: seq<Path>)
    requires v.Arr? && n <= |v.items|
    ensures LeavesUnder(v, places, paths) && ItemHits(v, m, n) == LeafHits(v, m, paths)
    ensures forall place :: place in places <==> place.Index? && place.index < n
    decreases v, 0, n
  {
    if n == 0 {
      places, paths := {}, [];
    } else {
      places, paths := ItemLeaves(v, m, n - 1);
      var more := TreeHitsAreLeafHits(v.items[n - 1], m);
      AddItem(v, m, n, places, paths, more);
      places, paths := places + {Index(n - 1)}, paths + Under(Index(n - 1), more);
    }
  }

  lemma AddItem(v: Json, m: Mapping, n: nat, places: set<Place>, paths: seq<Path>, more: seq<Path>)
    requires v.Arr? && 0 < n <= |v.items| && LeavesUnder(v, places, paths) && Leaves(v.items[n - 1], more)
    requires forall place :: place in places <==> place.Index? && place.index < n - 1
    requires ItemHits(v, m, n - 1) == LeafHits(v, m, paths)
    requires TreeHits(v.items[n - 1], m) == LeafHits(v.items[n - 1], m, more)
    ensures LeavesUnder(v, places + {Index(n - 1)}, paths + Under(Index(n - 1), more))
    ensures ItemHits(v, m, n) == LeafHits(v, m, paths + Under(Index(n - 1), more))
  {
    var place := Index(n - 1);
    assert Child(v, place) == Value(v.items[n - 1]);
    MoreLeaves(v, m, places, paths, place, more);
  }

  lemma {:induction false} MemberLeaves(v: Json, m: Mapping, keys: set<Bytes>)
    returns (places: set<Place>, paths: seq<Path>)
    requires v.Obj? && keys <= v.members.Keys
    ensures LeavesUnder(v, places, paths) && MemberHits(v, m, keys) == LeafHits(v, m, paths)
    ensures forall place :: place in places <==> place.Key? && place.key in keys
    decreases v, 0, |keys|
  {
    if keys == {} {
      places, paths := {}, [];
    } else {
      var k :| k in keys;
      var place := Key(k);
      assert Child(v, place) == Value(v.members[k]);
      MemberHitsWith(v, m, keys, k);
      places, paths := MemberLeaves(v, m, keys - {k});
      var more := TreeHitsAreLeafHits(v.members[k], m);
      MoreLeaves(v, m, places, paths, place, more);
      places, paths := places + {place}, paths + Under(place, more);
    }
  }

  /** What a data line without a delta adds to the counts: nothing, or the hits of its text or of its strings. */
  lemma OtherLineHits(lib: Library, m: Mapping, value: Bytes) returns (paths: seq<Path>)
    ensures lib.trimSpace(value) == [0x5B, 0x44, 0x4F, 0x4E, 0x45, 0x5D] ==> RewrittenHits(lib, m, value) == multiset{}
    ensures lib.trimSpace(value) != [0x5B, 0x44, 0x4F, 0x4E, 0x45, 0x5D] ==>
      match lib.decode(value)
      case Failed => RewrittenHits(lib, m, value) == multiset(Hits(m, value))
      case Decoded(o) =>
        && Leaves(Obj(o), paths)
        && RewrittenHits(lib, m, value) == if HasUnsupported(Obj(o)) then multiset{} else LeafHits(Obj(o), m, paths)
  {
    paths := [];
    if lib.decode(value).Decoded? {
      var v := Obj(lib.decode(value).payload);
      FailsExactly(m, v);
      paths := TreeHitsAreLeafHits(v, m);
    }
  }
}
