/** filter.RestoreText: Go's strings.NewReplacer run over a mapping in some iteration order. */
module Replacer {
  import opened ByteText
  import opened Restore

  type Pairs = seq<(Bytes, Bytes)>

  /** pairs lists every entry of m exactly once: one order in which Go may range over the map. */
  ghost predicate Enumerates(pairs: Pairs, m: Mapping) {
    && (forall i | 0 <= i < |pairs| :: pairs[i].0 in m && m[pairs[i].0] == pairs[i].1)
    && (forall i, j | 0 <= i < j < |pairs| :: pairs[i].0 != pairs[j].0)
    && (forall k | k in m :: exists i | 0 <= i < |pairs| :: pairs[i].0 == k)
  }

  /** The first pair, in argument order, whose old string stands at the front of s. */
  function FirstMatch(pairs: Pairs, s: Bytes, skipEmpty: bool): (i: nat)
    ensures i <= |pairs|
    ensures i < |pairs| ==> pairs[i].0 <= s && !(skipEmpty && pairs[i].0 == [])
    ensures forall j | 0 <= j < i :: !(pairs[j].0 <= s) || (skipEmpty && pairs[j].0 == [])
  {
    if pairs == [] then 0
    else if pairs[0].0 <= s && !(skipEmpty && pairs[0].0 == []) then 0
    else 1 + FirstMatch(pairs[1..], s, skipEmpty)
  }

  /**
   * strings.NewReplacer(pairs...).Replace(s): left to right, without overlaps, comparing old strings
   * in argument order. An empty old string matches at every position, but not twice at the same one.
   */
  function Replace(pairs: Pairs, s: Bytes, skipEmpty: bool): Bytes
    decreases |s|, if skipEmpty then 0 else 1
  {
    var i := FirstMatch(pairs, s, skipEmpty);
    if i < |pairs| then pairs[i].1 + Replace(pairs, s[|pairs[i].0|..], pairs[i].0 == [])
    else if s == [] then []
    else [s[0]] + Replace(pairs, s[1..], false)
  }

  /** RestoreText when the map is visited in the order of pairs. */
  function RestoreTextIn(text: Bytes, pairs: Pairs): Bytes {
    if pairs == [] || text == [] then text else Replace(pairs, text, false)
  }

  method RestoreText(text: Bytes, mapping: Mapping) returns (out: Bytes)
    ensures exists pairs :: Enumerates(pairs, mapping) && out == RestoreTextIn(text, pairs)
    ensures ShapedKeys(mapping) ==> out == Restored(mapping, text)
  {
    var pairs: Pairs := [];
    var left := mapping.Keys;
    while left != {}
      invariant left <= mapping.Keys
      invariant forall i | 0 <= i < |pairs| ::
                  pairs[i].0 in mapping && pairs[i].0 !in left && mapping[pairs[i].0] == pairs[i].1
      invariant forall i, j | 0 <= i < j < |pairs| :: pairs[i].0 != pairs[j].0
      invariant forall k | k in mapping && k !in left :: exists i | 0 <= i < |pairs| :: pairs[i].0 == k
      decreases left
    {
      var placeholder :| placeholder in left;
      ghost var before := pairs;
      pairs := pairs + [(placeholder, mapping[placeholder])];
      left := left - {placeholder};
      forall k | k in mapping && k !in left
        ensures exists i | 0 <= i < |pairs| :: pairs[i].0 == k
      {
        if k == placeholder {
          assert pairs[|before|].0 == k;
        } else {
          var i :| 0 <= i < |before| && before[i].0 == k;
          assert pairs[i].0 == k;
        }
      }
    }
    if |mapping| == 0 || text == [] {
      out := text;
    } else {
      out := Replace(pairs, text, false);
    }
    assert pairs == [] ==> forall k :: k !in mapping;
    assert out == RestoreTextIn(text, pairs);
    if ShapedKeys(mapping) { RestoreTextIsRestored(mapping, pairs, text); }
  }

  lemma {:induction false} ReplaceIsRestored(m: Mapping, pairs: Pairs, s: Bytes, skipEmpty: bool)
    requires ShapedKeys(m) && Enumerates(pairs, m)
    ensures Replace(pairs, s, skipEmpty) == Restored(m, s)
    decreases |s|
  {
    var i := FirstMatch(pairs, s, skipEmpty);
    if i < |pairs| {
      KeyAtIs(m, s, pairs[i].0);
      ReplaceIsRestored(m, pairs, s[|pairs[i].0|..], false);
    } else if s != [] {
      assert forall k | k in m :: !(k <= s);
      ReplaceIsRestored(m, pairs, s[1..], false);
    }
  }

  /** Whatever order the map is visited in, shaped keys are restored to the same text. */
  lemma RestoreTextIsRestored(m: Mapping, pairs: Pairs, text: Bytes)
    requires ShapedKeys(m) && Enumerates(pairs, m)
    ensures RestoreTextIn(text, pairs) == Restored(m, text)
  {
    ReplaceIsRestored(m, pairs, text, false);
    if pairs == [] { RestoredClean(m, text); }
  }

  // ---------- when does the iteration order show? ----------

  ghost predicate PrefixFree(keys: set<Bytes>) {
    forall k1, k2 | k1 in keys && k2 in keys && k1 <= k2 :: k1 == k2
  }

  /** Every mapping over these keys restores every text to the same bytes in every visiting order. */
  ghost predicate OrderFree(keys: set<Bytes>) {
    forall m: Mapping, first: Pairs, second: Pairs, text: Bytes |
      m.Keys == keys && Enumerates(first, m) && Enumerates(second, m) ::
      RestoreTextIn(text, first) == RestoreTextIn(text, second)
  }

  /** The order in which Go visits the map never shows if and only if no key is a prefix of another. */
  lemma OrderFreeExactly(keys: set<Bytes>)
    ensures OrderFree(keys) <==> PrefixFree(keys)
  {
    if PrefixFree(keys) {
      forall m: Mapping, first: Pairs, second: Pairs, text: Bytes |
        m.Keys == keys && Enumerates(first, m) && Enumerates(second, m)
        ensures RestoreTextIn(text, first) == RestoreTextIn(text, second)
      {
        assert first == [] <==> second == [] by {
          assert first != [] ==> first[0].0 in m;
          assert second != [] ==> second[0].0 in m;
        }
        ReplaceOrderFree(m, first, second, text, false);
      }
    } else {
      var k1, k2 :| k1 in keys && k2 in keys && k1 <= k2 && k1 != k2;
      OrderShows(keys, k1, k2);
    }
  }

  lemma ShapedIsPrefixFree(m: Mapping)
    requires ShapedKeys(m)
    ensures PrefixFree(m.Keys)
  {
    forall k1, k2 | k1 in m && k2 in m && k1 <= k2 ensures k1 == k2 {
      assert OccursAt(k2, k1, 0) && OccursAt(k2, k2, 0);
      OccurrencesDisjoint(k2, k1, 0, k2, 0);
    }
  }

  lemma {:induction false} ReplaceOrderFree(m: Mapping, first: Pairs, second: Pairs, s: Bytes, skipEmpty: bool)
    requires PrefixFree(m.Keys) && Enumerates(first, m) && Enumerates(second, m)
    ensures Replace(first, s, skipEmpty) == Replace(second, s, skipEmpty)
    decreases |s|, if skipEmpty then 0 else 1
  {
    var i, j := FirstMatch(first, s, skipEmpty), FirstMatch(second, s, skipEmpty);
    if i < |first| { SameMatch(m, first, second, s, skipEmpty); }
    if j < |second| { SameMatch(m, second, first, s, skipEmpty); }
    if i < |first| {
      ReplaceOrderFree(m, first, second, s[|first[i].0|..], first[i].0 == []);
    } else if s != [] {
      ReplaceOrderFree(m, first, second, s[1..], false);
    }
  }

  lemma SameMatch(m: Mapping, first: Pairs, second: Pairs, s: Bytes, skipEmpty: bool)
    requires PrefixFree(m.Keys) && Enumerates(first, m) && Enumerates(second, m)
    requires FirstMatch(first, s, skipEmpty) < |first|
    ensures FirstMatch(second, s, skipEmpty) < |second|
    ensures first[FirstMatch(first, s, skipEmpty)] == second[FirstMatch(second, s, skipEmpty)]
  {
    var i, j := FirstMatch(first, s, skipEmpty), FirstMatch(second, s, skipEmpty);
    var k := first[i].0;
    var x :| 0 <= x < |second| && second[x].0 == k;
    assert j <= x;
    var k' := second[j].0;
    assert k <= s && k' <= s;
    assert if |k| <= |k'| then k <= k' else k' <= k;
  }

  /** Every finite set of keys can be listed. */
  lemma Listing(m: Mapping, keys: set<Bytes>) returns (pairs: Pairs)
    requires keys <= m.Keys
    ensures forall i | 0 <= i < |pairs| :: pairs[i].0 in keys && m[pairs[i].0] == pairs[i].1
    ensures forall i, j | 0 <= i < j < |pairs| :: pairs[i].0 != pairs[j].0
    ensures forall k | k in keys :: exists i | 0 <= i < |pairs| :: pairs[i].0 == k
  {
    pairs := [];
    if keys != {} {
      var key :| key in keys;
      var rest := Listing(m, keys - {key});
      pairs := [(key, m[key])] + rest;
      forall k | k in keys ensures exists i | 0 <= i < |pairs| :: pairs[i].0 == k {
        if k == key {
          assert pairs[0].0 == k;
        } else {
          assert k in keys - {key};
          var i :| 0 <= i < |rest| && rest[i].0 == k;
          assert pairs[i + 1].0 == k;
        }
      }
    }
  }

  /** Of two keys, one a prefix of the other, whichever is tried first decides what is written. */
  lemma OrderShows(keys: set<Bytes>, k1: Bytes, k2: Bytes)
    requires k1 in keys && k2 in keys && k1 <= k2 && k1 != k2
    ensures !OrderFree(keys)
  {
    var m: Mapping := map k | k in keys :: if k == k1 then [OPEN] else [];
    var rest := Listing(m, keys - {k1, k2});
    var first := [(k1, m[k1]), (k2, m[k2])] + rest;
    var second := [(k2, m[k2]), (k1, m[k1])] + rest;
    assert m.Keys == keys;
    assert forall k | k in m && k !in {k1, k2} :: k in keys - {k1, k2};
    ListedAfter(m, k1, k2, rest);
    ListedAfter(m, k2, k1, rest);
    OrdersDiffer(m, first, second, k1, k2);
  }

  lemma OrdersDiffer(m: Mapping, first: Pairs, second: Pairs, k1: Bytes, k2: Bytes)
    requires Enumerates(first, m) && Enumerates(second, m) && k1 <= k2 && k1 != k2
    requires |first| >= 2 && first[0] == (k1, [OPEN]) && first[1] == (k2, [])
    requires second != [] && second[0] == (k2, [])
    requires [] in m ==> m[[]] == if k1 == [] then [OPEN] else []
    ensures !OrderFree(m.Keys)
  {
    ShorterFirst(first, k1, k2);
    assert Replace(second, k2, false) == if [] in m then m[[]] else [];
    assert RestoreTextIn(k2, first) != RestoreTextIn(k2, second);
  }

  lemma ShorterFirst(first: Pairs, k1: Bytes, k2: Bytes)
    requires |first| >= 2 && first[0] == (k1, [OPEN]) && first[1] == (k2, []) && k1 <= k2 && k1 != k2
    ensures |Replace(first, k2, false)| >= if k1 == [] then 2 else 1
  {
    assert FirstMatch(first, k2, false) == 0;
    if k1 == [] {
      assert k2[|k1|..] == k2 && k2[|k2|..] == [];
      assert FirstMatch(first, k2, true) == 1 by { assert first[1].0 <= k2; }
      assert FirstMatch(first, [], false) == 0;
      assert Replace(first, k2, true) == Replace(first, [], false);
    }
  }

  lemma ListedAfter(m: Mapping, k1: Bytes, k2: Bytes, rest: Pairs)
    requires k1 in m && k2 in m && k1 != k2
    requires forall i | 0 <= i < |rest| :: rest[i].0 in m && rest[i].0 !in {k1, k2} && m[rest[i].0] == rest[i].1
    requires forall i, j | 0 <= i < j < |rest| :: rest[i].0 != rest[j].0
    requires forall k | k in m && k !in {k1, k2} :: exists i | 0 <= i < |rest| :: rest[i].0 == k
    ensures Enumerates([(k1, m[k1]), (k2, m[k2])] + rest, m)
  {
    var pairs := [(k1, m[k1]), (k2, m[k2])] + rest;
    forall k | k in m ensures exists i | 0 <= i < |pairs| :: pairs[i].0 == k {
      if k == k1 {
        assert pairs[0].0 == k;
      } else if k == k2 {
        assert pairs[1].0 == k;
      } else {
        var i :| 0 <= i < |rest| && rest[i].0 == k;
        assert pairs[i + 2].0 == k;
      }
    }
  }
}
