/** Putting originals back: the meaning of a mapping on a text, in no particular order. */
module Restore {
  import opened ByteText

  type Mapping = map<Bytes, Bytes>

  /** '[' at the front, ']' at the back, no bracket in between. */
  predicate Shaped(k: Bytes) {
    && |k| >= 2 && k[0] == OPEN && k[|k| - 1] == CLOSE
    && forall i | 0 < i < |k| - 1 :: k[i] != OPEN && k[i] != CLOSE
  }

  ghost predicate ShapedKeys(m: Mapping) {
    forall k | k in m :: Shaped(k)
  }

  /** The length of a key that stands at the front of s, or 0. */
  ghost function KeyAt(m: Mapping, s: Bytes): (n: nat)
    ensures n > 0 ==> n <= |s| && s[..n] in m && s[..n] <= s
    ensures n == 0 ==> forall k | k in m && k != [] :: !(k <= s)
  {
    if exists k | k in m :: k != [] && k <= s
    then var k :| k in m && k != [] && k <= s;
      assert s[..|k|] == k;
      |k|
    else 0
  }

  /** How far one step of the scan moves: past a key, or past one byte. */
  ghost function Advance(m: Mapping, s: Bytes): (n: nat)
    requires s != []
    ensures 0 < n <= |s|
  {
    if KeyAt(m, s) > 0 then KeyAt(m, s) else 1
  }

  /** What one step writes. */
  ghost function Written(m: Mapping, s: Bytes): Bytes
    requires s != []
  {
    if KeyAt(m, s) > 0 then m[s[..KeyAt(m, s)]] else [s[0]]
  }

  /** The key one step replaces, if any. */
  ghost function Hit(m: Mapping, s: Bytes): seq<Bytes> {
    if KeyAt(m, s) > 0 then [s[..KeyAt(m, s)]] else []
  }

  /** The restored text: every key found from the left is replaced, every other byte kept. */
  ghost function Restored(m: Mapping, s: Bytes): Bytes
    decreases |s|
  {
    if s == [] then [] else Written(m, s) + Restored(m, s[Advance(m, s)..])
  }

  /** The keys that Restored replaces, in order. */
  ghost function Hits(m: Mapping, s: Bytes): seq<Bytes>
    decreases |s|
  {
    if s == [] then [] else Hit(m, s) + Hits(m, s[Advance(m, s)..])
  }

  /** No key occurs in s. */
  ghost predicate Clean(m: Mapping, s: Bytes) {
    forall k, i | k in m :: !OccursAt(s, k, i)
  }

  /** No key occurrence in a + b crosses the border between a and b. */
  ghost predicate NoStraddle(m: Mapping, a: Bytes, b: Bytes) {
    forall k, i | k in m && 0 <= i < |a| < i + |k| :: !OccursAt(a + b, k, i)
  }

  // ---------- the bracket lemma ----------

  /** Two occurrences of shaped keys are the same occurrence or do not overlap. */
  lemma OccurrencesDisjoint(s: Bytes, k1: Bytes, i: int, k2: Bytes, j: int)
    requires Shaped(k1) && Shaped(k2)
    requires OccursAt(s, k1, i) && OccursAt(s, k2, j) && i <= j
    ensures (i == j && k1 == k2) || i + |k1| <= j
  {
    if i < j {
      OccursAtBytes(s, k2, j, 0);
      if j < i + |k1| { OccursAtBytes(s, k1, i, j - i); }
    } else if |k1| < |k2| {
      OccursAtBytes(s, k1, i, |k1| - 1);
      OccursAtBytes(s, k2, i, |k1| - 1);
    } else if |k2| < |k1| {
      OccursAtBytes(s, k1, i, |k2| - 1);
      OccursAtBytes(s, k2, i, |k2| - 1);
    }
  }

  lemma KeyAtIs(m: Mapping, s: Bytes, k: Bytes)
    requires ShapedKeys(m) && k in m && k <= s
    ensures KeyAt(m, s) == |k| && s[..|k|] == k
  {
    var n := KeyAt(m, s);
    assert OccursAt(s, k, 0) && OccursAt(s, s[..n], 0);
    OccurrencesDisjoint(s, k, 0, s[..n], 0);
  }

  // ---------- cutting the text ----------

  /** Cutting a text where no key is cut does not change what is restored. */
  lemma {:induction false} RestoredSplit(m: Mapping, a: Bytes, b: Bytes)
    requires ShapedKeys(m) && NoStraddle(m, a, b)
    ensures Restored(m, a + b) == Restored(m, a) + Restored(m, b)
    ensures Hits(m, a + b) == Hits(m, a) + Hits(m, b)
    decreases |a|
  {
    if a == [] {
      assert a + b == b;
    } else {
      KeyAtSplit(m, a, b);
      var n := Advance(m, a);
      assert (a + b)[n..] == a[n..] + b;
      NoStraddleTail(m, a, b, n);
      RestoredSplit(m, a[n..], b);
      Assoc(Written(m, a), Restored(m, a[n..]), Restored(m, b));
      Regroup(Hit(m, a), Hits(m, a[n..]), Hits(m, b));
    }
  }

  lemma KeyAtSplit(m: Mapping, a: Bytes, b: Bytes)
    requires ShapedKeys(m) && NoStraddle(m, a, b) && a != []
    ensures Advance(m, a) == Advance(m, a + b)
    ensures Written(m, a) == Written(m, a + b) && Hit(m, a) == Hit(m, a + b)
  {
    var s := a + b;
    var n := KeyAt(m, s);
    if n > 0 {
      assert OccursAt(s, s[..n], 0);
      assert n <= |a|;
      assert s[..n] == a[..n];
      KeyAtIs(m, a, s[..n]);
    } else {
      assert forall k | k in m && k <= a :: k <= s;
    }
  }

  lemma NoStraddleTail(m: Mapping, a: Bytes, b: Bytes, n: nat)
    requires NoStraddle(m, a, b) && n <= |a|
    ensures NoStraddle(m, a[n..], b)
  {
    assert (a + b)[n..] == a[n..] + b;
    forall k, i | k in m && 0 <= i < |a[n..]| < i + |k|
      ensures !OccursAt(a[n..] + b, k, i)
    {
      OccursAtWindow(a + b, k, n, |a + b|, i);
      assert !OccursAt(a + b, k, n + i);
    }
  }

  lemma {:induction false} RestoredClean(m: Mapping, s: Bytes)
    requires Clean(m, s)
    ensures Restored(m, s) == s && Hits(m, s) == []
    decreases |s|
  {
    if s != [] {
      var n := KeyAt(m, s);
      assert n > 0 ==> OccursAt(s, s[..n], 0);
      CleanWindow(m, s, 1, |s|);
      RestoredClean(m, s[1..]);
    }
  }

  lemma CleanWindow(m: Mapping, s: Bytes, lo: int, hi: int)
    requires Clean(m, s) && 0 <= lo <= hi <= |s|
    ensures Clean(m, s[lo..hi])
    ensures hi == |s| ==> Clean(m, s[lo..])
  {
    if hi == |s| { assert s[lo..hi] == s[lo..]; }
    forall k, i | k in m ensures !OccursAt(s[lo..hi], k, i) {
      OccursAtWindow(s, k, lo, hi, i);
    }
  }

  /** A key in front is replaced and the rest restored on its own. */
  lemma RestoredKey(m: Mapping, k: Bytes, rest: Bytes)
    requires ShapedKeys(m) && k in m
    ensures Restored(m, k + rest) == m[k] + Restored(m, rest)
    ensures Hits(m, k + rest) == [k] + Hits(m, rest)
  {
    KeyAtIs(m, k + rest, k);
    assert (k + rest)[|k|..] == rest;
  }

  /** A text in front of something that begins with a key is not straddled. */
  lemma NoStraddleBeforeKey(m: Mapping, a: Bytes, k: Bytes, rest: Bytes)
    requires ShapedKeys(m) && k in m
    ensures NoStraddle(m, a, k + rest)
  {
    var s := a + (k + rest);
    assert OccursAt(s, k, |a|);
    forall k', i | k' in m && 0 <= i < |a| < i + |k'| ensures !OccursAt(s, k', i) {
      if OccursAt(s, k', i) { OccurrencesDisjoint(s, k', i, k, |a|); }
    }
  }

  // ---------- counting ----------

  /** The hits of every key are what strings.Count counts. */
  lemma {:induction false} HitsAreCounts(m: Mapping, s: Bytes, k: Bytes)
    requires ShapedKeys(m) && k in m
    ensures multiset(Hits(m, s))[k] == Count(s, k)
    decreases |s|
  {
    if s != [] {
      var n := KeyAt(m, s);
      if n == 0 {
        assert !(k <= s);
        HitsAreCounts(m, s[1..], k);
        if |s| < |k| { assert Count(s[1..], k) == 0; }
      } else {
        var k0 := s[..n];
        HitsAreCounts(m, s[n..], k);
        if k != k0 {
          forall i | 0 <= i < n ensures !OccursAt(s, k, i) {
            if OccursAt(s, k, i) {
              assert OccursAt(s, k0, 0);
              OccurrencesDisjoint(s, k0, 0, k, i);
            }
          }
          CountSkip(s, k, n);
        }
      }
    }
  }

  /** Only keys are hit, and no hit means nothing changes. */
  lemma {:induction false} HitsAreKeys(m: Mapping, s: Bytes)
    ensures forall h | h in Hits(m, s) :: h in m
    ensures Hits(m, s) == [] ==> Restored(m, s) == s
    decreases |s|
  {
    if s != [] {
      HitsAreKeys(m, s[Advance(m, s)..]);
    }
  }

  lemma CleanIffNoHits(m: Mapping, s: Bytes)
    requires ShapedKeys(m)
    ensures Clean(m, s) <==> Hits(m, s) == []
  {
    if Clean(m, s) { RestoredClean(m, s); }
    if Hits(m, s) == [] {
      forall k, i | k in m ensures !OccursAt(s, k, i) {
        HitsAreCounts(m, s, k);
        CountPositive(s, k);
      }
    }
  }
}
