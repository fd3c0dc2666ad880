/** Restoring a text that arrives in chunks. */
module Streaming {
  import opened ByteText
  import opened Restore

  // Each chunk is appended to what is pending, the result is restored, and all but a short suffix is
  // emitted; the suffix stays pending although it has been restored and will be restored again
  // together with the next chunk.

  /** utf8.RuneStart: every byte but 0x80..0xBF can begin an encoded rune. */
  predicate RuneStart(b: byte) {
    !(0x80 <= b < 0xC0)
  }

  function BackToRuneStart(s: Bytes, c: nat): (r: nat)
    requires c < |s|
    ensures r <= c && (r == 0 || RuneStart(s[r]))
    ensures forall i | r < i <= c :: !RuneStart(s[i])
  {
    if c > 0 && !RuneStart(s[c]) then BackToRuneStart(s, c - 1) else c
  }

  /** Where splitStreamingSuffix cuts. */
  function Cut(s: Bytes, keep: int): (c: nat)
    ensures c <= |s|
  {
    if keep <= 0 then |s|
    else if |s| <= keep then 0
    else BackToRuneStart(s, |s| - keep)
  }

  method SplitStreamingSuffix(s: Bytes, keepBytes: int) returns (prefix: Bytes, suffix: Bytes)
    ensures prefix == s[..Cut(s, keepBytes)] && suffix == s[Cut(s, keepBytes)..]
    ensures prefix + suffix == s
    ensures keepBytes <= 0 ==> suffix == []
    ensures keepBytes > 0 ==> |suffix| >= keepBytes || prefix == []
    ensures keepBytes > 0 && prefix != [] ==> !(0x80 <= suffix[0] < 0xC0)
    ensures keepBytes > 0 ==> forall i | |prefix| < i <= |s| - keepBytes :: 0x80 <= s[i] < 0xC0
  {
    if keepBytes <= 0 || |s| <= keepBytes {
      if keepBytes <= 0 {
        assert s[..|s|] == s && s[|s|..] == [];
        return s, [];
      }
      assert s[..0] == [] && s[0..] == s;
      return [], s;
    }
    var cut := |s| - keepBytes;
    while cut > 0 && !RuneStart(s[cut])
      invariant 0 <= cut < |s|
      invariant BackToRuneStart(s, |s| - keepBytes) == BackToRuneStart(s, cut)
    {
      cut := cut - 1;
    }
    if cut <= 0 {
      assert s[..0] == [] && s[0..] == s;
      return [], s;
    }
    return s[..cut], s[cut..];
  }

  /** keepBytes holds back one byte less than the longest key. */
  function KeepBytes(m: Mapping): (keep: nat)
    ensures forall k | k in m :: |k| <= keep + 1
    ensures keep > 0 ==> exists k :: k in m && |k| == keep + 1
  {
    LongestKey(m.Keys);
    var n :| IsLongest(m.Keys, n);
    n - 1
  }

  /** n is the length of the longest key, and 1 if there is none longer. */
  predicate IsLongest(keys: set<Bytes>, n: int) {
    && n >= 1
    && (forall k | k in keys :: |k| <= n)
    && (n > 1 ==> exists k | k in keys :: |k| == n)
  }

  lemma {:induction false} LongestKey(keys: set<Bytes>)
    ensures exists n :: IsLongest(keys, n)
    decreases keys
  {
    if keys == {} {
      assert IsLongest(keys, 1);
    } else {
      var k :| k in keys;
      LongestKey(keys - {k});
      var n :| IsLongest(keys - {k}, n);
      assert forall k' | k' in keys :: k' == k || k' in keys - {k};
      assert IsLongest(keys, if |k| > n then |k| else n);
    }
  }

  // ---------- one stream ----------

  /** What one stream emits, leaves pending and replaces while the chunks arrive. */
  datatype Progress = Progress(emitted: Bytes, pending: Bytes, hits: seq<Bytes>)

  ghost function Feed(m: Mapping, keep: int, pending: Bytes, chunk: Bytes): Progress {
    var z := pending + chunk;
    var w := Restored(m, z);
    Progress(w[..Cut(w, keep)], w[Cut(w, keep)..], Hits(m, z))
  }

  ghost function Stream(m: Mapping, keep: int, pending: Bytes, chunks: seq<Bytes>): Progress
    decreases |chunks|
  {
    if chunks == [] then Progress([], pending, [])
    else
      var p := Feed(m, keep, pending, chunks[0]);
      var rest := Stream(m, keep, p.pending, chunks[1..]);
      Progress(p.emitted + rest.emitted, rest.pending, p.hits + rest.hits)
  }

  function Concat(chunks: seq<Bytes>): Bytes {
    if chunks == [] then [] else chunks[0] + Concat(chunks[1..])
  }

  /**
   * The stream did what restoring the whole text at once does: the same text, whether the last
   * pending suffix is flushed through another restoration or not, and the same replacements.
   */
  ghost predicate Faithful(m: Mapping, keep: int, chunks: seq<Bytes>) {
    var p := Stream(m, keep, [], chunks);
    var whole := Concat(chunks);
    && p.emitted + p.pending == Restored(m, whole)
    && Restored(m, p.pending) == p.pending
    && p.hits == Hits(m, whole)
  }

  // ---------- when originals and keys cannot be confused ----------

  /**
   * Laying original o next to key k with o starting at offset a of k (a may be negative), the two
   * meet: o starts before k ends, ends after k starts, and they agree wherever both have a byte.
   */
  ghost predicate Meets(o: Bytes, k: Bytes, a: int) {
    && a < |k| && 0 < a + |o|
    && forall x | 0 <= x < |k| && 0 <= x - a < |o| :: k[x] == o[x - a]
  }

  /** No original meets a key in such a way that it ends within reach bytes of the key's start. */
  ghost predicate Apart(m: Mapping, reach: int) {
    forall k', k, a: int | k' in m && k in m && a + |m[k']| <= reach :: !Meets(m[k'], k, a)
  }

  /** Originals are non-empty, free of brackets and no part of a key. */
  ghost predicate Inert(m: Mapping) {
    forall k' | k' in m ::
      && m[k'] != []
      && OPEN !in m[k'] && CLOSE !in m[k']
      && forall k | k in m :: !Occurs(k, m[k'])
  }

  lemma InertIsApart(m: Mapping, reach: int)
    requires ShapedKeys(m) && Inert(m)
    ensures Apart(m, reach)
  {
    forall k', k, a: int | k' in m && k in m && a + |m[k']| <= reach
      ensures !Meets(m[k'], k, a)
    {
      var o := m[k'];
      if a >= |k| || a + |o| <= 0 {
      } else if a <= 0 {
        assert k[0] == OPEN && o[0 - a] in o;
      } else if a + |o| >= |k| {
        assert k[|k| - 1] == CLOSE && o[|k| - 1 - a] in o;
      } else {
        assert !OccursAt(k, o, a);
        var part := k[a..a + |o|];
        var x :| 0 <= x < |o| && part[x] != o[x];
        assert k[a + x] != o[x] && a + x - a == x;
      }
    }
  }

  // ---------- where a key in a restored text comes from ----------

  /** The witness of a meeting within reach. */
  ghost predicate Meeting(m: Mapping, k: Bytes, k': Bytes, a: int, reach: int) {
    k' in m && Meets(m[k'], k, a) && a + |m[k']| <= reach
  }

  /**
   * The rest of a key, from byte c on, stands at the front of a restored text followed by y. Then an
   * original meets the key, or the rest of the key stood in z already, or it runs through all of z.
   */
  lemma {:induction false} RestOfKey(m: Mapping, z: Bytes, y: Bytes, k: Bytes, c: nat, reach: int)
    returns (k': Bytes, a: int)
    requires 0 < c <= |k| && k[c..] <= Restored(m, z) + y && reach == c + |Restored(m, z)|
    ensures || Meeting(m, k, k', a, reach)
            || k[c..] <= z
            || (Restored(m, z) == z && |z| < |k| - c)
    decreases |z|
  {
    k', a := [], 0;
    if c < |k| && z != [] {
      var w, n := Written(m, z), Advance(m, z);
      var r := Restored(m, z[n..]);
      assert Restored(m, z) + y == w + (r + y);
      if KeyAt(m, z) > 0 {
        k', a := z[..n], c;
        assert forall x | 0 <= x < |k| && 0 <= x - c < |w| :: k[x] == k[c..][x - c] == w[x - c];
      } else {
        assert k[c] == k[c..][0] == z[0];
        assert k[c + 1..] == k[c..][1..] <= (w + (r + y))[1..] == r + y;
        k', a := RestOfKey(m, z[1..], y, k, c + 1, reach);
        assert z == [z[0]] + z[1..];
        assert k[c..] == [k[c]] + k[c + 1..];
      }
    }
  }

  /** A key that starts with a byte that was kept, not written for a key. */
  lemma OriginKept(m: Mapping, z: Bytes, y: Bytes, k: Bytes, reach: int) returns (k': Bytes, a: int)
    requires k in m && k != [] && z != [] && KeyAt(m, z) == 0 && k <= Restored(m, z) + y
    requires reach == |Restored(m, z)|
    ensures || Meeting(m, k, k', a, reach)
            || (|z| < |k| && OccursAt(z + y, k, 0))
  {
    var r := Restored(m, z[1..]);
    var s := [z[0]] + (r + y);
    Assoc([z[0]], r, y);
    assert Restored(m, z) + y == s && s[1..] == r + y;
    assert k[0] == z[0] && k[1..] <= s[1..];
    k', a := RestOfKey(m, z[1..], y, k, 1, reach);
    if !Meeting(m, k, k', a, reach) { KeptHead(z, r, y, k); }
  }

  /** A key whose rest was kept, or runs into y, started in z. */
  lemma KeptHead(z: Bytes, r: Bytes, y: Bytes, k: Bytes)
    requires k != [] && z != [] && !(k <= z) && k[0] == z[0] && k <= [z[0]] + (r + y)
    requires k[1..] <= z[1..] || (r == z[1..] && |z[1..]| < |k| - 1)
    ensures |z| < |k| && OccursAt(z + y, k, 0)
  {
    WithFirst(z);
    WithFirst(k);
    assert k[1..] <= z[1..] ==> k <= z;
    Assoc([z[0]], z[1..], y);
  }

  /** A key that starts inside what was written for a key. */
  lemma OriginWritten(m: Mapping, w: Bytes, y: Bytes, k: Bytes, i: nat)
    requires i < |w| && OccursAt(w + y, k, i) && k != []
    ensures Meets(w, k, 0 - i)
  {
    forall x | 0 <= x < |k| && 0 <= x + i < |w| ensures k[x] == w[x + i] {
      OccursAtBytes(w + y, k, i, x);
    }
  }

  /**
   * A key that starts in a restored text (y follows it) starts or runs into an original that it
   * meets, or it is a key that began in z and reaches into y.
   */
  lemma {:induction false} Origin(m: Mapping, z: Bytes, y: Bytes, k: Bytes, i: nat, reach: int)
    returns (k': Bytes, a: int, j: nat)
    requires k in m && k != [] && i < |Restored(m, z)| && OccursAt(Restored(m, z) + y, k, i)
    requires reach == |Restored(m, z)| - i
    ensures || Meeting(m, k, k', a, reach)
            || (j < |z| < j + |k| && OccursAt(z + y, k, j))
    decreases |z|
  {
    k', a, j := [], 0, 0;
    var w, n := Written(m, z), Advance(m, z);
    var r := Restored(m, z[n..]);
    Assoc(w, r, y);
    if i >= |w| {
      Shift(w, r + y, k, i);
      k', a, j := Origin(m, z[n..], y, k, i - |w|, reach);
      if !Meeting(m, k, k', a, reach) {
        ShiftTail(z, y, k, n, j);
        j := n + j;
      }
    } else if KeyAt(m, z) > 0 {
      OriginWritten(m, w, r + y, k, i);
      k', a := z[..n], 0 - i;
    } else {
      assert k <= w + (r + y);
      k', a := OriginKept(m, z, y, k, reach);
    }
  }

  // ---------- one step of the stream ----------

  /** Behind the start of a key that reaches into y, z holds no whole key. */
  lemma OpenKeyAlone(m: Mapping, z: Bytes, y: Bytes, k: Bytes, j: nat)
    requires ShapedKeys(m) && k in m && j < |z| < j + |k| && OccursAt(z + y, k, j)
    ensures forall k', i' | k' in m && 0 <= i' && i' + |k'| > j :: !OccursAt(z, k', i')
  {
    forall k', i' | k' in m && 0 <= i' && i' + |k'| > j ensures !OccursAt(z, k', i') {
      OccursAtWindow(z + y, k', 0, |z|, i');
      assert (z + y)[0..|z|] == z;
      if OccursAt(z + y, k', i') {
        if i' <= j { OccurrencesDisjoint(z + y, k', i', k, j); } else { OccurrencesDisjoint(z + y, k, j, k', i'); }
      }
    }
  }

  /** If no key ends behind j, what is behind j stays as it is. */
  lemma RestoredBefore(m: Mapping, z: Bytes, j: nat)
    requires ShapedKeys(m) && j < |z|
    requires forall k', i' | k' in m && 0 <= i' && i' + |k'| > j :: !OccursAt(z, k', i')
    ensures Restored(m, z) == Restored(m, z[..j]) + z[j..] && Hits(m, z) == Hits(m, z[..j])
  {
    assert z[..j] + z[j..] == z;
    RestoredSplit(m, z[..j], z[j..]);
    CleanBehind(m, z, j);
    RestoredClean(m, z[j..]);
  }

  lemma CleanBehind(m: Mapping, z: Bytes, j: nat)
    requires j < |z| && forall k, i | k in m && 0 <= i && i + |k| > j :: !OccursAt(z, k, i)
    requires ShapedKeys(m)
    ensures Clean(m, z[j..])
  {
    assert z[j..|z|] == z[j..];
    forall k, i | k in m ensures !OccursAt(z[j..], k, i) {
      OccursAtWindow(z, k, j, |z|, i);
    }
  }

  /**
   * The end of z that is the beginning of a key reaching into y, if there is one: what comes before
   * it is restored on its own, and it is still untouched in the restored text.
   */
  lemma OpenTail(m: Mapping, z: Bytes, y: Bytes, keep: nat) returns (j: nat)
    requires ShapedKeys(m) && forall k | k in m :: |k| <= keep + 1
    ensures j <= |z| && |z| - j <= keep
    ensures Restored(m, z) == Restored(m, z[..j]) + z[j..] && Hits(m, z) == Hits(m, z[..j])
    ensures NoStraddle(m, z[..j], z[j..] + y)
  {
    if k, i :| k in m && 0 <= i < |z| < i + |k| && OccursAt(z + y, k, i) {
      j := i;
      OpenKeyAlone(m, z, y, k, j);
      RestoredBefore(m, z, j);
      Halves(z, y, j);
      forall k', i' | k' in m && 0 <= i' < j < i' + |k'| ensures !OccursAt(z + y, k', i') {
        if OccursAt(z + y, k', i') { OccurrencesDisjoint(z + y, k', i', k, j); }
      }
    } else {
      j := |z|;
      assert z[..j] == z && z[j..] == [] && z[j..] + y == y;
    }
  }

  /** In what an emitted prefix e leaves of a restored text, no key starts, whatever u follows. */
  lemma NothingNew(m: Mapping, keep: nat, body: Bytes, u: Bytes, e: Bytes, v: Bytes)
    requires ShapedKeys(m) && Apart(m, keep) && NoStraddle(m, body, u)
    requires Restored(m, body) == e + v
    requires forall k, i | k in m && 0 <= i < |v| && OccursAt(v + u, k, i) :: |v| - i <= keep
    ensures forall k, i | k in m && 0 <= i < |v| :: !OccursAt(v + u, k, i)
  {
    forall k, i | k in m && 0 <= i < |v| ensures !OccursAt(v + u, k, i) {
      if OccursAt(v + u, k, i) {
        Assoc(e, v, u);
        Shift(e, v + u, k, |e| + i);
        var k', a, j := Origin(m, body, u, k, |e| + i, |v| - i);
      }
    }
  }

  /** Restoring v + u when no key starts in v. */
  lemma RestoredAfter(m: Mapping, v: Bytes, u: Bytes)
    requires ShapedKeys(m) && forall k, i | k in m && 0 <= i < |v| :: !OccursAt(v + u, k, i)
    ensures Restored(m, v + u) == v + Restored(m, u)
    ensures Hits(m, v + u) == Hits(m, u)
  {
    forall k, i | k in m ensures !OccursAt(v, k, i) {
      OccursAtWindow(v + u, k, 0, |v|, i);
      assert (v + u)[0..|v|] == v;
    }
    RestoredClean(m, v);
    RestoredSplit(m, v, u);
  }

  lemma Recut(e: Bytes, p: Bytes, v: Bytes, t: Bytes) returns (v': Bytes)
    requires e + p == v + t && |e| <= |v|
    ensures v == e + v' && p == v' + t
  {
    v' := v[|e|..];
    assert v == (e + p)[..|v|] && e == (e + p)[..|e|];
    assert p == (e + p)[|e|..] && (v + t)[|e|..] == v' + t;
  }

  /**
   * Restoring z and cutting the result into an emitted part e and a pending part p loses nothing:
   * whatever y follows, restoring p + y continues the restoration of z + y.
   */
  lemma FeedStep(m: Mapping, keep: nat, z: Bytes, e: Bytes, p: Bytes, y: Bytes)
    requires ShapedKeys(m) && Apart(m, keep) && forall k | k in m :: |k| <= keep + 1
    requires Restored(m, z) == e + p
    requires e == [] || |p| >= keep
    requires forall k, i | k in m && 0 <= i < |p| && OccursAt(p + y, k, i) :: |p| - i <= keep
    ensures Restored(m, z + y) == e + Restored(m, p + y)
    ensures Hits(m, z + y) == Hits(m, z) + Hits(m, p + y)
  {
    var j := OpenTail(m, z, y, keep);
    var body, t := z[..j], z[j..];
    Halves(z, y, j);
    RestoredSplit(m, body, t + y);
    var v := Restored(m, body);
    assert |e| <= |v| by { assert |e + p| == |v + t|; }
    var v' := Recut(e, p, v, t);
    Assoc(v', t, y);
    NothingNew(m, keep, body, t + y, e, v');
    RestoredAfter(m, v', t + y);
    Assoc(e, v', Restored(m, t + y));
  }

  // ---------- whole streams ----------

  /** Keys whose second byte can begin a rune, as in every key built from UTF-8 labels. */
  ghost predicate RuneKeys(m: Mapping) {
    forall k | k in m && |k| >= 2 :: RuneStart(k[1])
  }

  /** No byte of s that could begin a key is kept pending more than keep bytes before the end. */
  lemma CutKeepsKeysShort(s: Bytes, keep: nat, i: nat)
    requires var p := s[Cut(s, keep)..];
             i < |p| && p[i] == OPEN && (i + 1 < |p| ==> RuneStart(p[i + 1]))
    ensures |s| - Cut(s, keep) - i <= keep
  {
    if |s| > keep > 0 {
      var c := Cut(s, keep);
      assert s[c..][i] == s[c + i];
      assert i + 1 < |s| - c ==> s[c..][i + 1] == s[c + i + 1];
    }
  }

  lemma FeedIsStep(m: Mapping, keep: nat, pending: Bytes, chunk: Bytes, y: Bytes)
    requires ShapedKeys(m) && RuneKeys(m) && Apart(m, keep) && forall k | k in m :: |k| <= keep + 1
    ensures var p := Feed(m, keep, pending, chunk);
            && Restored(m, pending + chunk + y) == p.emitted + Restored(m, p.pending + y)
            && Hits(m, pending + chunk + y) == p.hits + Hits(m, p.pending + y)
  {
    var z := pending + chunk;
    var w := Restored(m, z);
    var c := Cut(w, keep);
    var e, p := w[..c], w[c..];
    assert w == e + p;
    forall k, i | k in m && 0 <= i < |p| && OccursAt(p + y, k, i) ensures |p| - i <= keep {
      OccursAtBytes(p + y, k, i, 0);
      OccursAtBytes(p + y, k, i, 1);
      CutKeepsKeysShort(w, keep, i);
    }
    FeedStep(m, keep, z, e, p, y);
  }

  /** Nothing in p is left to restore. */
  ghost predicate Settled(m: Mapping, p: Bytes) {
    Restored(m, p) == p && Hits(m, p) == []
  }

  lemma {:induction false} StreamIsRestore(m: Mapping, keep: nat, pending: Bytes, chunks: seq<Bytes>)
    requires ShapedKeys(m) && RuneKeys(m) && Apart(m, keep) && forall k | k in m :: |k| <= keep + 1
    requires Settled(m, pending)
    ensures var p := Stream(m, keep, pending, chunks);
            && p.emitted + p.pending == Restored(m, pending + Concat(chunks))
            && p.hits == Hits(m, pending + Concat(chunks))
            && Settled(m, p.pending)
    decreases |chunks|
  {
    if chunks == [] {
      assert pending + [] == pending;
    } else {
      var p := Feed(m, keep, pending, chunks[0]);
      var y := Concat(chunks[1..]);
      FeedSettles(m, keep, pending, chunks[0]);
      FeedIsStep(m, keep, pending, chunks[0], y);
      StreamIsRestore(m, keep, p.pending, chunks[1..]);
      Assoc(pending, chunks[0], y);
      var rest := Stream(m, keep, p.pending, chunks[1..]);
      Assoc(p.emitted, rest.emitted, rest.pending);
    }
  }

  lemma FeedSettles(m: Mapping, keep: nat, pending: Bytes, chunk: Bytes)
    requires ShapedKeys(m) && RuneKeys(m) && Apart(m, keep) && forall k | k in m :: |k| <= keep + 1
    ensures Settled(m, Feed(m, keep, pending, chunk).pending)
  {
    var p := Feed(m, keep, pending, chunk);
    var z := pending + chunk;
    FeedIsStep(m, keep, pending, chunk, []);
    assert z + [] == z && p.pending + [] == p.pending;
    assert Restored(m, z) == p.emitted + p.pending;
    SameTail(p.emitted, p.pending, Restored(m, p.pending));
    SameTail(p.hits, [], Hits(m, p.pending));
    assert p.hits + [] == p.hits;
  }

  lemma SameTail<T>(a: seq<T>, b: seq<T>, c: seq<T>)
    requires a + b == a + c
    ensures b == c
  {
    assert b == (a + b)[|a|..] && c == (a + c)[|a|..];
  }

  /** The run in which an original that meets a key makes the stream replace too much. */
  function Betrayal(k': Bytes, o: Bytes, k: Bytes, a: int): seq<Bytes>
    requires a < |k| && 0 < a + |o|
  {
    [(if a > 0 then k[..a] else []) + k', if a + |o| < |k| then k[a + |o|..] else []]
  }

  lemma MeetingBetrays(m: Mapping, keep: nat, k': Bytes, k: Bytes, a: int)
    requires ShapedKeys(m) && k' in m && k in m
    requires Meets(m[k'], k, a) && a + |m[k']| <= keep
    ensures !Faithful(m, keep, Betrayal(k', m[k'], k, a))
  {
    var o := m[k'];
    var pre := if a > 0 then k[..a] else [];
    var post := if a + |o| < |k| then k[a + |o|..] else [];
    KeyParts(k, if a > 0 then a else 0, if a + |o| < |k| then a + |o| else |k|);
    OneKey(m, keep, pre, k', post);
    BetrayedKey(m, keep, o, k, a);
    TooManyHits(m, keep, pre + k', post, k);
  }

  /** A key in what is pending and a second chunk is one more than restoring both at once replaces. */
  lemma TooManyHits(m: Mapping, keep: int, one: Bytes, two: Bytes, k: Bytes)
    requires ShapedKeys(m) && k in m && Hits(m, one) == Hits(m, one + two)
    requires Occurs(Feed(m, keep, [], one).pending + two, k)
    ensures !Faithful(m, keep, [one, two])
  {
    var z := Feed(m, keep, [], one).pending + two;
    TwoChunks(m, keep, one, two);
    HitsAreCounts(m, z, k);
    CountPositive(z, k);
    assert |Hits(m, z)| > 0;
    assert |Hits(m, one) + Hits(m, z)| > |Hits(m, one + two)|;
  }

  lemma KeyParts(k: Bytes, a: nat, e: nat)
    requires Shaped(k) && a < |k| && 0 < e <= |k|
    ensures CLOSE !in k[..a] && OPEN !in k[e..]
  {
  }

  /** A key after some text: the hits, and what is pending after it as a first chunk. */
  lemma OneKey(m: Mapping, keep: int, pre: Bytes, k': Bytes, post: Bytes)
    requires ShapedKeys(m) && k' in m && CLOSE !in pre && OPEN !in post
    ensures Hits(m, pre + k') == [k'] == Hits(m, pre + k' + post)
    ensures Feed(m, keep, [], pre + k').pending == (pre + m[k'])[Cut(pre + m[k'], keep)..]
  {
    BracketFreeTailIsClean(m, pre, k', post);
    BracketFreeTailIsClean(m, pre, k', []);
    assert pre + k' + [] == pre + k' && m[k'] + [] == m[k'];
    assert [] + (pre + k') == pre + k';
  }

  lemma TwoChunks(m: Mapping, keep: int, one: Bytes, two: Bytes)
    ensures Concat([one, two]) == one + two
    ensures Stream(m, keep, [], [one, two]).hits
         == Hits(m, one) + Hits(m, Feed(m, keep, [], one).pending + two)
  {
    assert [] + one == one;
    assert [one, two][1..] == [two] && [two][1..] == [];
    assert Concat([two]) == two + [] == two;
    var p := Feed(m, keep, [], one);
    assert Stream(m, keep, p.pending, [two]).hits == Feed(m, keep, p.pending, two).hits + [];
  }

  /** Text without a closing bracket, a key, text without an opening bracket: only the key is hit. */
  lemma BracketFreeTailIsClean(m: Mapping, pre: Bytes, k': Bytes, post: Bytes)
    requires ShapedKeys(m) && k' in m && CLOSE !in pre && OPEN !in post
    ensures Restored(m, pre + k' + post) == pre + (m[k'] + post)
    ensures Hits(m, pre + k' + post) == [k']
  {
    forall k, i | k in m ensures !OccursAt(pre, k, i) {
      if OccursAt(pre, k, i) { OccursAtBytes(pre, k, i, |k| - 1); }
    }
    forall k, i | k in m ensures !OccursAt(post, k, i) {
      if OccursAt(post, k, i) { OccursAtBytes(post, k, i, 0); }
    }
    RestoredClean(m, pre);
    RestoredClean(m, post);
    Assoc(pre, k', post);
    NoStraddleBeforeKey(m, pre, k', post);
    RestoredSplit(m, pre, k' + post);
    RestoredKey(m, k', post);
  }

  /** The pending suffix of the first chunk and the second chunk make up the whole key. */
  lemma BetrayedKey(m: Mapping, keep: nat, o: Bytes, k: Bytes, a: int)
    requires Meets(o, k, a) && a + |o| <= keep
    ensures var w := (if a > 0 then k[..a] else []) + o;
            Occurs(w[Cut(w, keep)..] + (if a + |o| < |k| then k[a + |o|..] else []), k)
  {
    var pre := if a > 0 then k[..a] else [];
    var post := if a + |o| < |k| then k[a + |o|..] else [];
    var e := a + |o|;
    var w := pre + o;
    var c := Cut(w, keep);
    var p := w[c..];
    var i := |p| - e;
    assert i >= 0;
    forall x | 0 <= x < |k| ensures (p + post)[i + x] == k[x] {
      if x < e {
        assert (p + post)[i + x] == w[c + i + x];
        if x >= a { assert w[c + i + x] == o[x - a]; }
      }
    }
    assert (p + post)[i..i + |k|] == k;
    assert OccursAt(p + post, k, i);
  }

  /**
   * Restoring chunk by chunk is faithful to restoring at once, for every way of chunking every text,
   * if and only if no original meets a key with its end at most keepBytes after the key's start.
   */
  lemma StreamingExactly(m: Mapping)
    requires ShapedKeys(m) && RuneKeys(m)
    ensures Apart(m, KeepBytes(m)) <==> forall chunks :: Faithful(m, KeepBytes(m), chunks)
  {
    var keep := KeepBytes(m);
    if Apart(m, keep) {
      forall chunks ensures Faithful(m, keep, chunks) {
        StreamIsRestore(m, keep, [], chunks);
        assert [] + Concat(chunks) == Concat(chunks);
      }
    } else {
      var k', k, a: int :| k' in m && k in m && a + |m[k']| <= keep && Meets(m[k'], k, a);
      MeetingBetrays(m, keep, k', k, a);
    }
  }

  /** In particular every stream is faithful when the originals are inert. */
  lemma InertStreamsFaithfully(m: Mapping, chunks: seq<Bytes>)
    requires ShapedKeys(m) && RuneKeys(m) && Inert(m)
    ensures Faithful(m, KeepBytes(m), chunks)
  {
    InertIsApart(m, KeepBytes(m));
    StreamingExactly(m);
  }

  /** Restoring again what has been restored changes nothing, whatever is appended. */
  lemma RestoreAgain(m: Mapping, x: Bytes, d: Bytes)
    requires ShapedKeys(m) && Inert(m)
    ensures Restored(m, Restored(m, x) + d) == Restored(m, x + d)
    ensures Hits(m, x + d) == Hits(m, x) + Hits(m, Restored(m, x) + d)
    ensures Restored(m, Restored(m, x)) == Restored(m, x)
  {
    var w := Restored(m, x);
    var keep := KeepBytes(m) + |w|;
    InertIsApart(m, keep);
    assert w == [] + w;
    FeedStep(m, keep, x, [], w, d);
    FeedStep(m, keep, x, [], w, []);
    assert x + [] == x && w + [] == w;
    assert [] + Restored(m, w + d) == Restored(m, w + d);
  }
}
