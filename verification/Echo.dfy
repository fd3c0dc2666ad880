/** When does the restorer return the original of a redacted text that is sent back? */
module Echo {
  import opened ByteText
  import opened Restore
  import opened Streaming
  import opened Placeholders
  import opened Spans
  import opened Redaction
  import opened RoundTrip

  /** The echoed chunks come out as the text, with every placeholder replaced once and nothing else. */
  ghost predicate Returns(m: Mapping, keep: int, text: Bytes, ents: seq<Entity>, chunks: seq<Bytes>) {
    var p := Stream(m, keep, [], chunks);
    && p.emitted + p.pending == text
    && Settled(m, p.pending)
    && p.hits == PlaceholdersOf(ents)
  }

  /**
   * Wherever the text itself contains a key, an entity covers the key's last byte and ends more than
   * keep bytes after the key's first byte. (A text that contains no key is safe.)
   */
  ghost predicate Safe(m: Mapping, keep: int, text: Bytes, ents: seq<Entity>) {
    forall k, i | k in m && OccursAt(text, k, i) ::
      exists e :: e in ents && e.start < i + |k| && i + keep < e.end
  }

  // ---------- moving the left border ----------

  lemma RebuiltEarlier(text: Bytes, ents: seq<Entity>, c: int, a: int)
    requires 0 <= c <= a && Placed(text, ents, a)
    ensures Placed(text, ents, c) && a <= |text|
    ensures Rebuilt(text, ents, c) == text[c..a] + Rebuilt(text, ents, a)
  {
    LastEndInText(text, ents, a);
    if ents != [] {
      RebuiltStep(text, ents, a);
      RebuiltStep(text, ents, c);
      assert text[c..ents[0].start] == text[c..a] + text[a..ents[0].start];
      Assoc(text[c..a], text[a..ents[0].start], ents[0].placeholder + Rebuilt(text, ents[1..], ents[0].end));
    }
  }

  // ---------- cutting an echoed text ----------

  /**
   * The first n bytes of an echoed text restore to a piece text[prev..a] of the original and perhaps
   * the beginning t of the next placeholder; with t put back, the other bytes are the echo from a on.
   */
  ghost predicate CutAt(m: Mapping, text: Bytes, ents: seq<Entity>, prev: int, n: nat, j: nat, a: int, t: Bytes)
    requires Placed(text, ents, prev) && n <= |Rebuilt(text, ents, prev)|
  {
    && CutPlace(m, text, ents, prev, j, a, t)
    && CutMeaning(m, Rebuilt(text, ents, prev), n, text[prev..a], PlaceholdersOf(ents[..j]), t,
        Rebuilt(text, ents[j..], a))
    && (n == |Rebuilt(text, ents, prev)| ==> j == |ents|)
  }

  ghost predicate CutPlace(m: Mapping, text: Bytes, ents: seq<Entity>, prev: int, j: nat, a: int, t: Bytes) {
    && j <= |ents| && 0 <= prev <= a <= |text| && Placed(text, ents[j..], a)
    && (j > 0 ==> ents[j - 1].end <= a)
    && GapsClean(m, text, ents[j..], a)
    && (t != [] ==> j < |ents| && t <= ents[j].placeholder && t != ents[j].placeholder)
  }

  /** The first n bytes of s restore to u and then t, hitting hits; with t put back, r is left. */
  ghost predicate CutMeaning(m: Mapping, s: Bytes, n: nat, u: Bytes, hits: seq<Bytes>, t: Bytes, r: Bytes)
    requires n <= |s|
  {
    && Restored(m, s[..n]) == u + t
    && Hits(m, s[..n]) == hits
    && t + s[n..] == r
  }

  lemma {:induction false} EchoCut(m: Mapping, text: Bytes, ents: seq<Entity>, prev: int, n: nat)
    returns (j: nat, a: int, t: Bytes)
    requires Undoes(m, text, ents) && Placed(text, ents, prev) && GapsClean(m, text, ents, prev)
    requires n <= |Rebuilt(text, ents, prev)|
    ensures CutAt(m, text, ents, prev, n, j, a, t)
    decreases |ents|, 1
  {
    if ents == [] || n <= ents[0].start - prev {
      j, a, t := CutInGap(m, text, ents, prev, n);
    } else {
      RebuiltStep(text, ents, prev);
      var n' := n - (ents[0].start - prev);
      if n' < |ents[0].placeholder| {
        assert Placed(text, ents, ents[0].start) && GapsClean(m, text, ents, ents[0].start);
        j, a, t := CutInPlaceholder(m, text, ents, prev, n, n');
      } else {
        j, a, t := EchoCutBehind(m, text, ents, prev, n, n' - |ents[0].placeholder|);
      }
    }
  }

  lemma {:induction false} EchoCutBehind(m: Mapping, text: Bytes, ents: seq<Entity>, prev: int, n: nat, n': nat)
    returns (j: nat, a: int, t: Bytes)
    requires Undoes(m, text, ents) && Placed(text, ents, prev) && GapsClean(m, text, ents, prev)
    requires ents != [] && n == ents[0].start - prev + |ents[0].placeholder| + n'
    requires n' <= |Rebuilt(text, ents[1..], ents[0].end)|
    ensures n <= |Rebuilt(text, ents, prev)| && CutAt(m, text, ents, prev, n, j, a, t)
    decreases |ents|, 0
  {
    UndoesRest(m, text, ents);
    var j', a', t' := EchoCut(m, text, ents[1..], ents[0].end, n');
    CutBehindPlaceholder(m, text, ents, prev, n, n', j', a', t');
    return j' + 1, a', t';
  }

  lemma CutInGap(m: Mapping, text: Bytes, ents: seq<Entity>, prev: int, n: nat) returns (j: nat, a: int, t: Bytes)
    requires Undoes(m, text, ents) && Placed(text, ents, prev) && GapsClean(m, text, ents, prev)
    requires prev + n <= if ents == [] then |text| else ents[0].start
    ensures n <= |Rebuilt(text, ents, prev)| && CutAt(m, text, ents, prev, n, j, a, t)
  {
    j, a, t := 0, prev + n, [];
    CleanUpTo(m, text, ents, prev, a);
    RebuiltEarlier(text, ents, prev, a);
    MeaningInGap(m, text[prev..a], Rebuilt(text, ents, a), n);
    assert ents[0..] == ents && ents[..0] == [];
    SomethingLeft(m, text, ents, a);
  }

  /** Inside the first gap: what is left of it and what is right of it is clean. */
  lemma CleanUpTo(m: Mapping, text: Bytes, ents: seq<Entity>, prev: int, a: int)
    requires Placed(text, ents, prev) && GapsClean(m, text, ents, prev)
    requires prev <= a <= if ents == [] then |text| else ents[0].start
    ensures Placed(text, ents, a) && GapsClean(m, text, ents, a) && Clean(m, text[prev..a])
  {
    var gapEnd := if ents == [] then |text| else ents[0].start;
    assert text[prev..] == text[prev..|text|] && text[a..] == text[a..|text|];
    var gap := text[prev..gapEnd];
    CleanWindow(m, gap, a - prev, gapEnd - prev);
    CleanWindow(m, gap, 0, a - prev);
    SliceSlice(text, prev, gapEnd, a - prev, gapEnd - prev);
    SliceSlice(text, prev, gapEnd, 0, a - prev);
  }

  lemma MeaningInGap(m: Mapping, u: Bytes, r: Bytes, n: nat)
    requires Clean(m, u) && n == |u|
    ensures CutMeaning(m, u + r, n, u, [], [], r)
  {
    RestoredClean(m, u);
    assert (u + r)[..n] == u && (u + r)[n..] == r && u + [] == u && [] + r == r;
  }

  lemma SomethingLeft(m: Mapping, text: Bytes, ents: seq<Entity>, prev: int)
    requires Undoes(m, text, ents) && Placed(text, ents, prev)
    ensures ents != [] ==> Rebuilt(text, ents, prev) != []
  {
    if ents != [] {
      assert ents[0] in ents;
      RebuiltStep(text, ents, prev);
    }
  }

  /** The first bytes of a placeholder are no key and complete none. */
  lemma PartOfPlaceholder(m: Mapping, gap: Bytes, p: Bytes, n: nat)
    requires ShapedKeys(m) && p in m && Clean(m, gap) && n < |p|
    ensures Restored(m, gap + p[..n]) == gap + p[..n] && Hits(m, gap + p[..n]) == []
  {
    Shift(gap, p, p, |gap|);
    assert OccursAt(p, p, 0);
    forall k, i | k in m ensures !OccursAt(gap + p[..n], k, i) {
      assert (gap + p)[0..|gap| + n] == gap + p[..n] && (gap + p)[0..|gap|] == gap;
      OccursAtWindow(gap + p, k, 0, |gap| + n, i);
      OccursAtWindow(gap + p, k, 0, |gap|, i);
      if OccursAt(gap + p, k, i) {
        if i < |gap| {
          OccurrencesDisjoint(gap + p, k, i, p, |gap|);
        } else {
          OccurrencesDisjoint(gap + p, p, |gap|, k, i);
        }
      }
    }
    RestoredClean(m, gap + p[..n]);
  }

  lemma CutInPlaceholder(m: Mapping, text: Bytes, ents: seq<Entity>, prev: int, n: nat, n': nat)
    returns (j: nat, a: int, t: Bytes)
    requires Undoes(m, text, ents) && Placed(text, ents, prev)
    requires ents != [] && Clean(m, text[prev..ents[0].start])
    requires Placed(text, ents, ents[0].start) && GapsClean(m, text, ents, ents[0].start)
    requires 0 < n' < |ents[0].placeholder| && n == ents[0].start - prev + n'
    ensures n < |Rebuilt(text, ents, prev)| && CutAt(m, text, ents, prev, n, j, a, t)
  {
    var e := ents[0];
    j, a, t := 0, e.start, e.placeholder[..n'];
    assert e in ents;
    var gap, p, rest := text[prev..e.start], e.placeholder, Rebuilt(text, ents[1..], e.end);
    assert ents[0..] == ents && ents[..0] == [];
    RebuiltStep(text, ents, prev);
    RebuiltHere(text, ents);
    assert CutPlace(m, text, ents, prev, j, a, t);
    MeaningInPlaceholder(m, gap, p, rest, n, n');
  }

  lemma RebuiltHere(text: Bytes, ents: seq<Entity>)
    requires ents != [] && Placed(text, ents, ents[0].start)
    ensures Rebuilt(text, ents, ents[0].start) == ents[0].placeholder + Rebuilt(text, ents[1..], ents[0].end)
  {
    RebuiltStep(text, ents, ents[0].start);
    assert text[ents[0].start..ents[0].start] == [];
  }

  lemma MeaningInPlaceholder(m: Mapping, gap: Bytes, p: Bytes, rest: Bytes, n: nat, n': nat)
    requires ShapedKeys(m) && p in m && Clean(m, gap) && n' < |p| && n == |gap| + n'
    ensures CutMeaning(m, gap + (p + rest), n, gap, [], p[..n'], p + rest)
  {
    InMiddle(gap, p, rest, n');
    var s := gap + (p + rest);
    assert s[..n] == gap + p[..n'] && p[..n'] + s[n..] == p + rest;
    PartOfPlaceholder(m, gap, p, n');
  }

  lemma InMiddle(a: Bytes, b: Bytes, c: Bytes, n: nat)
    requires n <= |b|
    ensures (a + (b + c))[..|a| + n] == a + b[..n]
    ensures b[..n] + (a + (b + c))[|a| + n..] == b + c
  {
    assert (a + (b + c))[|a| + n..] == b[n..] + c;
    Halves(b, c, n);
  }

  lemma MeaningBehindPlaceholder(m: Mapping, gap: Bytes, p: Bytes, rest: Bytes, n: nat, n': nat,
                                 u: Bytes, hits: seq<Bytes>, t: Bytes, r: Bytes)
    requires ShapedKeys(m) && p in m && Clean(m, gap) && n == |gap| + |p| + n'
    requires n' <= |rest| && CutMeaning(m, rest, n', u, hits, t, r)
    ensures CutMeaning(m, gap + (p + rest), n, gap + (m[p] + u), [p] + hits, t, r)
  {
    assert (gap + (p + rest))[n..] == rest[n'..];
    assert (gap + (p + rest))[..n] == gap + (p + rest[..n']);
    RestoredBehind(m, gap, p, rest[..n']);
    Regrouped(gap, m[p], u, t);
  }

  lemma Regrouped(a: Bytes, b: Bytes, c: Bytes, d: Bytes)
    ensures a + (b + (c + d)) == (a + (b + c)) + d
  {
    Assoc(b, c, d);
    Assoc(a, b + c, d);
  }

  lemma RestoredBehind(m: Mapping, gap: Bytes, p: Bytes, v: Bytes)
    requires ShapedKeys(m) && p in m && Clean(m, gap)
    ensures Restored(m, gap + (p + v)) == gap + (m[p] + Restored(m, v))
    ensures Hits(m, gap + (p + v)) == [p] + Hits(m, v)
  {
    NoStraddleBeforeKey(m, gap, p, v);
    RestoredSplit(m, gap, p + v);
    RestoredKey(m, p, v);
    RestoredClean(m, gap);
    assert [] + ([p] + Hits(m, v)) == [p] + Hits(m, v);
  }

  lemma CutBehindPlaceholder(m: Mapping, text: Bytes, ents: seq<Entity>, prev: int, n: nat, n': nat, j: nat,
    a: int, t: Bytes)
    requires Undoes(m, text, ents) && Placed(text, ents, prev)
    requires ents != [] && Clean(m, text[prev..ents[0].start])
    requires n == ents[0].start - prev + |ents[0].placeholder| + n'
    requires n' <= |Rebuilt(text, ents[1..], ents[0].end)| && CutAt(m, text, ents[1..], ents[0].end, n', j, a, t)
    ensures n <= |Rebuilt(text, ents, prev)| && CutAt(m, text, ents, prev, n, j + 1, a, t)
  {
    var e := ents[0];
    assert e in ents;
    var gap, p, rest := text[prev..e.start], e.placeholder, Rebuilt(text, ents[1..], e.end);
    RebuiltStep(text, ents, prev);
    MeaningBehindPlaceholder(m, gap, p, rest, n, n',
      text[e.end..a], PlaceholdersOf(ents[1..][..j]), t, Rebuilt(text, ents[1..][j..], a));
    assert ents[1..][j..] == ents[j + 1..];
    HeadPlaceholder(ents, j);
    Pieces(text, prev, e.start, e.end, a);
  }

  lemma HeadPlaceholder(ents: seq<Entity>, j: nat)
    requires j < |ents|
    ensures PlaceholdersOf(ents[..j + 1]) == [ents[0].placeholder] + PlaceholdersOf(ents[1..][..j])
  {
    assert ents[..j + 1][1..] == ents[1..][..j];
  }

  lemma Pieces(text: Bytes, a: int, b: int, c: int, d: int)
    requires 0 <= a <= b <= c <= d <= |text|
    ensures text[a..b] + (text[b..c] + text[c..d]) == text[a..d]
  {
  }

  // ---------- the echo, chunk by chunk ----------

  /** What is pending and what is still to come, together, are the echo of the text from prev on. */
  ghost predicate Echoing(m: Mapping, text: Bytes, ents: seq<Entity>, j: nat, prev: int, s: Bytes) {
    && j <= |ents| && Placed(text, ents[j..], prev)
    && GapsClean(m, text, ents[j..], prev)
    && s == Rebuilt(text, ents[j..], prev)
  }

  lemma {:induction false} PlacedOrder(text: Bytes, ents: seq<Entity>, prev: int, x: nat, y: nat)
    requires Placed(text, ents, prev) && x <= y < |ents|
    ensures prev <= ents[x].start < ents[x].end <= |text|
    ensures x < y ==> ents[x].end <= ents[y].start
    decreases y
  {
    if x > 0 {
      PlacedOrder(text, ents[1..], ents[0].end, x - 1, y - 1);
    } else if y > 0 {
      PlacedOrder(text, ents[1..], ents[0].end, 0, y - 1);
    }
    if y > 1 && x == 0 { PlacedOrder(text, ents[1..], ents[0].end, y - 1, y - 1); }
  }

  lemma WidenGap(m: Mapping, text: Bytes, ents: seq<Entity>, c: int, a: int)
    requires 0 <= c <= a && Placed(text, ents, a) && GapsClean(m, text, ents, a)
    requires a <= |text| && Clean(m, text[c..if ents == [] then |text| else ents[0].start])
    ensures Placed(text, ents, c) && GapsClean(m, text, ents, c)
  {
    assert text[c..] == text[c..|text|];
  }

  /** A key of the text that starts in what is pending starts at most keep bytes before its end. */
  lemma KeyPending(keep: nat, text: Bytes, prev: int, a: int, t: Bytes, k: Bytes, i: int)
    requires 0 <= prev <= a <= |text| && Shaped(k) && RuneStart(k[1])
    requires prev + Cut(text[prev..a] + t, keep) <= i && i + 1 < a && OccursAt(text, k, i)
    ensures a - i <= keep
  {
    var w := text[prev..a] + t;
    var c := Cut(w, keep);
    var p := w[c..];
    OccursAtBytes(text, k, i, 0);
    OccursAtBytes(text, k, i, 1);
    assert p[i - prev - c] == text[i] && p[i - prev - c + 1] == text[i + 1];
    CutKeepsKeysShort(w, keep, i - prev - c);
  }

  /** Behind an entity that has been restored, no key can stand in what is pending. */
  lemma NoKeyBehind(m: Mapping, keep: nat, text: Bytes, ents: seq<Entity>, j: nat, prev: int, a: int, t: Bytes, c: int)
    requires ShapedKeys(m) && RuneKeys(m) && Placed(text, ents, 0) && Safe(m, keep, text, ents)
    requires forall k | k in m :: |k| <= keep + 1
    requires 0 < j <= |ents| && ents[j - 1].end <= a
    requires 0 <= prev <= a <= |text| && c == prev + Cut(text[prev..a] + t, keep)
    requires c <= a <= if j == |ents| then |text| else ents[j].start
    requires j < |ents| ==> ents[j].start <= |text|
    ensures Clean(m, text[c..if j == |ents| then |text| else ents[j].start])
  {
    var gapEnd := if j == |ents| then |text| else ents[j].start;
    forall k, i | k in m ensures !OccursAt(text[c..gapEnd], k, i) {
      OccursAtWindow(text, k, c, gapEnd, i);
      if 0 <= i && c + i + |k| <= gapEnd { NotThisKey(m, keep, text, ents, j, prev, a, t, c, k, c + i); }
    }
  }

  lemma NotThisKey(m: Mapping, keep: nat, text: Bytes, ents: seq<Entity>, j: nat, prev: int, a: int, t: Bytes,
    c: int, k: Bytes, i: int)
    requires ShapedKeys(m) && RuneKeys(m) && Placed(text, ents, 0) && Safe(m, keep, text, ents)
    requires k in m && forall k' | k' in m :: |k'| <= keep + 1
    requires 0 < j <= |ents| && ents[j - 1].end <= a
    requires 0 <= prev <= a <= |text| && c == prev + Cut(text[prev..a] + t, keep) <= i
    requires i + |k| <= if j == |ents| then |text| else ents[j].start
    requires j < |ents| ==> ents[j].start <= |text|
    ensures !OccursAt(text, k, i)
  {
    if OccursAt(text, k, i) {
      KeyOutOfReach(m, keep, text, ents, j, a, k, i);
      KeyPending(keep, text, prev, a, t, k, i);
    }
  }

  lemma KeyOutOfReach(m: Mapping, keep: nat, text: Bytes, ents: seq<Entity>, j: nat, a: int, k: Bytes, i: int)
    requires Placed(text, ents, 0) && Safe(m, keep, text, ents) && k in m && ShapedKeys(m)
    requires forall k | k in m :: |k| <= keep + 1
    requires 0 < j <= |ents| && ents[j - 1].end <= a
    requires OccursAt(text, k, i) && i + |k| <= if j == |ents| then |text| else ents[j].start
    ensures i + keep < a && i + 1 < a
  {
    var e :| e in ents && e.start < i + |k| && i + keep < e.end;
    var x :| 0 <= x < |ents| && ents[x] == e;
    if x < j {
      PlacedOrder(text, ents, 0, x, j - 1);
      PlacedOrder(text, ents, 0, j - 1, j - 1);
    } else {
      PlacedOrder(text, ents, 0, j, x);
    }
  }

  lemma EchoRestored(m: Mapping, text: Bytes, ents: seq<Entity>, j0: nat, prev: int, z: Bytes, y: Bytes)
    returns (j1: nat, a: int, t: Bytes)
    requires Undoes(m, text, ents) && Echoing(m, text, ents, j0, prev, z + y)
    ensures j0 <= j1 <= |ents| && 0 <= prev <= a <= |text| && Placed(text, ents[j1..], a)
    ensures j1 > j0 ==> ents[j1 - 1].end <= a
    ensures GapsClean(m, text, ents[j1..], a)
    ensures t != [] ==> j1 < |ents| && |t| < |ents[j1].placeholder|
    ensures Restored(m, z) == text[prev..a] + t
    ensures Hits(m, z) == PlaceholdersOf(ents[j0..j1])
    ensures t + y == Rebuilt(text, ents[j1..], a)
    ensures y == [] ==> j1 == |ents|
  {
    var rest := ents[j0..];
    assert Undoes(m, text, ents[j0..]);
    var j;
    j, a, t := EchoCut(m, text, rest, prev, |z|);
    j1 := j0 + j;
    RestOfRest(ents, j0, j, j1);
    assert Restored(m, z) == text[prev..a] + t && Hits(m, z) == PlaceholdersOf(rest[..j]);
    assert t + y == Rebuilt(text, rest[j..], a);
  }

  lemma RestOfRest<T>(s: seq<T>, i: nat, j: nat, k: nat)
    requires i <= |s| && j <= |s| - i && k == i + j
    ensures s[i..][j..] == s[k..] && s[i..][..j] == s[i..k]
    ensures (j > 0 ==> s[i..][j - 1] == s[k - 1]) && (k < |s| ==> s[i..][j] == s[k])
  {
  }

  lemma EchoStep(m: Mapping, keep: nat, text: Bytes, ents: seq<Entity>, j0: nat, prev: int, z: Bytes, y: Bytes)
    returns (j1: nat, prev1: int)
    requires Undoes(m, text, ents) && RuneKeys(m) && Placed(text, ents, 0) && Safe(m, keep, text, ents)
    requires forall k | k in m :: |k| <= keep + 1
    requires Echoing(m, text, ents, j0, prev, z + y)
    ensures var w := Restored(m, z);
            var c := Cut(w, keep);
            && j0 <= j1 <= |ents| && 0 <= prev <= prev1 <= |text|
            && w[..c] == text[prev..prev1]
            && Echoing(m, text, ents, j1, prev1, w[c..] + y)
            && Hits(m, z) == PlaceholdersOf(ents[j0..j1])
            && (y == [] ==> j1 == |ents|)
  {
    var a, t;
    j1, a, t := EchoRestored(m, text, ents, j0, prev, z, y);
    assert |t| <= keep by { if t != [] { assert ents[j1] in ents; } }
    prev1 := EchoPending(m, keep, text, ents, j0, j1, prev, a, t, y, Restored(m, z));
  }

  /** What is emitted and what is pending of a restored echo w. */
  lemma EchoPending(m: Mapping, keep: nat, text: Bytes, ents: seq<Entity>, j0: nat, j1: nat, prev: int, a: int,
    t: Bytes, y: Bytes, w: Bytes)
    returns (prev1: int)
    requires ShapedKeys(m) && RuneKeys(m) && Placed(text, ents, 0) && Safe(m, keep, text, ents)
    requires forall k | k in m :: |k| <= keep + 1
    requires j0 <= j1 <= |ents| && Placed(text, ents[j0..], prev) && GapsClean(m, text, ents[j0..], prev)
    requires 0 <= prev <= a <= |text| && Placed(text, ents[j1..], a) && GapsClean(m, text, ents[j1..], a)
    requires j1 > j0 ==> ents[j1 - 1].end <= a
    requires |t| <= keep && w == text[prev..a] + t && t + y == Rebuilt(text, ents[j1..], a)
    ensures var c := Cut(w, keep);
            && 0 <= prev <= prev1 <= |text| && w[..c] == text[prev..prev1]
            && Echoing(m, text, ents, j1, prev1, w[c..] + y)
  {
    prev1 := prev + Cut(w, keep);
    SplitAround(text, prev, a, t, keep, w, Cut(w, keep), prev1);
    EchoGaps(m, keep, text, ents, j0, j1, prev, a, t, prev1);
    RebuiltEarlier(text, ents[j1..], prev1, a);
    Assoc(text[prev1..a], t, y);
  }

  /** Cutting text[prev..a] + t, with t short, cuts inside the text. */
  lemma SplitAround(text: Bytes, prev: int, a: int, t: Bytes, keep: nat, w: Bytes, c: nat, prev1: int)
    requires 0 <= prev <= a <= |text| && |t| <= keep
    requires w == text[prev..a] + t && c == Cut(w, keep) && prev1 == prev + c
    ensures prev1 <= a && w[..c] == text[prev..prev1] && w[c..] == text[prev1..a] + t
  {
  }

  lemma EchoGaps(m: Mapping, keep: nat, text: Bytes, ents: seq<Entity>, j0: nat, j1: nat, prev: int, a: int,
    t: Bytes, c: int)
    requires ShapedKeys(m) && RuneKeys(m) && Placed(text, ents, 0) && Safe(m, keep, text, ents)
    requires forall k | k in m :: |k| <= keep + 1
    requires j0 <= j1 <= |ents| && Placed(text, ents[j0..], prev) && GapsClean(m, text, ents[j0..], prev)
    requires 0 <= prev <= a <= |text| && Placed(text, ents[j1..], a) && GapsClean(m, text, ents[j1..], a)
    requires j1 > j0 ==> ents[j1 - 1].end <= a
    requires c == prev + Cut(text[prev..a] + t, keep) <= a
    ensures Placed(text, ents[j1..], c) && GapsClean(m, text, ents[j1..], c)
  {
    var rest := ents[j1..];
    if j1 > j0 {
      assert j1 < |ents| ==> rest[0] == ents[j1];
      if j1 < |ents| { PlacedOrder(text, ents, 0, j1, j1); }
      NoKeyBehind(m, keep, text, ents, j1, prev, a, t, c);
      WidenGap(m, text, rest, c, a);
    } else {
      CleanUpTo(m, text, rest, prev, c);
    }
  }

  lemma {:induction false} EchoStream(m: Mapping, keep: nat, text: Bytes, ents: seq<Entity>,
                                      j: nat, prev: int, pending: Bytes, chunks: seq<Bytes>)
    requires Undoes(m, text, ents) && RuneKeys(m) && Placed(text, ents, 0) && Safe(m, keep, text, ents)
    requires forall k | k in m :: |k| <= keep + 1
    requires Echoing(m, text, ents, j, prev, pending + Concat(chunks))
    requires Concat(chunks) == [] ==> j == |ents|
    ensures var p := Stream(m, keep, pending, chunks);
            && 0 <= prev <= |text| && p.emitted + p.pending == text[prev..]
            && Settled(m, p.pending)
            && p.hits == PlaceholdersOf(ents[j..])
    decreases |chunks|
  {
    if chunks == [] {
      assert ents[j..] == [] && pending + [] == pending;
      assert pending == text[prev..];
      RestoredClean(m, pending);
    } else {
      var z, y := pending + chunks[0], Concat(chunks[1..]);
      Assoc(pending, chunks[0], y);
      var p := Feed(m, keep, pending, chunks[0]);
      var j1, prev1 := EchoStep(m, keep, text, ents, j, prev, z, y);
      EchoStream(m, keep, text, ents, j1, prev1, p.pending, chunks[1..]);
      EchoGlue(text, ents, j, j1, prev, prev1, p, Stream(m, keep, p.pending, chunks[1..]));
    }
  }

  /** What one chunk and the remaining chunks achieve adds up. */
  lemma EchoGlue(text: Bytes, ents: seq<Entity>, j: nat, j1: nat, prev: int, prev1: int, p: Progress, rest: Progress)
    requires j <= j1 <= |ents| && 0 <= prev <= prev1 <= |text|
    requires p.emitted == text[prev..prev1] && rest.emitted + rest.pending == text[prev1..]
    requires p.hits == PlaceholdersOf(ents[j..j1]) && rest.hits == PlaceholdersOf(ents[j1..])
    ensures (p.emitted + rest.emitted) + rest.pending == text[prev..]
    ensures p.hits + rest.hits == PlaceholdersOf(ents[j..])
  {
    Assoc(p.emitted, rest.emitted, rest.pending);
    assert text[prev..] == text[prev..prev1] + text[prev1..];
    PlaceholdersSplit(ents, j, j1);
  }

  lemma {:induction false} PlaceholdersSplit(ents: seq<Entity>, j: nat, j1: nat)
    requires j <= j1 <= |ents|
    ensures PlaceholdersOf(ents[j..j1]) + PlaceholdersOf(ents[j1..]) == PlaceholdersOf(ents[j..])
    decreases j1 - j
  {
    if j < j1 {
      PlaceholdersSplit(ents, j + 1, j1);
      assert ents[j..j1][1..] == ents[j + 1..j1] && ents[j..][1..] == ents[j + 1..];
    }
  }

  // ---------- the other direction ----------

  /** The echo up to text position a, before which exactly the first j entities lie, and from there on. */
  ghost predicate SplitsAt(m: Mapping, text: Bytes, ents: seq<Entity>, prev: int, j: nat, a: int)
    requires Placed(text, ents, prev) && j <= |ents| && 0 <= a <= |text| && Placed(text, ents[j..], a)
  {
    && Placed(text[..a], ents[..j], prev) && GapsClean(m, text[..a], ents[..j], prev)
    && Undoes(m, text[..a], ents[..j])
    && Rebuilt(text, ents, prev) == Rebuilt(text[..a], ents[..j], prev) + Rebuilt(text, ents[j..], a)
  }

  lemma {:induction false} SplitEcho(m: Mapping, text: Bytes, ents: seq<Entity>, prev: int, j: nat, a: int)
    requires Undoes(m, text, ents) && Placed(text, ents, prev) && GapsClean(m, text, ents, prev)
    requires j <= |ents| && prev <= a <= |text| && Placed(text, ents[j..], a)
    requires j > 0 ==> ents[j - 1].end <= a
    ensures SplitsAt(m, text, ents, prev, j, a)
    decreases j
  {
    if j == 0 {
      SplitEchoHere(m, text, ents, prev, a);
    } else {
      var rest, j' := ents[1..], j - 1;
      UndoesRest(m, text, ents);
      assert rest[j'..] == ents[j..];
      assert j' > 0 ==> rest[j' - 1] == ents[j - 1];
      PlacedOrder(text, ents, prev, 0, j - 1);
      PlacedOrder(text, ents, prev, j - 1, j - 1);
      SplitEcho(m, text, rest, ents[0].end, j', a);
      SplitEchoBehind(m, text, ents, prev, j, j', a);
    }
  }

  lemma SplitEchoHere(m: Mapping, text: Bytes, ents: seq<Entity>, prev: int, a: int)
    requires Undoes(m, text, ents) && Placed(text, ents, prev) && GapsClean(m, text, ents, prev)
    requires prev <= a <= |text| && Placed(text, ents, a)
    ensures Placed(text, ents[0..], a) && SplitsAt(m, text, ents, prev, 0, a)
  {
    assert ents[0..] == ents && ents[..0] == [];
    CleanUpTo(m, text, ents, prev, a);
    assert text[..a][prev..] == text[prev..a];
    RebuiltEarlier(text, ents, prev, a);
  }

  lemma SplitEchoBehind(m: Mapping, text: Bytes, ents: seq<Entity>, prev: int, j: nat, j': nat, a: int)
    requires Undoes(m, text, ents) && Placed(text, ents, prev)
    requires ents != [] && Clean(m, text[prev..ents[0].start]) && ents[0].end <= a <= |text|
    requires j == j' + 1 <= |ents| && Placed(text, ents[j..], a) && Placed(text, ents[1..][j'..], a)
    requires SplitsAt(m, text, ents[1..], ents[0].end, j', a)
    ensures SplitsAt(m, text, ents, prev, j, a)
  {
    var e, rest, head := ents[0], ents[1..], text[..a];
    assert e in ents;
    WithoutFirst(ents, j, j');
    SliceOfPrefix(text, a, prev, e.start);
    SliceOfPrefix(text, a, e.start, e.end);
    RebuiltStep(text, ents, prev);
    assert Placed(head, ents[..j], prev);
    RebuiltStep(head, ents[..j], prev);
    Regrouped(text[prev..e.start], e.placeholder, Rebuilt(head, rest[..j'], e.end), Rebuilt(text, ents[j..], a));
    assert Undoes(m, head, ents[..j]);
  }

  lemma WithoutFirst<T>(s: seq<T>, j: nat, j': nat)
    requires j == j' + 1 <= |s|
    ensures s[1..][j'..] == s[j..] && s[..j][1..] == s[1..][..j'] && s[..j][0] == s[0] && s[..j] != []
  {
  }

  lemma SliceOfPrefix(text: Bytes, a: int, s: int, e: int)
    requires 0 <= s <= e <= a <= |text|
    ensures text[..a][s..e] == text[s..e]
  {
  }

  /** A text that is not safe is betrayed by sending the echo in two pieces. */
  lemma UnsafeEcho(m: Mapping, keep: nat, text: Bytes, ents: seq<Entity>, k: Bytes, i: int, j: nat, a: int)
    returns (chunks: seq<Bytes>)
    requires Undoes(m, text, ents) && Placed(text, ents, 0) && GapsClean(m, text, ents, 0)
    requires k in m && OccursAt(text, k, i) && |k| <= keep + 1
    requires j <= |ents| && 0 <= a <= |text| && Placed(text, ents[j..], a) && (j > 0 ==> ents[j - 1].end <= a)
    requires i <= a <= i + keep && i + |k| <= if j == |ents| then |text| else ents[j].start
    ensures Concat(chunks) == Rebuilt(text, ents, 0) && !Returns(m, keep, text, ents, chunks)
  {
    SplitEcho(m, text, ents, 0, j, a);
    var one, two := Rebuilt(text[..a], ents[..j], 0), Rebuilt(text, ents[j..], a);
    chunks := [one, two];
    TwoChunks(m, keep, one, two);
    RoundTrips(m, text[..a], ents[..j], 0);
    PlaceholdersCount(ents[..j]);
    PlaceholdersCount(ents);
    var c := Cut(text[..a], keep);
    assert Feed(m, keep, [], one).pending == text[c..a] by {
      assert [] + one == one && text[..a][0..] == text[..a] && text[..a][c..] == text[c..a];
    }
    TooManyHits(m, text, ents, k, i, j, a, c);
  }

  lemma TooManyHits(m: Mapping, text: Bytes, ents: seq<Entity>, k: Bytes, i: int, j: nat, a: int, c: int)
    requires Undoes(m, text, ents) && k in m && OccursAt(text, k, i)
    requires j <= |ents| && 0 <= c <= a <= |text| && Placed(text, ents[j..], a)
    requires c <= i && i + |k| <= if j == |ents| then |text| else ents[j].start
    ensures |Hits(m, text[c..a] + Rebuilt(text, ents[j..], a))| > |ents| - j
  {
    var rest := ents[j..];
    assert forall e | e in rest :: e in ents;
    RebuiltEarlier(text, rest, c, a);
    KeyInGap(m, text, rest, c, k, i);
    HitsExactly(m, text, rest, c);
  }

  lemma KeyInGap(m: Mapping, text: Bytes, ents: seq<Entity>, c: int, k: Bytes, i: int)
    requires Placed(text, ents, c) && k in m && OccursAt(text, k, i) && c <= i
    requires i + |k| <= if ents == [] then |text| else ents[0].start
    ensures !GapsClean(m, text, ents, c)
  {
    var gapEnd := if ents == [] then |text| else ents[0].start;
    OccursAtWindow(text, k, c, gapEnd, i - c);
    assert text[c..] == text[c..|text|];
    assert OccursAt(text[c..gapEnd], k, i - c);
  }

  /** The entities that start before x come first. */
  lemma {:induction false} StartingBefore(text: Bytes, ents: seq<Entity>, prev: int, x: int) returns (j: nat)
    requires Placed(text, ents, prev)
    ensures j <= |ents| && (j > 0 ==> ents[j - 1].start < x) && (j < |ents| ==> x <= ents[j].start)
    decreases |ents|
  {
    j := 0;
    if ents != [] && ents[0].start < x {
      j := StartingBefore(text, ents[1..], ents[0].end, x);
      j := j + 1;
    }
  }

  lemma {:induction false} PlacedFrom(text: Bytes, ents: seq<Entity>, prev: int, j: nat, a: int)
    requires Placed(text, ents, prev) && j <= |ents| && 0 <= a <= |text|
    requires j < |ents| ==> a <= ents[j].start
    ensures Placed(text, ents[j..], a)
    decreases j
  {
    if j == 0 {
      assert ents[0..] == ents;
    } else {
      PlacedFrom(text, ents[1..], ents[0].end, j - 1, a);
      assert ents[1..][j - 1..] == ents[j..];
    }
  }

  lemma {:induction false} SafeGaps(m: Mapping, keep: nat, text: Bytes, ents: seq<Entity>, j: nat, prev: int)
    requires ShapedKeys(m) && Placed(text, ents, 0) && Safe(m, keep, text, ents) && j <= |ents|
    requires prev == if j == 0 then 0 else ents[j - 1].end
    requires Placed(text, ents[j..], prev)
    ensures GapsClean(m, text, ents[j..], prev)
    decreases |ents| - j
  {
    var rest := ents[j..];
    var gapEnd := if rest == [] then |text| else rest[0].start;
    forall k, i | k in m ensures !OccursAt(text[prev..gapEnd], k, i) {
      OccursAtWindow(text, k, prev, gapEnd, i);
      if OccursAt(text[prev..gapEnd], k, i) {
        var e :| e in ents && e.start < prev + i + |k| && prev + i + keep < e.end;
        var x :| 0 <= x < |ents| && ents[x] == e;
        if x < j { PlacedOrder(text, ents, 0, x, j - 1); } else { PlacedOrder(text, ents, 0, j, x); }
        if 0 < j { PlacedOrder(text, ents, 0, j - 1, j - 1); }
      }
    }
    assert text[prev..] == text[prev..|text|];
    if j < |ents| {
      assert rest[1..] == ents[j + 1..] && rest[0] == ents[j];
      SafeGaps(m, keep, text, ents, j + 1, ents[j].end);
    }
  }

  /**
   * Echoing a redacted text back in chunks returns the text, with every placeholder replaced once and
   * nothing else, for every way of chunking, if and only if the text is safe.
   */
  lemma EchoExactly(m: Mapping, text: Bytes, ents: seq<Entity>)
    requires Undoes(m, text, ents) && RuneKeys(m) && Placed(text, ents, 0)
    ensures Safe(m, KeepBytes(m), text, ents)
       <==> forall chunks | Concat(chunks) == Rebuilt(text, ents, 0) :: Returns(m, KeepBytes(m), text, ents, chunks)
  {
    var keep := KeepBytes(m);
    if Safe(m, keep, text, ents) {
      forall chunks | Concat(chunks) == Rebuilt(text, ents, 0) ensures Returns(m, keep, text, ents, chunks) {
        SafeEcho(m, keep, text, ents, chunks);
      }
    } else {
      var chunks := UnsafeChunks(m, keep, text, ents);
    }
  }

  lemma SafeEcho(m: Mapping, keep: nat, text: Bytes, ents: seq<Entity>, chunks: seq<Bytes>)
    requires Undoes(m, text, ents) && RuneKeys(m) && Placed(text, ents, 0) && Safe(m, keep, text, ents)
    requires forall k | k in m :: |k| <= keep + 1
    requires Concat(chunks) == Rebuilt(text, ents, 0)
    ensures Returns(m, keep, text, ents, chunks)
  {
    assert ents[0..] == ents && text[0..] == text;
    SafeGaps(m, keep, text, ents, 0, 0);
    assert [] + Concat(chunks) == Concat(chunks);
    SomethingLeft(m, text, ents, 0);
    EchoStream(m, keep, text, ents, 0, 0, [], chunks);
  }

  lemma UnsafeChunks(m: Mapping, keep: nat, text: Bytes, ents: seq<Entity>) returns (chunks: seq<Bytes>)
    requires Undoes(m, text, ents) && Placed(text, ents, 0) && !Safe(m, keep, text, ents)
    requires forall k | k in m :: |k| <= keep + 1
    ensures Concat(chunks) == Rebuilt(text, ents, 0) && !Returns(m, keep, text, ents, chunks)
  {
    if GapsClean(m, text, ents, 0) {
      var k, i :| k in m && OccursAt(text, k, i)
               && forall e :: e in ents ==> !(e.start < i + |k| && i + keep < e.end);
      var j := StartingBefore(text, ents, 0, i + |k|);
      if j > 0 {
        assert ents[j - 1] in ents;
        if j < |ents| { PlacedOrder(text, ents, 0, j - 1, j); }
        PlacedOrder(text, ents, 0, j - 1, j - 1);
      }
      var a := if j > 0 && ents[j - 1].end > i then ents[j - 1].end else i;
      PlacedFrom(text, ents, 0, j, a);
      chunks := UnsafeEcho(m, keep, text, ents, k, i, j, a);
    } else {
      var s := Rebuilt(text, ents, 0);
      chunks := [s];
      assert chunks[1..] == [] && s + [] == s && [] + s == s;
      HitsExactly(m, text, ents, 0);
      PlaceholdersCount(ents);
      assert Stream(m, keep, [], chunks).hits == Hits(m, s) + [];
    }
  }

  /** A text without any of the keys is safe: then every echo returns it. */
  lemma CleanTextEchoes(m: Mapping, text: Bytes, ents: seq<Entity>, chunks: seq<Bytes>)
    requires Undoes(m, text, ents) && RuneKeys(m) && Placed(text, ents, 0) && Clean(m, text)
    requires Concat(chunks) == Rebuilt(text, ents, 0)
    ensures Returns(m, KeepBytes(m), text, ents, chunks)
  {
    SafeEcho(m, KeepBytes(m), text, ents, chunks);
  }

  /** From RedactReversible to the stream: the echo of what it returns comes back as its input. */
  lemma RedactionEchoes(text: Bytes, kept: seq<Span>, res: ReversibleResult, chunks: seq<Bytes>)
    requires Reversible(text, kept, res) && forall k | k in kept :: LabelFits(k.tag)
    requires Clean(res.mapping, text) && Concat(chunks) == res.result.redacted
    ensures Restored(res.mapping, res.result.redacted) == text
    ensures Returns(res.mapping, KeepBytes(res.mapping), text, res.result.entities, chunks)
  {
    ReversibleUndoes(text, kept, res);
    CleanTextHasCleanGaps(res.mapping, text, res.result.entities, 0);
    RoundTripExactly(res.mapping, text, res.result.entities);
    CleanTextEchoes(res.mapping, text, res.result.entities, chunks);
  }
}
