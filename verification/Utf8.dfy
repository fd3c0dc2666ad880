/** UTF-8 (RFC 3629) in the restorer: nothing is cut inside an encoded character. */
module Utf8 {
  import opened ByteText
  import opened Restore
  import opened Streaming
  import opened Placeholders

  predicate Tail(b: byte) {
    0x80 <= b < 0xC0
  }

  /** The length of a well-formed encoded character at the front of s (RFC 3629, section 4), or 0. */
  function RuneLen(s: Bytes): (n: nat)
    ensures n <= |s| && n <= 4
    ensures n > 0 ==> !Tail(s[0]) && forall i | 0 < i < n :: Tail(s[i])
  {
    if |s| >= 1 && s[0] < 0x80 then 1
    else if |s| >= 2 && 0xC2 <= s[0] < 0xE0 && Tail(s[1]) then 2
    else if |s| >= 3 && 0xE0 <= s[0] < 0xF0 && SecondOfThree(s[0], s[1]) && Tail(s[2]) then 3
    else if |s| >= 4 && 0xF0 <= s[0] < 0xF5 && SecondOfFour(s[0], s[1]) && Tail(s[2]) && Tail(s[3]) then 4
    else 0
  }

  predicate SecondOfThree(lead: byte, b: byte) {
    Tail(b) && (lead == 0xE0 ==> 0xA0 <= b) && (lead == 0xED ==> b < 0xA0)
  }

  predicate SecondOfFour(lead: byte, b: byte) {
    Tail(b) && (lead == 0xF0 ==> 0x90 <= b) && (lead == 0xF4 ==> b < 0x90)
  }

  ghost predicate ValidUtf8(s: Bytes)
    decreases |s|
  {
    s == [] || (RuneLen(s) > 0 && ValidUtf8(s[RuneLen(s)..]))
  }

  lemma {:induction false} ValidConcat(a: Bytes, b: Bytes)
    requires ValidUtf8(a)
    ensures ValidUtf8(a + b) <==> ValidUtf8(b)
    decreases |a|
  {
    if a == [] {
      assert a + b == b;
    } else {
      assert RuneLen(a + b) == RuneLen(a);
      assert (a + b)[RuneLen(a)..] == a[RuneLen(a)..] + b;
      ValidConcat(a[RuneLen(a)..], b);
    }
  }

  /** Valid text falls apart into valid texts wherever a character starts. */
  lemma {:induction false} ValidCut(s: Bytes, c: nat)
    requires ValidUtf8(s) && c <= |s| && (c < |s| ==> RuneStart(s[c]))
    ensures ValidUtf8(s[..c]) && ValidUtf8(s[c..])
    decreases |s|
  {
    if c > 0 {
      var n := RuneLen(s);
      assert c >= n;
      ValidCut(s[n..], c - n);
      CutBehind(s, n, c);
      OneRune(s);
      ValidConcat(s[..n], s[n..][..c - n]);
    }
  }

  lemma CutBehind(s: Bytes, n: nat, c: nat)
    requires n <= c <= |s|
    ensures s[n..][c - n..] == s[c..] && s[..c] == s[..n] + s[n..][..c - n]
  {
  }

  lemma OneRune(s: Bytes)
    requires RuneLen(s) > 0
    ensures RuneLen(s[..RuneLen(s)]) == RuneLen(s) && ValidUtf8(s[..RuneLen(s)])
  {
    var n := RuneLen(s);
    assert s[..n][n..] == [];
  }

  /** In valid text a character starts at most three bytes before any byte. */
  lemma {:induction false} StartNearby(s: Bytes, c: nat)
    requires ValidUtf8(s) && c < |s|
    ensures c - BackToRuneStart(s, c) <= 3
    ensures RuneStart(s[BackToRuneStart(s, c)])
    decreases |s|
  {
    var n := RuneLen(s);
    if c >= n {
      StartNearby(s[n..], c - n);
      BackInTail(s, n, c - n);
    }
  }

  lemma {:induction false} BackInTail(s: Bytes, n: nat, c: nat)
    requires n + c < |s| && RuneStart(s[n..][BackToRuneStart(s[n..], c)])
    ensures BackToRuneStart(s, n + c) == n + BackToRuneStart(s[n..], c)
    decreases c
  {
    if c > 0 && !RuneStart(s[n..][c]) { BackInTail(s, n, c - 1); }
  }

  ghost predicate Utf8Mapping(m: Mapping) {
    forall k | k in m :: ValidUtf8(k) && ValidUtf8(m[k])
  }

  /** Behind the opening bracket of a UTF-8 key a character starts. */
  lemma Utf8KeysAreRuneKeys(m: Mapping)
    requires ShapedKeys(m) && Utf8Mapping(m)
    ensures RuneKeys(m)
  {
    forall k | k in m ensures RuneStart(k[1]) {
      assert Shaped(k) && ValidUtf8(k);
      assert RuneLen(k) == 1;
      assert ValidUtf8(k[1..]) && k[1..] != [];
      assert !Tail(k[1..][0]);
    }
  }

  /** A character at the front that does not begin a key is kept whole. */
  lemma RestoredRune(m: Mapping, s: Bytes)
    requires ShapedKeys(m) && RuneLen(s) > 0 && KeyAt(m, s) == 0
    ensures Restored(m, s) == s[..RuneLen(s)] + Restored(m, s[RuneLen(s)..])
  {
    var n := RuneLen(s);
    var r, rest := s[..n], s[n..];
    assert r + rest == s;
    forall k, i | k in m && 0 <= i < n ensures !OccursAt(s, k, i) {
      assert OccursAt(s, k, 0) ==> k <= s;
      if OccursAt(s, k, i) { OccursAtBytes(s, k, i, 0); }
    }
    forall k, i | k in m ensures !OccursAt(r, k, i) {
      OccursAtWindow(s, k, 0, n, i);
      assert s[0..n] == r;
    }
    RestoredClean(m, r);
    RestoredSplit(m, r, rest);
  }

  lemma {:induction false} RestoredIsUtf8(m: Mapping, s: Bytes)
    requires ShapedKeys(m) && Utf8Mapping(m) && ValidUtf8(s)
    ensures ValidUtf8(Restored(m, s))
    decreases |s|
  {
    if s != [] {
      var n := KeyAt(m, s);
      if n > 0 {
        assert s == s[..n] + s[n..];
        ValidConcat(s[..n], s[n..]);
        RestoredIsUtf8(m, s[n..]);
        ValidConcat(m[s[..n]], Restored(m, s[n..]));
      } else {
        var c := RuneLen(s);
        RestoredRune(m, s);
        RestoredIsUtf8(m, s[c..]);
        OneRune(s);
        ValidConcat(s[..c], Restored(m, s[c..]));
      }
    }
  }

  /** Splitting valid text leaves valid text on both sides, and at most keep + 3 bytes behind. */
  lemma SplitIsUtf8(s: Bytes, keep: nat)
    requires ValidUtf8(s)
    ensures ValidUtf8(s[..Cut(s, keep)]) && ValidUtf8(s[Cut(s, keep)..])
    ensures |s[Cut(s, keep)..]| <= keep + 3
  {
    if 0 < keep < |s| {
      StartNearby(s, |s| - keep);
    } else if keep > 0 && s != [] {
      StartNearby(s, 0);
    }
    ValidCut(s, Cut(s, keep));
  }

  lemma FeedIsUtf8(m: Mapping, keep: nat, pending: Bytes, chunk: Bytes)
    requires ShapedKeys(m) && Utf8Mapping(m) && ValidUtf8(pending) && ValidUtf8(chunk)
    ensures var p := Feed(m, keep, pending, chunk);
            ValidUtf8(p.emitted) && ValidUtf8(p.pending) && |p.pending| <= keep + 3
  {
    ValidConcat(pending, chunk);
    RestoredIsUtf8(m, pending + chunk);
    SplitIsUtf8(Restored(m, pending + chunk), keep);
  }

  /**
   * After any valid chunks: what is pending is valid and at most keep + 3 bytes long, and so is what
   * the next valid chunk makes the stream emit, or the final flush.
   */
  lemma {:induction false} StreamIsUtf8(m: Mapping, keep: nat, pending: Bytes, chunks: seq<Bytes>, next: Bytes)
    requires ShapedKeys(m) && Utf8Mapping(m) && ValidUtf8(next)
    requires ValidUtf8(pending) && |pending| <= keep + 3
    requires forall i | 0 <= i < |chunks| :: ValidUtf8(chunks[i])
    ensures var p := Stream(m, keep, pending, chunks);
            && ValidUtf8(p.emitted) && ValidUtf8(p.pending) && |p.pending| <= keep + 3
            && ValidUtf8(Feed(m, keep, p.pending, next).emitted) && ValidUtf8(Restored(m, p.pending))
    decreases |chunks|
  {
    if chunks == [] {
      FeedIsUtf8(m, keep, pending, next);
      RestoredIsUtf8(m, pending);
    } else {
      var p := Feed(m, keep, pending, chunks[0]);
      FeedIsUtf8(m, keep, pending, chunks[0]);
      StreamIsUtf8(m, keep, p.pending, chunks[1..], next);
      ValidConcat(p.emitted, Stream(m, keep, p.pending, chunks[1..]).emitted);
    }
  }

  // ---------- the placeholders ----------

  lemma {:induction false} AsciiIsUtf8(s: Bytes)
    requires forall i | 0 <= i < |s| :: s[i] < 0x80
    ensures ValidUtf8(s)
  {
    if s != [] {
      assert RuneLen(s) == 1;
      AsciiIsUtf8(s[1..]);
    }
  }

  lemma ClosedIsUtf8(front: Bytes, digits: Bytes)
    requires ValidUtf8(front) && forall b | b in digits :: ZERO <= b < ZERO + 10
    ensures ValidUtf8(Closed(front, digits))
  {
    var rest := [UNDERSCORE] + digits + [CLOSE];
    forall i | 0 <= i < |rest| ensures rest[i] < 0x80 {
      if 0 < i < |rest| - 1 { assert rest[i] == digits[i - 1] && digits[i - 1] in digits; }
    }
    AsciiIsUtf8(rest);
    ValidConcat(front, rest);
  }

  /** A UTF-8 label makes UTF-8 placeholders. */
  lemma PlaceholderIsUtf8(tag: Bytes, idx: nat)
    requires LabelFits(tag) && ValidUtf8(tag)
    ensures ValidUtf8(IndexedPlaceholder(tag, idx))
  {
    ValidCut(tag, |tag| - 1);
    DecimalRoundTrip(idx);
    ClosedIsUtf8(tag[..|tag| - 1], Decimal(idx));
  }
}
