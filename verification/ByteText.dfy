/**
 * Text as the repository handles it: sequences of bytes. The lemmas move occurrences of a pattern
 * between a text and its windows, and count them as strings.Count does. Positions are passed as
 * parameters of their own, so that callers and lemmas speak of the same terms.
 */
module ByteText {
  newtype byte = b: int | 0 <= b < 0x100

  type Bytes = seq<byte>

  const OPEN: byte := 0x5B        // '['
  const CLOSE: byte := 0x5D       // ']'
  const UNDERSCORE: byte := 0x5F  // '_'
  const COLON: byte := 0x3A       // ':'

  ghost predicate Unrepeated<T>(s: seq<T>) {
    forall i, j | 0 <= i < j < |s| :: s[i] != s[j]
  }

  /** k occurs in s at byte offset i. */
  predicate OccursAt(s: Bytes, k: Bytes, i: int) {
    0 <= i && i + |k| <= |s| && s[i..i + |k|] == k
  }

  ghost predicate Occurs(s: Bytes, k: Bytes) {
    exists i :: OccursAt(s, k, i)
  }

  /** Go's strings.Count for a non-empty pattern: leftmost, non-overlapping occurrences. */
  function Count(s: Bytes, k: Bytes): nat
    requires k != []
  {
    if |s| < |k| then 0
    else if k <= s then 1 + Count(s[|k|..], k)
    else Count(s[1..], k)
  }

  /** An occurrence is an occurrence, byte by byte. */
  lemma OccursAtBytes(s: Bytes, k: Bytes, i: int, j: int)
    requires OccursAt(s, k, i) && 0 <= j < |k|
    ensures s[i + j] == k[j]
  {
    assert s[i..i + |k|][j] == k[j];
  }

  /** Occurrences in a window of s are the occurrences of s that lie in the window. */
  lemma OccursAtWindow(s: Bytes, k: Bytes, lo: int, hi: int, i: int)
    requires 0 <= lo <= hi <= |s|
    ensures OccursAt(s[lo..hi], k, i) <==> 0 <= i && lo + i + |k| <= hi && OccursAt(s, k, lo + i)
  {
    if 0 <= i && lo + i + |k| <= hi {
      SliceSlice(s, lo, hi, i, i + |k|);
    }
  }

  lemma SliceSlice<T>(s: seq<T>, lo: int, hi: int, i: int, j: int)
    requires 0 <= lo <= hi <= |s| && 0 <= i <= j <= hi - lo
    ensures s[lo..hi][i..j] == s[lo + i..lo + j]
  {
    var t, u := s[lo..hi][i..j], s[lo + i..lo + j];
    assert forall x | 0 <= x < |t| :: t[x] == u[x];
  }

  /** Nothing is counted where nothing starts. */
  lemma {:induction false} CountSkip(s: Bytes, k: Bytes, n: nat)
    requires k != [] && n <= |s|
    requires forall i | 0 <= i < n :: !OccursAt(s, k, i)
    ensures Count(s, k) == Count(s[n..], k)
    decreases n
  {
    if n == 0 {
      assert s[0..] == s;
    } else if |s| >= |k| {
      assert k <= s <==> OccursAt(s, k, 0);
      forall i | 0 <= i < n - 1 ensures !OccursAt(s[1..], k, i) {
        OccursAtWindow(s, k, 1, |s|, i);
      }
      CountSkip(s[1..], k, n - 1);
      assert s[1..][n - 1..] == s[n..];
    }
  }

  lemma {:induction false} CountPositive(s: Bytes, k: Bytes)
    requires k != []
    ensures Count(s, k) > 0 <==> Occurs(s, k)
  {
    if Count(s, k) == 0 && Occurs(s, k) {
      var i :| OccursAt(s, k, i);
      CountPositiveAt(s, k, i);
    }
    if !Occurs(s, k) {
      CountSkip(s, k, |s|);
    }
  }

  lemma {:induction false} CountPositiveAt(s: Bytes, k: Bytes, i: int)
    requires k != [] && OccursAt(s, k, i)
    ensures Count(s, k) > 0
    decreases |s|
  {
    if !(k <= s) {
      assert OccursAt(s, k, 0) ==> k <= s;
      OccursAtWindow(s, k, 1, |s|, i - 1);
      CountPositiveAt(s[1..], k, i - 1);
    }
  }

  lemma Assoc(a: Bytes, b: Bytes, c: Bytes)
    ensures (a + b) + c == a + (b + c)
  {
  }

  lemma Regroup<T>(a: seq<T>, b: seq<T>, c: seq<T>)
    ensures (a + b) + c == a + (b + c)
  {
  }

  lemma WithFirst<T>(s: seq<T>)
    requires s != []
    ensures s == [s[0]] + s[1..]
  {
  }

  lemma WithLast<T>(s: seq<T>)
    requires s != []
    ensures s == s[..|s| - 1] + [s[|s| - 1]]
  {
  }

  lemma ShiftTail(z: Bytes, y: Bytes, k: Bytes, n: nat, j: nat)
    requires n <= |z|
    ensures OccursAt(z[n..] + y, k, j) <==> OccursAt(z + y, k, n + j)
  {
    assert z + y == z[..n] + (z[n..] + y);
    Shift(z[..n], z[n..] + y, k, n + j);
  }

  lemma Shift(a: Bytes, b: Bytes, k: Bytes, i: int)
    requires i >= |a|
    ensures OccursAt(a + b, k, i) <==> OccursAt(b, k, i - |a|)
  {
    assert (a + b)[|a|..|a + b|] == b;
    OccursAtWindow(a + b, k, |a|, |a + b|, i - |a|);
  }

  lemma Halves(z: Bytes, y: Bytes, j: nat)
    requires j <= |z|
    ensures z[..j] + (z[j..] + y) == z + y
  {
    assert z == z[..j] + z[j..];
    Assoc(z[..j], z[j..], y);
  }
}
