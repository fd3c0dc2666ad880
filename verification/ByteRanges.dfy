/**
 * Protected byte ranges: merging them in place, in the array they are read from, and asking whether an
 * entity touches one. Merging changes neither the bytes covered nor any of the answers.
 */
module ByteRanges {
  import opened Sorting

  datatype ByteRange = ByteRange(start: int, end: int)

  predicate Before(a: ByteRange, b: ByteRange) {
    a.start < b.start || (a.start == b.start && a.end < b.end)
  }

  /** sort.Slice by start, then end. (Equal ranges cannot be told apart, so the result is unique.) */
  function SortRanges(s: seq<ByteRange>): (r: seq<ByteRange>)
    ensures |r| == |s|
  {
    StableSort(Before, s)
  }

  /** What merging makes of the ranges s behind the range last, which may still grow. */
  function MergeBehind(last: ByteRange, s: seq<ByteRange>): seq<ByteRange>
    decreases |s|
  {
    if s == [] then [last]
    else if s[0].start > last.end then [last] + MergeBehind(s[0], s[1..])
    else MergeBehind(ByteRange(last.start, if s[0].end > last.end then s[0].end else last.end), s[1..])
  }

  function Merge(s: seq<ByteRange>): seq<ByteRange> {
    var sorted := SortRanges(s);
    if sorted == [] then [] else MergeBehind(sorted[0], sorted[1..])
  }

  /** The merged ranges reuse the front of the array that is still being read. */
  method MergeByteRanges(ranges: array<ByteRange>) returns (n: nat)
    modifies ranges
    ensures n <= ranges.Length && ranges[..n] == Merge(old(ranges[..]))
  {
    var sorted := SortRanges(ranges[..]);
    forall i | 0 <= i < ranges.Length { ranges[i] := sorted[i]; }
    assert ranges[..] == sorted;
    n := 0;
    for i := 0 to ranges.Length
      invariant n <= i && (n == 0 <==> i == 0)
      invariant ranges[i..] == sorted[i..]  // what has not been read has not been overwritten
      invariant n > 0 ==> ranges[..n - 1] + MergeBehind(ranges[n - 1], sorted[i..]) == Merge(old(ranges[..]))
    {
      var r := ranges[i];
      assert r == sorted[i] && sorted[i..][1..] == sorted[i + 1..];
      ghost var front := ranges[..n];
      if n == 0 || r.start > ranges[n - 1].end {
        ranges[n] := r;
        n := n + 1;
        assert ranges[..n - 1] == front;
        if n > 1 { assert front == front[..n - 2] + [front[n - 2]]; }
      } else if r.end > ranges[n - 1].end {
        ranges[n - 1] := ByteRange(ranges[n - 1].start, r.end);
        assert ranges[..n - 1] == front[..n - 1];
      }
      assert ranges[i + 1..] == sorted[i + 1..];
    }
    if n > 0 { assert ranges[..n] == ranges[..n - 1] + [ranges[n - 1]]; }
  }

  // ---------- what merging keeps ----------

  /** Byte x lies in one of the ranges. */
  ghost predicate Covered(x: int, s: seq<ByteRange>) {
    exists r :: r in s && r.start <= x < r.end
  }

  predicate Touches(start: int, end: int, r: ByteRange) {
    start < r.end && end > r.start
  }

  ghost predicate TouchesAny(start: int, end: int, s: seq<ByteRange>) {
    exists r :: r in s && Touches(start, end, r)
  }

  method OverlapsProtectedRange(start: int, end: int, protected: seq<ByteRange>) returns (found: bool)
    ensures found <==> TouchesAny(start, end, protected)
  {
    for i := 0 to |protected|
      invariant forall j | 0 <= j < i :: !Touches(start, end, protected[j])
    {
      if start < protected[i].end && end > protected[i].start {
        assert protected[i] in protected;
        return true;
      }
    }
    return false;
  }

  /** In order and strictly separated: between two neighbours at least one byte is free. */
  ghost predicate Separated(s: seq<ByteRange>) {
    if |s| < 2 then true
    else s[0].end < s[1].start && s[0].start <= s[1].start && Separated(s[1..])
  }

  lemma SortRangesSorts(s: seq<ByteRange>)
    ensures Sorted(Before, SortRanges(s))
    ensures forall r :: r in SortRanges(s) <==> r in s
  {
    StableSortSorts(Before, s);
  }

  lemma {:induction false} MergeBehindSeparates(last: ByteRange, s: seq<ByteRange>)
    requires Sorted(Before, s) && (s != [] ==> last.start <= s[0].start)
    ensures var m := MergeBehind(last, s);
            Separated(m) && m != [] && m[0].start == last.start
    decreases |s|
  {
    if s != [] {
      if s[0].start > last.end {
        MergeBehindSeparates(s[0], s[1..]);
        var m := MergeBehind(s[0], s[1..]);
        assert ([last] + m)[1..] == m;
      } else {
        MergeBehindSeparates(ByteRange(last.start, if s[0].end > last.end then s[0].end else last.end), s[1..]);
      }
    }
  }

  lemma TouchesCons(start: int, end: int, r: ByteRange, s: seq<ByteRange>)
    ensures TouchesAny(start, end, [r] + s) <==> Touches(start, end, r) || TouchesAny(start, end, s)
  {
    if Touches(start, end, r) { assert r in [r] + s; }
    if TouchesAny(start, end, s) {
      var r' :| r' in s && Touches(start, end, r');
      assert r' in [r] + s;
    }
  }

  /** Growing last by a range that starts in it or touches it changes no byte and no answer. */
  lemma {:induction false} MergeBehindKeeps(last: ByteRange, s: seq<ByteRange>, start: int, end: int)
    requires Sorted(Before, s) && (s != [] ==> last.start <= s[0].start)
    requires start < end
    ensures TouchesAny(start, end, MergeBehind(last, s)) <==> Touches(start, end, last) || TouchesAny(start, end, s)
    decreases |s|
  {
    if s == [] {
      assert [last] == [last] + [];
      TouchesCons(start, end, last, []);
    } else {
      TouchesCons(start, end, s[0], s[1..]);
      assert s == [s[0]] + s[1..];
      if s[0].start > last.end {
        MergeBehindKeeps(s[0], s[1..], start, end);
        TouchesCons(start, end, last, MergeBehind(s[0], s[1..]));
      } else {
        var grown := ByteRange(last.start, if s[0].end > last.end then s[0].end else last.end);
        MergeBehindKeeps(grown, s[1..], start, end);
      }
    }
  }

  /** For every non-empty entity the merged ranges give the same answer as the ranges themselves. */
  lemma MergeKeepsAnswers(s: seq<ByteRange>, start: int, end: int)
    requires start < end
    ensures TouchesAny(start, end, Merge(s)) <==> TouchesAny(start, end, s)
  {
    SortRangesSorts(s);
    var sorted := SortRanges(s);
    if sorted != [] {
      assert sorted == [sorted[0]] + sorted[1..];
      TouchesCons(start, end, sorted[0], sorted[1..]);
      MergeBehindKeeps(sorted[0], sorted[1..], start, end);
    }
  }

  /** The merged ranges are separated and cover the same bytes. */
  lemma MergeIsUnion(s: seq<ByteRange>)
    ensures Separated(Merge(s))
    ensures forall x :: Covered(x, Merge(s)) <==> Covered(x, s)
  {
    SortRangesSorts(s);
    var sorted := SortRanges(s);
    if sorted != [] { MergeBehindSeparates(sorted[0], sorted[1..]); }
    forall x ensures Covered(x, Merge(s)) <==> Covered(x, s) {
      MergeKeepsAnswers(s, x, x + 1);
      CoveredTouches(x, Merge(s));
      CoveredTouches(x, s);
    }
  }

  lemma CoveredTouches(x: int, s: seq<ByteRange>)
    ensures Covered(x, s) <==> TouchesAny(x, x + 1, s)
  {
    if Covered(x, s) {
      var r :| r in s && r.start <= x < r.end;
      assert Touches(x, x + 1, r);
    }
  }
}
