/** Insertion sort by any strict order: what sort.Slice and sort.SliceStable make of a slice. */
module Sorting {
  type Order<!T> = (T, T) -> bool

  /** Elements that neither comes before the other count as equal. */
  ghost predicate Strict<T(!new)>(before: Order<T>) {
    && (forall a, b :: before(a, b) ==> !before(b, a))
    && (forall a, b, c :: before(a, b) ==> before(a, c) || before(c, b))
  }

  /** Put x in front of the elements of a sorted list that are not before it. */
  function Insert<T>(before: Order<T>, x: T, s: seq<T>): (r: seq<T>)
    ensures |r| == |s| + 1
  {
    if s == [] || !before(s[0], x) then [x] + s else [s[0]] + Insert(before, x, s[1..])
  }

  /** Equal elements stay in the order they came in. */
  function StableSort<T>(before: Order<T>, s: seq<T>): (r: seq<T>)
    ensures |r| == |s|
  {
    if s == [] then [] else Insert(before, s[0], StableSort(before, s[1..]))
  }

  ghost predicate Sorted<T>(before: Order<T>, s: seq<T>) {
    forall i, j | 0 <= i < j < |s| :: !before(s[j], s[i])
  }

  lemma Through<T(!new)>(before: Order<T>, a: T, b: T, c: T)
    requires Strict(before)
    ensures before(a, b) ==> before(a, c) || before(c, b)
  {
  }

  lemma {:induction false} InsertSorts<T(!new)>(before: Order<T>, x: T, s: seq<T>)
    requires Strict(before) && Sorted(before, s)
    ensures Sorted(before, Insert(before, x, s))
    ensures forall v :: v in Insert(before, x, s) <==> v == x || v in s
  {
    var r := Insert(before, x, s);
    if s != [] && before(s[0], x) {
      InsertSorts(before, x, s[1..]);
      assert s == [s[0]] + s[1..];
      forall j | 1 <= j < |r| ensures !before(r[j], s[0]) {
        assert r[j] == Insert(before, x, s[1..])[j - 1];
        if r[j] in s[1..] { var i :| 1 <= i < |s| && s[i] == r[j]; }
      }
    } else {
      forall j | 1 <= j < |r| ensures !before(r[j], x) {
        assert r[j] == s[j - 1];
        Through(before, s[j - 1], x, s[0]);
      }
    }
  }

  lemma {:induction false} StableSortSorts<T(!new)>(before: Order<T>, s: seq<T>)
    requires Strict(before)
    ensures Sorted(before, StableSort(before, s))
    ensures forall v :: v in StableSort(before, s) <==> v in s
  {
    if s != [] {
      StableSortSorts(before, s[1..]);
      InsertSorts(before, s[0], StableSort(before, s[1..]));
      assert s == [s[0]] + s[1..];
    }
  }
}
