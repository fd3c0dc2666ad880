/** luhnValid: the check-digit test, and which mistakes in a number it detects. */
module Luhn {
  import opened ByteText

  const ZERO: int := 0x30

  /** What a byte adds to the sum; subtracting '0' wraps around below it. */
  function Weight(b: byte, doubled: bool): nat {
    var d := (b as int - ZERO) % 0x100;
    if doubled then (if 2 * d > 9 then 2 * d - 9 else 2 * d) else d
  }

  /** The sum from the right, where the last byte is doubled or not and they alternate from there. */
  function Sum(num: Bytes, doubled: bool): nat {
    if num == [] then 0
    else Weight(num[|num| - 1], doubled) + Sum(num[..|num| - 1], !doubled)
  }

  predicate Accepted(num: Bytes) {
    Sum(num, false) % 10 == 0
  }

  /**
   * The sum of the first n digits of num, from the left: a digit with an even number of digits behind
   * it counts as itself, any other one as twice itself, less 9 if that is more than 9.
   */
  function Total(num: Bytes, n: nat): int
    requires n <= |num|
  {
    if n == 0 then 0
    else
      var d := num[n - 1] as int - 0x30;
      Total(num, n - 1) + if (|num| - n) % 2 == 0 then d else if 2 * d > 9 then 2 * d - 9 else 2 * d
  }

  method LuhnValid(num: Bytes) returns (valid: bool)
    ensures valid <==> Accepted(num)
    ensures (forall i | 0 <= i < |num| :: 0x30 <= num[i] <= 0x39) ==> (valid <==> Total(num, |num|) % 10 == 0)
  {
    if forall i | 0 <= i < |num| :: 0x30 <= num[i] <= 0x39 { SumIsTotal(num, |num|); }
    var sum := 0;
    var double := false;
    var i := |num|;
    assert num[..i] == num;
    while i > 0
      invariant 0 <= i <= |num|
      invariant sum + Sum(num[..i], double) == Sum(num, false)
    {
      i := i - 1;
      assert num[..i + 1][..i] == num[..i];
      var d := (num[i] as int - ZERO) % 0x100;
      if double {
        d := d * 2;
        if d > 9 {
          d := d - 9;
        }
      }
      sum := sum + d;
      double := !double;
    }
    return sum % 10 == 0;
  }

  /** Whether the byte in front of a tail of n bytes is doubled. */
  function DoubledBefore(n: nat): bool {
    n % 2 == 1
  }

  lemma {:induction false} SumSplit(a: Bytes, b: Bytes, doubled: bool)
    ensures Sum(a + b, doubled) == Sum(a, doubled != DoubledBefore(|b|)) + Sum(b, doubled)
    decreases |b|
  {
    if b == [] {
      assert a + b == a;
    } else {
      var n := |b| - 1;
      assert (a + b)[..|a + b| - 1] == a + b[..n];
      SumSplit(a, b[..n], !doubled);
    }
  }

  /** The sum of a number taken apart around some bytes in the middle. */
  lemma SumAround(a: Bytes, mid: Bytes, b: Bytes, behind: nat)
    requires behind == |mid| + |b|
    ensures Sum(a + mid + b, false)
         == Sum(a, DoubledBefore(behind)) + Sum(mid, DoubledBefore(|b|)) + Sum(b, false)
  {
    SumSplit(a + mid, b, false);
    SumSplit(a, mid, DoubledBefore(|b|));
    Alternate(|mid|, |b|, behind);
  }

  lemma Alternate(m: nat, n: nat, sum: nat)
    requires sum == m + n
    ensures DoubledBefore(sum) <==> DoubledBefore(m) != DoubledBefore(n)
    ensures DoubledBefore(n) <==> (false != DoubledBefore(n))
  {
  }

  lemma OneByte(d: byte, doubled: bool)
    ensures Sum([d], doubled) == Weight(d, doubled)
  {
    assert [d][..0] == [];
    assert Sum([], !doubled) == 0;
  }

  lemma TwoBytes(d: byte, e: byte, doubled: bool)
    ensures Sum([d, e], doubled) == Weight(d, !doubled) + Weight(e, doubled)
  {
    assert [d, e][..1] == [d];
    OneByte(d, !doubled);
  }

  predicate Digit(d: byte) {
    ZERO <= d as int <= ZERO + 9
  }

  lemma DigitWeight(d: byte, doubled: bool)
    requires Digit(d)
    ensures var v := d as int - ZERO;
            Weight(d, doubled) == if !doubled then v else if v <= 4 then 2 * v else 2 * v - 9
  {
  }

  lemma SameRemainder(rest: int, w: int, w': int)
    requires (rest + w) % 10 == 0
    ensures (rest + w') % 10 == 0 <==> (w - w') % 10 == 0
  {
  }

  /** Digits that weigh the same modulo 10 are the same. */
  lemma WeightsDiffer(d: byte, e: byte, doubled: bool)
    requires Digit(d) && Digit(e)
    ensures (Weight(d, doubled) - Weight(e, doubled)) % 10 == 0 <==> d == e
  {
    DigitWeight(d, doubled);
    DigitWeight(e, doubled);
  }

  /** One of the digits is 0 and the other is 9. */
  predicate NineAndZero(d: byte, e: byte) {
    || (d as int == ZERO && e as int == ZERO + 9)
    || (e as int == ZERO && d as int == ZERO + 9)
  }

  /** How much more a digit weighs when it is doubled. */
  function Gain(v: int): int {
    if v <= 4 then v else v - 9
  }

  lemma DoubledGain(d: byte)
    requires Digit(d)
    ensures Weight(d, true) - Weight(d, false) == Gain(d as int - ZERO)
  {
    DigitWeight(d, true);
    DigitWeight(d, false);
  }

  lemma SameGain(v: int, w: int)
    requires 0 <= v <= 9 && 0 <= w <= 9
    ensures (Gain(v) - Gain(w)) % 10 == 0 <==> v == w || (v == 0 && w == 9) || (v == 9 && w == 0)
  {
  }

  lemma SwappedWeights(d: byte, e: byte, doubled: bool)
    requires Digit(d) && Digit(e)
    ensures (Weight(d, !doubled) + Weight(e, doubled) - (Weight(e, !doubled) + Weight(d, doubled))) % 10 == 0
       <==> d == e || NineAndZero(d, e)
  {
    DoubledGain(d);
    DoubledGain(e);
    var v, w := d as int - ZERO, e as int - ZERO;
    if doubled { SameGain(w, v); } else { SameGain(v, w); }
  }

  /** Changing any one digit of an accepted number makes it a rejected one. */
  lemma OneDigitExactly(a: Bytes, d: byte, e: byte, b: Bytes)
    requires Digit(d) && Digit(e) && Accepted(a + [d] + b)
    ensures Accepted(a + [e] + b) <==> d == e
  {
    var doubled := DoubledBefore(|b|);
    var rest := Sum(a, DoubledBefore(1 + |b|)) + Sum(b, false);
    SumAround(a, [d], b, 1 + |b|);
    SumAround(a, [e], b, 1 + |b|);
    OneByte(d, doubled);
    OneByte(e, doubled);
    SameRemainder(rest, Weight(d, doubled), Weight(e, doubled));
    WeightsDiffer(d, e, doubled);
  }

  /** Swapping two adjacent digits of an accepted number makes it a rejected one, but for 09 and 90. */
  lemma SwapExactly(a: Bytes, d: byte, e: byte, b: Bytes)
    requires Digit(d) && Digit(e) && Accepted(a + [d, e] + b)
    ensures Accepted(a + [e, d] + b) <==> d == e || NineAndZero(d, e)
  {
    var doubled := DoubledBefore(|b|);
    var rest := Sum(a, DoubledBefore(2 + |b|)) + Sum(b, false);
    SumAround(a, [d, e], b, 2 + |b|);
    SumAround(a, [e, d], b, 2 + |b|);
    TwoBytes(d, e, doubled);
    TwoBytes(e, d, doubled);
    SameRemainder(rest, Weight(d, !doubled) + Weight(e, doubled), Weight(e, !doubled) + Weight(d, doubled));
    SwappedWeights(d, e, doubled);
  }

  /** Every prefix has exactly one digit that completes it to an accepted number. */
  lemma OneCheckDigit(prefix: Bytes) returns (check: byte)
    ensures Digit(check)
    ensures forall d | Digit(d) :: Accepted(prefix + [d]) <==> d == check
  {
    var sum := Sum(prefix, true);
    check := DigitFor(sum);
    forall d | Digit(d) ensures Accepted(prefix + [d]) <==> d == check {
      SumSplit(prefix, [d], false);
      OneByte(d, false);
      SameRemainder(sum, Weight(check, false), Weight(d, false));
      WeightsDiffer(check, d, false);
    }
  }

  lemma DigitFor(sum: nat) returns (check: byte)
    ensures Digit(check) && (sum + Weight(check, false)) % 10 == 0
  {
    var v := (10 - sum % 10) % 10;
    check := (ZERO + v) as byte;
    DigitWeight(check, false);
    assert (sum + v) % 10 == 0;
  }

  // ---------- the sum, position by position ----------

  lemma TotalStep(num: Bytes, n: nat)
    requires 0 < n <= |num| && 0x30 <= num[n - 1] <= 0x39
    ensures Total(num, n) == Total(num, n - 1) + Weight(num[n - 1], DoubledBefore(|num| - n))
  {
    DigitWeight(num[n - 1], DoubledBefore(|num| - n));
  }

  /** The alternating sum from the right is the sum of what the positions count. */
  lemma {:induction false} SumIsTotal(num: Bytes, n: nat)
    requires n <= |num| && forall i | 0 <= i < |num| :: 0x30 <= num[i] <= 0x39
    ensures Sum(num[..n], DoubledBefore(|num| - n)) == Total(num, n)
    ensures n == |num| ==> Sum(num, false) == Total(num, n)
  {
    if n > 0 {
      SumIsTotal(num, n - 1);
      TotalStep(num, n);
      assert num[..n][..n - 1] == num[..n - 1];
      assert DoubledBefore(|num| - (n - 1)) == !DoubledBefore(|num| - n);
    }
    assert num[..|num|] == num;
  }
}
