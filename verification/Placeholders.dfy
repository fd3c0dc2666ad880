/** indexedPlaceholder: how placeholders are built and why they never collide. */
module Placeholders {
  import opened ByteText
  import opened Restore
  import opened Streaming

  const NUL: byte := 0
  const ZERO: byte := 0x30

  /** fmt's %d for a natural number. */
  function Decimal(n: nat): Bytes {
    (if n < 10 then [] else Decimal(n / 10)) + [ZERO + (n % 10) as byte]
  }

  function DecimalValue(s: Bytes): int {
    if s == [] then 0 else 10 * DecimalValue(s[..|s| - 1]) + (s[|s| - 1] as int - 0x30)
  }

  /** digits spell n in the usual way: '0' to '9', no leading zero. */
  ghost predicate Spelled(digits: Bytes, n: nat) {
    && digits != [] && (digits[0] == 0x30 ==> |digits| == 1)
    && (forall i | 0 <= i < |digits| :: 0x30 <= digits[i] <= 0x39)
    && DecimalValue(digits) == n
  }

  lemma {:induction false} DecimalIsSpelled(n: nat)
    ensures Spelled(Decimal(n), n) && (n > 0 ==> Decimal(n)[0] != 0x30)
  {
    DecimalRoundTrip(n);
    if n >= 10 { DecimalIsSpelled(n / 10); }
    assert forall i | 0 <= i < |Decimal(n)| :: Decimal(n)[i] in Decimal(n);
  }

  lemma {:induction false} DecimalRoundTrip(n: nat)
    ensures DecimalValue(Decimal(n)) == n
    ensures Decimal(n) != [] && forall b | b in Decimal(n) :: ZERO <= b < ZERO + 10
  {
    var s := Decimal(n);
    if n >= 10 {
      DecimalRoundTrip(n / 10);
      assert s[..|s| - 1] == Decimal(n / 10);
    } else {
      assert s[..0] == [];
    }
  }

  /** The end of every placeholder: underscore, index, closing bracket. */
  function Closed(front: Bytes, digits: Bytes): Bytes {
    front + ([UNDERSCORE] + digits + [CLOSE])
  }

  function IndexedPlaceholder(tag: Bytes, idx: nat): Bytes {
    if [OPEN] <= tag && tag[|tag| - 1] == CLOSE
    then Closed(tag[..|tag| - 1], Decimal(idx))
    else Closed([OPEN] + tag, Decimal(idx))
  }

  /** A label as the detectors use them: a bracketed word without brackets or NUL, encoded in UTF-8. */
  predicate LabelFits(tag: Bytes) {
    && |tag| >= 2 && tag[0] == OPEN && tag[|tag| - 1] == CLOSE
    && (forall i | 0 < i < |tag| - 1 :: tag[i] != OPEN && tag[i] != CLOSE && tag[i] != NUL)
    && RuneStart(tag[1])
  }

  /** The labels of filter/pii.go and filter/secrets.go. */
  const LABELS: seq<Bytes> := [
    [OPEN, 0xE9, 0x82, 0xAE, 0xE7, 0xAE, 0xB1, CLOSE],                    // [邮箱]
    [OPEN, 0xE7, 0x94, 0xB5, 0xE8, 0xAF, 0x9D, CLOSE],                    // [电话]
    [OPEN, 0xE8, 0xBA, 0xAB, 0xE4, 0xBB, 0xBD, 0xE8, 0xAF, 0x81, CLOSE],  // [身份证]
    [OPEN, 0x49, 0x50, CLOSE],                                            // [IP]
    [OPEN, 0xE9, 0x93, 0xB6, 0xE8, 0xA1, 0x8C, 0xE5, 0x8D, 0xA1, CLOSE],  // [银行卡]
    [OPEN, 0xE5, 0xAF, 0x86, 0xE9, 0x92, 0xA5, CLOSE]                     // [密钥]
  ]

  lemma LabelsFit()
    ensures forall i | 0 <= i < |LABELS| :: LabelFits(LABELS[i])
  {
  }

  /** The last underscore of a placeholder is the one before the index. */
  lemma LastUnderscore(front: Bytes, digits: Bytes)
    requires forall b | b in digits :: ZERO <= b < ZERO + 10
    ensures var p := Closed(front, digits);
            && |p| == |front| + |digits| + 2
            && p[|front|] == UNDERSCORE && p[|p| - 1] == CLOSE
            && p[..|front|] == front && p[|front| + 1..|p| - 1] == digits
            && forall i | |front| < i < |p| - 1 :: ZERO <= p[i] < ZERO + 10
  {
    var p := Closed(front, digits);
    forall i | |front| < i < |p| - 1 ensures ZERO <= p[i] < ZERO + 10 {
      assert p[i] == digits[i - |front| - 1] && p[i] in digits;
    }
  }

  lemma PlaceholderShaped(tag: Bytes, idx: nat)
    requires LabelFits(tag)
    ensures Shaped(IndexedPlaceholder(tag, idx))
    ensures RuneStart(IndexedPlaceholder(tag, idx)[1])
  {
    var digits := Decimal(idx);
    DecimalRoundTrip(idx);
    LastUnderscore(tag[..|tag| - 1], digits);
    var p := Closed(tag[..|tag| - 1], digits);
    forall i | 0 < i < |p| - 1 ensures p[i] != OPEN && p[i] != CLOSE {
      assert i < |tag| - 1 ==> p[i] == tag[i];
    }
  }

  /** The label up to its closing bracket, an underscore, the index as usually spelled, and the bracket. */
  lemma PlaceholderPrinted(tag: Bytes, idx: nat) returns (digits: Bytes)
    requires LabelFits(tag)
    ensures IndexedPlaceholder(tag, idx) == tag[..|tag| - 1] + ([0x5F] + digits + [0x5D])
    ensures Spelled(digits, idx)
  {
    digits := Decimal(idx);
    DecimalIsSpelled(idx);
  }

  lemma ClosedInjective(front1: Bytes, digits1: Bytes, front2: Bytes, digits2: Bytes)
    requires forall b | b in digits1 :: ZERO <= b < ZERO + 10
    requires forall b | b in digits2 :: ZERO <= b < ZERO + 10
    requires Closed(front1, digits1) == Closed(front2, digits2)
    ensures front1 == front2 && digits1 == digits2
  {
    LastUnderscore(front1, digits1);
    LastUnderscore(front2, digits2);
  }

  /** A placeholder determines its label and its index. */
  lemma PlaceholderInjective(tag1: Bytes, idx1: nat, tag2: Bytes, idx2: nat)
    requires LabelFits(tag1) && LabelFits(tag2)
    requires IndexedPlaceholder(tag1, idx1) == IndexedPlaceholder(tag2, idx2)
    ensures tag1 == tag2 && idx1 == idx2
  {
    DecimalRoundTrip(idx1);
    DecimalRoundTrip(idx2);
    ClosedInjective(tag1[..|tag1| - 1], Decimal(idx1), tag2[..|tag2| - 1], Decimal(idx2));
    assert tag1 == tag1[..|tag1| - 1] + [CLOSE] && tag2 == tag2[..|tag2| - 1] + [CLOSE];
  }

  /** The key under which an original that has its placeholder already is remembered. */
  function SeenKey(tag: Bytes, original: Bytes): Bytes {
    tag + [NUL] + original
  }

  /** Its first NUL ends the label. */
  lemma FirstNul(tag: Bytes, original: Bytes)
    requires LabelFits(tag)
    ensures var s := SeenKey(tag, original);
            && s[|tag|] == NUL && (forall i | 0 <= i < |tag| :: s[i] != NUL)
            && s[..|tag|] == tag && s[|tag| + 1..] == original
  {
  }

  lemma SeenKeyInjective(tag1: Bytes, original1: Bytes, tag2: Bytes, original2: Bytes)
    requires LabelFits(tag1) && LabelFits(tag2)
    requires SeenKey(tag1, original1) == SeenKey(tag2, original2)
    ensures tag1 == tag2 && original1 == original2
  {
    FirstNul(tag1, original1);
    FirstNul(tag2, original2);
  }
}
