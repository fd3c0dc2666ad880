/** JSON texts as concrete syntax trees: section 2 to 7 of RFC 8259, with all white space kept. */
module JsonText {
  import opened ByteText

  const QUOTE: byte := 0x22
  const BACKSLASH: byte := 0x5C
  const COMMA: byte := 0x2C
  const LBRACE: byte := 0x7B
  const RBRACE: byte := 0x7D

  predicate IsSpace(b: byte) {
    b == 0x20 || b == 0x0A || b == 0x0D || b == 0x09
  }

  predicate Spaces(s: Bytes) {
    forall b | b in s :: IsSpace(b)
  }

  predicate IsDigit(b: byte) {
    0x30 <= b <= 0x39
  }

  predicate IsHex(b: byte) {
    IsDigit(b) || 0x61 <= b <= 0x66 || 0x41 <= b <= 0x46
  }

  /** One character of a string: itself, a two-byte escape, or \u with four hexadecimal digits. */
  datatype Chr = Plain(b: byte) | Escape(b: byte) | Unicode(h: Bytes)

  type Chars = seq<Chr>

  predicate ChrFits(c: Chr) {
    match c
    case Plain(b) => b != QUOTE && b != BACKSLASH && b >= 0x20
    case Escape(b) => b in {QUOTE, BACKSLASH, 0x2F, 0x62, 0x66, 0x6E, 0x72, 0x74}
    case Unicode(h) => |h| == 4 && forall i | 0 <= i < 4 :: IsHex(h[i])
  }

  function ChrBytes(c: Chr): Bytes {
    match c
    case Plain(b) => [b]
    case Escape(b) => [BACKSLASH, b]
    case Unicode(h) => [BACKSLASH, 0x75] + h
  }

  function CharsBytes(cs: Chars): Bytes {
    if cs == [] then [] else ChrBytes(cs[0]) + CharsBytes(cs[1..])
  }

  /** A string token with its quotes. */
  function Token(cs: Chars): Bytes {
    [QUOTE] + (CharsBytes(cs) + [QUOTE])
  }

  predicate CharsFit(cs: Chars) {
    forall c | c in cs :: ChrFits(c)
  }

  datatype Value =
    | Str(chars: Chars)
    | Scalar(text: Bytes)
    | Arr(blank: Bytes, items: seq<Element>)
    | Obj(blank: Bytes, members: seq<Member>)

  /** A value with the white space around it. */
  datatype Element = Element(before: Bytes, value: Value, after: Bytes)

  datatype Member = Member(before: Bytes, name: Chars, afterName: Bytes, element: Element)

  // ---------- scalars ----------

  const TRUE: Bytes := [0x74, 0x72, 0x75, 0x65]
  const FALSE: Bytes := [0x66, 0x61, 0x6C, 0x73, 0x65]
  const NULL: Bytes := [0x6E, 0x75, 0x6C, 0x6C]

  predicate Digits(s: Bytes) {
    s != [] && forall b | b in s :: IsDigit(b)
  }

  /** [ minus ] int [ frac ] [ exp ] */
  ghost predicate IsNumber(s: Bytes) {
    exists minus: Bytes, whole: Bytes, frac: Bytes, exp: Bytes ::
      && s == minus + whole + frac + exp
      && minus in {[], [0x2D]}
      && Digits(whole) && (whole[0] == 0x30 ==> |whole| == 1)
      && (frac != [] ==> frac[0] == 0x2E && Digits(frac[1..]))
      && (exp != [] ==> IsExponent(exp))
  }

  predicate IsExponent(s: Bytes) {
    && |s| >= 2 && (s[0] == 0x65 || s[0] == 0x45)
    && (Digits(s[1..]) || ((s[1] == 0x2B || s[1] == 0x2D) && Digits(s[2..])))
  }

  ghost predicate IsScalar(s: Bytes) {
    s == TRUE || s == FALSE || s == NULL || IsNumber(s)
  }

  // ---------- the grammar ----------

  ghost predicate ValueFits(v: Value)
    decreases v, 0
  {
    match v
    case Str(cs) => CharsFit(cs)
    case Scalar(s) => IsScalar(s)
    case Arr(blank, items) => Spaces(blank) && (items != [] ==> blank == []) && ItemsFit(items)
    case Obj(blank, members) => Spaces(blank) && (members != [] ==> blank == []) && MembersFit(members)
  }

  ghost predicate ElementFits(e: Element)
    decreases e, 1
  {
    Spaces(e.before) && ValueFits(e.value) && Spaces(e.after)
  }

  ghost predicate ItemsFit(items: seq<Element>)
    decreases items, 0
  {
    items != [] ==> ElementFits(items[0]) && ItemsFit(items[1..])
  }

  ghost predicate MemberFits(m: Member)
    decreases m, 1
  {
    Spaces(m.before) && CharsFit(m.name) && Spaces(m.afterName) && ElementFits(m.element)
  }

  ghost predicate MembersFit(ms: seq<Member>)
    decreases ms, 0
  {
    ms != [] ==> MemberFits(ms[0]) && MembersFit(ms[1..])
  }

  function ValueBytes(v: Value): Bytes
    decreases v, 0
  {
    match v
    case Str(cs) => Token(cs)
    case Scalar(s) => s
    case Arr(blank, items) => [OPEN] + ((if items == [] then blank else ItemsBytes(items)) + [CLOSE])
    case Obj(blank, members) => [LBRACE] + ((if members == [] then blank else MembersBytes(members)) + [RBRACE])
  }

  function ElementBytes(e: Element): Bytes
    decreases e, 1
  {
    e.before + (ValueBytes(e.value) + e.after)
  }

  function ItemsBytes(items: seq<Element>): Bytes
    requires items != []
    decreases items, 0
  {
    if |items| == 1 then ElementBytes(items[0])
    else ElementBytes(items[0]) + ([COMMA] + ItemsBytes(items[1..]))
  }

  function MemberBytes(m: Member): Bytes
    decreases m, 1
  {
    m.before + (Token(m.name) + (m.afterName + ([COLON] + ElementBytes(m.element))))
  }

  function MembersBytes(ms: seq<Member>): Bytes
    requires ms != []
    decreases ms, 0
  {
    if |ms| == 1 then MemberBytes(ms[0])
    else MemberBytes(ms[0]) + ([COMMA] + MembersBytes(ms[1..]))
  }

  /** body is a JSON text and doc is its syntax tree. */
  ghost predicate Parses(body: Bytes, doc: Element) {
    ElementFits(doc) && ElementBytes(doc) == body
  }
}
