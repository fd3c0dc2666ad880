/** A raw byte search with a hand-written scanner, against the syntax tree of the text. */
module ProtectedJson {
  import opened ByteText
  import opened JsonText
  import opened ByteRanges

  /** Field names as the gateway lists them: lower-case letters and underscores. */
  predicate PlainField(field: Bytes) {
    field != [] && forall b | b in field :: 0x61 <= b <= 0x7A || b == UNDERSCORE
  }

  /** strconv.Quote of such a name. */
  function Quoted(field: Bytes): Bytes {
    [QUOTE] + (field + [QUOTE])
  }

  /** bytes.Index(body[from:], pattern), counted from the start of body; -1 if there is none. */
  function Find(body: Bytes, pattern: Bytes, from: nat): (p: int)
    requires pattern != [] && from <= |body|
    ensures p >= 0 ==> from <= p && OccursAt(body, pattern, p)
    ensures forall i | from <= i && (p < 0 || i < p) :: !OccursAt(body, pattern, i)
    decreases |body| - from
  {
    if from + |pattern| > |body| then -1
    else if body[from..from + |pattern|] == pattern then from
    else Find(body, pattern, from + 1)
  }

  function SkipSpace(body: Bytes, i: nat): (r: nat)
    requires i <= |body|
    ensures i <= r <= |body|
    ensures r < |body| ==> !IsSpace(body[r])
    ensures forall j | i <= j < r :: IsSpace(body[j])
    decreases |body| - i
  {
    if i < |body| && IsSpace(body[i]) then SkipSpace(body, i + 1) else i
  }

  method SkipJSONSpace(body: Bytes, i: nat) returns (r: nat)
    requires i <= |body|
    ensures r == SkipSpace(body, i)
  {
    r := i;
    while r < |body|
      invariant i <= r <= |body|
      invariant SkipSpace(body, r) == SkipSpace(body, i)
    {
      if body[r] == 0x20 || body[r] == 0x0A || body[r] == 0x0D || body[r] == 0x09 {
        r := r + 1;
      } else {
        return;
      }
    }
  }

  /** The end of the string whose bytes from i on are being read, or -1. */
  function StringEnd(body: Bytes, i: nat, escaped: bool): (r: int)
    requires i <= |body|
    ensures r < 0 || (i < r <= |body| && body[r - 1] == 0x22)
    decreases |body| - i
  {
    if i == |body| then -1
    else if escaped then StringEnd(body, i + 1, false)
    else if body[i] == BACKSLASH then StringEnd(body, i + 1, true)
    else if body[i] == QUOTE then i + 1
    else StringEnd(body, i + 1, false)
  }

  method ScanJSONStringEnd(body: Bytes, start: nat) returns (end: int, ok: bool)
    ensures ok <==> start < |body| && body[start] == QUOTE && StringEnd(body, start + 1, false) >= 0
    ensures ok ==> end == StringEnd(body, start + 1, false)
  {
    if start >= |body| || body[start] != QUOTE {
      return 0, false;
    }
    var escaped := false;
    for i := start + 1 to |body|
      invariant StringEnd(body, i, escaped) == StringEnd(body, start + 1, false)
    {
      if escaped {
        escaped := false;
        continue;
      }
      if body[i] == BACKSLASH {
        escaped := true;
      } else if body[i] == QUOTE {
        return i + 1, true;
      }
    }
    return 0, false;
  }

  datatype Found = Nothing | Value(start: nat, end: nat)

  /** The protected value that follows the pattern ending at keyEnd: a colon and a string to protect. */
  function ValueAfter(body: Bytes, field: Bytes, protects: (Bytes, Bytes) -> bool, keyEnd: nat): (r: Found)
    requires keyEnd <= |body|
    ensures r.Value? ==> keyEnd < r.start < r.end <= |body|
  {
    var colon := SkipSpace(body, keyEnd);
    if colon == |body| || body[colon] != COLON then Nothing
    else
      var start := SkipSpace(body, colon + 1);
      if start == |body| || body[start] != QUOTE then Nothing
      else
        var end := StringEnd(body, start + 1, false);
        if end >= 0 && protects(field, body[start..end]) then Value(start, end) else Nothing
  }

  /** What the search finds from byte from on. */
  function Search(body: Bytes, field: Bytes, protects: (Bytes, Bytes) -> bool, from: nat): seq<ByteRange>
    requires from <= |body|
    decreases |body| - from, 1
  {
    SearchAt(body, field, protects, from, Find(body, Quoted(field), from))
  }

  /** What the search finds when the next occurrence of the pattern is at p, or when there is none. */
  function SearchAt(body: Bytes, field: Bytes, protects: (Bytes, Bytes) -> bool, ghost from: nat,
    p: int): seq<ByteRange>
    requires from <= |body| && (p >= 0 ==> from <= p && p + |Quoted(field)| <= |body|)
    decreases |body| - from, 0
  {
    if p < 0 then []
    else
      var keyEnd := p + |Quoted(field)|;
      match ValueAfter(body, field, protects, keyEnd)
      case Nothing => Search(body, field, protects, keyEnd)
      case Value(start, end) => [ByteRange(start, end)] + Search(body, field, protects, end)
  }

  method ProtectedValue(body: Bytes, field: Bytes, protects: (Bytes, Bytes) -> bool, keyEnd: nat) returns (r: Found)
    requires keyEnd <= |body|
    ensures r == ValueAfter(body, field, protects, keyEnd)
  {
    var i := SkipJSONSpace(body, keyEnd);
    if i >= |body| || body[i] != COLON {
      return Nothing;
    }
    i := SkipJSONSpace(body, i + 1);
    if i >= |body| || body[i] != QUOTE {
      return Nothing;
    }
    var end, ok := ScanJSONStringEnd(body, i);
    if ok && protects(field, body[i..end]) {
      return Value(i, end);
    }
    return Nothing;
  }

  method ProtectedJSONValueRangesForField(body: Bytes, field: Bytes, protects: (Bytes, Bytes) -> bool)
    returns (ranges: seq<ByteRange>)
    ensures ranges == Search(body, field, protects, 0)
  {
    ranges := [];
    var pattern := Quoted(field);
    var searchFrom := 0;
    ghost var all := Search(body, field, protects, 0);
    while searchFrom < |body|
      invariant 0 <= searchFrom <= |body|
      invariant ranges + Search(body, field, protects, searchFrom) == all
      decreases |body| - searchFrom
    {
      var keyStart := Find(body, pattern, searchFrom);
      if keyStart < 0 {
        break;
      }
      var keyEnd := keyStart + |pattern|;
      var found := ProtectedValue(body, field, protects, keyEnd);
      SearchStep(body, field, protects, searchFrom, keyStart, keyEnd, found);
      match found
      case Value(start, end) =>
        ranges := ranges + [ByteRange(start, end)];
        searchFrom := end;
      case Nothing =>
        searchFrom := keyEnd;
    }
  }

  lemma SearchStep(body: Bytes, field: Bytes, protects: (Bytes, Bytes) -> bool, from: nat, p: nat, keyEnd: nat,
    found: Found)
    requires from <= |body| && p == Find(body, Quoted(field), from) && keyEnd == p + |Quoted(field)|
    requires found == ValueAfter(body, field, protects, keyEnd)
    ensures Search(body, field, protects, from)
         == match found
            case Nothing => Search(body, field, protects, keyEnd)
            case Value(start, end) => [ByteRange(start, end)] + Search(body, field, protects, end)
  {
  }

  // ---------- what should be found ----------

  /** The name token is spelled exactly as the field, or ends with an escaped quote and the field. */
  predicate NameMatches(name: Chars, field: Bytes) {
    var token, pattern := Token(name), Quoted(field);
    |pattern| <= |token| && token[|token| - |pattern|..] == pattern
  }

  /** The protected values of a document, read off its syntax tree: off is where the tree begins. */
  function InValue(v: Value, field: Bytes, protects: (Bytes, Bytes) -> bool, off: nat): seq<ByteRange>
    decreases v, 0
  {
    match v
    case Str(_) => []
    case Scalar(_) => []
    case Arr(_, items) => InItems(items, field, protects, Inside(off))
    case Obj(_, members) => InMembers(members, field, protects, Inside(off))
  }

  /** Behind the opening bracket. */
  function Inside(off: nat): nat {
    off + 1
  }

  function ValueStart(e: Element, off: nat): nat {
    off + |e.before|
  }

  function ValueStop(e: Element, off: nat): nat {
    ValueStart(e, off) + |ValueBytes(e.value)|
  }

  function InElement(e: Element, field: Bytes, protects: (Bytes, Bytes) -> bool, off: nat): seq<ByteRange>
    decreases e, 1
  {
    InValue(e.value, field, protects, ValueStart(e, off))
  }

  /** Where the next part begins: behind this one and a comma. */
  function NextStart(off: nat, part: Bytes): nat {
    off + |part| + 1
  }

  function InItems(items: seq<Element>, field: Bytes, protects: (Bytes, Bytes) -> bool, off: nat): seq<ByteRange>
    decreases items, 0
  {
    if items == [] then []
    else
      InElement(items[0], field, protects, off)
      + InItems(items[1..], field, protects, NextStart(off, ElementBytes(items[0])))
  }

  function NameEnd(m: Member, off: nat): nat {
    off + |m.before| + |Token(m.name)|
  }

  function ElementStart(m: Member, off: nat): nat {
    NameEnd(m, off) + |m.afterName| + 1
  }

  /** The value of a member if it is a string to be protected. */
  function StringValue(m: Member, field: Bytes, protects: (Bytes, Bytes) -> bool, off: nat): Found {
    var e, start := m.element, ElementStart(m, off);
    if e.value.Str? && protects(field, ValueBytes(e.value)) then Value(ValueStart(e, start), ValueStop(e, start))
    else Nothing
  }

  function InMember(m: Member, field: Bytes, protects: (Bytes, Bytes) -> bool, off: nat): seq<ByteRange>
    decreases m, 1
  {
    var found := StringValue(m, field, protects, off);
    if NameMatches(m.name, field) && found.Value? then [ByteRange(found.start, found.end)]
    else InElement(m.element, field, protects, ElementStart(m, off))
  }

  function InMembers(ms: seq<Member>, field: Bytes, protects: (Bytes, Bytes) -> bool, off: nat): seq<ByteRange>
    decreases ms, 0
  {
    if ms == [] then []
    else
      InMember(ms[0], field, protects, off)
      + InMembers(ms[1..], field, protects, NextStart(off, MemberBytes(ms[0])))
  }

  // ---------- bytes at a place ----------

  lemma AtSplit(body: Bytes, off: nat, a: Bytes, b: Bytes)
    ensures OccursAt(body, a + b, off) <==> OccursAt(body, a, off) && OccursAt(body, b, off + |a|)
  {
    if off + |a| + |b| <= |body| {
      var s := body[off..off + |a| + |b|];
      assert s[..|a|] == body[off..off + |a|] && s[|a|..] == body[off + |a|..off + |a| + |b|];
      assert s == s[..|a|] + s[|a|..];
    }
  }

  /** No occurrence of the pattern begins between a and b. */
  ghost predicate Quiet(body: Bytes, field: Bytes, a: int, b: int) {
    forall p | a <= p < b :: !OccursAt(body, Quoted(field), p)
  }

  lemma {:induction false} FindSkips(body: Bytes, field: Bytes, a: nat, b: nat)
    requires a <= b <= |body| && Quiet(body, field, a, b)
    ensures Find(body, Quoted(field), a) == Find(body, Quoted(field), b)
    decreases b - a
  {
    if a < b {
      FindSkips(body, field, a + 1, b);
      assert !OccursAt(body, Quoted(field), a);
    }
  }

  lemma SkipQuiet(body: Bytes, field: Bytes, protects: (Bytes, Bytes) -> bool, a: nat, b: nat)
    requires a <= b <= |body| && Quiet(body, field, a, b)
    ensures Search(body, field, protects, a) == Search(body, field, protects, b)
  {
    FindSkips(body, field, a, b);
  }

  lemma NoQuotesQuiet(body: Bytes, field: Bytes, off: nat, s: Bytes)
    requires OccursAt(body, s, off) && QUOTE !in s
    ensures Quiet(body, field, off, off + |s|)
  {
    forall p | off <= p < off + |s| ensures !OccursAt(body, Quoted(field), p) {
      OccursAtBytes(body, s, off, p - off);
      if OccursAt(body, Quoted(field), p) { OccursAtBytes(body, Quoted(field), p, 0); }
    }
  }

  // ---------- string tokens ----------

  /** The rest of a string token stands at q: characters and the closing quote. */
  ghost predicate TailAt(body: Bytes, cs: Chars, q: nat) {
    CharsFit(cs) && OccursAt(body, CharsBytes(cs) + [QUOTE], q)
  }

  lemma TailNext(body: Bytes, cs: Chars, q: nat)
    requires TailAt(body, cs, q) && cs != []
    ensures ChrFits(cs[0]) && OccursAt(body, ChrBytes(cs[0]), q)
    ensures TailAt(body, cs[1..], q + |ChrBytes(cs[0])|)
    ensures |CharsBytes(cs)| == |ChrBytes(cs[0])| + |CharsBytes(cs[1..])|
  {
    assert cs[0] in cs;
    Assoc(ChrBytes(cs[0]), CharsBytes(cs[1..]), [QUOTE]);
    AtSplit(body, q, ChrBytes(cs[0]), CharsBytes(cs[1..]) + [QUOTE]);
  }

  lemma TailEnds(body: Bytes, q: nat)
    requires TailAt(body, [], q)
    ensures q < |body| && body[q] == QUOTE
  {
    assert CharsBytes([]) + [QUOTE] == [QUOTE];
    OccursAtBytes(body, [QUOTE], q, 0);
  }

  /** A byte that neither ends a string nor starts an escape. */
  predicate Ordinary(b: byte) {
    b != QUOTE && b != BACKSLASH
  }

  /** The bytes of one character, read from the text. */
  lemma ChrAt(body: Bytes, c: Chr, q: nat)
    requires ChrFits(c) && OccursAt(body, ChrBytes(c), q)
    ensures body[q] == ChrBytes(c)[0]
    ensures !c.Plain? ==> body[q] == BACKSLASH && body[q + 1] == ChrBytes(c)[1]
    ensures c.Unicode? ==> Ordinary(body[q + 1]) && Ordinary(body[q + 2]) && Ordinary(body[q + 3])
                           && Ordinary(body[q + 4]) && Ordinary(body[q + 5])
  {
    OccursAtBytes(body, ChrBytes(c), q, 0);
    if !c.Plain? { OccursAtBytes(body, ChrBytes(c), q, 1); }
    if c.Unicode? {
      OccursAtBytes(body, ChrBytes(c), q, 2);
      OccursAtBytes(body, ChrBytes(c), q, 3);
      OccursAtBytes(body, ChrBytes(c), q, 4);
      OccursAtBytes(body, ChrBytes(c), q, 5);
      assert ChrBytes(c)[2..] == c.h;
    }
  }

  /** The scanner finds the end of a well-formed string. */
  lemma {:induction false} ScansToken(body: Bytes, cs: Chars, q: nat)
    requires TailAt(body, cs, q)
    ensures StringEnd(body, q, false) == q + |CharsBytes(cs)| + 1
    decreases |cs|
  {
    if cs == [] {
      TailEnds(body, q);
    } else {
      var q' := q + |ChrBytes(cs[0])|;
      TailNext(body, cs, q);
      ScansChr(body, cs[0], q, q');
      ScansToken(body, cs[1..], q');
    }
  }

  /** The scan gets from the start of a character to its end. */
  lemma ScansChr(body: Bytes, c: Chr, q: nat, q': nat)
    requires ChrFits(c) && OccursAt(body, ChrBytes(c), q) && q' == q + |ChrBytes(c)|
    ensures q' <= |body| && StringEnd(body, q, false) == StringEnd(body, q', false)
  {
    ChrAt(body, c, q);
    if c.Unicode? {
      ScansFour(body, q + 2, q + 3, q + 4, q + 5, q');
    }
  }

  lemma ScansFour(body: Bytes, a: nat, b: nat, c: nat, d: nat, e: nat)
    requires b == a + 1 && c == b + 1 && d == c + 1 && e == d + 1 <= |body|
    requires Ordinary(body[a]) && Ordinary(body[b]) && Ordinary(body[c]) && Ordinary(body[d])
    ensures StringEnd(body, a, false) == StringEnd(body, e, false)
  {
    assert StringEnd(body, a, false) == StringEnd(body, b, false);
    assert StringEnd(body, c, false) == StringEnd(body, d, false);
  }

  lemma FieldBytes(body: Bytes, field: Bytes, q: nat)
    requires PlainField(field) && OccursAt(body, field + [QUOTE], q)
    ensures q < |body| && body[q] == field[0] != BACKSLASH && body[q] != QUOTE
    ensures |field| > 1 ==> PlainField(field[1..]) && OccursAt(body, field[1..] + [QUOTE], q + 1)
    ensures |field| == 1 ==> q + 1 < |body| && body[q + 1] == QUOTE
  {
    OccursAtBytes(body, field + [QUOTE], q, 0);
    assert field[0] in field && forall b | b in field[1..] :: b in field;
    assert field + [QUOTE] == [field[0]] + (field[1..] + [QUOTE]);
    AtSplit(body, q, [field[0]], field[1..] + [QUOTE]);
    if |field| == 1 { OccursAtBytes(body, field + [QUOTE], q, 1); }
  }

  /** Plain bytes up to a quote, read where a string goes on: the string ends with exactly them. */
  lemma {:induction false} RunEndsToken(body: Bytes, field: Bytes, cs: Chars, q: nat)
    requires TailAt(body, cs, q) && PlainField(field) && OccursAt(body, field + [QUOTE], q)
    ensures |CharsBytes(cs)| == |field|
    decreases |cs|
  {
    FieldBytes(body, field, q);
    if cs == [] {
      TailEnds(body, q);
    } else {
      TailNext(body, cs, q);
      ChrAt(body, cs[0], q);
      if |field| > 1 {
        RunEndsToken(body, field[1..], cs[1..], q + 1);
      } else if cs[1..] != [] {
        TailNext(body, cs[1..], q + 1);
        ChrAt(body, cs[1], q + 1);
      }
    }
  }

  /** What follows a string token can not continue a field name. */
  predicate DelimAt(body: Bytes, i: nat) {
    i >= |body| || IsSpace(body[i]) || body[i] == COMMA || body[i] == COLON || body[i] == CLOSE || body[i] == RBRACE
  }

  lemma PatternBytes(body: Bytes, field: Bytes, p: nat)
    requires PlainField(field) && OccursAt(body, Quoted(field), p)
    ensures p + 1 < |body| && body[p] == QUOTE && OccursAt(body, field + [QUOTE], p + 1)
    ensures !DelimAt(body, p + 1)
  {
    AtSplit(body, p, [QUOTE], field + [QUOTE]);
    OccursAtBytes(body, [QUOTE], p, 0);
    FieldBytes(body, field, p + 1);
    assert field[0] in field;
  }

  /** A quote byte inside a character is the end of an escaped quote. */
  lemma QuoteInChr(body: Bytes, c: Chr, q: nat, p: nat)
    requires ChrFits(c) && OccursAt(body, ChrBytes(c), q)
    requires q <= p < q + |ChrBytes(c)| && body[p] == QUOTE
    ensures p + 1 == q + |ChrBytes(c)|
  {
    ChrAt(body, c, q);
  }

  /** Wherever the pattern starts in the rest of a string token, it ends where the token ends. */
  lemma {:induction false} PatternEndsToken(body: Bytes, field: Bytes, cs: Chars, q: nat, close: nat, p: nat)
    requires TailAt(body, cs, q) && PlainField(field) && OccursAt(body, Quoted(field), p)
    requires q <= p <= close && close == q + |CharsBytes(cs)| && DelimAt(body, close + 1)
    ensures p + |field| + 2 == close + 1
    decreases |cs|
  {
    assert cs == [] ==> p == close;
    PatternBytes(body, field, p);
    if cs != [] {
      TailNext(body, cs, q);
      var q' := q + |ChrBytes(cs[0])|;
      if p >= q' {
        PatternEndsToken(body, field, cs[1..], q', close, p);
      } else {
        QuoteInChr(body, cs[0], q, p);
        PatternAtEnd(body, field, cs[1..], p, q', close);
      }
    }
  }

  /** A pattern that starts with the last byte of a character ends where the token ends. */
  lemma PatternAtEnd(body: Bytes, field: Bytes, cs: Chars, p: nat, q: nat, close: nat)
    requires TailAt(body, cs, q) && PlainField(field) && OccursAt(body, Quoted(field), p)
    requires q == p + 1 && close == q + |CharsBytes(cs)|
    ensures p + |field| + 2 == close + 1
  {
    PatternBytes(body, field, p);
    RunEndsToken(body, field, cs, q);
  }

  /** In a whole token the pattern starts nowhere, or only where the token ends with it. */
  lemma TokenQuiet(body: Bytes, field: Bytes, cs: Chars, off: nat, end: nat)
    requires PlainField(field) && CharsFit(cs) && OccursAt(body, Token(cs), off) && end == off + |Token(cs)|
    requires DelimAt(body, end)
    ensures !NameMatches(cs, field) ==> Quiet(body, field, off, end)
    ensures NameMatches(cs, field) ==>
              Quiet(body, field, off, end - |Quoted(field)|) && OccursAt(body, Quoted(field), end - |Quoted(field)|)
  {
    AtSplit(body, off, [QUOTE], CharsBytes(cs) + [QUOTE]);
    TokenMatches(body, field, cs, off, end, end - |Quoted(field)|);
    TokenLength(cs);
    PatternsInToken(body, field, cs, off, off + 1, end - 1, end);
  }

  lemma TokenMatches(body: Bytes, field: Bytes, cs: Chars, off: nat, end: nat, at: int)
    requires OccursAt(body, Token(cs), off) && end == off + |Token(cs)| && at == end - |Quoted(field)|
    ensures NameMatches(cs, field) <==> off <= at && OccursAt(body, Quoted(field), at)
  {
    if off <= at { SuffixAt(body, Token(cs), off, end, Quoted(field), at); }
  }

  lemma PatternsInToken(body: Bytes, field: Bytes, cs: Chars, off: nat, q: nat, close: nat, end: nat)
    requires TailAt(body, cs, q) && PlainField(field) && q == off + 1
    requires close == q + |CharsBytes(cs)| && end == close + 1 && DelimAt(body, end)
    ensures forall p | off <= p < end && OccursAt(body, Quoted(field), p) :: p + |Quoted(field)| == end
  {
    forall p | off <= p < end && OccursAt(body, Quoted(field), p) ensures p + |Quoted(field)| == end {
      PatternInToken(body, field, cs, off, q, close, p);
    }
  }

  /** A token ends with a pattern where the body holds it. */
  lemma SuffixAt(body: Bytes, token: Bytes, off: nat, end: nat, k: Bytes, at: nat)
    requires OccursAt(body, token, off) && end == off + |token| && |k| <= |token| && at == end - |k|
    ensures token[|token| - |k|..] == k <==> OccursAt(body, k, at)
  {
    assert body[off..end] == token;
    SliceSlice(body, off, end, |token| - |k|, |token|);
    assert token[|token| - |k|..] == token[|token| - |k|..|token|];
  }

  lemma TokenLength(cs: Chars)
    ensures |Token(cs)| == |CharsBytes(cs)| + 2
  {
  }

  lemma PatternInToken(body: Bytes, field: Bytes, cs: Chars, off: nat, q: nat, close: nat, p: nat)
    requires TailAt(body, cs, q) && PlainField(field) && OccursAt(body, Quoted(field), p)
    requires q == off + 1 && off <= p <= close && close == q + |CharsBytes(cs)| && DelimAt(body, close + 1)
    ensures p + |field| + 2 == close + 1
  {
    if p == off {
      PatternAtEnd(body, field, cs, p, q, close);
    } else {
      PatternEndsToken(body, field, cs, q, close, p);
    }
  }

  lemma {:induction false} SkipsSpaces(body: Bytes, ws: Bytes, i: nat)
    requires Spaces(ws) && OccursAt(body, ws, i)
    requires i + |ws| < |body| ==> !IsSpace(body[i + |ws|])
    ensures SkipSpace(body, i) == i + |ws|
    decreases |ws|
  {
    if ws != [] {
      OccursAtBytes(body, ws, i, 0);
      assert ws == [ws[0]] + ws[1..] && ws[0] in ws;
      AtSplit(body, i, [ws[0]], ws[1..]);
      assert forall b | b in ws[1..] :: b in ws;
      SkipsSpaces(body, ws[1..], i + 1);
    }
  }

  lemma SpacesHaveNoQuote(ws: Bytes)
    requires Spaces(ws)
    ensures QUOTE !in ws && COLON !in ws
  {
  }

  // ---------- the search follows the tree ----------

  /** After a value: something that ends it, and no colon. */
  ghost predicate AfterValue(body: Bytes, end: nat) {
    && end <= |body| && DelimAt(body, end)
    && var c := SkipSpace(body, end); c == |body| || body[c] != COLON
  }

  /** After an element: the end of the text, a comma or a closing bracket. */
  predicate EndsAt(body: Bytes, i: nat) {
    i == |body| || (i < |body| && (body[i] == COMMA || body[i] == CLOSE || body[i] == RBRACE))
  }

  lemma ScalarBytes(s: Bytes)
    requires IsScalar(s)
    ensures QUOTE !in s && s != [] && !IsSpace(s[0])
  {
    if IsNumber(s) {
      var minus: Bytes, whole: Bytes, frac: Bytes, exp: Bytes :|
        && s == minus + whole + frac + exp
        && minus in {[], [0x2D]}
        && Digits(whole) && (whole[0] == 0x30 ==> |whole| == 1)
        && (frac != [] ==> frac[0] == 0x2E && Digits(frac[1..]))
        && (exp != [] ==> IsExponent(exp));
      assert QUOTE !in minus && QUOTE !in whole;
      assert frac != [] ==> frac == [frac[0]] + frac[1..];
      assert exp != [] ==> exp == [exp[0]] + exp[1..] && exp[1..] == [exp[1]] + exp[2..];
      assert QUOTE !in frac && QUOTE !in exp;
      assert s[0] == (if minus == [] then whole[0] else minus[0]) && whole[0] in whole;
    }
  }

  lemma ValueStarts(v: Value)
    requires ValueFits(v)
    ensures var s := ValueBytes(v);
            s != [] && !IsSpace(s[0]) && (s[0] == QUOTE <==> v.Str?)
  {
    match v
    case Scalar(s) => ScalarBytes(s);
    case _ =>
  }

  /** A token that is no name in front of a colon: nothing is found in it. */
  lemma SearchToken(body: Bytes, field: Bytes, protects: (Bytes, Bytes) -> bool, cs: Chars, off: nat, end: nat)
    requires PlainField(field) && CharsFit(cs) && OccursAt(body, Token(cs), off) && end == off + |Token(cs)|
    requires AfterValue(body, end)
    ensures Search(body, field, protects, off) == Search(body, field, protects, end)
  {
    TokenQuiet(body, field, cs, off, end);
    if NameMatches(cs, field) {
      var p := end - |Quoted(field)|;
      FindSkips(body, field, off, p);
      SearchStep(body, field, protects, off, p, end, Nothing);
    } else {
      SkipQuiet(body, field, protects, off, end);
    }
  }

  /** A name token followed by a colon: the value is found if the name matches and the value is to be protected. */
  lemma SearchName(body: Bytes, field: Bytes, protects: (Bytes, Bytes) -> bool, cs: Chars, off: nat, end: nat,
    found: Found)
    requires PlainField(field) && CharsFit(cs) && OccursAt(body, Token(cs), off) && end == off + |Token(cs)|
    requires DelimAt(body, end) && found == ValueAfter(body, field, protects, end)
    ensures found.Value? ==> found.end <= |body|
    ensures Search(body, field, protects, off)
         == if NameMatches(cs, field) && found.Value?
            then [ByteRange(found.start, found.end)] + Search(body, field, protects, found.end)
            else Search(body, field, protects, end)
  {
    TokenQuiet(body, field, cs, off, end);
    if NameMatches(cs, field) {
      var p := end - |Quoted(field)|;
      FindSkips(body, field, off, p);
      SearchStep(body, field, protects, off, p, end, found);
    } else {
      SkipQuiet(body, field, protects, off, end);
    }
  }

  /** Bytes without a quote are passed over. */
  lemma SkipPiece(body: Bytes, field: Bytes, protects: (Bytes, Bytes) -> bool, s: Bytes, off: nat, end: nat)
    requires QUOTE !in s && OccursAt(body, s, off) && end == off + |s|
    ensures Search(body, field, protects, off) == Search(body, field, protects, end)
  {
    NoQuotesQuiet(body, field, off, s);
    SkipQuiet(body, field, protects, off, end);
  }

  lemma Chain(whole: seq<ByteRange>, a: seq<ByteRange>, rest: seq<ByteRange>, b: seq<ByteRange>, last: seq<ByteRange>)
    requires whole == a + rest && rest == b + last
    ensures whole == (a + b) + last
  {
  }

  lemma SearchValue(body: Bytes, field: Bytes, protects: (Bytes, Bytes) -> bool, v: Value, off: nat, end: nat)
    requires PlainField(field) && ValueFits(v) && OccursAt(body, ValueBytes(v), off) && end == off + |ValueBytes(v)|
    requires AfterValue(body, end)
    ensures Search(body, field, protects, off)
         == InValue(v, field, protects, off) + Search(body, field, protects, end)
    decreases v, 0
  {
    match v
    case Str(cs) =>
      SearchToken(body, field, protects, cs, off, end);
    case Scalar(s) =>
      ScalarBytes(s);
      SkipPiece(body, field, protects, s, off, end);
    case Arr(blank, items) =>
      if items == [] {
        SearchBlank(body, field, protects, OPEN, blank, CLOSE, off, end);
      } else {
        var inside, close := Inside(off), end - 1;
        BracketBytes(body, OPEN, ItemsBytes(items), CLOSE, off, inside, close, end);
        SearchItems(body, field, protects, items, inside, close);
        BracketSearch(body, field, protects, OPEN, ItemsBytes(items), CLOSE, off, inside, close, end);
      }
    case Obj(blank, members) =>
      if members == [] {
        SearchBlank(body, field, protects, LBRACE, blank, RBRACE, off, end);
      } else {
        var inside, close := Inside(off), end - 1;
        BracketBytes(body, LBRACE, MembersBytes(members), RBRACE, off, inside, close, end);
        SearchMembers(body, field, protects, members, inside, close);
        BracketSearch(body, field, protects, LBRACE, MembersBytes(members), RBRACE, off, inside, close, end);
      }
  }

  lemma BracketBytes(body: Bytes, open: byte, inner: Bytes, close: byte, off: nat, inside: nat, last: nat, end: nat)
    requires OccursAt(body, [open] + (inner + [close]), off)
    requires inside == off + 1 && last == inside + |inner| && end == last + 1
    ensures OccursAt(body, [open], off) && OccursAt(body, inner, inside) && OccursAt(body, [close], last)
    ensures close == CLOSE || close == RBRACE ==> EndsAt(body, last)
  {
    AtSplit(body, off, [open], inner + [close]);
    AtSplit(body, inside, inner, [close]);
    OccursAtBytes(body, [close], last, 0);
  }

  /** The brackets themselves are passed over. */
  lemma BracketSearch(body: Bytes, field: Bytes, protects: (Bytes, Bytes) -> bool,
                      open: byte, inner: Bytes, close: byte, off: nat, inside: nat, last: nat, end: nat)
    requires open != QUOTE && close != QUOTE
    requires OccursAt(body, [open] + (inner + [close]), off)
    requires inside == off + 1 && last == inside + |inner| && end == last + 1
    ensures Search(body, field, protects, off) == Search(body, field, protects, inside)
    ensures Search(body, field, protects, last) == Search(body, field, protects, end)
  {
    BracketBytes(body, open, inner, close, off, inside, last, end);
    SkipPiece(body, field, protects, [open], off, inside);
    SkipPiece(body, field, protects, [close], last, end);
  }

  lemma SearchBlank(body: Bytes, field: Bytes, protects: (Bytes, Bytes) -> bool,
                    open: byte, blank: Bytes, close: byte, off: nat, end: nat)
    requires open != QUOTE && close != QUOTE && Spaces(blank)
    requires OccursAt(body, [open] + (blank + [close]), off) && end == off + |blank| + 2
    ensures Search(body, field, protects, off) == Search(body, field, protects, end)
  {
    var s := [open] + (blank + [close]);
    SpacesHaveNoQuote(blank);
    SkipPiece(body, field, protects, s, off, end);
  }

  lemma ElementParts(body: Bytes, e: Element, off: nat, start: nat, stop: nat, end: nat)
    requires ElementFits(e) && OccursAt(body, ElementBytes(e), off) && end == off + |ElementBytes(e)|
    requires start == ValueStart(e, off) && stop == ValueStop(e, off) && EndsAt(body, end)
    ensures OccursAt(body, e.before, off) && OccursAt(body, ValueBytes(e.value), start) && OccursAt(body, e.after, stop)
    ensures stop + |e.after| == end && AfterValue(body, stop)
    ensures start < |body| && !IsSpace(body[start]) && (body[start] == QUOTE <==> e.value.Str?)
  {
    AtSplit(body, off, e.before, ValueBytes(e.value) + e.after);
    AtSplit(body, start, ValueBytes(e.value), e.after);
    ValueStarts(e.value);
    OccursAtBytes(body, ValueBytes(e.value), start, 0);
    SkipsSpaces(body, e.after, stop);
    if e.after != [] {
      OccursAtBytes(body, e.after, stop, 0);
      assert e.after[0] in e.after;
    }
  }

  lemma SearchElement(body: Bytes, field: Bytes, protects: (Bytes, Bytes) -> bool, e: Element, off: nat, end: nat)
    requires PlainField(field) && ElementFits(e)
    requires OccursAt(body, ElementBytes(e), off) && end == off + |ElementBytes(e)|
    requires EndsAt(body, end)
    ensures Search(body, field, protects, off)
         == InElement(e, field, protects, off) + Search(body, field, protects, end)
    decreases e, 1
  {
    var start, stop := ValueStart(e, off), ValueStop(e, off);
    ElementParts(body, e, off, start, stop, end);
    SpacesHaveNoQuote(e.before);
    SpacesHaveNoQuote(e.after);
    SkipPiece(body, field, protects, e.before, off, start);
    SearchValue(body, field, protects, e.value, start, stop);
    SkipPiece(body, field, protects, e.after, stop, end);
  }

  lemma CommaBytes(body: Bytes, a: Bytes, b: Bytes, off: nat, mid: nat, next: nat)
    requires OccursAt(body, a + ([COMMA] + b), off) && mid == off + |a| && next == mid + 1
    ensures OccursAt(body, a, off) && EndsAt(body, mid) && OccursAt(body, [COMMA], mid) && OccursAt(body, b, next)
    ensures next + |b| == off + |a + ([COMMA] + b)|
  {
    AtSplit(body, off, a, [COMMA] + b);
    AtSplit(body, mid, [COMMA], b);
    OccursAtBytes(body, [COMMA], mid, 0);
  }

  lemma SearchItems(body: Bytes, field: Bytes, protects: (Bytes, Bytes) -> bool, items: seq<Element>, off: nat,
    end: nat)
    requires PlainField(field) && items != [] && ItemsFit(items)
    requires OccursAt(body, ItemsBytes(items), off) && end == off + |ItemsBytes(items)| && EndsAt(body, end)
    ensures Search(body, field, protects, off)
         == InItems(items, field, protects, off) + Search(body, field, protects, end)
    decreases items, 1
  {
    if |items| == 1 {
      var found := InElement(items[0], field, protects, off);
      SearchElement(body, field, protects, items[0], off, end);
      assert InItems(items, field, protects, off) == found + [] == found;
    } else {
      SearchMoreItems(body, field, protects, items, off, end);
    }
  }

  lemma SearchMoreItems(body: Bytes, field: Bytes, protects: (Bytes, Bytes) -> bool, items: seq<Element>,
    off: nat, end: nat)
    requires PlainField(field) && |items| > 1 && ItemsFit(items)
    requires OccursAt(body, ItemsBytes(items), off) && end == off + |ItemsBytes(items)| && EndsAt(body, end)
    ensures Search(body, field, protects, off)
         == InItems(items, field, protects, off) + Search(body, field, protects, end)
    decreases items, 0
  {
    var first, rest := ElementBytes(items[0]), ItemsBytes(items[1..]);
    var mid, next := off + |first|, NextStart(off, first);
    CommaBytes(body, first, rest, off, mid, next);
    SearchElement(body, field, protects, items[0], off, mid);
    SkipPiece(body, field, protects, [COMMA], mid, next);
    SearchItems(body, field, protects, items[1..], next, end);
    Chain(Search(body, field, protects, off), InElement(items[0], field, protects, off),
          Search(body, field, protects, mid), InItems(items[1..], field, protects, next),
          Search(body, field, protects, end));
  }

  lemma MemberParts(body: Bytes, m: Member, off: nat, nameStart: nat, nameEnd: nat, colon: nat, start: nat, end: nat)
    requires MemberFits(m) && OccursAt(body, MemberBytes(m), off) && end == off + |MemberBytes(m)|
    requires nameStart == off + |m.before| && nameEnd == NameEnd(m, off)
    requires colon == nameEnd + |m.afterName| && start == ElementStart(m, off)
    ensures OccursAt(body, m.before, off) && OccursAt(body, Token(m.name), nameStart)
    ensures OccursAt(body, m.afterName, nameEnd) && OccursAt(body, [COLON], colon) && start == colon + 1
    ensures OccursAt(body, ElementBytes(m.element), start) && end == start + |ElementBytes(m.element)|
    ensures DelimAt(body, nameEnd)
  {
    var value := [COLON] + ElementBytes(m.element);
    var behind := m.afterName + value;
    AtSplitIn(body, off, m.before, Token(m.name) + behind, nameStart);
    AtSplitIn(body, nameStart, Token(m.name), behind, nameEnd);
    AtSplitIn(body, nameEnd, m.afterName, value, colon);
    AtSplitIn(body, colon, [COLON], ElementBytes(m.element), start);
    DelimBehindName(body, m.afterName, nameEnd, colon);
  }

  lemma AtSplitIn(body: Bytes, off: nat, a: Bytes, b: Bytes, mid: nat)
    requires mid == off + |a|
    ensures OccursAt(body, a + b, off) <==> OccursAt(body, a, off) && OccursAt(body, b, mid)
  {
    AtSplit(body, off, a, b);
  }

  lemma DelimBehindName(body: Bytes, afterName: Bytes, nameEnd: nat, colon: nat)
    requires Spaces(afterName) && OccursAt(body, afterName, nameEnd)
    requires colon == nameEnd + |afterName| && OccursAt(body, [COLON], colon)
    ensures DelimAt(body, nameEnd)
  {
    OccursAtBytes(body, [COLON], colon, 0);
    if afterName != [] {
      OccursAtBytes(body, afterName, nameEnd, 0);
      assert afterName[0] in afterName;
    }
  }

  /** A string token is read to its end. */
  lemma TokenScanned(body: Bytes, cs: Chars, start: nat, stop: nat)
    requires CharsFit(cs) && OccursAt(body, Token(cs), start) && stop == start + |Token(cs)|
    ensures stop <= |body| && StringEnd(body, start + 1, false) == stop && body[start..stop] == Token(cs)
  {
    AtSplit(body, start, [QUOTE], CharsBytes(cs) + [QUOTE]);
    ScansToken(body, cs, start + 1);
  }

  /** What ValueAfter sees behind the name of a member. */
  lemma MemberValue(body: Bytes, field: Bytes, protects: (Bytes, Bytes) -> bool, m: Member, off: nat,
                    nameEnd: nat, colon: nat, elementStart: nat, start: nat, stop: nat)
    requires nameEnd == NameEnd(m, off) && elementStart == ElementStart(m, off) && elementStart == colon + 1
    requires Spaces(m.afterName) && OccursAt(body, m.afterName, nameEnd) && colon == nameEnd + |m.afterName|
    requires OccursAt(body, [COLON], colon)
    requires var e := m.element;
             && start == ValueStart(e, elementStart) && stop == ValueStop(e, elementStart)
             && ElementFits(e) && OccursAt(body, e.before, elementStart)
             && OccursAt(body, ValueBytes(e.value), start)
             && start < |body| && !IsSpace(body[start]) && (body[start] == QUOTE <==> e.value.Str?)
    ensures nameEnd <= |body| && ValueAfter(body, field, protects, nameEnd) == StringValue(m, field, protects, off)
  {
    var e := m.element;
    OccursAtBytes(body, [COLON], colon, 0);
    SkipsSpaces(body, m.afterName, nameEnd);
    SkipsSpaces(body, e.before, elementStart);
    ValueAfterIs(body, field, protects, nameEnd, colon, elementStart, start);
    if e.value.Str? {
      TokenScanned(body, e.value.chars, start, stop);
    }
  }

  lemma ValueAfterIs(body: Bytes, field: Bytes, protects: (Bytes, Bytes) -> bool, keyEnd: nat, colon: nat,
    next: nat, start: nat)
    requires keyEnd <= |body| && SkipSpace(body, keyEnd) == colon < |body| && body[colon] == COLON
    requires next == colon + 1 && SkipSpace(body, next) == start < |body|
    ensures body[start] != QUOTE ==> ValueAfter(body, field, protects, keyEnd) == Nothing
    ensures body[start] == QUOTE ==>
      var end := StringEnd(body, start + 1, false);
      ValueAfter(body, field, protects, keyEnd)
      == if end >= 0 && protects(field, body[start..end]) then Value(start, end) else Nothing
  {
  }

  lemma SearchMember(body: Bytes, field: Bytes, protects: (Bytes, Bytes) -> bool, m: Member, off: nat, end: nat)
    requires PlainField(field) && MemberFits(m) && OccursAt(body, MemberBytes(m), off) && end == off + |MemberBytes(m)|
    requires EndsAt(body, end)
    ensures Search(body, field, protects, off)
         == InMember(m, field, protects, off) + Search(body, field, protects, end)
    decreases m, 1
  {
    var nameStart, nameEnd, elementStart := off + |m.before|, NameEnd(m, off), ElementStart(m, off);
    var colon := nameEnd + |m.afterName|;
    var e := m.element;
    var start, stop := ValueStart(e, elementStart), ValueStop(e, elementStart);
    MemberParts(body, m, off, nameStart, nameEnd, colon, elementStart, end);
    ElementParts(body, e, elementStart, start, stop, end);
    MemberValue(body, field, protects, m, off, nameEnd, colon, elementStart, start, stop);
    SpacesHaveNoQuote(m.before);
    SpacesHaveNoQuote(m.afterName);
    SpacesHaveNoQuote(e.after);
    SkipPiece(body, field, protects, m.before, off, nameStart);
    var found := StringValue(m, field, protects, off);
    SearchName(body, field, protects, m.name, nameStart, nameEnd, found);
    if NameMatches(m.name, field) && found.Value? {
      SkipPiece(body, field, protects, e.after, stop, end);
    } else {
      SkipPiece(body, field, protects, m.afterName, nameEnd, colon);
      SkipPiece(body, field, protects, [COLON], colon, elementStart);
      SearchElement(body, field, protects, e, elementStart, end);
    }
  }

  lemma SearchMembers(body: Bytes, field: Bytes, protects: (Bytes, Bytes) -> bool, ms: seq<Member>, off: nat, end: nat)
    requires PlainField(field) && ms != [] && MembersFit(ms)
    requires OccursAt(body, MembersBytes(ms), off) && end == off + |MembersBytes(ms)| && EndsAt(body, end)
    ensures Search(body, field, protects, off)
         == InMembers(ms, field, protects, off) + Search(body, field, protects, end)
    decreases ms, 1
  {
    if |ms| == 1 {
      var found := InMember(ms[0], field, protects, off);
      SearchMember(body, field, protects, ms[0], off, end);
      assert InMembers(ms, field, protects, off) == found + [] == found;
    } else {
      SearchMoreMembers(body, field, protects, ms, off, end);
    }
  }

  lemma SearchMoreMembers(body: Bytes, field: Bytes, protects: (Bytes, Bytes) -> bool, ms: seq<Member>,
    off: nat, end: nat)
    requires PlainField(field) && |ms| > 1 && MembersFit(ms)
    requires OccursAt(body, MembersBytes(ms), off) && end == off + |MembersBytes(ms)| && EndsAt(body, end)
    ensures Search(body, field, protects, off)
         == InMembers(ms, field, protects, off) + Search(body, field, protects, end)
    decreases ms, 0
  {
    var first, rest := MemberBytes(ms[0]), MembersBytes(ms[1..]);
    var mid, next := off + |first|, NextStart(off, first);
    CommaBytes(body, first, rest, off, mid, next);
    SearchMember(body, field, protects, ms[0], off, mid);
    SkipPiece(body, field, protects, [COMMA], mid, next);
    SearchMembers(body, field, protects, ms[1..], next, end);
    Chain(Search(body, field, protects, off), InMember(ms[0], field, protects, off),
          Search(body, field, protects, mid), InMembers(ms[1..], field, protects, next),
          Search(body, field, protects, end));
  }

  /**
   * On a JSON text the byte search finds exactly, in order, the string values to be protected of the
   * members whose name token ends with the quoted field.
   */
  lemma SearchIsExact(body: Bytes, doc: Element, field: Bytes, protects: (Bytes, Bytes) -> bool)
    requires Parses(body, doc) && PlainField(field)
    ensures Search(body, field, protects, 0) == InElement(doc, field, protects, 0)
  {
    assert body[0..|body|] == body;
    SearchElement(body, field, protects, doc, 0, |body|);
    assert Search(body, field, protects, |body|) == [];
  }

  /** The ranges found lie behind from, in order, apart from each other, and hold strings to protect. */
  lemma {:induction false} SearchSeparated(body: Bytes, field: Bytes, protects: (Bytes, Bytes) -> bool, from: nat)
    requires from <= |body|
    ensures var found := Search(body, field, protects, from);
            && Separated(found)
            && (found != [] ==> from < found[0].start)
            && forall r | r in found :: 0 <= r.start < r.end <= |body| && protects(field, body[r.start..r.end])
    decreases |body| - from
  {
    var p := Find(body, Quoted(field), from);
    if p >= 0 {
      var keyEnd := p + |Quoted(field)|;
      var found := ValueAfter(body, field, protects, keyEnd);
      SearchStep(body, field, protects, from, p, keyEnd, found);
      match found
      case Nothing =>
        SearchSeparated(body, field, protects, keyEnd);
      case Value(start, end) =>
        SearchSeparated(body, field, protects, end);
        var rest := Search(body, field, protects, end);
        assert ([ByteRange(start, end)] + rest)[1..] == rest;
    }
  }
}
