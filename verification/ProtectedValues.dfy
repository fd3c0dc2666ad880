/** The values to be protected in a JSON text, member by member. */
module ProtectedValues {
  import opened ByteText
  import opened JsonText
  import opened ByteRanges
  import opened ProtectedJson

  /** A member of some object in the text, and where it begins. */
  datatype Placed = Placed(member: Member, at: nat)

  /** All members of all objects inside a value that begins at off, at any depth. */
  function MembersOfValue(v: Value, off: nat): seq<Placed>
    decreases v, 0
  {
    match v
    case Str(_) => []
    case Scalar(_) => []
    case Arr(_, items) => MembersOfItems(items, Inside(off))
    case Obj(_, members) => MembersOf(members, Inside(off))
  }

  function MembersOfElement(e: Element, off: nat): seq<Placed>
    decreases e, 1
  {
    MembersOfValue(e.value, ValueStart(e, off))
  }

  function MembersOfItems(items: seq<Element>, off: nat): seq<Placed>
    decreases items, 0
  {
    if items == [] then []
    else MembersOfElement(items[0], off) + MembersOfItems(items[1..], NextStart(off, ElementBytes(items[0])))
  }

  function MembersOf(ms: seq<Member>, off: nat): seq<Placed>
    decreases ms, 0
  {
    if ms == [] then []
    else
      [Placed(ms[0], off)] + MembersOfElement(ms[0].element, ElementStart(ms[0], off))
      + MembersOf(ms[1..], NextStart(off, MemberBytes(ms[0])))
  }

  /**
   * The value of the member is a string that passes the predicate, its name token ends with the quoted
   * field, and r is where the value's token stands.
   */
  ghost predicate IsProtected(p: Placed, field: Bytes, protects: (Bytes, Bytes) -> bool, r: ByteRange) {
    var m := p.member;
    var name := [0x22] + (CharsBytes(m.name) + [0x22]);
    && |name| >= |field| + 2 && name[|name| - |field| - 2..] == [0x22] + (field + [0x22])
    && m.element.value.Str?
    && var token := [0x22] + (CharsBytes(m.element.value.chars) + [0x22]);
       && protects(field, token)
       && r.start == p.at + |m.before| + |name| + |m.afterName| + 1 + |m.element.before|
       && r.end == r.start + |token|
  }

  ghost predicate SomeProtected(ps: seq<Placed>, field: Bytes, protects: (Bytes, Bytes) -> bool, r: ByteRange) {
    exists p :: p in ps && IsProtected(p, field, protects, r)
  }

  lemma SomeInEither(a: seq<Placed>, b: seq<Placed>, field: Bytes, protects: (Bytes, Bytes) -> bool, r: ByteRange)
    ensures SomeProtected(a + b, field, protects, r)
       <==> SomeProtected(a, field, protects, r) || SomeProtected(b, field, protects, r)
  {
    if SomeProtected(a, field, protects, r) {
      var p :| p in a && IsProtected(p, field, protects, r);
      assert p in a + b;
    }
    if SomeProtected(b, field, protects, r) {
      var p :| p in b && IsProtected(p, field, protects, r);
      assert p in a + b;
    }
  }

  lemma MemberExactly(m: Member, field: Bytes, protects: (Bytes, Bytes) -> bool, off: nat, r: ByteRange)
    ensures var found := StringValue(m, field, protects, off);
            IsProtected(Placed(m, off), field, protects, r)
            <==> NameMatches(m.name, field) && found.Value? && r == ByteRange(found.start, found.end)
  {
    assert Quoted(field) == [0x22] + (field + [0x22]);
  }

  /** The ranges of a text are those of its members whose names match and whose strings pass the predicate. */
  lemma {:induction false} ElementExactly(e: Element, field: Bytes, protects: (Bytes, Bytes) -> bool, off: nat,
    r: ByteRange)
    ensures r in InElement(e, field, protects, off) <==> SomeProtected(MembersOfElement(e, off), field, protects, r)
    decreases e, 1
  {
    match e.value
    case Str(_) =>
    case Scalar(_) =>
    case Arr(_, items) => ItemsExactly(items, field, protects, Inside(ValueStart(e, off)), r);
    case Obj(_, members) => MembersExactly(members, field, protects, Inside(ValueStart(e, off)), r);
  }

  lemma {:induction false} ItemsExactly(items: seq<Element>, field: Bytes, protects: (Bytes, Bytes) -> bool, off: nat,
    r: ByteRange)
    ensures r in InItems(items, field, protects, off) <==> SomeProtected(MembersOfItems(items, off), field, protects, r)
    decreases items, 0
  {
    if items != [] {
      var next := NextStart(off, ElementBytes(items[0]));
      ElementExactly(items[0], field, protects, off, r);
      ItemsExactly(items[1..], field, protects, next, r);
      SomeInEither(MembersOfElement(items[0], off), MembersOfItems(items[1..], next), field, protects, r);
    }
  }

  lemma {:induction false} MembersExactly(ms: seq<Member>, field: Bytes, protects: (Bytes, Bytes) -> bool, off: nat,
    r: ByteRange)
    ensures r in InMembers(ms, field, protects, off) <==> SomeProtected(MembersOf(ms, off), field, protects, r)
    decreases ms, 0
  {
    if ms != [] {
      var m, next := ms[0], NextStart(off, MemberBytes(ms[0]));
      var inside := MembersOfElement(m.element, ElementStart(m, off));
      ElementExactly(m.element, field, protects, ElementStart(m, off), r);
      MembersExactly(ms[1..], field, protects, next, r);
      MemberExactly(m, field, protects, off, r);
      SomeInEither([Placed(m, off)], inside, field, protects, r);
      SomeInEither([Placed(m, off)] + inside, MembersOf(ms[1..], next), field, protects, r);
      OneProtected(Placed(m, off), field, protects, r);
      StringHasNoMembers(m, off);
    }
  }

  lemma OneProtected(p: Placed, field: Bytes, protects: (Bytes, Bytes) -> bool, r: ByteRange)
    ensures SomeProtected([p], field, protects, r) <==> IsProtected(p, field, protects, r)
  {
    assert p in [p];
  }

  lemma StringHasNoMembers(m: Member, off: nat)
    ensures m.element.value.Str? ==> MembersOfElement(m.element, ElementStart(m, off)) == []
  {
  }

  /**
   * On a JSON text the byte search finds a range for a field if and only if it is the string token of
   * the value of some member, at any depth, whose name token ends with the quoted field and whose value
   * passes the predicate.
   */
  lemma FoundExactly(body: Bytes, doc: Element, field: Bytes, protects: (Bytes, Bytes) -> bool, r: ByteRange)
    requires Parses(body, doc) && PlainField(field)
    ensures r in Search(body, field, protects, 0)
       <==> exists p :: p in MembersOfElement(doc, 0) && IsProtected(p, field, protects, r)
  {
    SearchIsExact(body, doc, field, protects);
    ElementExactly(doc, field, protects, 0, r);
  }
}
