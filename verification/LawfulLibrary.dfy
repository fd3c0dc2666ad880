/**
 * What is assumed of the library is consistent: a simple prefix code of JSON values meets it. Texts are
 * written as two letters for each byte, collections as marked lists; the members of an object come in
 * any fixed order, and the code can be read back whatever follows it.
 */
module LawfulLibrary {
  import opened ByteText
  import opened DecodedJson
  import opened EventStream
  import opened Sse
  import opened ClientView

  const END: byte := 0x45
  const MORE: byte := 0x4D

  function Nibble(n: int): byte
    requires 0 <= n < 16
  {
    (0x61 + n) as byte
  }

  function CodeByte(b: byte): Bytes {
    [Nibble(b as int / 16), Nibble(b as int % 16)]
  }

  /** Two letters for each byte, and an end mark. */
  function CodeText(s: Bytes): Bytes {
    if s == [] then [END] else [MORE] + (CodeByte(s[0]) + CodeText(s[1..]))
  }

  function Tag(v: Json): byte {
    match v
    case Null => 0x4E
    case Bool(on) => if on then 0x54 else 0x46
    case Number(_) => 0x44
    case Str(_) => 0x53
    case Arr(_) => 0x41
    case Obj(_) => 0x4F
    case Unsupported => 0x55
  }

  ghost function Code(v: Json): Bytes
    decreases v, 2, 0
  {
    [Tag(v)] + CodeBody(v)
  }

  ghost function CodeBody(v: Json): Bytes
    decreases v, 1, 0
  {
    match v
    case Number(s) => CodeText(s)
    case Str(s) => CodeText(s)
    case Arr(items) => CodeItems(v, 0)
    case Obj(members) => CodeMembers(v, members.Keys)
    case _ => []
  }

  ghost function CodeItems(v: Json, i: nat): Bytes
    requires v.Arr? && i <= |v.items|
    decreases v, 0, |v.items| - i
  {
    if i == |v.items| then [END] else [MORE] + (Code(v.items[i]) + CodeItems(v, i + 1))
  }

  ghost function CodeMembers(v: Json, keys: set<Bytes>): Bytes
    requires v.Obj? && keys <= v.members.Keys
    decreases v, 0, |keys|
  {
    if keys == {} then [END]
    else
      var k :| k in keys;
      [MORE] + (CodeText(k) + (Code(v.members[k]) + CodeMembers(v, keys - {k})))
  }

  // ---------- the code is one line ----------

  predicate Letters(s: Bytes) {
    forall i | 0 <= i < |s| :: s[i] >= 0x41
  }

  lemma {:induction false} TextIsLetters(s: Bytes)
    ensures Letters(CodeText(s))
  {
    if s != [] { TextIsLetters(s[1..]); }
  }

  lemma {:induction false} CodeIsLetters(v: Json)
    ensures Letters(Code(v))
    decreases v, 1, 0
  {
    match v
    case Number(s) => TextIsLetters(s);
    case Str(s) => TextIsLetters(s);
    case Arr(items) => ItemsAreLetters(v, 0);
    case Obj(members) => MembersAreLetters(v, members.Keys);
    case _ =>
  }

  lemma {:induction false} ItemsAreLetters(v: Json, i: nat)
    requires v.Arr? && i <= |v.items|
    ensures Letters(CodeItems(v, i))
    decreases v, 0, |v.items| - i
  {
    if i < |v.items| {
      CodeIsLetters(v.items[i]);
      ItemsAreLetters(v, i + 1);
    }
  }

  lemma {:induction false} MembersAreLetters(v: Json, keys: set<Bytes>)
    requires v.Obj? && keys <= v.members.Keys
    ensures Letters(CodeMembers(v, keys))
    decreases v, 0, |keys|
  {
    if keys != {} {
      var k := FirstCoded(v, keys);
      TextIsLetters(k);
      CodeIsLetters(v.members[k]);
      MembersAreLetters(v, keys - {k});
    }
  }

  lemma FirstCoded(v: Json, keys: set<Bytes>) returns (k: Bytes)
    requires v.Obj? && keys <= v.members.Keys && keys != {}
    ensures k in keys
    ensures CodeMembers(v, keys) == [MORE] + (CodeText(k) + (Code(v.members[k]) + CodeMembers(v, keys - {k})))
  {
    k :| k in keys
      && CodeMembers(v, keys) == [MORE] + (CodeText(k) + (Code(v.members[k]) + CodeMembers(v, keys - {k})));
  }

  // ---------- the code can be read back ----------

  lemma SameHead(a: byte, s: Bytes, x: Bytes, b: byte, t: Bytes, y: Bytes)
    requires ([a] + s) + x == ([b] + t) + y
    ensures a == b && s + x == t + y
  {
    Assoc([a], s, x);
    Assoc([b], t, y);
    assert ([a] + (s + x))[0] == a && ([b] + (t + y))[0] == b;
    assert ([a] + (s + x))[1..] == s + x && ([b] + (t + y))[1..] == t + y;
  }

  lemma ByteReadBack(a: byte, s: Bytes, b: byte, t: Bytes)
    requires CodeByte(a) + s == CodeByte(b) + t
    ensures a == b && s == t
  {
    assert (CodeByte(a) + s)[0] == CodeByte(a)[0] && (CodeByte(b) + t)[0] == CodeByte(b)[0];
    assert (CodeByte(a) + s)[1] == CodeByte(a)[1] && (CodeByte(b) + t)[1] == CodeByte(b)[1];
    assert (CodeByte(a) + s)[2..] == s && (CodeByte(b) + t)[2..] == t;
    assert a as int == a as int / 16 * 16 + a as int % 16 && b as int == b as int / 16 * 16 + b as int % 16;
  }

  lemma EndIsNotMore(s: Bytes, x: Bytes, y: Bytes)
    ensures [END] + x != ([MORE] + s) + y
  {
    assert ([END] + x)[0] == END && (([MORE] + s) + y)[0] == MORE;
  }

  lemma {:induction false} TextReadBack(a: Bytes, x: Bytes, b: Bytes, y: Bytes)
    requires CodeText(a) + x == CodeText(b) + y
    ensures a == b && x == y
    decreases |a|
  {
    assert [END] + [] == [END];
    if a == [] && b == [] {
      SameHead(END, [], x, END, [], y);
      assert [] + x == x && [] + y == y;
    } else if a == [] {
      EndIsNotMore(CodeByte(b[0]) + CodeText(b[1..]), x, y);
    } else if b == [] {
      EndIsNotMore(CodeByte(a[0]) + CodeText(a[1..]), y, x);
    } else {
      SameHead(MORE, CodeByte(a[0]) + CodeText(a[1..]), x, MORE, CodeByte(b[0]) + CodeText(b[1..]), y);
      Assoc(CodeByte(a[0]), CodeText(a[1..]), x);
      Assoc(CodeByte(b[0]), CodeText(b[1..]), y);
      ByteReadBack(a[0], CodeText(a[1..]) + x, b[0], CodeText(b[1..]) + y);
      TextReadBack(a[1..], x, b[1..], y);
      assert a == [a[0]] + a[1..] && b == [b[0]] + b[1..];
    }
  }

  lemma {:induction false} ReadBack(v: Json, x: Bytes, w: Json, y: Bytes)
    requires Code(v) + x == Code(w) + y
    ensures v == w && x == y
    decreases v, 1, 0
  {
    SameHead(Tag(v), CodeBody(v), x, Tag(w), CodeBody(w), y);
    match v
    case Number(s) => TextReadBack(s, x, w.spelling, y);
    case Str(s) => TextReadBack(s, x, w.text, y);
    case Arr(items) =>
      ItemsReadBack(v, 0, x, w, 0, y);
      assert items[0..] == items && w.items[0..] == w.items;
    case Obj(members) =>
      MembersReadBack(v, members.Keys, x, w, w.members.Keys, y);
      assert members == w.members;
    case _ => assert [] + x == x && [] + y == y;
  }

  lemma {:induction false} ItemsReadBack(v: Json, i: nat, x: Bytes, w: Json, j: nat, y: Bytes)
    requires v.Arr? && i <= |v.items| && w.Arr? && j <= |w.items|
    requires CodeItems(v, i) + x == CodeItems(w, j) + y
    ensures v.items[i..] == w.items[j..] && x == y
    decreases v, 0, |v.items| - i
  {
    assert [END] + [] == [END];
    if i == |v.items| && j == |w.items| {
      SameHead(END, [], x, END, [], y);
      assert [] + x == x && [] + y == y;
    } else if i == |v.items| {
      EndIsNotMore(Code(w.items[j]) + CodeItems(w, j + 1), x, y);
    } else if j == |w.items| {
      EndIsNotMore(Code(v.items[i]) + CodeItems(v, i + 1), y, x);
    } else {
      var c, d := CodeItems(v, i + 1), CodeItems(w, j + 1);
      SameHead(MORE, Code(v.items[i]) + c, x, MORE, Code(w.items[j]) + d, y);
      Assoc(Code(v.items[i]), c, x);
      Assoc(Code(w.items[j]), d, y);
      ReadBack(v.items[i], c + x, w.items[j], d + y);
      ItemsReadBack(v, i + 1, x, w, j + 1, y);
      assert v.items[i..] == [v.items[i]] + v.items[i + 1..] && w.items[j..] == [w.items[j]] + w.items[j + 1..];
    }
  }

  lemma {:induction false} MembersReadBack(v: Json, ks: set<Bytes>, x: Bytes, w: Json, ls: set<Bytes>, y: Bytes)
    requires v.Obj? && ks <= v.members.Keys && w.Obj? && ls <= w.members.Keys
    requires CodeMembers(v, ks) + x == CodeMembers(w, ls) + y
    ensures ks == ls && x == y && forall k | k in ks :: v.members[k] == w.members[k]
    decreases v, 0, |ks|
  {
    assert [END] + [] == [END];
    if ks == {} && ls == {} {
      SameHead(END, [], x, END, [], y);
      assert [] + x == x && [] + y == y;
    } else if ks == {} {
      var l := FirstCoded(w, ls);
      EndIsNotMore(CodeText(l) + (Code(w.members[l]) + CodeMembers(w, ls - {l})), x, y);
    } else if ls == {} {
      var k := FirstCoded(v, ks);
      EndIsNotMore(CodeText(k) + (Code(v.members[k]) + CodeMembers(v, ks - {k})), y, x);
    } else {
      var k := FirstCoded(v, ks);
      var l := FirstCoded(w, ls);
      var c, d := CodeMembers(v, ks - {k}), CodeMembers(w, ls - {l});
      var e, f := Code(v.members[k]) + c, Code(w.members[l]) + d;
      SameHead(MORE, CodeText(k) + e, x, MORE, CodeText(l) + f, y);
      Assoc(CodeText(k), e, x);
      Assoc(CodeText(l), f, y);
      TextReadBack(k, e + x, l, f + y);
      Assoc(Code(v.members[k]), c, x);
      Assoc(Code(w.members[l]), d, y);
      ReadBack(v.members[k], c + x, w.members[l], d + y);
      MembersReadBack(v, ks - {k}, x, w, ls - {l}, y);
      SameWith(ks, ls, k);
    }
  }

  lemma SameWith(ks: set<Bytes>, ls: set<Bytes>, k: Bytes)
    requires k in ks && k in ls && ks - {k} == ls - {k}
    ensures ks == ls
  {
    assert ks == (ks - {k}) + {k} && ls == (ls - {k}) + {k};
  }

  // ---------- the library ----------

  ghost function Read(lib: Library, value: Bytes): Decoded {
    if exists o :: Encodable(lib, o) && Code(Obj(o)) == value
    then var o :| Encodable(lib, o) && Code(Obj(o)) == value; Decoded(o)
    else Failed
  }

  /** The assumptions can be met, whatever the spellings of numbers are. */
  lemma LawfulLibraryExists(isNumber: Bytes -> bool) returns (lib: Library)
    ensures Lawful(lib) && lib.isNumber == isNumber
  {
    var base := Library(value => Failed, value => Failed, o => [], value => value, isNumber);
    lib := Library(value => Read(base, value), value => Read(base, value), o => Code(Obj(o)), value => value, isNumber);
    forall o ensures Encodable(lib, o) <==> Encodable(base, o) {
      assert forall v :: EncodableHere(lib, v) <==> EncodableHere(base, v);
      assert forall v, path :: FitsAt(lib, v, path) <==> FitsAt(base, v, path);
    }
    forall o | Encodable(lib, o) ensures Encodes(lib, o) {
      var value := Code(Obj(o));
      var o' := Read(base, value).payload;
      assert value + [] == value;
      ReadBack(Obj(o'), [], Obj(o), []);
      CodeIsLetters(Obj(o));
      assert value[0] != DONE[0];
    }
  }
}
