/** The search for a session id in a decoded JSON body. */
module SessionSearch {
  import opened ByteText
  import opened DecodedJson

  const MAX_DEPTH := 12

  /** Trims a string and returns it if it has the form of a session id, and "" otherwise. */
  type Validator = Bytes -> Bytes

  function Candidate(valid: Validator, members: map<Bytes, Json>, field: Bytes): Bytes {
    if field in members && members[field].Str? then valid(members[field].text) else []
  }

  /** The id an object carries itself. */
  function OwnID(fields: seq<Bytes>, valid: Validator, members: map<Bytes, Json>): Bytes {
    if fields == [] then []
    else if Candidate(valid, members, fields[0]) != [] then Candidate(valid, members, fields[0])
    else OwnID(fields[1..], valid, members)
  }

  /** It is that of the first listed field with a valid one. */
  lemma {:induction false} OwnIDIsFirst(fields: seq<Bytes>, valid: Validator, members: map<Bytes, Json>)
    ensures OwnID(fields, valid, members) == [] <==> forall f | f in fields :: Candidate(valid, members, f) == []
    ensures OwnID(fields, valid, members) != [] ==> exists i | 0 <= i < |fields| ::
      && OwnID(fields, valid, members) == Candidate(valid, members, fields[i])
      && forall j | 0 <= j < i :: Candidate(valid, members, fields[j]) == []
  {
    if fields != [] && Candidate(valid, members, fields[0]) == [] {
      OwnIDIsFirst(fields[1..], valid, members);
      var id := OwnID(fields, valid, members);
      if id != [] {
        var i :| 0 <= i < |fields[1..]| && id == Candidate(valid, members, fields[1..][i])
          && forall j | 0 <= j < i :: Candidate(valid, members, fields[1..][j]) == [];
        assert id == Candidate(valid, members, fields[i + 1]);
        assert forall j | 0 < j < i + 1 :: fields[j] == fields[1..][j - 1];
      }
    }
  }

  method CodexSessionIDFromObject(fields: seq<Bytes>, valid: Validator, obj: map<Bytes, Json>) returns (id: Bytes)
    ensures id == OwnID(fields, valid, obj)
  {
    for n := 0 to |fields|
      invariant OwnID(fields, valid, obj) == OwnID(fields[n..], valid, obj)
    {
      var field := fields[n];
      assert fields[n..][1..] == fields[n + 1..];
      if field !in obj || !obj[field].Str? {
        continue;
      }
      var value := valid(obj[field].text);
      if value != [] {
        return value;
      }
    }
    return [];
  }

  /** The id that a value carries itself, if it is an object. */
  function IDOf(fields: seq<Bytes>, valid: Validator, v: Json): Bytes {
    if v.Obj? then OwnID(fields, valid, v.members) else []
  }

  /** The possible outcomes of the search: the members of an object are visited in any order. */
  ghost predicate Outcome(fields: seq<Bytes>, valid: Validator, v: Json, depth: nat, id: Bytes)
    decreases v, 1
  {
    if depth > MAX_DEPTH then id == []
    else if IDOf(fields, valid, v) != [] then id == IDOf(fields, valid, v)
    else if id == [] then
      forall place | Child(v, place).Value? :: Outcome(fields, valid, Child(v, place).value, depth + 1, [])
    else
      exists place | Child(v, place).Value? ::
        && Outcome(fields, valid, Child(v, place).value, depth + 1, id)
        && OutcomesBefore(fields, valid, v, place, depth + 1)
  }

  /** The search finds nothing in the array items before a place. */
  ghost predicate OutcomesBefore(fields: seq<Bytes>, valid: Validator, v: Json, place: Place, depth: nat)
    decreases v, 0
  {
    forall j: nat | place.Index? && j < place.index && Child(v, Index(j)).Value? ::
      Outcome(fields, valid, Child(v, Index(j)).value, depth, [])
  }

  /** The search in a body that may not have been decoded. */
  method CodexSessionIDFromJSON(fields: seq<Bytes>, valid: Validator, payload: Found) returns (id: Bytes)
    ensures payload == Nothing ==> id == []
    ensures payload.Value? ==> Outcome(fields, valid, payload.value, 0, id)
    ensures id != [] ==>
      payload.Value? && exists path :: |path| <= 12 && IsIDAt(fields, valid, payload.value, path, id)
    ensures id == [] && payload.Value? ==>
      forall path | |path| <= 12 :: NoValidAt(fields, valid, payload.value, path)
  {
    if payload == Nothing {
      return [];
    }
    id := CodexSessionIDFromValue(fields, valid, payload.value, 0);
    FoundIsValid(fields, valid, payload.value, id);
  }

  method CodexSessionIDFromValue(fields: seq<Bytes>, valid: Validator, value: Json, depth: nat) returns (id: Bytes)
    ensures Outcome(fields, valid, value, depth, id)
    decreases value
  {
    if depth > MAX_DEPTH {
      return [];
    }
    match value {
      case Obj(members) =>
        id := CodexSessionIDFromObject(fields, valid, members);
        if id != [] {
          return id;
        }
        var keys := members.Keys;
        while keys != {}
          invariant keys <= members.Keys
          invariant forall k | k in members && k !in keys :: Outcome(fields, valid, members[k], depth + 1, [])
          decreases |keys|
        {
          var k :| k in keys;
          assert Child(value, Key(k)) == Value(members[k]);
          id := CodexSessionIDFromValue(fields, valid, members[k], depth + 1);
          if id != [] {
            return id;
          }
          keys := keys - {k};
        }
        return [];
      case Arr(items) =>
        for i := 0 to |items|
          invariant forall j | 0 <= j < i :: Outcome(fields, valid, items[j], depth + 1, [])
        {
          assert Child(value, Index(i)) == Value(items[i]);
          id := CodexSessionIDFromValue(fields, valid, items[i], depth + 1);
          if id != [] {
            return id;
          }
        }
        return [];
      case _ =>
        return [];
    }
  }

  // ---------- what is found ----------

  /** The id carried by the object at a path. */
  ghost function IDAt(fields: seq<Bytes>, valid: Validator, v: Json, path: Path): Bytes {
    if At(v, path).Value? then IDOf(fields, valid, At(v, path).value) else []
  }

  /** An object in reach, when the search is depth steps deep already, carries a valid id. */
  ghost predicate Carries(fields: seq<Bytes>, valid: Validator, v: Json, depth: nat, path: Path) {
    depth + |path| <= MAX_DEPTH && IDAt(fields, valid, v, path) != []
  }

  /** A carrier that no other carrier comes before. */
  ghost predicate FirstCarrier(fields: seq<Bytes>, valid: Validator, v: Json, depth: nat, path: Path) {
    && Carries(fields, valid, v, depth, path)
    && forall other | Carries(fields, valid, v, depth, other) :: !Before(other, path)
  }

  /** No object in reach carries a valid id. */
  ghost predicate Bare(fields: seq<Bytes>, valid: Validator, v: Json, depth: nat) {
    forall path :: !Carries(fields, valid, v, depth, path)
  }

  /** The array items before a place are bare; nothing is said of the members of an object. */
  ghost predicate BareBefore(fields: seq<Bytes>, valid: Validator, v: Json, place: Place, depth: nat) {
    forall j: nat | place.Index? && j < place.index && Child(v, Index(j)).Value? ::
      Bare(fields, valid, Child(v, Index(j)).value, depth)
  }

  lemma ChildPath(fields: seq<Bytes>, valid: Validator, v: Json, place: Place, child: Json, depth: nat, path: Path)
    requires Child(v, place) == Value(child)
    ensures At(v, [place] + path) == At(child, path)
    ensures Carries(fields, valid, v, depth, [place] + path) <==> Carries(fields, valid, child, depth + 1, path)
  {
    assert ([place] + path)[1..] == path;
  }

  /** A carrier is the value itself or a carrier in a child. */
  lemma CarrierHead(fields: seq<Bytes>, valid: Validator, v: Json, depth: nat, path: Path) returns (child: Json)
    requires Carries(fields, valid, v, depth, path) && path != []
    ensures Child(v, path[0]) == Value(child)
    ensures Carries(fields, valid, child, depth + 1, path[1..])
  {
    child := Child(v, path[0]).value;
    assert path == [path[0]] + path[1..];
    ChildPath(fields, valid, v, path[0], child, depth, path[1..]);
  }

  lemma BareChild(fields: seq<Bytes>, valid: Validator, v: Json, place: Place, child: Json, depth: nat)
    requires Child(v, place) == Value(child) && Bare(fields, valid, v, depth)
    ensures Bare(fields, valid, child, depth + 1)
  {
    var deeper := depth + 1;
    forall path ensures !Carries(fields, valid, child, deeper, path) {
      ChildPath(fields, valid, v, place, child, depth, path);
    }
  }

  /** "" is an outcome if and only if no object in reach carries a valid id. */
  lemma {:induction false} NothingExactly(fields: seq<Bytes>, valid: Validator, v: Json, depth: nat)
    ensures Outcome(fields, valid, v, depth, []) <==> Bare(fields, valid, v, depth)
    decreases v
  {
    if path :| Carries(fields, valid, v, depth, path) {
      if path != [] {
        var child := CarrierHead(fields, valid, v, depth, path);
        NothingExactly(fields, valid, child, depth + 1);
        NothingInChild(fields, valid, v, depth, path[0]);
      }
    } else {
      assert !Carries(fields, valid, v, depth, []);
      forall place | Child(v, place).Value? && depth < MAX_DEPTH
        ensures Outcome(fields, valid, Child(v, place).value, depth + 1, [])
      {
        BareChild(fields, valid, v, place, Child(v, place).value, depth);
        NothingExactly(fields, valid, Child(v, place).value, depth + 1);
      }
      NothingFromChildren(fields, valid, v, depth);
    }
  }

  lemma NothingInChild(fields: seq<Bytes>, valid: Validator, v: Json, depth: nat, place: Place)
    requires depth < MAX_DEPTH && Child(v, place).Value?
    requires !Outcome(fields, valid, Child(v, place).value, depth + 1, [])
    ensures !Outcome(fields, valid, v, depth, [])
  {
  }

  lemma NothingFromChildren(fields: seq<Bytes>, valid: Validator, v: Json, depth: nat)
    requires !Carries(fields, valid, v, depth, [])
    requires forall place | Child(v, place).Value? && depth < MAX_DEPTH ::
               Outcome(fields, valid, Child(v, place).value, depth + 1, [])
    ensures Outcome(fields, valid, v, depth, [])
  {
  }

  /** The first carriers of a value without an id of its own are those of its children, after bare items only. */
  lemma FirstInChild(fields: seq<Bytes>, valid: Validator, v: Json, place: Place, child: Json, depth: nat, path: Path)
    requires Child(v, place) == Value(child) && !Carries(fields, valid, v, depth, [])
    ensures FirstCarrier(fields, valid, v, depth, [place] + path)
       <==> FirstCarrier(fields, valid, child, depth + 1, path) && BareBefore(fields, valid, v, place, depth + 1)
  {
    var deeper := depth + 1;
    ChildPath(fields, valid, v, place, child, depth, path);
    assert ([place] + path)[1..] == path;
    if FirstCarrier(fields, valid, v, depth, [place] + path) {
      forall other | Carries(fields, valid, child, deeper, other) ensures !Before(other, path) {
        ChildPath(fields, valid, v, place, child, depth, other);
        assert ([place] + other)[1..] == other;
      }
      forall j: nat, p | place.Index? && j < place.index && Child(v, Index(j)).Value?
        ensures !Carries(fields, valid, Child(v, Index(j)).value, deeper, p)
      {
        ChildPath(fields, valid, v, Index(j), Child(v, Index(j)).value, depth, p);
        assert Before([Index(j)] + p, [place] + path);
      }
    } else if FirstCarrier(fields, valid, child, deeper, path) {
      var other :| Carries(fields, valid, v, depth, other) && Before(other, [place] + path);
      var sibling := CarrierHead(fields, valid, v, depth, other);
      assert other[0] != place;
    }
  }

  /**
   * An id is an outcome if and only if some first carrier has it: an object at depth 12 at most, with
   * no carrier above it and none in an earlier item of an array.
   */
  lemma {:induction false} FoundExactly(fields: seq<Bytes>, valid: Validator, v: Json, depth: nat, id: Bytes)
    requires id != []
    ensures Outcome(fields, valid, v, depth, id) <==>
      exists path :: FirstCarrier(fields, valid, v, depth, path) && id == IDAt(fields, valid, v, path)
    decreases v
  {
    if Outcome(fields, valid, v, depth, id) {
      var path := OutcomeIsFirst(fields, valid, v, depth, id);
    }
    if path :| FirstCarrier(fields, valid, v, depth, path) && id == IDAt(fields, valid, v, path) {
      FirstIsOutcome(fields, valid, v, depth, id, path);
    }
  }

  lemma {:induction false} OutcomeIsFirst(fields: seq<Bytes>, valid: Validator, v: Json, depth: nat, id: Bytes)
    returns (path: Path)
    requires id != [] && Outcome(fields, valid, v, depth, id)
    ensures FirstCarrier(fields, valid, v, depth, path) && id == IDAt(fields, valid, v, path)
    decreases v
  {
    if Carries(fields, valid, v, depth, []) {
      path := [];
    } else {
      var place, child := OutcomeHead(fields, valid, v, depth, id);
      path := OutcomeIsFirst(fields, valid, child, depth + 1, id);
      FirstInChild(fields, valid, v, place, child, depth, path);
      ChildPath(fields, valid, v, place, child, depth, path);
      path := [place] + path;
    }
  }

  /** An id that a value does not carry itself is an outcome for a child, after bare items only. */
  lemma OutcomeHead(fields: seq<Bytes>, valid: Validator, v: Json, depth: nat, id: Bytes)
    returns (place: Place, child: Json)
    requires id != [] && Outcome(fields, valid, v, depth, id) && !Carries(fields, valid, v, depth, [])
    ensures Child(v, place) == Value(child) && Outcome(fields, valid, child, depth + 1, id)
    ensures BareBefore(fields, valid, v, place, depth + 1)
  {
    place :| && Child(v, place).Value? && Outcome(fields, valid, Child(v, place).value, depth + 1, id)
             && OutcomesBefore(fields, valid, v, place, depth + 1);
    child := Child(v, place).value;
    ItemsBefore(fields, valid, v, place, depth + 1);
  }

  lemma ItemsBefore(fields: seq<Bytes>, valid: Validator, v: Json, place: Place, depth: nat)
    ensures BareBefore(fields, valid, v, place, depth) <==> OutcomesBefore(fields, valid, v, place, depth)
  {
    forall j: nat | place.Index? && j < place.index && Child(v, Index(j)).Value?
      ensures Outcome(fields, valid, Child(v, Index(j)).value, depth, [])
         <==> Bare(fields, valid, Child(v, Index(j)).value, depth)
    {
      NothingExactly(fields, valid, Child(v, Index(j)).value, depth);
    }
  }

  lemma {:induction false} FirstIsOutcome(fields: seq<Bytes>, valid: Validator, v: Json, depth: nat, id: Bytes,
    path: Path)
    requires id != [] && FirstCarrier(fields, valid, v, depth, path) && id == IDAt(fields, valid, v, path)
    ensures Outcome(fields, valid, v, depth, id)
    decreases v
  {
    if path != [] {
      assert Before([], path);
      var place, rest := path[0], path[1..];
      var child := CarrierHead(fields, valid, v, depth, path);
      WithFirst(path);
      FirstInChild(fields, valid, v, place, child, depth, rest);
      ChildPath(fields, valid, v, place, child, depth, rest);
      FirstIsOutcome(fields, valid, child, depth + 1, id, rest);
      OutcomeFromChild(fields, valid, v, depth, id, place);
    }
  }

  lemma OutcomeFromChild(fields: seq<Bytes>, valid: Validator, v: Json, depth: nat, id: Bytes, place: Place)
    requires id != [] && depth <= MAX_DEPTH && IDOf(fields, valid, v) == [] && Child(v, place).Value?
    requires Outcome(fields, valid, Child(v, place).value, depth + 1, id)
    requires BareBefore(fields, valid, v, place, depth + 1)
    ensures Outcome(fields, valid, v, depth, id)
  {
    ItemsBefore(fields, valid, v, place, depth + 1);
  }

  // ---------- what a found id is ----------

  /** The value at path is an object whose string under f passes the validator as id. */
  ghost predicate ValidUnder(valid: Validator, v: Json, path: Path, f: Bytes, id: Bytes) {
    && id != [] && At(v, path).Value? && At(v, path).value.Obj?
    && var members := At(v, path).value.members;
       f in members && members[f].Str? && valid(members[f].text) == id
  }

  /** id is what the validator makes of some listed field of the object at path, and nothing of any earlier one. */
  ghost predicate IsIDAt(fields: seq<Bytes>, valid: Validator, v: Json, path: Path, id: Bytes) {
    exists i | 0 <= i < |fields| ::
      && ValidUnder(valid, v, path, fields[i], id)
      && forall j, other | 0 <= j < i :: !ValidUnder(valid, v, path, fields[j], other)
  }

  /** The validator accepts no listed field of the object at path, if there is one. */
  ghost predicate NoValidAt(fields: seq<Bytes>, valid: Validator, v: Json, path: Path) {
    forall f, id | f in fields :: !ValidUnder(valid, v, path, f, id)
  }

  /** The id that an object carries, in terms of the validator alone. */
  lemma IDAtMeans(fields: seq<Bytes>, valid: Validator, v: Json, path: Path)
    ensures var id := IDAt(fields, valid, v, path);
            && (id == [] <==> NoValidAt(fields, valid, v, path))
            && (id != [] ==> IsIDAt(fields, valid, v, path, id))
  {
    if At(v, path).Value? && At(v, path).value.Obj? {
      var members := At(v, path).value.members;
      OwnIDIsFirst(fields, valid, members);
      forall f, id | f in fields
        ensures ValidUnder(valid, v, path, f, id) <==> id != [] && Candidate(valid, members, f) == id
      {
      }
      var own := OwnID(fields, valid, members);
      if own != [] {
        var i :| 0 <= i < |fields| && own == Candidate(valid, members, fields[i])
          && forall j | 0 <= j < i :: Candidate(valid, members, fields[j]) == [];
        assert fields[i] in fields && ValidUnder(valid, v, path, fields[i], own);
      }
    }
  }

  /**
   * A result passes the validator: it is that of a listed field of an object at depth 12 at most. The
   * empty result means that the validator accepts no listed string of any object in reach.
   */
  lemma FoundIsValid(fields: seq<Bytes>, valid: Validator, v: Json, id: Bytes)
    requires Outcome(fields, valid, v, 0, id)
    ensures id != [] ==> exists path :: |path| <= 12 && IsIDAt(fields, valid, v, path, id)
    ensures id == [] ==> forall path | |path| <= 12 :: NoValidAt(fields, valid, v, path)
  {
    if id != [] {
      FoundExactly(fields, valid, v, 0, id);
      var path :| FirstCarrier(fields, valid, v, 0, path) && id == IDAt(fields, valid, v, path);
      IDAtMeans(fields, valid, v, path);
    } else {
      NothingExactly(fields, valid, v, 0);
      forall path | |path| <= 12 ensures NoValidAt(fields, valid, v, path) {
        assert !Carries(fields, valid, v, 0, path);
        IDAtMeans(fields, valid, v, path);
      }
    }
  }
}
