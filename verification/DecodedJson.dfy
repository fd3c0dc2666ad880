/** Decoded JSON: what encoding/json hands to the program. */
module DecodedJson {
  import opened ByteText

  /** Unsupported stands for every Go value that decoding never produces. */
  datatype Json =
    | Null
    | Bool(on: bool)
    | Number(spelling: Bytes)
    | Str(text: Bytes)
    | Arr(items: seq<Json>)
    | Obj(members: map<Bytes, Json>)
    | Unsupported

  datatype Place = Key(key: Bytes) | Index(index: nat)
  type Path = seq<Place>

  datatype Found = Nothing | Value(value: Json)

  function Child(v: Json, place: Place): (child: Found)
    ensures child.Value? ==> child.value < v
  {
    if v.Obj? && place.Key? && place.key in v.members then Value(v.members[place.key])
    else if v.Arr? && place.Index? && place.index < |v.items| then Value(v.items[place.index])
    else Nothing
  }

  /** The value at a path. */
  function At(v: Json, path: Path): Found
    decreases |path|
  {
    if path == [] then Value(v)
    else
      match Child(v, path[0])
      case Nothing => Nothing
      case Value(child) => At(child, path[1..])
  }

  /** a comes before b: it lies above it, or in an earlier item of the same array. Objects have no order. */
  predicate Before(a: Path, b: Path) {
    if a == [] || b == [] then a == [] && b != []
    else if a[0] == b[0] then Before(a[1..], b[1..])
    else a[0].Index? && b[0].Index? && a[0].index < b[0].index
  }
}
