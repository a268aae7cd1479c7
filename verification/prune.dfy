/** The empty-field pruner `cleanObject`. The global setting it reads,
    `filterOutEmptyFields`, is an explicit parameter here. */
module Prune {

  import opened JsonValue

  /** `cleanObject(obj)`: with the filter off the value comes back as it is;
      with it on, null and primitives come back as they are and containers are
      rebuilt by `CleanValue`. A top-level container is never removed, only
      emptied. */
  function Clean(filterOutEmptyFields: bool, v: Json): (r: Json)
    ensures !filterOutEmptyFields ==> r == v
    ensures !IsContainer(v) ==> r == v
    ensures r.JArr? <==> v.JArr?
    ensures r.JObj? <==> v.JObj?
  {
    if !filterOutEmptyFields then v else CleanValue(v)
  }

  /** The pruner with the filter switched on. */
  function CleanValue(v: Json): (r: Json)
    ensures !IsContainer(v) ==> r == v
    ensures r.JArr? <==> v.JArr?
    ensures r.JObj? <==> v.JObj?
    decreases v, 2
  {
    match v
    case JArr(items) => JArr(CleanItems(items))
    case JObj(ms) => JObj(CleanMembers(ms))
    case _ => v
  }

  /** The `filter` test applied to an array element: null is dropped, and so
      is a container whose cleaned form has no keys; the extra test for an
      empty array is kept as written although the previous one covers it. */
  predicate KeepItem(item: Json)
    decreases item, 3
  {
    && item != JNull
    && !(IsContainer(item) && IsEmptyContainer(CleanValue(item)))
    && item != JArr([])
  }

  /** The `for...in` test applied to an object member's value: null is
      skipped; a container is kept when its cleaned form is non-empty; any
      other value is kept unless it is the empty string. */
  predicate KeepMember(value: Json)
    decreases value, 3
  {
    if value == JNull then false
    else if IsContainer(value) then !IsEmptyContainer(CleanValue(value))
    else value != JStr("")
  }

  /** The array branch: filter the elements, then clean each survivor. The
      `map` step leaves primitives alone, which `CleanValue` also does. */
  function CleanItems(items: seq<Json>): (r: seq<Json>)
    ensures |r| <= |items|
    decreases items, 1
  {
    if items == [] then []
    else
      var rest := CleanItems(items[1..]);
      if KeepItem(items[0]) then [CleanValue(items[0])] + rest else rest
  }

  /** The object branch: walk the members in order and copy each kept key
      with its cleaned value into a fresh object. */
  function CleanMembers(ms: seq<(string, Json)>): (r: seq<(string, Json)>)
    ensures |r| <= |ms|
    decreases ms, 1
  {
    if ms == [] then []
    else
      var (key, value) := ms[0];
      assert ms[0] decreases to value;
      var rest := CleanMembers(ms[1..]);
      if KeepMember(value) then [(key, CleanValue(value))] + rest else rest
  }
}
