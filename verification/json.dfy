/** JSON values as the pruner sees them: the result of a JSON deep copy, so
    finite, acyclic, and free of `undefined`. An object is an ordered
    association list in `for...in` order. */
module JsonValue {

  import opened Optional

  datatype Json =
    | JNull
    | JBool(b: bool)
    | JNum(n: int)
    | JStr(s: string)
    | JArr(items: seq<Json>)
    | JObj(members: seq<(string, Json)>)

  /** `typeof v === 'object'` for a value that is not null. */
  predicate IsContainer(v: Json) {
    v.JArr? || v.JObj?
  }

  /** A container on which `Object.keys(v).length === 0` holds. */
  predicate IsEmptyContainer(v: Json) {
    v == JArr([]) || v == JObj([])
  }

  /** The keys of an object, in insertion order. */
  function KeysOf(ms: seq<(string, Json)>): (ks: seq<string>)
    ensures |ks| == |ms|
    ensures forall i :: 0 <= i < |ms| ==> ks[i] == ms[i].0
  {
    if ms == [] then [] else [ms[0].0] + KeysOf(ms[1..])
  }

  predicate Distinct<T(==)>(s: seq<T>) {
    forall i, j :: 0 <= i < j < |s| ==> s[i] != s[j]
  }

  /** Property access `obj[k]` on an object; `None` stands for a missing key. */
  function Lookup(ms: seq<(string, Json)>, k: string): (r: Option<Json>)
    ensures r.Some? <==> k in KeysOf(ms)
    ensures r.Some? ==> (k, r.value) in ms
  {
    if ms == [] then None
    else if ms[0].0 == k then Some(ms[0].1)
    else Lookup(ms[1..], k)
  }

  /** Every object, at every depth, has pairwise distinct keys: what any
      value produced by `JSON.parse` satisfies. */
  predicate WellFormed(v: Json)
    decreases v
  {
    match v
    case JArr(items) => forall i :: 0 <= i < |items| ==> WellFormed(items[i])
    case JObj(ms) =>
      && Distinct(KeysOf(ms))
      && forall i :: 0 <= i < |ms| ==> (assert ms[i] decreases to ms[i].1; WellFormed(ms[i].1))
    case _ => true
  }

  /** Number of nodes in a value: one for the value itself plus its children. */
  function Size(v: Json): nat
    decreases v, 1
  {
    match v
    case JArr(items) => 1 + SizeItems(items)
    case JObj(ms) => 1 + SizeMembers(ms)
    case _ => 1
  }

  function SizeItems(items: seq<Json>): nat
    decreases items, 0
  {
    if items == [] then 0 else Size(items[0]) + SizeItems(items[1..])
  }

  function SizeMembers(ms: seq<(string, Json)>): nat
    decreases ms, 0
  {
    if ms == [] then 0
    else
      assert ms[0] decreases to ms[0].1;
      Size(ms[0].1) + SizeMembers(ms[1..])
  }
}
