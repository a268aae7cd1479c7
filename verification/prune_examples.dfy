/** Worked instances of the pruner with the filter on. */
module PruneExamples {

  import opened JsonValue
  import opened Prune

  /** `{a: 1, b: [], c: {d: null}, e: ""}` becomes `{a: 1}`. */
  lemma MixedObject()
    ensures Clean(true, JObj([("a", JNum(1)), ("b", JArr([])), ("c", JObj([("d", JNull)])), ("e", JStr(""))]))
         == JObj([("a", JNum(1))])
  {
  }

  /** `[1, null, [], {}, 2]` becomes `[1, 2]`. */
  lemma MixedArray()
    ensures Clean(true, JArr([JNum(1), JNull, JArr([]), JObj([]), JNum(2)])) == JArr([JNum(1), JNum(2)])
  {
  }

  /** `{a: 0, b: false}` is left as it is: falsy values are not empty. */
  lemma FalsyMembersKept()
    ensures Clean(true, JObj([("a", JNum(0)), ("b", JBool(false))])) == JObj([("a", JNum(0)), ("b", JBool(false))])
  {
  }

  /** `["", 0]` is left as it is: the empty string is only dropped from objects. */
  lemma EmptyStringItemKept()
    ensures Clean(true, JArr([JStr(""), JNum(0)])) == JArr([JStr(""), JNum(0)])
  {
  }

  /** A top-level container that empties is returned empty, not removed. */
  lemma TopLevelEmptied()
    ensures Clean(true, JObj([("a", JNull), ("b", JObj([("c", JArr([JNull]))]))])) == JObj([])
    ensures Clean(true, JArr([JNull, JArr([JObj([])])])) == JArr([])
  {
  }
}
