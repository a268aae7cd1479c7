/** What the pruner promises. The reference definitions below (`Pruned`,
    `SurvivesAsItem`, `SurvivesAsMember`, `Primitives`, `IsSubsequence`) do
    not mention how the pruner computes; the pruner's own keep tests
    `KeepItem` and `KeepMember` are tied to them by `KeepItemIffSurvives` and
    `KeepMemberIffSurvives`. */
module PruneProperties {

  import opened Optional
  import opened JsonValue
  import opened Prune

  /** An array element that a pruned parent may hold. */
  predicate SurvivesAsItem(x: Json) {
    x != JNull && !IsEmptyContainer(x)
  }

  /** An object member value that a pruned parent may hold. */
  predicate SurvivesAsMember(x: Json) {
    SurvivesAsItem(x) && x != JStr("")
  }

  /** Fully pruned below the top: no null, no empty array and no empty object
      anywhere inside, and no object member equal to the empty string. The
      value itself may be an empty container. */
  predicate Pruned(v: Json)
    decreases v
  {
    match v
    case JArr(items) =>
      forall i :: 0 <= i < |items| ==> SurvivesAsItem(items[i]) && Pruned(items[i])
    case JObj(ms) =>
      forall i :: 0 <= i < |ms| ==>
        (assert ms[i] decreases to ms[i].1; SurvivesAsMember(ms[i].1) && Pruned(ms[i].1))
    case _ => true
  }

  /** The primitive (non-null, non-container) elements of an array, in order. */
  function Primitives(items: seq<Json>): seq<Json> {
    if items == [] then []
    else if items[0] != JNull && !IsContainer(items[0]) then [items[0]] + Primitives(items[1..])
    else Primitives(items[1..])
  }

  /** `a` is obtained from `b` by deleting elements. */
  predicate IsSubsequence<T(==)>(a: seq<T>, b: seq<T>) {
    if a == [] then true
    else if b == [] then false
    else if a[0] == b[0] then IsSubsequence(a[1..], b[1..])
    else IsSubsequence(a, b[1..])
  }

  // ---------------------------------------------------------------------
  // The keep/drop rules in the terms a caller thinks in
  // ---------------------------------------------------------------------

  /** An array element survives exactly when it is not null and is not a
      container that cleans down to nothing. */
  lemma KeepItemIff(x: Json)
    ensures KeepItem(x) <==> x != JNull && !(IsContainer(x) && IsEmptyContainer(CleanValue(x)))
  {
  }

  /** The array filter keeps an element exactly when its cleaned form is a
      value a pruned array may hold. */
  lemma KeepItemIffSurvives(x: Json)
    ensures KeepItem(x) <==> SurvivesAsItem(CleanValue(x))
  {
  }

  /** The member test keeps a key exactly when the cleaned form of its value
      is a value a pruned object may hold: not null, not an empty container,
      not the empty string. */
  lemma KeepMemberIffSurvives(x: Json)
    ensures KeepMember(x) <==> SurvivesAsMember(CleanValue(x))
  {
  }

  // ---------------------------------------------------------------------
  // Array branch: element-wise, in order
  // ---------------------------------------------------------------------

  /** The array branch decides each element on its own and keeps the
      survivors in their original order: cleaning a concatenation is the
      concatenation of the cleaned parts. */
  lemma {:induction false} CleanItemsAppend(a: seq<Json>, b: seq<Json>)
    ensures CleanItems(a + b) == CleanItems(a) + CleanItems(b)
    decreases |a|
  {
    if a == [] {
      assert a + b == b;
    } else {
      assert (a + b)[0] == a[0];
      assert (a + b)[1..] == a[1..] + b;
      CleanItemsAppend(a[1..], b);
    }
  }

  /** A one-element array keeps its element, cleaned, exactly when the
      cleaned form is neither null nor an empty container. With
      `CleanItemsAppend` this determines the result. */
  lemma CleanItemsSingleton(x: Json)
    ensures CleanItems([x]) == (if SurvivesAsItem(CleanValue(x)) then [CleanValue(x)] else [])
  {
    KeepItemIffSurvives(x);
  }

  /** The result holds exactly the cleaned forms of the input elements that
      are neither null nor empty containers. */
  lemma {:induction false} CleanItemsContents(items: seq<Json>, y: Json)
    ensures y in CleanItems(items) <==>
      SurvivesAsItem(y) && exists i :: 0 <= i < |items| && y == CleanValue(items[i])
    decreases |items|
  {
    if items != [] {
      var tail := items[1..];
      CleanItemsContents(tail, y);
      KeepItemIffSurvives(items[0]);
      if exists i :: 0 <= i < |tail| && y == CleanValue(tail[i]) {
        var i :| 0 <= i < |tail| && y == CleanValue(tail[i]);
        assert items[i + 1] == tail[i];
      }
      if exists i :: 0 <= i < |items| && y == CleanValue(items[i]) {
        var i :| 0 <= i < |items| && y == CleanValue(items[i]);
        if i > 0 {
          assert tail[i - 1] == items[i];
        }
      }
    }
  }

  /** Primitive elements, including `0`, `false` and `""`, are never dropped
      from an array and never changed: the primitives of the result are the
      primitives of the input, in the same order. */
  lemma {:induction false} CleanItemsKeepsPrimitives(items: seq<Json>)
    ensures Primitives(CleanItems(items)) == Primitives(items)
    decreases |items|
  {
    if items != [] {
      var x := items[0];
      var rest := CleanItems(items[1..]);
      CleanItemsKeepsPrimitives(items[1..]);
      if KeepItem(x) {
        assert ([CleanValue(x)] + rest)[0] == CleanValue(x);
        assert ([CleanValue(x)] + rest)[1..] == rest;
      }
    }
  }

  // ---------------------------------------------------------------------
  // Object branch: keys kept in order, each looked up value cleaned
  // ---------------------------------------------------------------------

  lemma {:induction false} CleanMembersAppend(a: seq<(string, Json)>, b: seq<(string, Json)>)
    ensures CleanMembers(a + b) == CleanMembers(a) + CleanMembers(b)
    decreases |a|
  {
    if a == [] {
      assert a + b == b;
    } else {
      assert (a + b)[0] == a[0];
      assert (a + b)[1..] == a[1..] + b;
      CleanMembersAppend(a[1..], b);
    }
  }

  /** The keys of the result are some of the input's keys, in the input's
      relative order. */
  lemma {:induction false} CleanMembersKeysSubsequence(ms: seq<(string, Json)>)
    ensures IsSubsequence(KeysOf(CleanMembers(ms)), KeysOf(ms))
    decreases |ms|
  {
    if ms != [] {
      var rest := CleanMembers(ms[1..]);
      CleanMembersKeysSubsequence(ms[1..]);
      if KeepMember(ms[0].1) {
        var kept := [(ms[0].0, CleanValue(ms[0].1))] + rest;
        assert kept[1..] == rest;
        assert KeysOf(kept)[0] == KeysOf(ms)[0];
      } else {
        SubsequenceOfTail(KeysOf(rest), KeysOf(ms));
      }
    }
  }

  lemma {:induction false} SubsequenceOfTail<T>(a: seq<T>, b: seq<T>)
    requires b != []
    requires IsSubsequence(a, b[1..])
    ensures IsSubsequence(a, b)
    decreases |b|, 0
  {
    if a != [] && a[0] == b[0] {
      SubsequenceDropHead(a, b[1..]);
    }
  }

  lemma {:induction false} SubsequenceDropHead<T>(a: seq<T>, b: seq<T>)
    requires a != []
    requires IsSubsequence(a, b)
    ensures IsSubsequence(a[1..], b)
    decreases |b|, 1
  {
    if b != [] && a[0] != b[0] {
      SubsequenceDropHead(a, b[1..]);
      SubsequenceOfTail(a[1..], b);
    } else if b != [] {
      SubsequenceOfTail(a[1..], b);
    }
  }

  /** Every element of a subsequence is an element of the whole. */
  lemma {:induction false} SubsequenceMembers<T>(a: seq<T>, b: seq<T>, x: T)
    requires IsSubsequence(a, b)
    requires x in a
    ensures x in b
    decreases |b|
  {
    if a[0] == b[0] {
      if x != a[0] {
        SubsequenceMembers(a[1..], b[1..], x);
      }
    } else {
      SubsequenceMembers(a, b[1..], x);
    }
  }

  /** Deleting elements from a duplicate-free sequence keeps it duplicate-free. */
  lemma {:induction false} SubsequenceDistinct<T>(a: seq<T>, b: seq<T>)
    requires IsSubsequence(a, b)
    requires Distinct(b)
    ensures Distinct(a)
    decreases |b|
  {
    if a != [] {
      if a[0] == b[0] {
        SubsequenceDistinct(a[1..], b[1..]);
        forall j | 0 < j < |a|
          ensures a[0] != a[j]
        {
          SubsequenceMembers(a[1..], b[1..], a[j]);
        }
      } else {
        SubsequenceDistinct(a, b[1..]);
      }
    }
  }

  /** Cleaning an object whose keys are distinct yields distinct keys. */
  lemma CleanMembersDistinct(ms: seq<(string, Json)>)
    requires Distinct(KeysOf(ms))
    ensures Distinct(KeysOf(CleanMembers(ms)))
  {
    CleanMembersKeysSubsequence(ms);
    SubsequenceDistinct(KeysOf(CleanMembers(ms)), KeysOf(ms));
  }

  /** The object branch, key by key: a key is present in the result exactly
      when it is present in the input and the cleaned form of its value is
      not null, not an empty container and not the empty string; it then
      holds that cleaned form. */
  lemma {:induction false} CleanMembersLookup(ms: seq<(string, Json)>, k: string)
    requires Distinct(KeysOf(ms))
    ensures Lookup(CleanMembers(ms), k).Some? <==>
      Lookup(ms, k).Some? && SurvivesAsMember(CleanValue(Lookup(ms, k).value))
    ensures Lookup(CleanMembers(ms), k).Some? ==>
      Lookup(CleanMembers(ms), k).value == CleanValue(Lookup(ms, k).value)
    decreases |ms|
  {
    if ms != [] {
      var tail := ms[1..];
      var rest := CleanMembers(tail);
      assert Distinct(KeysOf(tail)) by {
        forall i, j | 0 <= i < j < |tail|
          ensures KeysOf(tail)[i] != KeysOf(tail)[j]
        {
          assert KeysOf(ms)[i + 1] == KeysOf(tail)[i];
          assert KeysOf(ms)[j + 1] == KeysOf(tail)[j];
        }
      }
      CleanMembersLookup(tail, k);
      KeepMemberIffSurvives(ms[0].1);
      if ms[0].0 == k && !KeepMember(ms[0].1) {
        assert k !in KeysOf(tail);
      }
      if KeepMember(ms[0].1) {
        assert ([(ms[0].0, CleanValue(ms[0].1))] + rest)[1..] == rest;
      }
    }
  }

  /** `0`, `false`, any number, any boolean and any non-empty string stored
      under a key survive unchanged; an empty string under a key is dropped. */
  lemma PrimitiveMembers(ms: seq<(string, Json)>, k: string)
    requires Distinct(KeysOf(ms))
    ensures (Lookup(ms, k).Some? && !IsContainer(Lookup(ms, k).value)
             && Lookup(ms, k).value != JNull && Lookup(ms, k).value != JStr("")) ==>
      Lookup(CleanMembers(ms), k) == Lookup(ms, k)
    ensures Lookup(ms, k) == Some(JNull) || Lookup(ms, k) == Some(JStr("")) ==>
      Lookup(CleanMembers(ms), k).None?
  {
    CleanMembersLookup(ms, k);
  }

  // ---------------------------------------------------------------------
  // Whole-value properties
  // ---------------------------------------------------------------------

  /** The pruner's output is pruned below the top. */
  lemma {:induction false} CleanValuePruned(v: Json)
    ensures Pruned(CleanValue(v))
    decreases v, 1
  {
    match v
    case JArr(items) => CleanItemsPruned(items);
    case JObj(ms) => CleanMembersPruned(ms);
    case _ =>
  }

  lemma {:induction false} CleanItemsPruned(items: seq<Json>)
    ensures forall i :: 0 <= i < |CleanItems(items)| ==>
      SurvivesAsItem(CleanItems(items)[i]) && Pruned(CleanItems(items)[i])
    decreases items, 0
  {
    if items != [] {
      CleanItemsPruned(items[1..]);
      if KeepItem(items[0]) {
        KeepItemIffSurvives(items[0]);
        CleanValuePruned(items[0]);
      }
    }
  }

  lemma {:induction false} CleanMembersPruned(ms: seq<(string, Json)>)
    ensures forall i :: 0 <= i < |CleanMembers(ms)| ==>
      SurvivesAsMember(CleanMembers(ms)[i].1) && Pruned(CleanMembers(ms)[i].1)
    decreases ms, 0
  {
    if ms != [] {
      assert ms[0] decreases to ms[0].1;
      CleanMembersPruned(ms[1..]);
      if KeepMember(ms[0].1) {
        KeepMemberIffSurvives(ms[0].1);
        CleanValuePruned(ms[0].1);
      }
    }
  }

  /** A pruned value is a fixpoint of the pruner. */
  lemma {:induction false} PrunedIsFixpoint(v: Json)
    requires Pruned(v)
    ensures CleanValue(v) == v
    decreases v, 1
  {
    match v
    case JArr(items) => PrunedItemsFixpoint(items);
    case JObj(ms) => PrunedMembersFixpoint(ms);
    case _ =>
  }

  lemma {:induction false} PrunedItemsFixpoint(items: seq<Json>)
    requires forall i :: 0 <= i < |items| ==> SurvivesAsItem(items[i]) && Pruned(items[i])
    ensures CleanItems(items) == items
    decreases items, 0
  {
    if items != [] {
      PrunedItemsFixpoint(items[1..]);
      PrunedIsFixpoint(items[0]);
      assert [items[0]] + items[1..] == items;
    }
  }

  lemma {:induction false} PrunedMembersFixpoint(ms: seq<(string, Json)>)
    requires forall i :: 0 <= i < |ms| ==> SurvivesAsMember(ms[i].1) && Pruned(ms[i].1)
    ensures CleanMembers(ms) == ms
    decreases ms, 0
  {
    if ms != [] {
      assert ms[0] decreases to ms[0].1;
      PrunedMembersFixpoint(ms[1..]);
      PrunedIsFixpoint(ms[0].1);
      assert [(ms[0].0, ms[0].1)] + ms[1..] == ms;
    }
  }

  /** The values the pruner leaves alone are exactly the pruned ones. */
  lemma CleanFixpointIff(v: Json)
    ensures CleanValue(v) == v <==> Pruned(v)
  {
    CleanValuePruned(v);
    if Pruned(v) {
      PrunedIsFixpoint(v);
    }
  }

  /** Pruning twice is pruning once, with the filter on or off. */
  lemma Idempotent(filterOutEmptyFields: bool, v: Json)
    ensures Clean(filterOutEmptyFields, Clean(filterOutEmptyFields, v)) == Clean(filterOutEmptyFields, v)
  {
    if filterOutEmptyFields {
      CleanValuePruned(v);
      PrunedIsFixpoint(CleanValue(v));
    }
  }

  /** Pruning never adds nodes. */
  lemma {:induction false} CleanValueSize(v: Json)
    ensures Size(CleanValue(v)) <= Size(v)
    decreases v, 1
  {
    match v
    case JArr(items) => CleanItemsSize(items);
    case JObj(ms) => CleanMembersSize(ms);
    case _ =>
  }

  lemma {:induction false} CleanItemsSize(items: seq<Json>)
    ensures SizeItems(CleanItems(items)) <= SizeItems(items)
    decreases items, 0
  {
    if items != [] {
      var rest := CleanItems(items[1..]);
      CleanItemsSize(items[1..]);
      if KeepItem(items[0]) {
        CleanValueSize(items[0]);
        assert ([CleanValue(items[0])] + rest)[1..] == rest;
      }
    }
  }

  lemma {:induction false} CleanMembersSize(ms: seq<(string, Json)>)
    ensures SizeMembers(CleanMembers(ms)) <= SizeMembers(ms)
    decreases ms, 0
  {
    if ms != [] {
      assert ms[0] decreases to ms[0].1;
      var rest := CleanMembers(ms[1..]);
      CleanMembersSize(ms[1..]);
      if KeepMember(ms[0].1) {
        CleanValueSize(ms[0].1);
        assert ([(ms[0].0, CleanValue(ms[0].1))] + rest)[1..] == rest;
      }
    }
  }

  /** Pruning a value whose objects have distinct keys keeps them distinct. */
  lemma {:induction false} CleanValueWellFormed(v: Json)
    requires WellFormed(v)
    ensures WellFormed(CleanValue(v))
    decreases v, 1
  {
    match v
    case JArr(items) => CleanItemsWellFormed(items);
    case JObj(ms) =>
      CleanMembersDistinct(ms);
      CleanMembersWellFormed(ms);
    case _ =>
  }

  lemma {:induction false} CleanItemsWellFormed(items: seq<Json>)
    requires forall i :: 0 <= i < |items| ==> WellFormed(items[i])
    ensures forall i :: 0 <= i < |CleanItems(items)| ==> WellFormed(CleanItems(items)[i])
    decreases items, 0
  {
    if items != [] {
      CleanItemsWellFormed(items[1..]);
      if KeepItem(items[0]) {
        CleanValueWellFormed(items[0]);
      }
    }
  }

  lemma {:induction false} CleanMembersWellFormed(ms: seq<(string, Json)>)
    requires forall i :: 0 <= i < |ms| ==> WellFormed(ms[i].1)
    ensures forall i :: 0 <= i < |CleanMembers(ms)| ==> WellFormed(CleanMembers(ms)[i].1)
    decreases ms, 0
  {
    if ms != [] {
      assert ms[0] decreases to ms[0].1;
      CleanMembersWellFormed(ms[1..]);
      if KeepMember(ms[0].1) {
        CleanValueWellFormed(ms[0].1);
      }
    }
  }
}
