/** The data path of `logPromptStruct`: the settings decide whether anything
    is logged and whether the deep copy is pruned first. The deep copy itself
    and the console output are outside this model. */
module PromptLog {

  import opened Optional
  import opened JsonValue
  import opened Prune
  import opened PruneProperties
  import opened Settings

  /** The structure handed to the console, or `None` when logging is off. */
  function LoggedStructure(rec: Record, copy: Json): (r: Option<Json>)
    ensures r.Some? <==> View(rec).enabled
    ensures r.Some? && !View(rec).filterOutEmptyFields ==> r.value == copy
    ensures r.Some? && View(rec).filterOutEmptyFields ==> Pruned(r.value)
    ensures r.Some? ==> (r.value.JArr? <==> copy.JArr?) && (r.value.JObj? <==> copy.JObj?)
  {
    if !Flag(rec, "enabled") then None
    else
      CleanValuePruned(copy);
      Some(Clean(Flag(rec, "filterOutEmptyFields"), copy))
  }

  /** Whenever logging and filtering are both on, what is logged is exactly
      the pruned copy: primitives as they are, containers cleaned. */
  lemma LoggedIsCleanedCopy(rec: Record, copy: Json)
    ensures View(rec).enabled && View(rec).filterOutEmptyFields ==>
      LoggedStructure(rec, copy) == Some(CleanValue(copy))
  {
  }

  /** With freshly installed defaults every structure is logged, pruned. */
  lemma DefaultsLogPruned(copy: Json)
    ensures LoggedStructure(LoadSettings(None), copy) == Some(CleanValue(copy))
  {
  }
}
