# Prompt debugger: empty-field pruner and settings, in Dafny

This project models the logic of the `prompt-debugger` chat-host extension
(`index.js`). It covers two pieces:

- the recursive empty-field pruner `cleanObject`, which is applied to a JSON
  deep copy of the prompt structure before it is logged;
- the settings record of four boolean flags. This covers its default
  initialisation in `loadSettings` and the `toggleEnabled` / `toggleVerbose`
  console commands.

Files:

- `json.dfy` (module `JsonValue`): the JSON value datatype, with an object as
  an ordered association list in `for...in` order. It also holds property
  lookup, well-formedness (distinct keys at every depth) and node count.
- `prune.dfy` (module `Prune`): `Clean` is `cleanObject`, with the
  `filterOutEmptyFields` global passed as a parameter. `CleanValue`,
  `CleanItems` and `CleanMembers` are its filter-on, array and object
  branches. `KeepItem` and `KeepMember` are the array `filter` test and the
  object-member test.
- `prune_properties.dfy` (module `PruneProperties`): the pruner's properties.
  Most are stated against reference definitions that are independent of its
  body:
  - `Pruned`: no null, empty container or empty-string member below the top;
  - `SurvivesAsItem` / `SurvivesAsMember`: what a pruned array element or
    object member value may be;
  - `Primitives`: the primitive elements of an array, in order;
  - `IsSubsequence`: order-preserving deletion.

  The pruner's own keep tests `KeepItem` and `KeepMember` are tied to these
  by `KeepItemIffSurvives` and `KeepMemberIffSurvives`. `KeepItemIff` still
  uses the keep test directly.
- `prune_examples.dfy` (module `PruneExamples`): worked instances.
- `settings.dfy` (module `Settings`): the stored record, `loadSettings` and
  the two toggles.
- `prompt_log.dfy` (module `PromptLog`): how `logPromptStruct` uses the
  settings to decide whether to log and whether to prune.
- `optional.dfy` (module `Optional`): the `Option` datatype.

## Model

| member | source | states |
|---|---|---|
| Prune.Clean | index.js:44-87 | With the filter off the input comes back unchanged. Null and primitives always come back unchanged. An array stays an array and an object stays an object, so a top-level container is never removed |
| Prune.CleanValue | index.js:49-86 | With the filter on, null and primitives, including `""`, are returned as they are. Only arrays and objects are rebuilt, each into the same kind of container |
| Prune.CleanItems | index.js:54-67 | The cleaned array is never longer than the input array |
| Prune.CleanMembers | index.js:69-84 | The cleaned object never has more members than the input object |
| PruneProperties.KeepItemIff | index.js:55-59 | An array element survives iff it is not null and is not a container whose cleaned form is empty. The extra empty-array test on line 58 changes nothing |
| PruneProperties.KeepItemIffSurvives | index.js:55-59 | The array filter keeps an element iff its cleaned form is neither null nor an empty container |
| PruneProperties.KeepMemberIffSurvives | index.js:73-81 | The member test keeps a key iff the cleaned form of its value is not null, not an empty container and not `""`. For a primitive this means non-null and not `""`; for a container it means the cleaned form is non-empty |
| PruneProperties.CleanItemsAppend | index.js:55-65 | Cleaning a concatenation gives the concatenation of the cleaned parts. So each element is decided on its own and the survivors keep their original order |
| PruneProperties.CleanItemsSingleton | index.js:55-65 | One element gives its cleaned form if that form is neither null nor an empty container, and nothing otherwise. Together with the append lemma this determines the array branch |
| PruneProperties.CleanItemsContents | index.js:55-65 | A value is in the cleaned array iff it is the cleaned form of some input element and is neither null nor an empty container |
| PruneProperties.CleanItemsKeepsPrimitives | index.js:55-65 | The primitive elements of the result are exactly those of the input, in the same order. So `0`, `false` and `""` are never dropped from an array |
| PruneProperties.CleanMembersAppend | index.js:72-82 | The object branch decides member by member and keeps the input order |
| PruneProperties.CleanMembersKeysSubsequence | index.js:71-83 | The output keys are a subsequence of the input keys: a subset, in the same relative order |
| PruneProperties.CleanMembersDistinct | index.js:71-83 | If the input keys are distinct, so are the output keys |
| PruneProperties.CleanMembersLookup | index.js:72-83 | For distinct keys, a key is in the result iff the input has it and the cleaned form of its value is not null, not an empty container and not `""`. A kept key maps to the cleaned form of its original value |
| PruneProperties.PrimitiveMembers | index.js:73-81 | A member holding a number (including `0`), a boolean (including `false`) or a non-empty string survives unchanged. A member holding null or `""` is dropped |
| PruneProperties.CleanValuePruned | index.js:44-87 | Nothing below the top of the result is null, an empty array or an empty object, and no object member of the result is `""` |
| PruneProperties.CleanItemsPruned | index.js:54-66 | Every element of a cleaned array is non-null, non-empty and itself pruned |
| PruneProperties.CleanMembersPruned | index.js:70-83 | Every member value of a cleaned object is non-null, non-empty, not `""` and itself pruned |
| PruneProperties.PrunedIsFixpoint | index.js:44-87 | The pruner returns a pruned value unchanged |
| PruneProperties.PrunedItemsFixpoint | index.js:54-66 | An array whose elements are all acceptable and pruned comes back unchanged |
| PruneProperties.PrunedMembersFixpoint | index.js:70-83 | An object whose member values are all acceptable and pruned comes back unchanged |
| PruneProperties.CleanFixpointIff | index.js:44-87 | The pruner leaves a value unchanged iff that value is pruned |
| PruneProperties.Idempotent | index.js:44-87 | Pruning twice gives the same result as pruning once, with the flag on or off |
| PruneProperties.CleanValueSize | index.js:44-87 | The result has no more nodes than the input |
| PruneProperties.CleanItemsSize | index.js:54-66 | The cleaned elements have no more nodes in total than the input elements |
| PruneProperties.CleanMembersSize | index.js:70-83 | The cleaned member values have no more nodes in total than the input values |
| PruneProperties.CleanValueWellFormed | index.js:44-87 | If every object in the input has distinct keys, so does every object in the result |
| PruneProperties.CleanItemsWellFormed | index.js:54-66 | Well-formed elements stay well-formed after cleaning |
| PruneProperties.CleanMembersWellFormed | index.js:70-83 | Well-formed member values stay well-formed after cleaning |
| PruneExamples.MixedObject | index.js:69-84 | `{a: 1, b: [], c: {d: null}, e: ""}` becomes `{a: 1}` |
| PruneExamples.MixedArray | index.js:54-67 | `[1, null, [], {}, 2]` becomes `[1, 2]` |
| PruneExamples.FalsyMembersKept | index.js:79-81 | `{a: 0, b: false}` is unchanged |
| PruneExamples.EmptyStringItemKept | index.js:55-65 | `["", 0]` is unchanged |
| PruneExamples.TopLevelEmptied | index.js:66-83 | A top-level object or array whose contents all get dropped is returned as `{}` or `[]` |
| Settings.LoadSettings | index.js:8-23 | A missing or key-less stored record receives exactly the four defaults: enabled, not verbose, filtering, hooking all events. A non-empty record, even a partial one, is kept as stored. The result is never empty |
| Settings.LoadSettingsStable | index.js:20-23 | Loading a loaded record again changes nothing, so the defaults never overwrite stored choices |
| Settings.ToggleEnabled | index.js:334-335 | `enabled` is negated, with a missing flag read as false. The other three flags and every other stored key are unchanged |
| Settings.ToggleVerbose | index.js:341-342 | `verboseLogging` is negated. The other three flags and every other stored key are unchanged |
| Settings.ToggleTwiceRestores | index.js:334-342 | Toggling twice restores every flag. When the flag was already stored, it restores the record itself |
| Settings.TogglesCommute | index.js:334-342 | The two toggles commute |
| PromptLog.LoggedStructure | index.js:94-104 | A structure is logged iff `enabled` is set. It is logged unchanged when filtering is off, and pruned below the top when filtering is on. Its top-level kind is kept |
| PromptLog.LoggedIsCleanedCopy | index.js:96-104 | With logging and filtering both on, the logged value is exactly the pruned copy |
| PromptLog.DefaultsLogPruned | index.js:94-104 | With freshly installed defaults, every structure is logged in pruned form |

## Left out

- Console output, grouping, timestamps and the verbose section reads in
  `logPromptStruct` (index.js:106-178) are display side effects.
- The `JSON.parse(JSON.stringify(...))` deep copy (index.js:101) is a library
  call. Its result is taken as the pruner's input. So the input is a finite,
  acyclic JSON value with no `undefined`, and its objects have distinct keys.
  A cyclic input would make `stringify` throw, and the `catch` at line 175
  swallows that.
- JSON numbers are IEEE doubles. They are modelled as opaque integers,
  because the pruner only carries numbers and never computes with them.
- The engine's enumeration order for integer-like keys is not modelled.
  Objects keep insertion order here.
- A member named `__proto__` is not modelled. In the engine, assigning it to
  the fresh object adds no key: a container value becomes that object's
  prototype, and a primitive value is ignored.
- A stored flag that is not a boolean is not modelled. The record maps names
  to booleans, and a missing flag reads as false, as `undefined` does.
- Event subscription, the patching of host functions (`getContext`,
  `Generate`, `buildPromptStruct`, `promptBuilder`), the `dumpContext` and
  `help` console commands, the delayed global scan, the settings UI and
  `saveSettingsDebounced` persistence (index.js:26-37, 187-494) are host
  glue, timing and I/O with no logic to state.
- `cleanObject` calls itself twice on each array element (lines 57 and 62).
  The model keeps both calls: `KeepItem` cleans the element for the filter
  test, and `CleanItems` cleans it again for the result. `CleanValue` is a
  function, so both calls give the same value.
