/** The extension's settings: a stored record of boolean flags, default
    initialisation on load, and the two console toggles. The UI checkboxes and
    the debounced save are side effects outside this model. */
module Settings {

  import opened Optional

  /** The stored record as a plain object from property names to flags. It
      may hold only some of the four names, or other names besides. */
  type Record = map<string, bool>

  /** The four flags as the code reads them. */
  datatype Flags = Flags(
    enabled: bool,
    verboseLogging: bool,
    filterOutEmptyFields: bool,
    hookAllEvents: bool)

  const DefaultFlags: Flags := Flags(true, false, true, true)

  const FlagNames: set<string> := {"enabled", "verboseLogging", "filterOutEmptyFields", "hookAllEvents"}

  /** The record that `Object.assign` leaves when it copies the defaults into
      an empty object. */
  const DefaultRecord: Record := map[
    "enabled" := true,
    "verboseLogging" := false,
    "filterOutEmptyFields" := true,
    "hookAllEvents" := true]

  /** Reading one property: a missing one is `undefined`, which is falsy. */
  function Flag(rec: Record, name: string): (b: bool)
    ensures b ==> name in rec
  {
    name in rec && rec[name]
  }

  function View(rec: Record): Flags {
    Flags(Flag(rec, "enabled"), Flag(rec, "verboseLogging"),
          Flag(rec, "filterOutEmptyFields"), Flag(rec, "hookAllEvents"))
  }

  /** `loadSettings`: a missing record becomes an empty one; an empty record
      receives the defaults; any other record, even one missing some of the
      flags, is left as stored. */
  function LoadSettings(stored: Option<Record>): (r: Record)
    ensures stored.None? || |stored.value| == 0 ==> r.Keys == FlagNames && View(r) == DefaultFlags
    ensures stored.Some? && |stored.value| > 0 ==> r == stored.value
    ensures |r| > 0
  {
    var current := if stored.Some? then stored.value else map[];
    if |current| == 0 then DefaultRecord else current
  }

  /** Loading what a load produced changes nothing, so saving and reloading
      never re-applies the defaults over a user's choices. */
  lemma LoadSettingsStable(stored: Option<Record>)
    ensures LoadSettings(Some(LoadSettings(stored))) == LoadSettings(stored)
  {
  }

  /** `toggleEnabled`: negate the `enabled` flag; a missing flag reads as
      false and so becomes true. */
  function ToggleEnabled(rec: Record): (r: Record)
    ensures View(r) == View(rec).(enabled := !View(rec).enabled)
    ensures r.Keys == rec.Keys + {"enabled"}
    ensures forall k :: k in rec && k != "enabled" ==> r[k] == rec[k]
  {
    rec["enabled" := !Flag(rec, "enabled")]
  }

  /** `toggleVerbose`: negate the `verboseLogging` flag. */
  function ToggleVerbose(rec: Record): (r: Record)
    ensures View(r) == View(rec).(verboseLogging := !View(rec).verboseLogging)
    ensures r.Keys == rec.Keys + {"verboseLogging"}
    ensures forall k :: k in rec && k != "verboseLogging" ==> r[k] == rec[k]
  {
    rec["verboseLogging" := !Flag(rec, "verboseLogging")]
  }

  /** Toggling twice restores every flag the code reads. */
  lemma ToggleTwiceRestores(rec: Record)
    ensures View(ToggleEnabled(ToggleEnabled(rec))) == View(rec)
    ensures View(ToggleVerbose(ToggleVerbose(rec))) == View(rec)
    ensures "enabled" in rec ==> ToggleEnabled(ToggleEnabled(rec)) == rec
    ensures "verboseLogging" in rec ==> ToggleVerbose(ToggleVerbose(rec)) == rec
  {
  }

  /** The two toggles touch different flags and so commute. */
  lemma TogglesCommute(rec: Record)
    ensures ToggleEnabled(ToggleVerbose(rec)) == ToggleVerbose(ToggleEnabled(rec))
  {
  }
}
