/**
 * The `gideonMemory` record as a value: its default, the saved form kept in
 * local storage, and the load-time merge of a saved record over the
 * defaults (`{...this.gideonMemory, ...savedMemory}`).
 *
 * `userName` is a string in which `""` stands for the source's `null`: both
 * are falsy, and every test the source makes on the name is a truthiness
 * test. The `lastSession` timestamp is not modelled.
 */
module MemoryModel {
  import opened Wrappers
  import opened Facts

  /** One entry of `conversationHistory`; the timestamp is the ISO text the caller supplies. */
  datatype Turn = Turn(text: string, isUser: bool, timestamp: string)

  datatype Preferences = Preferences(theme: string, responseSpeed: string, verbosity: string)

  datatype Memory = Memory(
    userName: string,
    preferences: Preferences,
    history: seq<Turn>,
    facts: FactTable)

  /**
   * A saved record as `JSON.parse` returns it: each field may be absent, and
   * a field that is present replaces the default.
   */
  datatype SavedMemory = SavedMemory(
    userName: Option<string>,
    preferences: Option<Preferences>,
    history: Option<seq<Turn>>,
    facts: Option<FactTable>)

  /** The record the constructor builds before anything is loaded. */
  function Defaults(): (m: Memory)
    ensures m.userName == "" && m.history == [] && m.facts == []
  {
    Memory("", Preferences("futuristic", "normal", "detailed"), [], [])
  }

  function Overlay<T>(saved: Option<T>, current: T): T
  {
    match saved
    case Some(v) => v
    case None => current
  }

  /** `{...current, ...saved}`: a shallow, field-by-field overlay. */
  function Merge(current: Memory, saved: SavedMemory): Memory
  {
    Memory(
      Overlay(saved.userName, current.userName),
      Overlay(saved.preferences, current.preferences),
      Overlay(saved.history, current.history),
      Overlay(saved.facts, current.facts))
  }

  /** What `saveGideonMemory` writes: every field of the record. */
  function Saved(m: Memory): SavedMemory
  {
    SavedMemory(Some(m.userName), Some(m.preferences), Some(m.history), Some(m.facts))
  }

  /** A field the saved record carries wins; a field it lacks keeps its current value. */
  lemma MergeOverlaysEachField(current: Memory, saved: SavedMemory)
    ensures saved.userName.Some? ==> Merge(current, saved).userName == saved.userName.value
    ensures saved.userName.None? ==> Merge(current, saved).userName == current.userName
    ensures saved.preferences.Some? ==> Merge(current, saved).preferences == saved.preferences.value
    ensures saved.preferences.None? ==> Merge(current, saved).preferences == current.preferences
    ensures saved.history.Some? ==> Merge(current, saved).history == saved.history.value
    ensures saved.history.None? ==> Merge(current, saved).history == current.history
    ensures saved.facts.Some? ==> Merge(current, saved).facts == saved.facts.value
    ensures saved.facts.None? ==> Merge(current, saved).facts == current.facts
  {
  }

  /** Restarting restores what was saved, whatever the defaults are. */
  lemma RestartRestores(current: Memory, m: Memory)
    ensures Merge(current, Saved(m)) == m
  {
  }

  /** Loading the same record twice is loading it once. */
  lemma MergeIdempotent(current: Memory, saved: SavedMemory)
    ensures Merge(Merge(current, saved), saved) == Merge(current, saved)
  {
  }
}
