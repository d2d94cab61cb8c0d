/**
 * `SelectedTabInfo`: the application store's cached belief about which tab
 * is selected and which browsing mode it implies. An immutable value; an
 * update replaces the whole value.
 */
module SelectedTabInfos {
  import opened BrowsingModes
  import opened BrowserStates

  datatype SelectedTabInfo = SelectedTabInfo(id: TabId, mode: BrowsingMode) {

    /** The data class's `copy`: every field not given keeps its value. */
    function Copy(id: TabId := this.id, mode: BrowsingMode := this.mode): (r: SelectedTabInfo)
      ensures r.id == id && r.mode == mode
    {
      this.(id := id, mode := mode)
    }

    /** Destructuring `val (id, mode) = info`. */
    function Component1(): TabId { id }
    function Component2(): BrowsingMode { mode }
  }

  /** Structural equality: two values are equal iff both fields are equal. */
  lemma EqualityIsStructural(a: SelectedTabInfo, b: SelectedTabInfo)
    ensures a == b <==> a.id == b.id && a.mode == b.mode
  {
  }

  /** `copy(mode = m)` keeps the id and sets the mode; `copy()` is the original value. */
  lemma CopyLaws(info: SelectedTabInfo, m: BrowsingMode)
    ensures info.Copy(mode := m) == SelectedTabInfo(info.id, m)
    ensures info.Copy(mode := m).id == info.id
    ensures info.Copy() == info
  {
  }

  /** Destructuring `SelectedTabInfo(a, b)` gives back `(a, b)`. */
  lemma DestructuringLaws(a: TabId, b: BrowsingMode)
    ensures SelectedTabInfo(a, b).Component1() == a
    ensures SelectedTabInfo(a, b).Component2() == b
  {
  }
}
