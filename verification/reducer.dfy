/** The reducer the controller hands to the combobox library. The library proposes a change to
    its own state (open flag, highlighted row, query text, selected entry) together with the
    reason for it; the reducer may rewrite the proposal before the library commits it. */
module Reducer {
  import opened Items

  /** Why the combobox wants to change state. Only the two ways of picking an entry matter to the
      controller; every other reason (hover, arrow keys, typing, blur, ...) is `OtherChange`. */
  datatype ChangeType = KeyDownEnter | ClickItem | OtherChange(name: string)
  {
    /** An entry is being picked, by Enter or by a click. */
    predicate IsPick() {
      KeyDownEnter? || ClickItem?
    }
  }

  /** A key of a JavaScript object that the object may not carry at all. */
  datatype Key<+T> = Absent | Present(value: T)

  /** The part of the combobox's state this controller touches or passes along. */
  datatype ComboboxState = ComboboxState(
    highlightedIndex: Option<int>,
    isOpen: bool,
    inputValue: string,
    selectedItem: Option<Item>)

  /** A proposed change: the reason, and only those keys the library wants to change. */
  datatype StateChange = StateChange(
    changeType: ChangeType,
    highlightedIndex: Key<Option<int>>,
    isOpen: Key<bool>,
    inputValue: Key<string>,
    selectedItem: Key<Option<Item>>)

  /** `stateReducer`: when an entry is picked, keep the current highlight, keep the menu open and
      clear the query, so that several entries can be picked in a row; every other proposal is
      accepted as it is. */
  function StateReducer(state: ComboboxState, changes: StateChange): (r: StateChange)
    ensures r.changeType == changes.changeType
    ensures r.selectedItem == changes.selectedItem
    ensures changes.changeType.IsPick() ==>
      && r.highlightedIndex == Present(state.highlightedIndex)
      && r.isOpen == Present(true)
      && r.inputValue == Present("")
    ensures !changes.changeType.IsPick() ==> r == changes
  {
    match changes.changeType
    case KeyDownEnter | ClickItem =>
      changes.(highlightedIndex := Present(state.highlightedIndex),
               isOpen := Present(true),
               inputValue := Present(""))
    case OtherChange(_) => changes
  }

  /** How the combobox library applies a (possibly rewritten) proposal, as this controller
      configures it. Every key the proposal carries replaces the current value and every key it
      lacks keeps it; that merge belongs to the library and is stated here only so the reducer's
      effect can be read off. The controller passes `selectedItem={null}`, which makes the
      selection a controlled prop: whatever a proposal says, the selection the library works with
      stays none, so a picked entry never counts as "the" selection and the menu can pick again. */
  function ApplyChange(state: ComboboxState, changes: StateChange): (r: ComboboxState)
    ensures r.selectedItem == None
    ensures changes.isOpen.Absent? ==> r.isOpen == state.isOpen
    ensures changes.isOpen.Present? ==> r.isOpen == changes.isOpen.value
    ensures changes.highlightedIndex.Absent? ==> r.highlightedIndex == state.highlightedIndex
    ensures changes.highlightedIndex.Present? ==> r.highlightedIndex == changes.highlightedIndex.value
    ensures changes.inputValue.Absent? ==> r.inputValue == state.inputValue
    ensures changes.inputValue.Present? ==> r.inputValue == changes.inputValue.value
  {
    ComboboxState(
      if changes.highlightedIndex.Present? then changes.highlightedIndex.value else state.highlightedIndex,
      if changes.isOpen.Present? then changes.isOpen.value else state.isOpen,
      if changes.inputValue.Present? then changes.inputValue.value else state.inputValue,
      None)
  }

  /** After a pick goes through the reducer, the menu is open, the highlight has not moved and
      the query is empty, whatever the library proposed; nothing else differs from what the
      library would have applied without the reducer, and the selection stays none. */
  lemma PickKeepsMenuOpen(state: ComboboxState, changes: StateChange)
    requires changes.changeType.IsPick()
    ensures ApplyChange(state, StateReducer(state, changes)).isOpen
    ensures ApplyChange(state, StateReducer(state, changes)).highlightedIndex == state.highlightedIndex
    ensures ApplyChange(state, StateReducer(state, changes)).inputValue == ""
    ensures ApplyChange(state, StateReducer(state, changes)).selectedItem == None
    ensures ApplyChange(state, StateReducer(state, changes))
      == ApplyChange(state, changes).(isOpen := true, highlightedIndex := state.highlightedIndex, inputValue := "")
  {
  }

  /** Every other proposal is applied exactly as if there were no reducer. */
  lemma OtherChangePassesThrough(state: ComboboxState, changes: StateChange)
    requires !changes.changeType.IsPick()
    ensures ApplyChange(state, StateReducer(state, changes)) == ApplyChange(state, changes)
  {
  }

  /** Running the reducer on its own output changes nothing more. */
  lemma StateReducerIdempotent(state: ComboboxState, changes: StateChange)
    ensures StateReducer(state, StateReducer(state, changes)) == StateReducer(state, changes)
  {
  }

  /** The reducer's decision depends on the reason only: whichever row the library proposes to
      highlight, a pick keeps the current one. */
  lemma PickIgnoresProposedHighlight(state: ComboboxState, c1: StateChange, c2: StateChange)
    requires c1.changeType.IsPick()
    requires c1.(highlightedIndex := c2.highlightedIndex, isOpen := c2.isOpen, inputValue := c2.inputValue) == c2
    ensures StateReducer(state, c1) == StateReducer(state, c2)
  {
  }

  /** A click proposing row 3 while row 5 is highlighted keeps row 5, opens the menu and clears
      the query. */
  lemma ClickKeepsHighlightExample(item: Item)
    ensures
      var state := ComboboxState(Some(5), true, "le", None);
      var changes := StateChange(ClickItem, Present(Some(3)), Present(false), Present("Leia Organa"), Present(Some(item)));
      var r := StateReducer(state, changes);
      r == StateChange(ClickItem, Present(Some(5)), Present(true), Present(""), Present(Some(item)))
  {
  }
}
