# Multi-select controller, modelled in Dafny

This project models `MultiDownshift`, the multi-selection controller of a dropdown example.
The controller sits on a headless combobox library (Downshift). The library owns the open flag,
the highlighted row and the query text. The controller owns an ordered list of selected catalog
entries and supplies four pieces of logic:

- a **state reducer** that rewrites the library's proposed state change whenever an entry is
  picked: the menu stays open, the highlight stays put and the query is cleared;
- the **selection list updates**: `handleSelection` toggles an entry, `removeItem` filters one
  out, `addSelectedItem` appends one;
- **event handlers**: the pill's remove button and the Backspace rule of the query input;
- **`getStateAndHelpers`**, which merges the controller's helpers with the library's object.

Modules, one per concern:

- `items.dfy` (`Items`): the catalog entry, `Option`, and the duplicate-free predicate.
- `selection.dfy` (`Selection`): the list updates and their algebra.
- `reducer.dfy` (`Reducer`): the state reducer and the library's application of a change.
- `controller.dfy` (`Controller`): the handlers. A run of a handler is a `Step`: the new list
  plus the ordered trace of effects. Effects are a commit of the list, an observer call, the
  caller's click handler, `stopPropagation`, or the callback passed to `removeItem`.
- `session.dfy` (`Session`): a controller's lifetime as a run of events from the empty list.

Membership is JavaScript reference equality in the program. Every entry comes from one catalog
array that is built once, and no two catalog names are equal, so Dafny's value equality on
`Item` stands in for it.

Behaviour of the code worth knowing:

- `getStateAndHelpers` spreads the library's object last (line 180), so on a shared key the
  library's value wins over the controller's. `Controller.GetStateAndHelpers` states this.
- `onSelect` and `onChange` are each called only when supplied (lines 131 and 134), and then
  once each from `handleSelection`, in that order. `onSelect` is not taken out of the owner's
  props (line 184) or overridden (lines 189-191), so `{...props}` (line 188) hands it to the
  combobox library as well; see "## Left out".
- Picking an entry twice gives the list back only when the entry was not selected, or was the
  last entry of a duplicate-free list. Otherwise the first pick filters it out and the second
  appends it, so it moves to the end. `Selection.ToggleTwiceRestores` states exactly when the
  list comes back, and `Selection.ToggleTwiceReorders` shows the move on a two-entry list.
- Removing an entry with the pill button or with Backspace calls `removeItem` with no callback.
  So `onSelect` and `onChange` hear nothing about those removals. The contracts of
  `Controller.RemoveItemCall` and `Controller.ClickBuiltButton` state this.
- The selection the combobox library works with is pinned to none (`selectedItem={null}`, line
  191), so every pick reaches `handleSelection`, even a pick of the same entry twice in a row.

## Model

| member | source | states |
|---|---|---|
| `Items.LastSelected` | src/ordered-examples/04-multi-select.js:318 | reading the last element gives `undefined` exactly on an empty list, and otherwise the last entry |
| `Selection.RemoveItem` | src/ordered-examples/04-multi-select.js:145-151 | the removed entry is gone; every other entry keeps its multiplicity; removing an absent entry changes nothing |
| `Selection.RemoveTarget` | src/ordered-examples/04-multi-select.js:145-151 | removing `undefined` keeps the list; removing an entry leaves it absent while every other entry keeps its multiplicity; nothing new ever appears |
| `Selection.AddSelectedItem` | src/ordered-examples/04-multi-select.js:152-159 | the list grows by one; the old entries are an untouched prefix; the new entry is last |
| `Selection.Toggle` | src/ordered-examples/04-multi-select.js:138-142 | the entry is selected afterwards exactly when it was not before; no other entry's membership changes |
| `Selection.RemoveItemAppend` | src/ordered-examples/04-multi-select.js:148 | filtering distributes over concatenation, so the kept entries stay in their original order |
| `Selection.RemoveItemKeepsNoDup` | src/ordered-examples/04-multi-select.js:145-151 | filtering a duplicate-free list leaves it duplicate-free |
| `Selection.RemoveItemLength` | src/ordered-examples/04-multi-select.js:145-151 | on a duplicate-free list, removing a selected entry shortens the list by exactly one |
| `Selection.RemoveLastEntry` | src/ordered-examples/04-multi-select.js:316-319 | on a duplicate-free list, removing the last entry drops exactly the last element |
| `Selection.RemoveUndoesAdd` | src/ordered-examples/04-multi-select.js:145-159 | `removeItem` undoes `addSelectedItem` of an entry that was not selected |
| `Selection.ToggleKeepsNoDup` | src/ordered-examples/04-multi-select.js:127-159 | a toggle keeps the list duplicate-free and changes its length by exactly one, in the right direction |
| `Selection.ToggleTwiceFromAbsent` | src/ordered-examples/04-multi-select.js:138-142 | picking an unselected entry appends it, and picking it again restores the original list |
| `Selection.ToggleTwiceFromPresent` | src/ordered-examples/04-multi-select.js:138-142 | picking a selected entry twice moves it to the end of the list |
| `Selection.ToggleTwiceRestores` | src/ordered-examples/04-multi-select.js:138-142 | on a duplicate-free list, picking an entry twice restores the list exactly when the entry was unselected or last |
| `Selection.ToggleTwiceReorders` | src/ordered-examples/04-multi-select.js:138-142 | with two distinct entries selected, picking the first twice swaps them, so the list is not restored |
| `Selection.ToggleThriceFromAbsent` | src/ordered-examples/04-multi-select.js:138-142 | picking an unselected entry three times leaves it selected once, at the end, with no duplicate |
| `Reducer.StateReducer` | src/ordered-examples/04-multi-select.js:112-125 | on Enter or click: current highlight kept, menu open, query empty, reason and selected entry passed through; any other change returned as it is |
| `Reducer.ApplyChange` | src/ordered-examples/04-multi-select.js:191 | the selection the library works with stays none whatever a change proposes, because the controller pins it to `null`; the other keys are merged as the library does |
| `Reducer.PickKeepsMenuOpen` | src/ordered-examples/04-multi-select.js:114-121 | after a pick passes the reducer, the applied state has the menu open, the old highlight and an empty query, differs in nothing else from the state applied without the reducer, and the selection stays none |
| `Reducer.OtherChangePassesThrough` | src/ordered-examples/04-multi-select.js:122-123 | any other change is applied exactly as it would be without the reducer |
| `Reducer.StateReducerIdempotent` | src/ordered-examples/04-multi-select.js:112-125 | running the reducer on its own output changes nothing more |
| `Reducer.PickIgnoresProposedHighlight` | src/ordered-examples/04-multi-select.js:116-121 | for a pick, the proposed highlight, open flag and query make no difference to the result |
| `Reducer.ClickKeepsHighlightExample` | src/ordered-examples/04-multi-select.js:115-121 | a click proposing row 3 while row 5 is highlighted yields row 5, an open menu and an empty query |
| `Controller.GetStateAndHelpers` | src/ordered-examples/04-multi-select.js:173-182 | the merged keys are the controller's three plus the library's; on a shared key the library's value wins; otherwise the controller's helpers and the current list are present |
| `Controller.HandleSelection` | src/ordered-examples/04-multi-select.js:127-143 | the list is toggled and committed first; then `onSelect` and then `onChange`, each at most once and exactly when supplied, each with the new list and helpers built from it |
| `Controller.RemoveItemCall` | src/ordered-examples/04-multi-select.js:145-151 | the target is gone, other entries keep their multiplicity, `undefined` removes nothing; the commit comes first, then the callback when one is passed, and no observer is notified |
| `Controller.CallerOnClick` | src/ordered-examples/04-multi-select.js:161-165 | the caller's click handler is called exactly when `onClick` was passed as a function, and it is that function |
| `Controller.TargetItem` | src/ordered-examples/04-multi-select.js:161-167 | the removal target is an entry exactly when `item` was passed as one, and it is that entry |
| `Controller.GetRemoveButtonProps` | src/ordered-examples/04-multi-select.js:161-171 | `onClick` and `item` are taken out; the result has the new click handler plus every other passed prop unchanged |
| `Controller.RemoveButtonClick` | src/ordered-examples/04-multi-select.js:163-168 | the caller's handler if any, then `stopPropagation`, then the commit; the target is absent afterwards, every other entry keeps its multiplicity, and nothing new appears |
| `Controller.ClickBuiltButton` | src/ordered-examples/04-multi-select.js:161-171 | clicking a button built for an entry removes that entry only, runs the passed `onClick` function first when given, and notifies no observer |
| `Controller.InputKeyDown` | src/ordered-examples/04-multi-select.js:316-320 | Backspace in an empty query removes the last entry and keeps the multiplicity of every other; on an empty list nothing changes; other keys or typed text do nothing |
| `Controller.BackspaceDropsLast` | src/ordered-examples/04-multi-select.js:316-319 | on a duplicate-free list, Backspace in an empty query leaves exactly the list minus its last element |
| `Controller.GetItems` | src/ordered-examples/04-multi-select.js:17-23 | an empty query offers the whole catalog in catalog order; any other query is handed to the fuzzy matcher |
| `Session.Dispatch` | src/ordered-examples/04-multi-select.js:127-171 | each event keeps a duplicate-free list duplicate-free; a pick flips the entry's membership; the exposed `removeItem` leaves its entry absent |
| `Session.RunKeepsNoDup` | src/ordered-examples/04-multi-select.js:127-159 | any run of events from a duplicate-free list stays duplicate-free |
| `Session.LifetimeNoDup` | src/ordered-examples/04-multi-select.js:110 | starting from the empty list, no entry is ever selected twice |
| `Session.LeiaLukeScenario` | src/ordered-examples/04-multi-select.js:316-319 | picking Leia then Luke gives [Leia, Luke]; Backspace in the empty input then leaves [Leia] |

## Left out

- Styling and markup (the styled components and the arrow icon): presentation only.
- Rendering, refs and focus: the dropdown's click handler that toggles the menu and focuses the
  input, and the toggle button's `stopPropagation`. These are UI plumbing around the library.
- `setState` asynchrony and batching: each update is one immediate step, and its callback runs
  right after it. With batching, two picks in one batch could both read the stale list before
  either update lands; that interleaving is not modelled.
- The combobox library's own state machine, keyboard handling and prop getters. They belong to a
  foreign library. Only the reducer hook and the library's application of a change are modelled.
- Reducer.ApplyChange: the key-by-key merge is the library's documented behaviour, not code of
  the example; it stands in for the library so that the reducer's effect can be stated.
- The order in which the library composes the input's own `onKeyDown` with the one passed here.
  Only the passed handler is modelled.
- The fuzzy ranking behind `getItems`: a foreign library. `Controller.GetItems` takes it as a
  function parameter.
- The catalog's source data and the lower-casing of names into ids: external data. `console.log`
  in the owner's change handler is I/O.
- Controller.CallerOnClick: a truthy `onClick` that is not a function would throw a `TypeError`
  when the button is clicked; the model treats every non-function value as absent.
- Controller.HandleSelection: `onSelect` and `onChange` are taken to be functions that return
  normally. The code tests them for truthiness only (lines 131 and 134), so a truthy
  non-function throws a `TypeError`, and a throwing `onSelect` ends the handler before `onChange`
  runs; the trace does not model that early end.
- Controller.HandleSelection: the owner's props other than `render`, `children`, `onChange`,
  `stateReducer` and `selectedItem` reach the combobox library unchanged (lines 184 and
  188-191). `onSelect` is among them: it is not taken out (line 184) or overridden (lines
  189-191), so `{...props}` (line 188) hands it to the library as well, which calls it with the
  single picked entry on each pick, besides the call from `handleSelection` with the list. Only
  the call from `handleSelection` is modelled.
- Controller.RemoveButtonClick: the caller's `onClick` is taken to be a function that returns
  normally. If it throws (line 165), `stopPropagation` (line 166) and `removeItem` (line 167) do
  not run, so the entry stays selected and the click reaches the dropdown's own handler; the
  model does not promise "target absent" for that case.
- Controller.RemoveItemCall: the callback passed to `removeItem` is taken to be a function that
  returns normally; a throw from it happens after the commit and is not modelled.
- Controller.TargetItem: an `item` prop that is not a catalog entry is strictly unequal to
  every selected entry, so the model removes nothing for it, as it does for `undefined`.
