/** The event handlers of the multi-select controller. A handler's run is modelled as a `Step`:
    the selected-items list it leaves behind and the ordered list of effects it performs (state
    commits, observer calls, DOM event calls). The list update is taken to happen at once; the
    callback handed to it runs right after it. */
module Controller {
  import opened Items
  import opened Selection

  /** The values that appear in the property bags the controller reads and builds. Functions
      supplied from outside are opaque and known by a name only. */
  datatype Value =
    | ItemValue(item: Item)
    | ItemsValue(items: seq<Item>)
    | Callback(name: string)
    | RemoveClick(callerOnClick: Option<string>, target: Option<Item>)
    | Other(text: string)

  /** A JavaScript object used as a bag of named properties. */
  type Props = map<string, Value>

  /** The observers the controller's owner may supply; a missing one is skipped. */
  datatype Observers = Observers(hasOnSelect: bool, hasOnChange: bool)

  /** One externally visible thing a handler does. */
  datatype Effect =
    | Commit(selectedItems: seq<Item>)
    | NotifySelect(selectedItems: seq<Item>, helpers: Props)
    | NotifyChange(selectedItems: seq<Item>, helpers: Props)
    | CallerClick(name: string)
    | StopPropagation
    | RunCallback(name: string)
  {
    predicate IsNotification() {
      NotifySelect? || NotifyChange?
    }
  }

  /** What one handler run leaves behind: the new list and the effects, in order. */
  datatype Step = Step(items: seq<Item>, trace: seq<Effect>)

  /** The keys the controller adds to what the combobox library exposes. */
  const LocalKeys: set<string> := {"getRemoveButtonProps", "removeItem", "selectedItems"}

  /** `getStateAndHelpers`: the controller's two helpers and the current list, merged with the
      library's own state and helpers. The library's object is spread last, so on a shared key
      the library's value wins. */
  function GetStateAndHelpers(items: seq<Item>, downshift: Props): (r: Props)
    ensures r.Keys == LocalKeys + downshift.Keys
    ensures forall k :: k in downshift ==> r[k] == downshift[k]
    ensures "selectedItems" !in downshift ==> r["selectedItems"] == ItemsValue(items)
    ensures "removeItem" !in downshift ==> r["removeItem"] == Callback("removeItem")
    ensures "getRemoveButtonProps" !in downshift ==> r["getRemoveButtonProps"] == Callback("getRemoveButtonProps")
  {
    map["getRemoveButtonProps" := Callback("getRemoveButtonProps"),
        "removeItem" := Callback("removeItem"),
        "selectedItems" := ItemsValue(items)] + downshift
  }

  /** Position of an effect within a `handleSelection` run. */
  function SelectionPhase(e: Effect): nat {
    match e
    case Commit(_) => 0
    case NotifySelect(_, _) => 1
    case NotifyChange(_, _) => 2
    case _ => 3
  }

  /** `handleSelection`: toggle the picked entry, then tell `onSelect` and then `onChange`, each
      only if supplied, each with the list as it stands after the update. */
  function HandleSelection(s: seq<Item>, item: Item, observers: Observers, downshift: Props): (r: Step)
    ensures r.items == Toggle(s, item)
    ensures |r.trace| >= 1 && r.trace[0] == Commit(r.items)
    ensures forall i :: 1 <= i < |r.trace| ==>
      && r.trace[i].IsNotification()
      && r.trace[i].selectedItems == r.items
      && r.trace[i].helpers == GetStateAndHelpers(r.items, downshift)
    ensures forall i, j :: 0 <= i < j < |r.trace| ==> SelectionPhase(r.trace[i]) < SelectionPhase(r.trace[j])
    ensures observers.hasOnSelect <==> exists i :: 0 <= i < |r.trace| && r.trace[i].NotifySelect?
    ensures observers.hasOnChange <==> exists i :: 0 <= i < |r.trace| && r.trace[i].NotifyChange?
  {
    var items := Toggle(s, item);
    var helpers := GetStateAndHelpers(items, downshift);
    var trace :=
      [Commit(items)]
      + (if observers.hasOnSelect then [NotifySelect(items, helpers)] else [])
      + (if observers.hasOnChange then [NotifyChange(items, helpers)] else []);
    assert observers.hasOnSelect ==> trace[1].NotifySelect?;
    assert observers.hasOnChange ==> trace[|trace| - 1].NotifyChange?;
    Step(items, trace)
  }

  /** `removeItem`: the list is filtered, and the optional callback runs once the update has
      been committed. The pill button and the Backspace key pass no callback, so nobody is told;
      the owner may pass one through the exposed helper. */
  function RemoveItemCall(s: seq<Item>, target: Option<Item>, callback: Option<string>): (r: Step)
    ensures target.Some? ==> target.value !in r.items
    ensures target.Some? ==> forall x :: x != target.value ==> multiset(r.items)[x] == multiset(s)[x]
    ensures target.None? ==> r.items == s
    ensures |r.trace| == if callback.Some? then 2 else 1
    ensures r.trace[0] == Commit(r.items)
    ensures callback.Some? ==> r.trace[1] == RunCallback(callback.value)
    ensures forall i :: 0 <= i < |r.trace| ==> !r.trace[i].IsNotification()
  {
    var items := RemoveTarget(s, target);
    Step(items, [Commit(items)] + match callback case Some(name) => [RunCallback(name)] case None => [])
  }

  /** The `onClick` the caller passed, when it is a function. */
  function CallerOnClick(passed: Props): (r: Option<string>)
    ensures r.Some? <==> "onClick" in passed && passed["onClick"].Callback?
    ensures r.Some? ==> r.value == passed["onClick"].name
  {
    if "onClick" in passed && passed["onClick"].Callback? then Some(passed["onClick"].name) else None
  }

  /** The `item` the caller passed, when it is a catalog entry; anything else removes nothing. */
  function TargetItem(passed: Props): (r: Option<Item>)
    ensures r.Some? <==> "item" in passed && passed["item"].ItemValue?
    ensures r.Some? ==> r.value == passed["item"].item
  {
    if "item" in passed && passed["item"].ItemValue? then Some(passed["item"].item) else None
  }

  /** `getRemoveButtonProps`: `onClick` and `item` are taken out of the passed props; the result
      carries a new click handler under `onClick` and every other passed prop unchanged. */
  function GetRemoveButtonProps(passed: Props): (r: Props)
    ensures r.Keys == (passed.Keys - {"item"}) + {"onClick"}
    ensures r["onClick"] == RemoveClick(CallerOnClick(passed), TargetItem(passed))
    ensures forall k :: k in passed && k != "onClick" && k != "item" ==> r[k] == passed[k]
  {
    map["onClick" := RemoveClick(CallerOnClick(passed), TargetItem(passed))]
      + (passed - {"onClick", "item"})
  }

  /** Position of an effect within a remove-button click. */
  function ClickPhase(e: Effect): nat {
    match e
    case CallerClick(_) => 0
    case StopPropagation => 1
    case Commit(_) => 2
    case _ => 3
  }

  /** The click handler `getRemoveButtonProps` builds: the caller's own `onClick` first (if it
      was a function), then the event stops bubbling, so the surrounding dropdown does not toggle,
      then `removeItem`. */
  function RemoveButtonClick(s: seq<Item>, callerOnClick: Option<string>, target: Option<Item>): (r: Step)
    ensures target.Some? ==> target.value !in r.items
    ensures target.Some? ==> forall x :: x != target.value ==> multiset(r.items)[x] == multiset(s)[x]
    ensures target.None? ==> r.items == s
    ensures forall x :: x in r.items ==> x in s
    ensures |r.trace| == if callerOnClick.Some? then 3 else 2
    ensures callerOnClick.Some? ==> r.trace[0] == CallerClick(callerOnClick.value)
    ensures r.trace[|r.trace| - 2] == StopPropagation
    ensures r.trace[|r.trace| - 1] == Commit(r.items)
    ensures forall i, j :: 0 <= i < j < |r.trace| ==> ClickPhase(r.trace[i]) < ClickPhase(r.trace[j])
  {
    var removal := RemoveItemCall(s, target, None);
    var caller := match callerOnClick case Some(name) => [CallerClick(name)] case None => [];
    Step(removal.items, caller + [StopPropagation] + removal.trace)
  }

  /** Clicking a button built from `passed` removes the passed entry, runs the caller's handler
      first and never notifies the observers. */
  lemma ClickBuiltButton(s: seq<Item>, passed: Props, item: Item)
    requires "item" in passed && passed["item"] == ItemValue(item)
    ensures
      var h := GetRemoveButtonProps(passed)["onClick"];
      var r := RemoveButtonClick(s, h.callerOnClick, h.target);
      && item !in r.items
      && (forall x :: x != item ==> multiset(r.items)[x] == multiset(s)[x])
      && (forall i :: 0 <= i < |r.trace| ==> !r.trace[i].IsNotification())
      && (CallerOnClick(passed).Some? <==> r.trace[0].CallerClick?)
      && ("onClick" in passed && passed["onClick"].Callback? ==>
            r.trace[0] == CallerClick(passed["onClick"].name))
  {
  }

  /** The key handler the query input gets: Backspace in an empty input removes the most
      recently selected entry; on an empty list it asks to remove `undefined`, which removes
      nothing. Other keys, and Backspace while text is typed, do nothing here. */
  function InputKeyDown(s: seq<Item>, key: string, inputValue: string): (r: Step)
    ensures key != "Backspace" || inputValue != "" ==> r == Step(s, [])
    ensures key == "Backspace" && inputValue == "" ==> r.trace == [Commit(r.items)]
    ensures key == "Backspace" && inputValue == "" && |s| == 0 ==> r.items == s
    ensures key == "Backspace" && inputValue == "" && |s| > 0 ==> s[|s| - 1] !in r.items
    ensures key == "Backspace" && inputValue == "" && |s| > 0 ==>
      forall x :: x != s[|s| - 1] ==> multiset(r.items)[x] == multiset(s)[x]
  {
    if key == "Backspace" && inputValue == "" then RemoveItemCall(s, LastSelected(s), None)
    else Step(s, [])
  }

  /** On a duplicate-free list, Backspace in an empty input drops exactly the last element. */
  lemma BackspaceDropsLast(s: seq<Item>)
    requires NoDup(s) && |s| > 0
    ensures InputKeyDown(s, "Backspace", "").items == s[..|s| - 1]
  {
    RemoveLastEntry(s);
  }

  /** The list of entries the menu offers for a query: with no query, the whole catalog in
      catalog order; otherwise whatever the fuzzy matcher ranks, which is outside this model. */
  function GetItems(filter: string, catalog: seq<Item>, matchSorter: (seq<Item>, string) -> seq<Item>): (r: seq<Item>)
    ensures filter == "" ==> r == catalog
    ensures filter != "" ==> r == matchSorter(catalog, filter)
  {
    if filter == "" then catalog else matchSorter(catalog, filter)
  }
}
