/** A controller's lifetime: the list starts empty and then only the handlers change it, one
    event at a time. */
module Session {
  import opened Items
  import opened Selection
  import opened Controller

  /** The events that reach the controller's list. */
  datatype Event =
    | Pick(item: Item)                        // the combobox commits an entry (Enter or click)
    | RemoveHelper(item: Item, callback: Option<string>) // the owner calls the exposed `removeItem`
    | ClickRemoveButton(passed: Props)        // a pill's button, built from `passed`, is clicked
    | KeyDown(key: string, inputValue: string) // a key goes down in the query input

  /** One event handled: the controller's observers and the library's exposed object are fixed
      for the run. */
  function Dispatch(s: seq<Item>, e: Event, observers: Observers, downshift: Props): (r: Step)
    ensures NoDup(s) ==> NoDup(r.items)
    ensures e.Pick? ==> (e.item in r.items <==> e.item !in s)
    ensures e.RemoveHelper? ==> e.item !in r.items
  {
    match e
    case Pick(item) =>
      ToggleKeepsNoDupWhen(s, item);
      HandleSelection(s, item, observers, downshift)
    case RemoveHelper(item, callback) =>
      RemoveKeepsNoDupWhen(s, item);
      RemoveItemCall(s, Some(item), callback)
    case ClickRemoveButton(passed) =>
      var h := GetRemoveButtonProps(passed)["onClick"];
      RemoveTargetKeepsNoDupWhen(s, h.target);
      RemoveButtonClick(s, h.callerOnClick, h.target)
    case KeyDown(key, inputValue) =>
      RemoveTargetKeepsNoDupWhen(s, LastSelected(s));
      InputKeyDown(s, key, inputValue)
  }

  /** A pick keeps a duplicate-free list duplicate-free, stated for every list. */
  lemma ToggleKeepsNoDupWhen(s: seq<Item>, item: Item)
    ensures NoDup(s) ==> NoDup(Toggle(s, item))
  {
    if NoDup(s) {
      ToggleKeepsNoDup(s, item);
    }
  }

  /** A removal keeps a duplicate-free list duplicate-free, stated for every list. */
  lemma RemoveKeepsNoDupWhen(s: seq<Item>, item: Item)
    ensures NoDup(s) ==> NoDup(RemoveItem(s, item))
  {
    if NoDup(s) {
      RemoveItemKeepsNoDup(s, item);
    }
  }

  /** Removing an entry or `undefined` keeps a duplicate-free list duplicate-free. */
  lemma RemoveTargetKeepsNoDupWhen(s: seq<Item>, target: Option<Item>)
    ensures NoDup(s) ==> NoDup(RemoveTarget(s, target))
  {
    if target.Some? {
      RemoveKeepsNoDupWhen(s, target.value);
    }
  }

  /** The list after a run of events. */
  function Run(s: seq<Item>, events: seq<Event>, observers: Observers, downshift: Props): seq<Item>
    decreases |events|
  {
    if |events| == 0 then s
    else Run(Dispatch(s, events[0], observers, downshift).items, events[1..], observers, downshift)
  }

  /** Every run that starts duplicate-free stays duplicate-free. */
  lemma {:induction false} RunKeepsNoDup(s: seq<Item>, events: seq<Event>, observers: Observers, downshift: Props)
    requires NoDup(s)
    ensures NoDup(Run(s, events, observers, downshift))
    decreases |events|
  {
    if |events| > 0 {
      RunKeepsNoDup(Dispatch(s, events[0], observers, downshift).items, events[1..], observers, downshift);
    }
  }

  /** Whatever happens over a controller's lifetime, no entry is ever selected twice. */
  lemma LifetimeNoDup(events: seq<Event>, observers: Observers, downshift: Props)
    ensures NoDup(Run(Initial, events, observers, downshift))
  {
    RunKeepsNoDup(Initial, events, observers, downshift);
  }

  /** Two catalog entries: pick Leia, then Luke, then press Backspace in the empty input. The
      list reads [Leia, Luke] before the key and [Leia] after it. */
  lemma LeiaLukeScenario(observers: Observers, downshift: Props)
    ensures
      var leia := Item("Leia Organa", "leia organa");
      var luke := Item("Luke Skywalker", "luke skywalker");
      && Run(Initial, [Pick(leia), Pick(luke)], observers, downshift) == [leia, luke]
      && Run(Initial, [Pick(leia), Pick(luke), KeyDown("Backspace", "")], observers, downshift) == [leia]
  {
    var leia := Item("Leia Organa", "leia organa");
    var luke := Item("Luke Skywalker", "luke skywalker");
    assert leia != luke;
    var s1 := Dispatch(Initial, Pick(leia), observers, downshift).items;
    assert s1 == [leia];
    var s2 := Dispatch(s1, Pick(luke), observers, downshift).items;
    assert s2 == [leia, luke];
    var s3 := Dispatch(s2, KeyDown("Backspace", ""), observers, downshift).items;
    assert NoDup(s2);
    BackspaceDropsLast(s2);
    assert s3 == [leia];
    var picks := [Pick(leia), Pick(luke)];
    assert Run(s2, picks[1..][1..], observers, downshift) == s2;
    assert Run(s1, picks[1..], observers, downshift) == s2;
    var events := picks + [KeyDown("Backspace", "")];
    assert Run(s2, events[1..][1..], observers, downshift) == s3;
    assert Run(s1, events[1..], observers, downshift) == s3;
  }
}
