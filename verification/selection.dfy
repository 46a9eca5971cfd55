/** The selected-items list of the multi-select controller and the three ways it changes:
    filtering an entry out, appending one, and toggling one. Each is the list the controller's
    state update commits; when the update happens and who is told is modelled in `Controller`. */
module Selection {
  import opened Items

  /** The list the controller starts with. */
  const Initial: seq<Item> := []

  /** `removeItem`: keep every entry that is not `item`, in order. An absent item is not an
      error; nothing changes. */
  function RemoveItem(s: seq<Item>, item: Item): (r: seq<Item>)
    ensures item !in r
    ensures forall x :: x in r <==> x in s && x != item
    ensures forall x :: x != item ==> multiset(r)[x] == multiset(s)[x]
    ensures item !in s ==> r == s
  {
    if |s| == 0 then []
    else
      assert s == [s[0]] + s[1..];
      if s[0] == item then RemoveItem(s[1..], item)
      else [s[0]] + RemoveItem(s[1..], item)
  }

  /** `removeItem` called with a value that may be `undefined`. `undefined` is strictly unequal
      to every catalog entry, so filtering it out keeps the whole list. */
  function RemoveTarget(s: seq<Item>, target: Option<Item>): (r: seq<Item>)
    ensures target.None? ==> r == s
    ensures target.Some? ==> target.value !in r
    ensures target.Some? ==> forall x :: x != target.value ==> multiset(r)[x] == multiset(s)[x]
    ensures forall x :: x in r ==> x in s
  {
    match target
    case None => s
    case Some(item) => RemoveItem(s, item)
  }

  /** `addSelectedItem`: the entry goes to the end; the entries already there keep their places. */
  function AddSelectedItem(s: seq<Item>, item: Item): (r: seq<Item>)
    ensures |r| == |s| + 1
    ensures r[..|s|] == s && r[|s|] == item
    ensures forall x :: x in r <==> x in s || x == item
  {
    s + [item]
  }

  /** The list `handleSelection` commits: a selected entry is deselected (every occurrence
      dropped), an unselected one is appended. */
  function Toggle(s: seq<Item>, item: Item): (r: seq<Item>)
    ensures item in r <==> item !in s
    ensures forall x :: x != item ==> (x in r <==> x in s)
    ensures item !in s ==> r == AddSelectedItem(s, item)
    ensures item in s ==> r == RemoveItem(s, item)
  {
    if item in s then RemoveItem(s, item) else AddSelectedItem(s, item)
  }

  /** Filtering distributes over concatenation; together with the contract of `RemoveItem` on a
      single entry this pins the result down as "the others, in their original order". */
  lemma {:induction false} RemoveItemAppend(a: seq<Item>, b: seq<Item>, item: Item)
    ensures RemoveItem(a + b, item) == RemoveItem(a, item) + RemoveItem(b, item)
  {
    if |a| == 0 {
      assert a + b == b;
    } else {
      assert (a + b)[0] == a[0];
      assert (a + b)[1..] == a[1..] + b;
      RemoveItemAppend(a[1..], b, item);
    }
  }

  /** Filtering never creates a duplicate. */
  lemma {:induction false} RemoveItemKeepsNoDup(s: seq<Item>, item: Item)
    requires NoDup(s)
    ensures NoDup(RemoveItem(s, item))
  {
    if |s| > 0 {
      assert NoDup(s[1..]) by {
        forall i, j | 0 <= i < j < |s[1..]|
          ensures s[1..][i] != s[1..][j]
        {
          assert s[1..][i] == s[i + 1] && s[1..][j] == s[j + 1];
        }
      }
      RemoveItemKeepsNoDup(s[1..], item);
      var rest := RemoveItem(s[1..], item);
      if s[0] != item {
        assert s[0] !in s[1..];
        assert s[0] !in rest;
        var r := [s[0]] + rest;
        forall i, j | 0 <= i < j < |r|
          ensures r[i] != r[j]
        {
          if i == 0 {
            assert r[j] == rest[j - 1];
          } else {
            assert r[i] == rest[i - 1] && r[j] == rest[j - 1];
          }
        }
      }
    }
  }

  /** On a duplicate-free list, deselecting a selected entry shortens it by exactly one. */
  lemma {:induction false} RemoveItemLength(s: seq<Item>, item: Item)
    requires NoDup(s) && item in s
    ensures |RemoveItem(s, item)| == |s| - 1
  {
    var i :| 0 <= i < |s| && s[i] == item;
    assert s == s[..i] + [item] + s[i + 1..];
    RemoveItemAppend(s[..i] + [item], s[i + 1..], item);
    RemoveItemAppend(s[..i], [item], item);
    assert item !in s[..i] by {
      forall k | 0 <= k < i ensures s[..i][k] != item {
        assert s[..i][k] == s[k];
      }
    }
    var tail := s[i + 1..];
    assert item !in tail by {
      forall k | 0 <= k < |tail| ensures tail[k] != item {
        assert tail[k] == s[i + 1 + k];
      }
    }
    assert RemoveItem([item], item) == [];
    assert |s| == |s[..i]| + 1 + |s[i + 1..]|;
  }

  /** On a duplicate-free list, removing the last entry is dropping the last element. */
  lemma {:induction false} RemoveLastEntry(s: seq<Item>)
    requires NoDup(s) && |s| > 0
    ensures RemoveItem(s, s[|s| - 1]) == s[..|s| - 1]
  {
    var last := s[|s| - 1];
    var init := s[..|s| - 1];
    assert s == init + [last];
    RemoveItemAppend(init, [last], last);
    assert last !in init by {
      forall k | 0 <= k < |init| ensures init[k] != last {
        assert init[k] == s[k];
      }
    }
    assert RemoveItem([last], last) == [];
  }

  /** Appending an unselected entry and then filtering it out restores the list: `removeItem`
      undoes `addSelectedItem`. */
  lemma RemoveUndoesAdd(s: seq<Item>, item: Item)
    requires item !in s
    ensures RemoveItem(AddSelectedItem(s, item), item) == s
  {
    RemoveItemAppend(s, [item], item);
    assert RemoveItem([item], item) == [];
  }

  /** Toggling keeps the selection duplicate-free, and changes its length by exactly one. */
  lemma ToggleKeepsNoDup(s: seq<Item>, item: Item)
    requires NoDup(s)
    ensures NoDup(Toggle(s, item))
    ensures |Toggle(s, item)| == if item in s then |s| - 1 else |s| + 1
  {
    if item in s {
      RemoveItemKeepsNoDup(s, item);
      RemoveItemLength(s, item);
    } else {
      var r := s + [item];
      forall i, j | 0 <= i < j < |r|
        ensures r[i] != r[j]
      {
        if j == |s| {
          assert r[i] == s[i];
        } else {
          assert r[i] == s[i] && r[j] == s[j];
        }
      }
    }
  }

  /** Selecting an unselected entry twice gives the list back. */
  lemma ToggleTwiceFromAbsent(s: seq<Item>, item: Item)
    requires item !in s
    ensures Toggle(s, item) == s + [item]
    ensures Toggle(Toggle(s, item), item) == s
  {
    RemoveUndoesAdd(s, item);
  }

  /** Selecting an already selected entry twice moves it to the end: first it is filtered out,
      then appended again. */
  lemma ToggleTwiceFromPresent(s: seq<Item>, item: Item)
    requires item in s
    ensures Toggle(Toggle(s, item), item) == RemoveItem(s, item) + [item]
  {
  }

  /** The move is visible: with two entries selected, toggling the first one twice swaps them. */
  lemma ToggleTwiceReorders(a: Item, b: Item)
    requires a != b
    ensures Toggle(Toggle([a, b], a), a) == [b, a]
    ensures Toggle(Toggle([a, b], a), a) != [a, b]
  {
  }

  /** On a duplicate-free list, picking an entry twice gives the list back exactly when the entry
      was not selected, or was the most recently selected one. */
  lemma ToggleTwiceRestores(s: seq<Item>, item: Item)
    requires NoDup(s)
    ensures Toggle(Toggle(s, item), item) == s <==> item !in s || (|s| > 0 && item == s[|s| - 1])
  {
    if item !in s {
      ToggleTwiceFromAbsent(s, item);
    } else {
      var r := RemoveItem(s, item) + [item];
      ToggleTwiceFromPresent(s, item);
      if item == s[|s| - 1] {
        RemoveLastEntry(s);
        assert s == s[..|s| - 1] + [item];
      } else {
        assert r[|r| - 1] == item;
        assert r != s;
      }
    }
  }

  /** Selecting an unselected entry three times leaves it selected once, at the end. */
  lemma ToggleThriceFromAbsent(s: seq<Item>, item: Item)
    requires NoDup(s) && item !in s
    ensures Toggle(Toggle(Toggle(s, item), item), item) == s + [item]
    ensures NoDup(Toggle(Toggle(Toggle(s, item), item), item))
  {
    ToggleTwiceFromAbsent(s, item);
    ToggleKeepsNoDup(s, item);
  }
}
