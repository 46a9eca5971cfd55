/** Catalog entries and the small value types shared by the rest of the model. */
module Items {

  /** One entry of the catalog the dropdown offers. The catalog is built once from a list of
      names, each paired with its lower-cased form as `id`.

      The controller decides membership with JavaScript reference equality (`includes`, `!==`).
      Every item it ever sees comes from that one catalog array, built once, so two entries are
      the same object exactly when they are the same entry; Dafny's structural equality on
      `Item` stands in for that, given the catalog's names are distinct. */
  datatype Item = Item(name: string, id: string)

  /** A value that may be missing: `null`/`undefined` in the program. */
  datatype Option<+T> = None | Some(value: T)

  /** No entry appears twice in the selection. */
  predicate NoDup(s: seq<Item>) {
    forall i, j :: 0 <= i < j < |s| ==> s[i] != s[j]
  }

  /** The entry JavaScript's `s[s.length - 1]` reads: the last element, or `undefined`. */
  function LastSelected(s: seq<Item>): (r: Option<Item>)
    ensures r.None? <==> |s| == 0
    ensures r.Some? ==> r.value == s[|s| - 1]
  {
    if |s| == 0 then None else Some(s[|s| - 1])
  }
}
