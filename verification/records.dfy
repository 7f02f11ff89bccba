/**
 The persisted state of the URL shortener: one ordered sequence of records
 `{id, link, addedAt}` (the `urls` field of the store document). Every route
 reads this sequence, transforms it and possibly writes it back whole.
 */
module Records {

  datatype Option<+T> = None | Some(value: T)

  /**
   One short-URL entry. `addedAt` is the creation instant in integer
   milliseconds; `None` stands for a stored timestamp that does not parse as a
   date, whose age then compares as NaN.
   */
  datatype Record = Record(id: string, link: string, addedAt: Option<int>)

  /** The whole store, in insertion order. Ids are not required to be distinct. */
  type Store = seq<Record>

  /** Some record of `s` carries `id`. */
  predicate HasId(s: Store, id: string) {
    exists i :: 0 <= i < |s| && s[i].id == id
  }

  /** No two records share an id (expected of nanoid's ids, not checked by the handlers). */
  predicate UniqueIds(s: Store) {
    forall i, j :: 0 <= i < j < |s| ==> s[i].id != s[j].id
  }

  /**
   The position of the first record whose id is `id`, scanning from the front
   as `Array.prototype.find` does.
   */
  function FirstIndexOf(s: Store, id: string): (r: Option<nat>)
    ensures r.None? <==> !HasId(s, id)
    ensures r.Some? ==> r.value < |s| && s[r.value].id == id
    ensures r.Some? ==> forall j :: 0 <= j < r.value ==> s[j].id != id
  {
    if |s| == 0 then None
    else if s[0].id == id then Some(0)
    else match FirstIndexOf(s[1..], id)
      case None => None
      case Some(k) => Some(k + 1)
  }
}
