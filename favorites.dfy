/** The favorites ledger: an id list stored under its own key, toggled one id at a time. */
module Favorites {
  import opened Wrappers
  import opened Lists
  import opened Store

  /** The ledger as read from its slot: absent or empty text is the empty list. */
  function Ledger(slot: Option<Blob<seq<string>>>): (r: Option<seq<string>>)
    ensures r.None? <==> slot == Some(Unparseable)
    ensures slot.None? || slot == Some(EmptyText) ==> r == Some([])
    ensures slot.Some? && slot.value.Encoded? ==> r == Some(slot.value.value)
  {
    Read(slot, [])
  }

  /** What `isFavorite` answers when the store read itself succeeds. */
  predicate IsFavoriteIn(slot: Option<Blob<seq<string>>>, id: string) {
    Ledger(slot).Some? && id in Ledger(slot).value
  }

  /** Every copy of `id` filtered out (`favorites.filter(x => x !== id)`). */
  function Without(favorites: seq<string>, id: string): (r: seq<string>)
    ensures id !in r
    ensures forall x :: x != id ==> (x in r <==> x in favorites)
  {
    Filter(favorites, x => x != id)
  }

  /** The list after one toggle of `id`: removed everywhere when present, else pushed at the end. */
  function Toggled(favorites: seq<string>, id: string): (r: seq<string>)
    ensures id in r <==> id !in favorites
    ensures forall x :: x != id ==> (x in r <==> x in favorites)
  {
    if id in favorites then Without(favorites, id) else favorites + [id]
  }

  /** Toggling an id that is not a favorite twice gives back the very same list. */
  lemma ToggleTwiceAbsent(favorites: seq<string>, id: string)
    requires id !in favorites
    ensures Toggled(Toggled(favorites, id), id) == favorites
  {
    var p := (x: string) => x != id;
    FilterAppend(favorites, [id], p);
    FilterKeepsAll(favorites, p);
    FilterSingleton(id, p);
  }

  /**
   * Toggling a favorite twice keeps every id's membership; the id itself moves to the end and
   * its duplicates collapse into one.
   */
  lemma ToggleTwicePresent(favorites: seq<string>, id: string)
    requires id in favorites
    ensures Toggled(Toggled(favorites, id), id) == Without(favorites, id) + [id]
    ensures forall x :: x in Toggled(Toggled(favorites, id), id) <==> x in favorites
  {
  }
}
