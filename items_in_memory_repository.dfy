/** ItemsInMemoryRepository: the staging store, one cache slot under the key
    "PendingItems" that holds the last list saved. */
module MemoryRepository {
  import opened Wrappers
  import opened Models

  class ItemsInMemoryRepository {
    /** The cache entry "PendingItems"; None when the key is absent. */
    var pendingItems: Option<seq<Item>>

    /** A fresh cache holds no entry. */
    constructor ()
      ensures pendingItems == None
    {
      pendingItems := None;
    }

    /** The list GetAsync hands out: the staged list, or the empty list when nothing is staged. */
    function Staged(): seq<Item>
      reads this
    {
      if pendingItems.Some? then pendingItems.value else []
    }

    /** SaveAsync: the slot now holds a copy of items, whatever it held before. */
    method Save(items: seq<Item>)
      modifies this
      ensures pendingItems == Some(items)
    {
      pendingItems := Some(items);
    }

    /** GetAsync: the staged list in the order it was saved, or the empty list; the slot
        is left as it is. */
    method Get() returns (items: seq<Item>)
      ensures pendingItems.Some? ==> items == pendingItems.value
      ensures pendingItems.None? ==> items == []
    {
      if pendingItems.Some? {
        items := pendingItems.value;
      } else {
        items := [];
      }
    }

    /** ClearAsync: the entry is removed; removing an absent key is allowed. */
    method Clear()
      modifies this
      ensures pendingItems == None
    {
      pendingItems := None;
    }
  }

  /** The staging store's contract as one sequence of calls: Get returns what Save stored,
      in the same order; a second Save replaces the first; after Clear, and after a
      second Clear, Get returns the empty list; Get leaves the slot alone. */
  method StagingRoundTrip(store: ItemsInMemoryRepository, xs: seq<Item>, ys: seq<Item>)
    modifies store
    ensures store.pendingItems == None
  {
    store.Save(xs);
    var got := store.Get();
    assert got == xs;
    var again := store.Get();
    assert again == got;
    store.Save(ys);
    got := store.Get();
    assert got == ys;
    store.Clear();
    got := store.Get();
    assert got == [];
    store.Clear();
    got := store.Get();
    assert got == [];
  }
}
