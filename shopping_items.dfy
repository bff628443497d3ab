/** The shopping-items synchroniser (src/features/shopping/hooks/useShoppingItems.ts).
    Its state is the cached item list, a loading flag, the latest error message
    and the connectivity and syncing flags. Every remote call is replaced by a
    parameter carrying its outcome, and each operation runs atomically: its
    optimistic edit first, then, only when the outcome is a failure, its rollback. */
module ShoppingItems {
  import opened Wrappers
  import opened ShoppingTypes
  import opened ItemLists

  /** The outcome of a write (insert, update or delete). */
  datatype Outcome = Pass | Fail(message: string)

  /** The outcome of the item query; a successful query may return no array at all. */
  datatype FetchOutcome = Fetched(rows: Option<seq<Item>>) | FetchFailed(message: string)

  class ShoppingItemsStore {
    var items: seq<Item>
    var loading: bool
    var error: Option<string>
    var isOnline: bool
    var isSyncing: bool

    /** The hook's initial state; `online` is the browser's connectivity at start-up. */
    constructor (online: bool)
      ensures items == [] && loading && error.None?
      ensures isOnline == online && !isSyncing
    {
      items := [];
      loading := true;
      error := None;
      isOnline := online;
      isSyncing := false;
    }

    /** Loads the family's items. Without a family nothing happens (not even the
        loading flag changes); otherwise a success replaces the whole list and
        clears the error, a failure keeps the list and records the message, and
        loading ends either way. Returns the family id the query was scoped to. */
    method FetchItems(family: Option<Family>, outcome: FetchOutcome) returns (queried: Option<string>)
      modifies this
      ensures family.None? ==> queried.None? && unchanged(this)
      ensures family.Some? ==> queried == Some(family.value.id) && !loading
      ensures family.Some? && outcome.Fetched? ==>
                items == outcome.rows.GetOr([]) && error.None?
      ensures family.Some? && outcome.FetchFailed? ==>
                items == old(items) && error == Some(outcome.message)
      ensures isOnline == old(isOnline) && isSyncing == old(isSyncing)
    {
      if family.None? {
        return None;
      }
      queried := Some(family.value.id);
      match outcome {
        case FetchFailed(message) =>
          error := Some(message);
        case Fetched(rows) =>
          items := rows.GetOr([]);
          error := None;
      }
      loading := false;
    }

    /** A change notification on the realtime channel: whatever its payload, the
        list is fetched again with the syncing flag raised around the fetch. */
    method OnRealtimeChange(family: Option<Family>, outcome: FetchOutcome) returns (queried: Option<string>)
      modifies this
      ensures family.Some? ==> queried == Some(family.value.id) && !loading
      ensures family.None? ==> queried.None? && items == old(items) && error == old(error)
                               && loading == old(loading)
      ensures family.Some? && outcome.Fetched? ==>
                items == outcome.rows.GetOr([]) && error.None?
      ensures family.Some? && outcome.FetchFailed? ==>
                items == old(items) && error == Some(outcome.message)
      ensures isOnline == old(isOnline) && !isSyncing
    {
      isSyncing := true;
      queried := FetchItems(family, outcome);
      isSyncing := false;
    }

    /** The browser went online: the flag is set and, with a family, the list is fetched again. */
    method OnOnline(family: Option<Family>, outcome: FetchOutcome) returns (queried: Option<string>)
      modifies this
      ensures isOnline && isSyncing == old(isSyncing)
      ensures family.Some? ==> queried == Some(family.value.id) && !loading
      ensures family.None? ==> queried.None? && items == old(items) && error == old(error)
                               && loading == old(loading)
      ensures family.Some? && outcome.Fetched? ==>
                items == outcome.rows.GetOr([]) && error.None?
      ensures family.Some? && outcome.FetchFailed? ==>
                items == old(items) && error == Some(outcome.message)
    {
      isOnline := true;
      queried := None;
      if family.Some? {
        queried := FetchItems(family, outcome);
      }
    }

    /** The browser went offline: only the flag changes. */
    method OnOffline()
      modifies this
      ensures !isOnline
      ensures items == old(items) && error == old(error) && loading == old(loading)
      ensures isSyncing == old(isSyncing)
    {
      isOnline := false;
    }

    /** Adds an item. Without a family the error becomes "No family found" and
        nothing else happens. Otherwise a placeholder with the caller's temporary
        id, created at `now`, is put in front of the list before the insert; a
        failed insert filters out every item with that id and records the message,
        and a successful one leaves the placeholder (and the error) in place.
        `users` is the family's user rows as the lookup returned them.
        Returns the row handed to the insert. */
    method AddItem(family: Option<Family>, title: string, categoryId: Option<string>,
                   quantity: Option<string>, users: seq<User>, tempId: string, now: int,
                   outcome: Outcome)
      returns (inserted: Option<NewItem>)
      modifies this
      ensures family.None? ==>
                inserted.None? && items == old(items) && error == Some("No family found")
      ensures family.Some? ==>
                inserted == Some(NewItemFor(family.value, title, categoryId, quantity, users))
      ensures family.Some? && outcome.Pass? ==>
                && items == [TempItem(inserted.value, tempId, now, users)] + old(items)
                && error == old(error)
      ensures family.Some? && outcome.Fail? ==>
                && items == WithoutId([TempItem(inserted.value, tempId, now, users)] + old(items), tempId)
                && error == Some(outcome.message)
      ensures family.Some? && outcome.Fail? && (forall x :: x in old(items) ==> x.id != tempId) ==>
                items == old(items)
      ensures loading == old(loading) && isOnline == old(isOnline) && isSyncing == old(isSyncing)
    {
      if family.None? {
        error := Some("No family found");
        return None;
      }
      var row := NewItemFor(family.value, title, categoryId, quantity, users);
      inserted := Some(row);
      var temp := TempItem(row, tempId, now, users);
      items := [temp] + items;
      if outcome.Fail? {
        items := WithoutId(items, tempId);
        error := Some(outcome.message);
        if forall x :: x in old(items) ==> x.id != tempId {
          AddRollbackRestores(old(items), temp);
        }
      }
    }

    /** Toggles the completion of the items with `id`; `isCompleted` is their
        completion as the caller saw it. The optimistic edit flips the flag and
        sets a completion time exactly when the item becomes completed; a failed
        update puts back the items' completion as it was before the edit (the
        corrected rollback, `RestoreToggle`) and records the message. Returns the
        update sent to the backend. */
    method ToggleItem(id: string, isCompleted: bool, now: int, outcome: Outcome)
      returns (patch: TogglePatch)
      modifies this
      ensures patch == TogglePatchFor(isCompleted, now)
      ensures outcome.Pass? ==>
                items == ToggleOptimistic(old(items), id, isCompleted, now) && error == old(error)
      ensures outcome.Fail? ==> items == old(items) && error == Some(outcome.message)
      ensures AllConsistent(old(items)) ==> AllConsistent(items)
      ensures |items| == |old(items)|
      ensures forall i :: 0 <= i < |items| && old(items)[i].id != id ==> items[i] == old(items)[i]
      ensures loading == old(loading) && isOnline == old(isOnline) && isSyncing == old(isSyncing)
    {
      var before := items;
      items := ToggleOptimistic(items, id, isCompleted, now);
      patch := TogglePatchFor(isCompleted, now);
      if outcome.Fail? {
        items := RestoreToggle(before, items, id);
        error := Some(outcome.message);
        RestoreToggleUndoesToggle(before, id, isCompleted, now);
      }
    }

    /** Deletes the items with `id`. The first of them is kept aside before they are
        filtered out; a failed delete appends that copy at the end (when there was
        one) and records the message. */
    method DeleteItem(id: string, outcome: Outcome)
      modifies this
      ensures outcome.Pass? ==> items == WithoutId(old(items), id) && error == old(error)
      ensures outcome.Fail? ==>
                && items == WithoutId(old(items), id) + Retained(FindById(old(items), id))
                && error == Some(outcome.message)
      ensures outcome.Fail? && UniqueIds(old(items)) ==> multiset(items) == multiset(old(items))
      ensures loading == old(loading) && isOnline == old(isOnline) && isSyncing == old(isSyncing)
    {
      var deleted := FindById(items, id);
      items := WithoutId(items, id);
      if outcome.Fail? {
        if deleted.Some? {
          items := items + [deleted.value];
        }
        error := Some(outcome.message);
        if UniqueIds(old(items)) {
          DeleteRollbackRestoresContent(old(items), id);
        }
      }
    }

    /** Deletes every completed item in one bulk delete. With nothing completed it
        does nothing and sends nothing. Otherwise the incomplete items are kept in
        their order and the ids of the completed ones, in list order, are sent; a
        failed delete appends the completed items again, in their order, and records
        the message. Returns the ids sent, if any. */
    method ClearCompleted(outcome: Outcome) returns (deletedIds: Option<seq<string>>)
      modifies this
      ensures Completed(old(items)) == [] ==> deletedIds.None? && unchanged(this)
      ensures Completed(old(items)) != [] ==> deletedIds == Some(Ids(Completed(old(items))))
      ensures Completed(old(items)) != [] && outcome.Pass? ==>
                items == Incomplete(old(items)) && error == old(error)
      ensures Completed(old(items)) != [] && outcome.Fail? ==>
                && items == Incomplete(old(items)) + Completed(old(items))
                && multiset(items) == multiset(old(items))
                && error == Some(outcome.message)
      ensures loading == old(loading) && isOnline == old(isOnline) && isSyncing == old(isSyncing)
    {
      var completedIds := Ids(Completed(items));
      if |completedIds| == 0 {
        return None;
      }
      deletedIds := Some(completedIds);
      var completedItems := Completed(items);
      items := Incomplete(items);
      if outcome.Fail? {
        items := items + completedItems;
        error := Some(outcome.message);
        CompletionSplit(old(items));
      }
    }
  }
}
