/** The list transforms that the shopping-items synchroniser applies to its
    `items` (src/features/shopping/hooks/useShoppingItems.ts): each optimistic
    edit and each rollback is a pure function of the list, and the lemmas here
    say what a failed operation leaves behind. */
module ItemLists {
  import opened Wrappers
  import opened ShoppingTypes

  // ---------------------------------------------------------------------------
  // Searching and filtering by id
  // ---------------------------------------------------------------------------

  /** The items whose id is not `id`, in their original order. */
  function WithoutId(items: seq<Item>, id: string): (r: seq<Item>)
    ensures |r| <= |items|
    ensures forall x :: x in r <==> x in items && x.id != id
  {
    if items == [] then []
    else if items[0].id == id then WithoutId(items[1..], id)
    else [items[0]] + WithoutId(items[1..], id)
  }

  /** The first item whose id is `id`, if any. */
  function FindById(items: seq<Item>, id: string): (r: Option<Item>)
    ensures r.Some? <==> exists x :: x in items && x.id == id
    ensures r.Some? ==> r.value in items && r.value.id == id
    ensures r.Some? ==> exists i :: 0 <= i < |items| && items[i] == r.value &&
                                    forall j :: 0 <= j < i ==> items[j].id != id
  {
    if items == [] then None
    else if items[0].id == id then Some(items[0])
    else
      var r := FindById(items[1..], id);
      if r.Some? then
        var i :| 0 <= i < |items[1..]| && items[1..][i] == r.value &&
                 forall j :: 0 <= j < i ==> items[1..][j].id != id;
        assert items[i + 1] == r.value;
        r
      else r
  }

  /** No two items share an id (the backend's primary key). */
  predicate UniqueIds(items: seq<Item>) {
    forall i, j :: 0 <= i < j < |items| ==> items[i].id != items[j].id
  }

  lemma {:induction false} WithoutAbsentId(items: seq<Item>, id: string)
    requires forall x :: x in items ==> x.id != id
    ensures WithoutId(items, id) == items
  {
    if items != [] {
      assert items[0] in items;
      WithoutAbsentId(items[1..], id);
      assert items == [items[0]] + items[1..];
    }
  }

  // ---------------------------------------------------------------------------
  // Adding an item
  // ---------------------------------------------------------------------------

  /** `value || undefined` on an optional string: an empty string counts as missing. */
  function OrUndefined(s: Option<string>): (r: Option<string>)
    ensures r.Some? <==> s.Some? && s.value != ""
    ensures r.Some? ==> r == s
  {
    if s.Some? && s.value != "" then s else None
  }

  /** The row handed to the backend's insert. */
  datatype NewItem = NewItem(
    title: string,
    categoryId: CategoryRef,
    quantity: Option<string>,
    familyId: string,
    addedBy: Option<string>,
    isNeeded: bool,
    isCompleted: bool)

  /** The row `addItem` inserts: the category id and the quantity are dropped
      when missing or empty, and the adding user is the first user row of the
      family, if it has a non-empty id. */
  function NewItemFor(family: Family, title: string, categoryId: Option<string>,
                      quantity: Option<string>, users: seq<User>): (n: NewItem)
    ensures n.title == title && n.familyId == family.id
    ensures n.isNeeded && !n.isCompleted
    ensures n.categoryId.Absent? <==> categoryId.None? || categoryId.value == ""
    ensures n.categoryId.Ref? ==> categoryId == Some(n.categoryId.id)
    ensures !n.categoryId.Null?
    ensures n.quantity == OrUndefined(quantity)
    ensures n.addedBy.Some? <==> users != [] && users[0].id != ""
    ensures n.addedBy.Some? ==> n.addedBy.value == users[0].id
  {
    var cat := OrUndefined(categoryId);
    var user := if users == [] then None else OrUndefined(Some(users[0].id));
    NewItem(title, if cat.Some? then Ref(cat.value) else Absent, OrUndefined(quantity),
            family.id, user, true, false)
  }

  /** The placeholder item shown until the backend's own row arrives. */
  function TempItem(row: NewItem, tempId: string, now: int, users: seq<User>): (x: Item)
    ensures x.id == tempId && x.createdAt == now
    ensures x.title == row.title && x.familyId == row.familyId
    ensures x.categoryId == row.categoryId && x.quantity == row.quantity
    ensures x.isCompleted == row.isCompleted && x.completedAt.None? && x.completedBy.None?
    ensures x.category.None? && x.unit.None? && x.notes.None?
    ensures x.isNeeded == row.isNeeded && x.addedBy == row.addedBy
    ensures x.addedByUser == (if users == [] then None else Some(users[0]))
  {
    Item(tempId, row.familyId, row.title, row.quantity, None, row.categoryId,
         row.isNeeded, row.isCompleted, row.addedBy, None, None, None, now,
         None, if users == [] then None else Some(users[0]))
  }

  /** A failed insert filters out every item carrying the temporary id; when that id
      was fresh this gives back exactly the list from before the add. */
  lemma {:induction false} AddRollbackRestores(items: seq<Item>, temp: Item)
    requires forall x :: x in items ==> x.id != temp.id
    ensures WithoutId([temp] + items, temp.id) == items
  {
    assert ([temp] + items)[1..] == items;
    WithoutAbsentId(items, temp.id);
  }

  // ---------------------------------------------------------------------------
  // Toggling completion
  // ---------------------------------------------------------------------------

  /** The update sent to the backend by a toggle. */
  datatype TogglePatch = TogglePatch(isCompleted: bool, completedAt: Option<int>)

  function TogglePatchFor(isCompleted: bool, now: int): (p: TogglePatch)
    ensures p.isCompleted == !isCompleted
    ensures p.completedAt.Some? <==> p.isCompleted
    ensures p.completedAt.Some? ==> p.completedAt.value == now
  {
    TogglePatch(!isCompleted, if !isCompleted then Some(now) else None)
  }

  /** The optimistic step of a toggle: items with the id get the flipped flag, and a
      completion time exactly when they become completed. */
  function ToggleOptimistic(items: seq<Item>, id: string, isCompleted: bool, now: int): (r: seq<Item>)
    ensures |r| == |items|
    ensures forall i :: 0 <= i < |items| && items[i].id != id ==> r[i] == items[i]
    ensures forall i :: 0 <= i < |items| && items[i].id == id ==>
      && r[i].isCompleted == !isCompleted
      && CompletionConsistent(r[i])
      && (r[i].completedAt.Some? ==> r[i].completedAt.value == now)
      && r[i].(isCompleted := items[i].isCompleted, completedAt := items[i].completedAt) == items[i]
  {
    seq(|items|, i requires 0 <= i < |items| =>
      if items[i].id == id then
        items[i].(isCompleted := !isCompleted, completedAt := if !isCompleted then Some(now) else None)
      else items[i])
  }

  /** The rollback of a failed toggle as the source writes it: the flag goes back to
      `isCompleted`, and the completion time is kept only when that flag is true,
      taken from the list as the optimistic step left it. */
  function ToggleRollback(items: seq<Item>, id: string, isCompleted: bool): (r: seq<Item>)
    ensures |r| == |items|
    ensures forall i :: 0 <= i < |items| && items[i].id != id ==> r[i] == items[i]
    ensures forall i :: 0 <= i < |items| && items[i].id == id ==>
      && r[i].isCompleted == isCompleted
      && (isCompleted ==> r[i].completedAt == items[i].completedAt)
      && (!isCompleted ==> r[i].completedAt.None?)
      && r[i].(isCompleted := items[i].isCompleted, completedAt := items[i].completedAt) == items[i]
  {
    seq(|items|, i requires 0 <= i < |items| =>
      if items[i].id == id then
        items[i].(isCompleted := isCompleted,
                  completedAt := if isCompleted then items[i].completedAt else None)
      else items[i])
  }

  /** A failed incomplete-to-complete toggle restores the list exactly when every
      item with the id was incomplete with no completion time, the state the
      data-model invariant gives an incomplete item. */
  lemma {:induction false} FailedCompletionRestores(items: seq<Item>, id: string, now: int)
    ensures ToggleRollback(ToggleOptimistic(items, id, false, now), id, false) == items
        <==> forall i :: 0 <= i < |items| && items[i].id == id ==>
               !items[i].isCompleted && items[i].completedAt.None?
  {
    var r := ToggleRollback(ToggleOptimistic(items, id, false, now), id, false);
    if forall i :: 0 <= i < |items| && items[i].id == id ==>
         !items[i].isCompleted && items[i].completedAt.None? {
      assert forall i :: 0 <= i < |items| ==> r[i] == items[i];
    } else {
      var i :| 0 <= i < |items| && items[i].id == id &&
               !(!items[i].isCompleted && items[i].completedAt.None?);
      assert r[i] != items[i];
    }
  }

  /** A failed complete-to-incomplete toggle leaves every item with the id completed
      but without a completion time: the rollback reads the time the optimistic step
      has already cleared, so the data-model invariant is broken. */
  lemma {:induction false} RollbackLosesCompletionTime(items: seq<Item>, id: string, now: int)
    ensures var r := ToggleRollback(ToggleOptimistic(items, id, true, now), id, true);
      forall i :: 0 <= i < |items| && items[i].id == id ==>
        r[i].isCompleted && r[i].completedAt.None? && !CompletionConsistent(r[i])
  {
    var o := ToggleOptimistic(items, id, true, now);
    var r := ToggleRollback(o, id, true);
    forall i | 0 <= i < |items| && items[i].id == id
      ensures r[i].isCompleted && r[i].completedAt.None?
    {
      assert o[i].id == id && o[i].completedAt.None?;
    }
  }

  /** A completed item with its completion time, on which the failed toggle leaves a
      completed item without one. */
  lemma ToggleRollbackCounterexample(x: Item, now: int)
    requires x.isCompleted && x.completedAt.Some?
    ensures AllConsistent([x])
    ensures !AllConsistent(ToggleRollback(ToggleOptimistic([x], x.id, true, now), x.id, true))
  {
    RollbackLosesCompletionTime([x], x.id, now);
    var r := ToggleRollback(ToggleOptimistic([x], x.id, true, now), x.id, true);
    assert !CompletionConsistent(r[0]);
  }

  /** The rollback the toggle evidently intends: every item with the id gets back
      the flag and the completion time it had before the toggle (`before` is the
      list the optimistic step started from). */
  function RestoreToggle(before: seq<Item>, after: seq<Item>, id: string): (r: seq<Item>)
    requires |before| == |after|
    ensures |r| == |after|
    ensures forall i :: 0 <= i < |after| && after[i].id != id ==> r[i] == after[i]
    ensures forall i :: 0 <= i < |after| && after[i].id == id ==>
      && r[i].isCompleted == before[i].isCompleted
      && r[i].completedAt == before[i].completedAt
      && r[i].(isCompleted := after[i].isCompleted, completedAt := after[i].completedAt) == after[i]
  {
    seq(|after|, i requires 0 <= i < |after| =>
      if after[i].id == id then
        after[i].(isCompleted := before[i].isCompleted, completedAt := before[i].completedAt)
      else after[i])
  }

  /** The intended rollback undoes the optimistic toggle exactly, for either
      direction, so the data-model invariant holds again whenever it held before. */
  lemma {:induction false} RestoreToggleUndoesToggle(items: seq<Item>, id: string, isCompleted: bool, now: int)
    ensures RestoreToggle(items, ToggleOptimistic(items, id, isCompleted, now), id) == items
    ensures AllConsistent(items) ==>
      AllConsistent(RestoreToggle(items, ToggleOptimistic(items, id, isCompleted, now), id))
  {
    var o := ToggleOptimistic(items, id, isCompleted, now);
    var r := RestoreToggle(items, o, id);
    forall i | 0 <= i < |items| ensures r[i] == items[i] {
      if items[i].id == id {
        assert o[i].id == id;
      }
    }
  }

  // ---------------------------------------------------------------------------
  // Deleting
  // ---------------------------------------------------------------------------

  /** The pre-delete copy as a list of zero or one items. */
  function Retained(found: Option<Item>): (r: seq<Item>)
    ensures found.None? ==> r == []
    ensures found.Some? ==> r == [found.value]
  {
    if found.Some? then [found.value] else []
  }

  /** A failed delete re-appends the retained copy: with unique ids the list holds the
      same items as before the delete (only the deleted one moved to the end), and a
      delete of an absent id leaves the list as it was. */
  lemma {:induction false} DeleteRollbackRestoresContent(items: seq<Item>, id: string)
    requires UniqueIds(items)
    ensures multiset(WithoutId(items, id) + Retained(FindById(items, id))) == multiset(items)
    ensures FindById(items, id).None? ==> WithoutId(items, id) + Retained(FindById(items, id)) == items
  {
    if items == [] {
    } else if items[0].id == id {
      DeletedHeadMovesToEnd(items, id);
    } else {
      var rest := items[1..];
      assert UniqueIds(rest) by {
        forall i, j | 0 <= i < j < |rest| ensures rest[i].id != rest[j].id {
          assert rest[i] == items[i + 1] && rest[j] == items[j + 1];
        }
      }
      DeleteRollbackRestoresContent(rest, id);
      KeptHeadStaysFirst(items, id);
      if FindById(items, id).None? {
        WithoutAbsentId(items, id);
      }
    }
  }

  /** Deleting the first item and putting it back moves it to the end. */
  lemma DeletedHeadMovesToEnd(items: seq<Item>, id: string)
    requires UniqueIds(items) && items != [] && items[0].id == id
    ensures WithoutId(items, id) + Retained(FindById(items, id)) == items[1..] + [items[0]]
    ensures multiset(WithoutId(items, id) + Retained(FindById(items, id))) == multiset(items)
  {
    var rest := items[1..];
    UniqueHeadId(items);
    WithoutAbsentId(rest, id);
    RotatedSameItems(items);
  }

  /** With unique ids no later item shares the first item's id. */
  lemma UniqueHeadId(items: seq<Item>)
    requires UniqueIds(items) && items != []
    ensures forall x :: x in items[1..] ==> x.id != items[0].id
  {
    forall x | x in items[1..] ensures x.id != items[0].id {
      var j :| 0 <= j < |items[1..]| && items[1..][j] == x;
      assert items[j + 1] == x;
    }
  }

  lemma RotatedSameItems(items: seq<Item>)
    requires items != []
    ensures multiset(items[1..] + [items[0]]) == multiset(items)
  {
    assert items == [items[0]] + items[1..];
  }

  /** A first item with another id stays first through the delete and its rollback. */
  lemma KeptHeadStaysFirst(items: seq<Item>, id: string)
    requires items != [] && items[0].id != id
    requires multiset(WithoutId(items[1..], id) + Retained(FindById(items[1..], id))) == multiset(items[1..])
    ensures multiset(WithoutId(items, id) + Retained(FindById(items, id))) == multiset(items)
  {
    KeptHeadUnfold(items, id);
    ConsSameItems(items, WithoutId(items[1..], id), Retained(FindById(items[1..], id)));
  }

  lemma ConsSameItems(items: seq<Item>, a: seq<Item>, b: seq<Item>)
    requires items != [] && multiset(a + b) == multiset(items[1..])
    ensures multiset([items[0]] + a + b) == multiset(items)
  {
    assert [items[0]] + a + b == [items[0]] + (a + b);
    assert items == [items[0]] + items[1..];
  }

  lemma KeptHeadUnfold(items: seq<Item>, id: string)
    requires items != [] && items[0].id != id
    ensures WithoutId(items, id) == [items[0]] + WithoutId(items[1..], id)
    ensures FindById(items, id) == FindById(items[1..], id)
  {
  }

  // ---------------------------------------------------------------------------
  // Completed and incomplete items, clear-completed, stats
  // ---------------------------------------------------------------------------

  /** `items.filter(item => item.is_completed)`. */
  function Completed(items: seq<Item>): (r: seq<Item>)
    ensures |r| <= |items|
    ensures forall x :: x in r <==> x in items && x.isCompleted
  {
    if items == [] then []
    else if items[0].isCompleted then [items[0]] + Completed(items[1..])
    else Completed(items[1..])
  }

  /** `items.filter(item => !item.is_completed)`. */
  function Incomplete(items: seq<Item>): (r: seq<Item>)
    ensures |r| <= |items|
    ensures forall x :: x in r <==> x in items && !x.isCompleted
  {
    if items == [] then []
    else if !items[0].isCompleted then [items[0]] + Incomplete(items[1..])
    else Incomplete(items[1..])
  }

  /** `items.map(item => item.id)`. */
  function Ids(items: seq<Item>): (r: seq<string>)
    ensures |r| == |items|
    ensures forall i :: 0 <= i < |items| ==> r[i] == items[i].id
  {
    seq(|items|, i requires 0 <= i < |items| => items[i].id)
  }

  /** Every item is either completed or not: the two filters split the list, so
      re-appending the completed items after a failed clear gives back the same items. */
  lemma {:induction false} CompletionSplit(items: seq<Item>)
    ensures |Completed(items)| + |Incomplete(items)| == |items|
    ensures multiset(Incomplete(items) + Completed(items)) == multiset(items)
  {
    if items != [] {
      CompletionSplit(items[1..]);
      assert items == [items[0]] + items[1..];
    }
  }

  /** With nothing completed, the optimistic clear would keep the whole list. */
  lemma {:induction false} NothingCompletedKeepsAll(items: seq<Item>)
    requires forall x :: x in items ==> !x.isCompleted
    ensures Incomplete(items) == items && Completed(items) == []
  {
    if items != [] {
      assert items[0] in items;
      NothingCompletedKeepsAll(items[1..]);
      assert items == [items[0]] + items[1..];
    }
  }

  /** The number of items whose completion flag is `completed`, counted one item
      at a time from the back of the list. */
  function CountWhere(items: seq<Item>, completed: bool): nat {
    if items == [] then 0
    else CountWhere(items[..|items| - 1], completed) + (if items[|items| - 1].isCompleted == completed then 1 else 0)
  }

  /** Counting from the front agrees with counting from the back. */
  lemma {:induction false} CountWhereCons(items: seq<Item>, completed: bool)
    requires items != []
    ensures CountWhere(items, completed) ==
      (if items[0].isCompleted == completed then 1 else 0) + CountWhere(items[1..], completed)
    decreases |items|
  {
    if |items| > 1 {
      var init := items[..|items| - 1];
      CountWhereCons(init, completed);
      assert init[1..] == items[1..][..|items| - 2];
      assert init[0] == items[0];
    } else {
      assert items[..0] == [] && items[1..] == [];
    }
  }

  /** The two filters keep exactly as many items as there are of their kind. */
  lemma {:induction false} FiltersCount(items: seq<Item>)
    ensures |Completed(items)| == CountWhere(items, true)
    ensures |Incomplete(items)| == CountWhere(items, false)
  {
    if items != [] {
      FiltersCount(items[1..]);
      CountWhereCons(items, true);
      CountWhereCons(items, false);
    }
  }

  /** The totals shown in the header. */
  datatype Stats = Stats(total: nat, completed: nat, remaining: nat)

  function StatsOf(items: seq<Item>): (s: Stats)
    ensures s.total == |items|
    ensures s.completed + s.remaining == s.total
    ensures s.completed == 0 <==> forall x :: x in items ==> !x.isCompleted
    ensures s.remaining == 0 <==> forall x :: x in items ==> x.isCompleted
    ensures s.completed == CountWhere(items, true) && s.remaining == CountWhere(items, false)
  {
    CompletionSplit(items);
    FiltersCount(items);
    var c := Completed(items);
    var n := Incomplete(items);
    assert c != [] ==> c[0] in c;
    assert n != [] ==> n[0] in n;
    Stats(|items|, |c|, |n|)
  }
}
