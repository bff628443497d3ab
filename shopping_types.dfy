/** The records the shopping feature works with (the shape of the backend rows,
    `src/types/database.types.ts` and `src/features/shopping/types.ts`).
    Timestamps are integers (milliseconds); ids and texts are strings. */
module ShoppingTypes {
  import opened Wrappers

  datatype Family = Family(id: string, name: string, createdAt: int)

  datatype Role = Adult | Child

  datatype User = User(
    id: string,
    familyId: string,
    email: Option<string>,
    displayName: string,
    role: Role,
    colorPrimary: string,
    colorAccent: string,
    age: Option<int>,
    avatarEmoji: Option<string>,
    createdAt: int)

  datatype Category = Category(
    id: string,
    familyId: string,
    name: string,
    icon: Option<string>,
    sortOrder: int,
    storeSection: Option<string>)

  /** The value of an item's `category_id`. JavaScript keeps `undefined` (the
      field is missing, as on an item built by the client) apart from `null`
      (what the backend returns for an empty column), and a `Map` keyed by it
      keeps them apart too. */
  datatype CategoryRef = Absent | Null | Ref(id: string)

  /** A shopping item together with its resolved relations. */
  datatype Item = Item(
    id: string,
    familyId: string,
    title: string,
    quantity: Option<string>,
    unit: Option<string>,
    categoryId: CategoryRef,
    isNeeded: bool,
    isCompleted: bool,
    addedBy: Option<string>,
    completedAt: Option<int>,
    completedBy: Option<string>,
    notes: Option<string>,
    createdAt: int,
    category: Option<Category>,
    addedByUser: Option<User>)

  /** The data-model invariant: an item has a completion time exactly when it is completed. */
  predicate CompletionConsistent(x: Item) {
    x.isCompleted <==> x.completedAt.Some?
  }

  predicate AllConsistent(items: seq<Item>) {
    forall i :: 0 <= i < |items| ==> CompletionConsistent(items[i])
  }
}
