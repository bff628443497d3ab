/** The shopping-list screen (src/features/shopping/components/ShoppingList.tsx):
    items are bucketed by category id into a map, the buckets are emitted as
    sections in category order with the uncategorised bucket last, and the
    screen shown depends on the loading and family state. */
module ShoppingList {
  import opened Wrappers
  import opened ShoppingTypes

  // ---------------------------------------------------------------------------
  // Grouping
  // ---------------------------------------------------------------------------

  /** How an item's category id becomes a key of the grouping map. The source uses
      the id as it is (`AsIs`), so a `null` id gets a bucket of its own;
      `NullAsUndefined` folds `null` into the uncategorised `undefined` bucket. */
  datatype Keying = AsIs | NullAsUndefined

  function KeyOf(x: Item, keying: Keying): (k: CategoryRef)
    ensures k.Ref? <==> x.categoryId.Ref?
    ensures k.Ref? ==> k == x.categoryId
    ensures k.Null? <==> keying.AsIs? && x.categoryId.Null?
    ensures k.Absent? <==> x.categoryId.Absent? || (keying.NullAsUndefined? && x.categoryId.Null?)
  {
    if keying.NullAsUndefined? && x.categoryId.Null? then Absent else x.categoryId
  }

  /** The items whose key is `k`, in list order. */
  function ItemsWithKey(items: seq<Item>, k: CategoryRef, keying: Keying): seq<Item> {
    if items == [] then []
    else
      var init, last := items[..|items| - 1], items[|items| - 1];
      ItemsWithKey(init, k, keying) + (if KeyOf(last, keying) == k then [last] else [])
  }

  /** A bucket holds exactly the items with its key. */
  lemma {:induction false} ItemsWithKeyMembers(items: seq<Item>, k: CategoryRef, keying: Keying)
    ensures forall x :: x in ItemsWithKey(items, k, keying) <==> x in items && KeyOf(x, keying) == k
  {
    if items != [] {
      var init, last := items[..|items| - 1], items[|items| - 1];
      assert items == init + [last];
      ItemsWithKeyMembers(init, k, keying);
    }
  }

  function CategoryKeys(categories: seq<Category>): set<CategoryRef> {
    set c | c in categories :: Ref(c.id)
  }

  function ItemKeys(items: seq<Item>, keying: Keying): set<CategoryRef> {
    set x | x in items :: KeyOf(x, keying)
  }

  /** The map the screen groups by: a key for every category, for `undefined` and
      for every item's key, each holding the items with that key in list order. */
  function Grouping(items: seq<Item>, categories: seq<Category>, keying: Keying): map<CategoryRef, seq<Item>> {
    map k | k in CategoryKeys(categories) + {Absent} + ItemKeys(items, keying) :: ItemsWithKey(items, k, keying)
  }

  /** Builds the grouping map the way the screen does: an empty bucket for each
      category and for `undefined`, then each item appended to the bucket of its
      key (`AsIs` is the source; `NullAsUndefined` the corrected keying). */
  method GroupByCategory(items: seq<Item>, categories: seq<Category>, keying: Keying)
    returns (grouped: map<CategoryRef, seq<Item>>)
    ensures grouped == Grouping(items, categories, keying)
  {
    grouped := map[];
    for i := 0 to |categories|
      invariant grouped.Keys == CategoryKeys(categories[..i])
      invariant forall k :: k in grouped ==> grouped[k] == []
    {
      CategoryKeysStep(categories, i);
      grouped := grouped[Ref(categories[i].id) := []];
    }
    assert categories[..|categories|] == categories;
    grouped := grouped[Absent := []];
    assert items[..0] == [];
    for i := 0 to |items|
      invariant GroupedUpTo(grouped, items, i, categories, keying)
    {
      var key := KeyOf(items[i], keying);
      var existing := if key in grouped then grouped[key] else [];
      AppendStep(grouped, items, i, categories, keying);
      grouped := grouped[key := existing + [items[i]]];
    }
    assert items[..|items|] == items;
    GroupingEquals(grouped, items, categories, keying);
  }

  /** The second loop's invariant: the map groups the first `i` items. */
  predicate GroupedUpTo(grouped: map<CategoryRef, seq<Item>>, items: seq<Item>, i: nat,
                        categories: seq<Category>, keying: Keying)
    requires i <= |items|
  {
    && grouped.Keys == CategoryKeys(categories) + {Absent} + ItemKeys(items[..i], keying)
    && forall k :: k in grouped ==> grouped[k] == ItemsWithKey(items[..i], k, keying)
  }

  /** Appending item `i` to its bucket groups one more item. */
  lemma AppendStep(grouped: map<CategoryRef, seq<Item>>, items: seq<Item>, i: nat,
                   categories: seq<Category>, keying: Keying)
    requires i < |items| && GroupedUpTo(grouped, items, i, categories, keying)
    ensures var key := KeyOf(items[i], keying);
      GroupedUpTo(grouped[key := (if key in grouped then grouped[key] else []) + [items[i]]],
                  items, i + 1, categories, keying)
  {
    GroupingStep(items, i, keying);
  }

  lemma CategoryKeysStep(categories: seq<Category>, i: nat)
    requires i < |categories|
    ensures CategoryKeys(categories[..i + 1]) == CategoryKeys(categories[..i]) + {Ref(categories[i].id)}
  {
    assert categories[..i + 1] == categories[..i] + [categories[i]];
  }

  lemma GroupingEquals(grouped: map<CategoryRef, seq<Item>>, items: seq<Item>, categories: seq<Category>, keying: Keying)
    requires grouped.Keys == CategoryKeys(categories) + {Absent} + ItemKeys(items, keying)
    requires forall k :: k in grouped ==> grouped[k] == ItemsWithKey(items, k, keying)
    ensures grouped == Grouping(items, categories, keying)
  {
  }

  /** Appending the next item extends its own bucket and no other. */
  lemma GroupingStep(items: seq<Item>, i: nat, keying: Keying)
    requires i < |items|
    ensures ItemKeys(items[..i + 1], keying) == ItemKeys(items[..i], keying) + {KeyOf(items[i], keying)}
    ensures forall k :: (ItemsWithKey(items[..i + 1], k, keying) ==
      ItemsWithKey(items[..i], k, keying) + (if KeyOf(items[i], keying) == k then [items[i]] else []))
    ensures KeyOf(items[i], keying) !in ItemKeys(items[..i], keying) ==>
      ItemsWithKey(items[..i], KeyOf(items[i], keying), keying) == []
  {
    var pre := items[..i + 1];
    assert pre[..i] == items[..i] && pre == items[..i] + [items[i]];
    var none := ItemsWithKey(items[..i], KeyOf(items[i], keying), keying);
    ItemsWithKeyMembers(items[..i], KeyOf(items[i], keying), keying);
    assert none != [] ==> none[0] in none;
  }

  /** The sum of the bucket sizes over a list of keys. */
  ghost function SizeSum(g: map<CategoryRef, seq<Item>>, keys: seq<CategoryRef>): nat {
    if keys == [] then 0
    else (if keys[0] in g then |g[keys[0]]| else 0) + SizeSum(g, keys[1..])
  }

  /** The number of items whose key is in `s`. */
  ghost function CountIn(items: seq<Item>, s: set<CategoryRef>, keying: Keying): nat {
    if items == [] then 0
    else CountIn(items[1..], s, keying) + (if KeyOf(items[0], keying) in s then 1 else 0)
  }

  lemma {:induction false} CountInSplit(items: seq<Item>, k: CategoryRef, s: set<CategoryRef>, keying: Keying)
    requires k !in s
    ensures CountIn(items, {k} + s, keying) == |ItemsWithKey(items, k, keying)| + CountIn(items, s, keying)
  {
    if items != [] {
      CountInSplit(items[1..], k, s, keying);
      WithKeyHead(items, k, keying);
    }
  }

  /** `ItemsWithKey` unfolded at the front of the list. */
  lemma {:induction false} WithKeyHead(items: seq<Item>, k: CategoryRef, keying: Keying)
    requires items != []
    ensures |ItemsWithKey(items, k, keying)| ==
            |ItemsWithKey(items[1..], k, keying)| + (if KeyOf(items[0], keying) == k then 1 else 0)
    decreases |items|
  {
    if |items| > 1 {
      var init := items[..|items| - 1];
      WithKeyHead(init, k, keying);
      assert init[1..] == items[1..][..|items[1..]| - 1];
    }
  }

  lemma {:induction false} CountInNone(items: seq<Item>, keying: Keying)
    ensures CountIn(items, {}, keying) == 0
  {
    if items != [] {
      CountInNone(items[1..], keying);
    }
  }

  lemma {:induction false} CountInAll(items: seq<Item>, s: set<CategoryRef>, keying: Keying)
    requires ItemKeys(items, keying) <= s
    ensures CountIn(items, s, keying) == |items|
  {
    if items != [] {
      assert items[0] in items;
      assert ItemKeys(items[1..], keying) <= ItemKeys(items, keying);
      CountInAll(items[1..], s, keying);
    }
  }

  lemma {:induction false} SizeSumCounts(items: seq<Item>, g: map<CategoryRef, seq<Item>>, keying: Keying,
                                         keys: seq<CategoryRef>)
    requires forall i, j :: 0 <= i < j < |keys| ==> keys[i] != keys[j]
    requires forall k :: k in keys ==> k in g && g[k] == ItemsWithKey(items, k, keying)
    ensures SizeSum(g, keys) == CountIn(items, (set k | k in keys), keying)
  {
    if keys == [] {
      assert (set k | k in keys) == {};
      CountInNone(items, keying);
    } else {
      var rest := keys[1..];
      assert forall k :: k in rest ==> k in keys;
      assert forall i, j :: 0 <= i < j < |rest| ==> rest[i] == keys[i + 1] && rest[j] == keys[j + 1];
      SizeSumCounts(items, g, keying, rest);
      assert keys[0] !in rest by {
        forall j | 0 <= j < |rest| ensures rest[j] != keys[0] {
          assert rest[j] == keys[j + 1];
        }
      }
      assert (set k | k in keys) == {keys[0]} + (set k | k in rest);
      CountInSplit(items, keys[0], (set k | k in rest), keying);
    }
  }

  /** The buckets partition the list: listing the map's keys once each, the bucket
      sizes add up to the number of items. */
  lemma GroupSizesSum(items: seq<Item>, categories: seq<Category>, keying: Keying, keys: seq<CategoryRef>)
    requires forall i, j :: 0 <= i < j < |keys| ==> keys[i] != keys[j]
    requires (set k | k in keys) == Grouping(items, categories, keying).Keys
    ensures SizeSum(Grouping(items, categories, keying), keys) == |items|
  {
    var g := Grouping(items, categories, keying);
    assert forall k :: k in keys ==> k in g;
    SizeSumCounts(items, g, keying, keys);
    CountInAll(items, (set k | k in keys), keying);
  }

  // ---------------------------------------------------------------------------
  // Sections
  // ---------------------------------------------------------------------------

  /** A rendered category section: its category (`None` for "Uncategorized") and its items. */
  datatype Section = Section(category: Option<Category>, items: seq<Item>)

  /** `grouped.get(k) || []`: a missing key reads as an empty bucket (a present
      bucket, even an empty one, is used as it is). */
  function GroupOf(g: map<CategoryRef, seq<Item>>, k: CategoryRef): (r: seq<Item>)
    ensures k in g ==> r == g[k]
    ensures k !in g ==> r == []
  {
    if k in g then g[k] else []
  }

  /** One section per category, in the order of `categories`, skipping empty buckets. */
  function CategorySections(categories: seq<Category>, g: map<CategoryRef, seq<Item>>): (r: seq<Section>)
    ensures forall i :: 0 <= i < |r| ==>
      && r[i].category.Some? && r[i].category.value in categories
      && r[i].items == GroupOf(g, Ref(r[i].category.value.id)) && r[i].items != []
  {
    if categories == [] then []
    else
      var rest := CategorySections(categories[1..], g);
      var group := GroupOf(g, Ref(categories[0].id));
      if group == [] then rest else [Section(Some(categories[0]), group)] + rest
  }

  /** Every category with a non-empty bucket has its section. */
  lemma {:induction false} CategoryWithItemsHasSection(categories: seq<Category>, g: map<CategoryRef, seq<Item>>, c: Category)
    requires c in categories && GroupOf(g, Ref(c.id)) != []
    ensures exists i :: 0 <= i < |CategorySections(categories, g)| && CategorySections(categories, g)[i].category == Some(c)
  {
    var r := CategorySections(categories, g);
    if categories[0] == c {
      assert r[0].category == Some(c);
    } else {
      var tail := categories[1..];
      assert c in tail;
      CategoryWithItemsHasSection(tail, g, c);
      var rest := CategorySections(tail, g);
      var i :| 0 <= i < |rest| && rest[i].category == Some(c);
      if GroupOf(g, Ref(categories[0].id)) == [] {
        assert r[i] == rest[i];
      } else {
        assert r[i + 1] == rest[i];
      }
    }
  }

  /** The sections under the list: the category sections, then the uncategorised
      bucket last when it is not empty. */
  function Sections(categories: seq<Category>, g: map<CategoryRef, seq<Item>>): (r: seq<Section>)
    ensures forall i :: 0 <= i < |r| ==> r[i].items != []
    ensures forall i :: 0 <= i < |r| && r[i].category.Some? ==>
      r[i].category.value in categories && r[i].items == GroupOf(g, Ref(r[i].category.value.id))
    ensures forall i :: 0 <= i < |r| && r[i].category.None? ==>
      i == |r| - 1 && r[i].items == GroupOf(g, Absent)
    ensures GroupOf(g, Absent) != [] <==> r != [] && r[|r| - 1].category.None?
  {
    var cs := CategorySections(categories, g);
    var r := cs + (if GroupOf(g, Absent) != [] then [Section(None, GroupOf(g, Absent))] else []);
    assert forall i :: 0 <= i < |cs| ==> r[i] == cs[i];
    r
  }

  /** The category sections come in ascending sort order. */
  predicate InSortOrder(sections: seq<Section>) {
    forall i, j :: 0 <= i < j < |sections| && sections[i].category.Some? && sections[j].category.Some? ==>
      sections[i].category.value.sortOrder <= sections[j].category.value.sortOrder
  }

  /** Categories arrive sorted by their sort order, and the sections keep that order. */
  lemma {:induction false} SectionsFollowSortOrder(categories: seq<Category>, g: map<CategoryRef, seq<Item>>)
    requires forall i, j :: 0 <= i < j < |categories| ==> categories[i].sortOrder <= categories[j].sortOrder
    ensures InSortOrder(CategorySections(categories, g))
  {
    if categories != [] {
      var tail := categories[1..];
      assert forall i, j :: 0 <= i < j < |tail| ==> tail[i] == categories[i + 1] && tail[j] == categories[j + 1];
      SectionsFollowSortOrder(tail, g);
      assert forall i :: 0 <= i < |tail| ==> tail[i] == categories[i + 1];
      SectionsAbove(tail, g, categories[0].sortOrder);
      var group := GroupOf(g, Ref(categories[0].id));
      if group != [] {
        ConsInSortOrder(Section(Some(categories[0]), group), CategorySections(tail, g));
      }
    }
  }

  /** When every category's sort order is at least `lo`, so is every section's. */
  lemma {:induction false} SectionsAbove(categories: seq<Category>, g: map<CategoryRef, seq<Item>>, lo: int)
    requires forall i :: 0 <= i < |categories| ==> lo <= categories[i].sortOrder
    ensures forall i :: 0 <= i < |CategorySections(categories, g)| ==>
      lo <= CategorySections(categories, g)[i].category.value.sortOrder
  {
    if categories != [] {
      var tail := categories[1..];
      assert forall i :: 0 <= i < |tail| ==> tail[i] == categories[i + 1];
      SectionsAbove(tail, g, lo);
    }
  }

  lemma ConsInSortOrder(s: Section, rest: seq<Section>)
    requires InSortOrder(rest) && s.category.Some?
    requires forall i :: 0 <= i < |rest| && rest[i].category.Some? ==>
      s.category.value.sortOrder <= rest[i].category.value.sortOrder
    ensures InSortOrder([s] + rest)
  {
    var r := [s] + rest;
    forall i, j | 0 <= i < j < |r| && r[i].category.Some? && r[j].category.Some?
      ensures r[i].category.value.sortOrder <= r[j].category.value.sortOrder
    {
      assert r[j] == rest[j - 1];
      if i > 0 {
        assert r[i] == rest[i - 1];
      }
    }
  }

  /** Adding the uncategorised section at the end keeps the sort order. */
  lemma SectionsInSortOrder(categories: seq<Category>, g: map<CategoryRef, seq<Item>>)
    requires forall i, j :: 0 <= i < j < |categories| ==> categories[i].sortOrder <= categories[j].sortOrder
    ensures InSortOrder(Sections(categories, g))
  {
    SectionsFollowSortOrder(categories, g);
    var cs := CategorySections(categories, g);
    var r := Sections(categories, g);
    forall i, j | 0 <= i < j < |r| && r[i].category.Some? && r[j].category.Some?
      ensures r[i].category.value.sortOrder <= r[j].category.value.sortOrder
    {
      assert j < |cs| && r[i] == cs[i] && r[j] == cs[j];
    }
  }

  /** Whether an item is shown in one of the sections. */
  ghost predicate Rendered(x: Item, sections: seq<Section>) {
    exists i :: 0 <= i < |sections| && x in sections[i].items
  }

  /** Whatever a section shows is an item of the list whose key is `undefined` or
      the id of one of the categories. */
  lemma RenderedHasKnownKey(items: seq<Item>, categories: seq<Category>, keying: Keying, i: nat, x: Item)
    requires i < |Sections(categories, Grouping(items, categories, keying))|
    requires x in Sections(categories, Grouping(items, categories, keying))[i].items
    ensures x in items
    ensures KeyOf(x, keying) == Absent || KeyOf(x, keying) in CategoryKeys(categories)
  {
    var g := Grouping(items, categories, keying);
    var section := Sections(categories, g)[i];
    var key := if section.category.None? then Absent else Ref(section.category.value.id);
    ItemsWithKeyMembers(items, key, keying);
    if section.category.Some? {
      assert Ref(section.category.value.id) in CategoryKeys(categories);
    }
  }

  /** An item of the list is shown exactly when its key is `undefined` or the id of
      one of the categories: a bucket for any other key is built but never emitted. */
  lemma RenderedIffKnownKey(items: seq<Item>, categories: seq<Category>, keying: Keying, x: Item)
    requires x in items
    ensures Rendered(x, Sections(categories, Grouping(items, categories, keying)))
        <==> KeyOf(x, keying) == Absent || KeyOf(x, keying) in CategoryKeys(categories)
  {
    var g := Grouping(items, categories, keying);
    var r := Sections(categories, g);
    var k := KeyOf(x, keying);
    forall i | 0 <= i < |r| && x in r[i].items
      ensures k == Absent || k in CategoryKeys(categories)
    {
      RenderedHasKnownKey(items, categories, keying, i, x);
    }
    ItemsWithKeyMembers(items, k, keying);
    if k == Absent {
      assert x in GroupOf(g, Absent);
      assert x in r[|r| - 1].items;
    } else if k in CategoryKeys(categories) {
      var c :| c in categories && k == Ref(c.id);
      assert x in GroupOf(g, Ref(c.id));
      CategoryWithItemsHasSection(categories, g, c);
      var cs := CategorySections(categories, g);
      var i :| 0 <= i < |cs| && cs[i].category == Some(c);
      assert r[i] == cs[i];
      assert x in r[i].items;
    }
  }

  /** As the source groups, an item whose category id is `null` (the value the
      backend gives an item without a category) is never shown. */
  lemma NullCategoryNeverRendered(items: seq<Item>, categories: seq<Category>, x: Item)
    requires x in items && x.categoryId.Null?
    ensures !Rendered(x, Sections(categories, Grouping(items, categories, AsIs)))
  {
    RenderedIffKnownKey(items, categories, AsIs, x);
  }

  /** With `null` folded into `undefined`, every item without a category, and every
      item of a listed category, is shown. */
  lemma UncategorizedAlwaysRendered(items: seq<Item>, categories: seq<Category>, x: Item)
    requires x in items
    requires x.categoryId.Absent? || x.categoryId.Null? || x.categoryId in CategoryKeys(categories)
    ensures Rendered(x, Sections(categories, Grouping(items, categories, NullAsUndefined)))
  {
    RenderedIffKnownKey(items, categories, NullAsUndefined, x);
  }

  // ---------------------------------------------------------------------------
  // The screen
  // ---------------------------------------------------------------------------

  /** Whether an optional message is shown: JavaScript treats a missing and an
      empty message alike. */
  predicate Shows(m: Option<string>)
    ensures Shows(m) <==> m != None && m != Some("")
  {
    m.Some? && m.value != ""
  }

  /** `itemsError || categoriesError`. */
  function DisplayedError(itemsError: Option<string>, categoriesError: Option<string>): (r: Option<string>)
    ensures Shows(r) <==> Shows(itemsError) || Shows(categoriesError)
    ensures Shows(itemsError) ==> r == itemsError
    ensures !Shows(itemsError) ==> r == categoriesError
  {
    if Shows(itemsError) then itemsError else categoriesError
  }

  /** What the screen shows. */
  datatype Screen =
    | LoadingFamily
    | NoFamily
    | Skeleton
    | ListScreen(banner: Option<string>, emptyState: bool, sections: seq<Section>)

  /** The screen for the given family, loading, error, item and category state,
      with items grouped by `keying`. (The header and the add-item form, shown on
      every list screen, carry no state of their own here.) */
  function Render(familyLoading: bool, family: Option<Family>, itemsLoading: bool,
                  categoriesLoading: bool, itemsError: Option<string>,
                  categoriesError: Option<string>, items: seq<Item>,
                  categories: seq<Category>, keying: Keying): (s: Screen)
    ensures s.LoadingFamily? <==> familyLoading
    ensures s.NoFamily? <==> !familyLoading && family.None?
    ensures s.Skeleton? <==> !familyLoading && family.Some? && (itemsLoading || categoriesLoading)
    ensures s.ListScreen? <==>
      !familyLoading && family.Some? && !itemsLoading && !categoriesLoading
    ensures s.ListScreen? ==>
      && (s.banner.Some? <==> Shows(itemsError) || Shows(categoriesError))
      && (Shows(itemsError) ==> s.banner == itemsError)
      && s.banner == (if Shows(DisplayedError(itemsError, categoriesError))
                      then DisplayedError(itemsError, categoriesError) else None)
      && (s.emptyState <==> items == [])
      && (items == [] ==> s.sections == [])
      && (items != [] ==> s.sections == Sections(categories, Grouping(items, categories, keying)))
  {
    var isLoading := familyLoading || itemsLoading || categoriesLoading;
    var error := DisplayedError(itemsError, categoriesError);
    if familyLoading then LoadingFamily
    else if family.None? then NoFamily
    else if isLoading then Skeleton
    else
      ListScreen(
        if Shows(error) then error else None,
        |items| == 0,
        if |items| > 0 then Sections(categories, Grouping(items, categories, keying)) else [])
  }

  /** As the source groups, a non-empty list whose only item has a `null` category
      id shows neither the empty-state message nor any section. */
  lemma NullCategoryBlankScreen(family: Family, x: Item, categories: seq<Category>)
    requires x.categoryId.Null?
    ensures var s := Render(false, Some(family), false, false, None, None, [x], categories, AsIs);
      s.ListScreen? && !s.emptyState && s.sections == []
  {
    var r := Sections(categories, Grouping([x], categories, AsIs));
    if r != [] {
      assert r[0].items[0] in r[0].items;
      RenderedHasKnownKey([x], categories, AsIs, 0, r[0].items[0]);
      assert false;
    }
  }

  /** With `null` folded into `undefined`, the same list shows its item in the
      uncategorised section, the only section. */
  lemma NullCategoryUncategorizedScreen(family: Family, x: Item, categories: seq<Category>)
    requires x.categoryId.Null?
    ensures var s := Render(false, Some(family), false, false, None, None, [x], categories, NullAsUndefined);
      s.ListScreen? && s.sections == [Section(None, [x])]
  {
    var g := Grouping([x], categories, NullAsUndefined);
    assert [x][..0] == [] && KeyOf(x, NullAsUndefined) == Absent;
    assert ItemsWithKey([x], Absent, NullAsUndefined) == [x];
    assert Absent in g;
    var cs := CategorySections(categories, g);
    if cs != [] {
      var c := cs[0].category.value;
      assert cs[0].items[0] in cs[0].items;
      ItemsWithKeyMembers([x], Ref(c.id), NullAsUndefined);
      assert false;
    }
  }
}
