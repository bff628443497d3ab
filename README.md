# Shopping list client of familyCommandCenter, in Dafny

This project models the client-side list maintenance of the family shopping
list in familyCommandCenter, and proves properties of that model. There are
four parts:

- **The shopping-items synchroniser** (`useShoppingItems`), module `ShoppingItems`.
  - It is the class `ShoppingItemsStore`, holding the cached items, the loading flag, the error message, and the online and syncing flags.
  - Each mutation (add, toggle, delete, clear completed) first makes an optimistic edit to the list. It rolls the edit back only when the backend call fails.
  - Every backend call is a parameter that carries the call's outcome.
  - Each list edit and each rollback is a pure function in `ItemLists`, with lemmas saying what a rollback restores and what it does not.
- **The screen** (`ShoppingList`), module `ShoppingList`.
  - Items are grouped into a map keyed by category id (`GroupByCategory`, two loops proved against the specification function `Grouping`).
  - The groups become sections in category order, with the uncategorised group last.
  - The screen shows either a loading message, a no-family message, a skeleton or the list.
  - When the list is shown, it has an error banner, an empty-state message and the sections.
- **One category section** (`CategorySection`), module `CategorySection`. The section's items are sorted by the comparator: incomplete first, then newest first. The sort is proved sorted, a permutation and stable. The header counts, the title and the collapse toggle are modelled too.
- **The add-item form** (`AddItemForm`), module `AddItemForm`.
  - It is the class `AddItemFormState`, with title, quantity, category and expanded state.
  - It covers submit, Escape, Cancel and the submit-enabled predicate.
  - It uses JavaScript's `trim` (module `Text`).

The records (families, users, categories, items) are in `ShoppingTypes`.
Timestamps are integers. A category id is `CategoryRef = Absent | Null | Ref(id)`:

- `Absent` is JavaScript `undefined`, the value the client's own items carry when no category is chosen.
- `Null` is JSON `null`, the value the backend returns for an empty column.

The two are kept apart because the screen's `Map` keeps them apart. Treating
the id as a plain optional string would hide the second finding below.

## Model

| member | source | states |
|---|---|---|
| ShoppingItems.ShoppingItemsStore.constructor | src/features/shopping/hooks/useShoppingItems.ts:8-12 | starts with no items, loading, no error, not syncing, online as the browser says |
| ShoppingItems.ShoppingItemsStore.FetchItems | src/features/shopping/hooks/useShoppingItems.ts:31-48 | with no family nothing changes; otherwise loading ends, a success replaces the list with the rows (none: empty) and clears the error, a failure keeps the list and records the message |
| ShoppingItems.ShoppingItemsStore.OnRealtimeChange | src/features/shopping/hooks/useShoppingItems.ts:67-70 | a change notification refetches as FetchItems does and leaves the syncing flag lowered |
| ShoppingItems.ShoppingItemsStore.OnOnline | src/features/shopping/hooks/useShoppingItems.ts:16-19 | sets the online flag and, with a family, refetches |
| ShoppingItems.ShoppingItemsStore.OnOffline | src/features/shopping/hooks/useShoppingItems.ts:20 | clears the online flag and nothing else |
| ShoppingItems.ShoppingItemsStore.AddItem | src/features/shopping/hooks/useShoppingItems.ts:84-131 | no family: error "No family found", list unchanged; otherwise the placeholder is prepended, a failure filters out the temporary id and records the message, and with a fresh temporary id the list is exactly the one before the add |
| ShoppingItems.ShoppingItemsStore.ToggleItem | src/features/shopping/hooks/useShoppingItems.ts:134-171 | success leaves the optimistic toggle; a failure gives back exactly the list before the toggle and records the message (the corrected rollback, see Findings); completion consistency is kept, length kept and items with other ids untouched either way; the update sent sets a completion time exactly when completing |
| ShoppingItems.ShoppingItemsStore.DeleteItem | src/features/shopping/hooks/useShoppingItems.ts:173-190 | success removes every item with the id; failure appends the first removed copy at the end and records the message, and with unique ids the list holds the same items as before |
| ShoppingItems.ShoppingItemsStore.ClearCompleted | src/features/shopping/hooks/useShoppingItems.ts:192-213 | with nothing completed nothing changes and nothing is sent; otherwise the completed ids in list order are sent, the incomplete items stay in order, and a failure appends the completed items again (same multiset) and records the message |
| ItemLists.WithoutId | src/features/shopping/hooks/useShoppingItems.ts:129 | the filtered list holds exactly the items with another id |
| ItemLists.FindById | src/features/shopping/hooks/useShoppingItems.ts:175 | finds an item exactly when one has the id, and it is the first such item |
| ItemLists.WithoutAbsentId | src/features/shopping/hooks/useShoppingItems.ts:176 | filtering out an id no item has leaves the list as it was |
| ItemLists.NewItemFor | src/features/shopping/hooks/useShoppingItems.ts:95-105 | the row sent has the title and family, is needed and not completed, an empty or missing category and quantity become undefined, and the adder is the first user's non-empty id |
| ItemLists.TempItem | src/features/shopping/hooks/useShoppingItems.ts:108-119 | the placeholder carries the temporary id and the creation time, every field of the row as given (title, family, category id, quantity, needed, completed, added-by), no category record, no completion, and exactly the first user when there is one, else none |
| ItemLists.OrUndefined | src/features/shopping/hooks/useShoppingItems.ts:99-102 | an empty or missing value becomes missing; any other value is kept as it is |
| ItemLists.AddRollbackRestores | src/features/shopping/hooks/useShoppingItems.ts:121-129 | prepending a placeholder with a fresh id and filtering that id out gives back the original list |
| ItemLists.TogglePatchFor | src/features/shopping/hooks/useShoppingItems.ts:150-153 | the update flips the completion and carries a completion time exactly when completing |
| ItemLists.ToggleOptimistic | src/features/shopping/hooks/useShoppingItems.ts:136-146 | only items with the id change; they get the flipped completion and a completion time exactly when completed; length kept |
| ItemLists.ToggleRollback | src/features/shopping/hooks/useShoppingItems.ts:158-168 | only items with the id change; they get the old completion, keep their completion time when completed and lose it otherwise |
| ItemLists.FailedCompletionRestores | src/features/shopping/hooks/useShoppingItems.ts:156-170 | a failed completing toggle gives back the list exactly when every matching item was incomplete with no completion time |
| ItemLists.RollbackLosesCompletionTime | src/features/shopping/hooks/useShoppingItems.ts:164 | after a failed un-completing toggle every matching item is completed with no completion time |
| ItemLists.ToggleRollbackCounterexample | src/features/shopping/hooks/useShoppingItems.ts:164 | a single consistent completed item ends inconsistent after a failed un-completing toggle |
| ItemLists.RestoreToggle | src/features/shopping/hooks/useShoppingItems.ts:158-168 | corrected rollback: matching items get their completion and completion time from the pre-toggle list, others untouched |
| ItemLists.RestoreToggleUndoesToggle | src/features/shopping/hooks/useShoppingItems.ts:156-170 | the corrected rollback gives back the pre-toggle list for both directions, so consistency is kept |
| ItemLists.DeleteRollbackRestoresContent | src/features/shopping/hooks/useShoppingItems.ts:175-187 | with unique ids a failed delete restores the same items (the copy moves to the end), and the very same list when the id was absent |
| ItemLists.Completed | src/features/shopping/hooks/useShoppingItems.ts:193-200 | holds exactly the completed items |
| ItemLists.Incomplete | src/features/shopping/hooks/useShoppingItems.ts:201 | holds exactly the incomplete items |
| ItemLists.CompletionSplit | src/features/shopping/hooks/useShoppingItems.ts:200-210 | incomplete then completed items are a permutation of the list and their sizes add up to its length |
| ItemLists.NothingCompletedKeepsAll | src/features/shopping/hooks/useShoppingItems.ts:197-201 | with nothing completed the kept items are the whole list and nothing is cleared |
| ItemLists.StatsOf | src/features/shopping/hooks/useShoppingItems.ts:215-219 | total is the length; completed and remaining are the numbers of completed and of incomplete items, counted independently of the filters; they add up to the total, and each is zero exactly when no item is of its kind |
| ItemLists.FiltersCount | src/features/shopping/hooks/useShoppingItems.ts:216-218 | the completed filter keeps as many items as there are completed items, and the incomplete filter as many as there are incomplete ones |
| ShoppingList.KeyOf | src/features/shopping/components/ShoppingList.tsx:44-46 | a category reference keys by its id; as written a `null` id is a key of its own, and with null folded into undefined it joins the missing ids |
| ShoppingList.ItemsWithKeyMembers | src/features/shopping/components/ShoppingList.tsx:43-47 | a bucket holds exactly the items whose category id is its key |
| ShoppingList.GroupByCategory | src/features/shopping/components/ShoppingList.tsx:33-50 | the map built by the two loops is the grouping: a key for every category, for undefined and for each item's key, each bucket the items with that key in list order (the key is the id as is, or with null folded into undefined) |
| ShoppingList.GroupSizesSum | src/features/shopping/components/ShoppingList.tsx:43-47 | the bucket sizes over all keys sum to the number of items |
| ShoppingList.GroupOf | src/features/shopping/components/ShoppingList.tsx:129 | a category's bucket when the map has one, else the empty list |
| ShoppingList.CategorySections | src/features/shopping/components/ShoppingList.tsx:128-140 | each section is a listed category with its non-empty bucket |
| ShoppingList.CategoryWithItemsHasSection | src/features/shopping/components/ShoppingList.tsx:128-140 | every listed category with a non-empty bucket gets a section |
| ShoppingList.Sections | src/features/shopping/components/ShoppingList.tsx:125-151 | sections are non-empty, category sections come from the list, and an uncategorised section, present exactly when that bucket is non-empty, is the last one |
| ShoppingList.SectionsInSortOrder | src/features/shopping/components/ShoppingList.tsx:128 | with categories in sort order, the category sections follow sort order |
| ShoppingList.RenderedIffKnownKey | src/features/shopping/components/ShoppingList.tsx:43-150 | an item is rendered exactly when its category id is undefined or a listed category's id |
| ShoppingList.NullCategoryNeverRendered | src/features/shopping/components/ShoppingList.tsx:44-150 | an item with a null category id is never rendered |
| ShoppingList.UncategorizedAlwaysRendered | src/features/shopping/components/ShoppingList.tsx:143-150 | with null folded into undefined, every item with no category or a listed one is rendered |
| ShoppingList.Shows | src/features/shopping/components/ShoppingList.tsx:96 | a message shows unless it is missing or empty |
| ShoppingList.DisplayedError | src/features/shopping/components/ShoppingList.tsx:53 | a message shows exactly when either shows, and the items error wins |
| ShoppingList.Render | src/features/shopping/components/ShoppingList.tsx:52-152 | family loading, no family, any loading, list, in that precedence; the banner is the items error when it shows, else the categories error when it shows, else none; the empty state exactly when there are no items; otherwise the sections of the grouping |
| ShoppingList.NullCategoryBlankScreen | src/features/shopping/components/ShoppingList.tsx:116-150 | as written, a list whose only item has a null category shows neither the empty state nor any section |
| ShoppingList.NullCategoryUncategorizedScreen | src/features/shopping/components/ShoppingList.tsx:143-150 | with null folded into undefined, that list shows exactly one section: the uncategorised one, holding the item |
| CategorySection.Compare | src/features/shopping/components/CategorySection.tsx:22-27 | negative exactly when the first item is incomplete and the second completed, or both alike and the first newer; positive exactly in the mirror cases; so zero exactly for the same completion and creation time |
| CategorySection.Insert | src/features/shopping/components/CategorySection.tsx:22-27 | inserting adds exactly that item to the multiset |
| CategorySection.SortItems | src/features/shopping/components/CategorySection.tsx:22 | the sorted copy is a permutation of the items |
| CategorySection.SortItemsSorted | src/features/shopping/components/CategorySection.tsx:22-27 | the sorted copy is in comparator order |
| CategorySection.SortedMeansIncompleteFirstNewestFirst | src/features/shopping/components/CategorySection.tsx:23-26 | every incomplete item precedes every completed one, and equal completion is newest first |
| CategorySection.SortItemsStable | src/features/shopping/components/CategorySection.tsx:22-27 | items the comparator ties keep their relative order |
| CategorySection.HeaderCountsOf | src/features/shopping/components/CategorySection.tsx:29-78 | a count shows exactly when an item of its kind exists, and then it is the number of such items; the separator shows exactly when both counts do; the shown counts add up to the number of items |
| CategorySection.Title | src/features/shopping/components/CategorySection.tsx:62-65 | a set, non-empty icon and name are shown as they are; otherwise the given fallback icon and "Uncategorized" |
| CategorySection.StoredFallbackIsMisdecodedPackage | src/features/shopping/components/CategorySection.tsx:62 | the stored fallback literal is the package icon's UTF-8 read as Windows-1252, not the icon; the header as written shows that literal for a missing category, and with the package icon as fallback it shows the icon |
| CategorySection.RenderSection | src/features/shopping/components/CategorySection.tsx:32-93 | nothing for no items; otherwise the title with the package icon as fallback, the header counts, and, exactly when not collapsed, the rows in comparator order (a sorted permutation of the items) |
| CategorySection.SectionState.constructor | src/features/shopping/components/CategorySection.tsx:19 | a section starts expanded |
| CategorySection.SectionState.ClickHeader | src/features/shopping/components/CategorySection.tsx:38 | a header click flips the collapsed state |
| Text.IsSpace | src/features/shopping/components/AddItemForm.tsx:25-27 | among ASCII exactly tab, line feed, vertical tab, form feed, carriage return and space are white space; no printable ASCII character, DEL or C1 control is |
| Text.Trim | src/features/shopping/components/AddItemForm.tsx:25-27 | the result is the part of the input after its leading white space, every character cut off is white space, and it neither starts nor ends with white space |
| Text.TrimEmptyIffAllSpace | src/features/shopping/components/AddItemForm.tsx:25 | a string trims to nothing exactly when it is all white space |
| Text.TrimIdempotent | src/features/shopping/components/AddItemForm.tsx:27 | trimming twice is trimming once |
| AddItemForm.SubmitRequest | src/features/shopping/components/AddItemForm.tsx:25-27 | no call when the title trims to nothing; otherwise the trimmed title, null for no category, and the trimmed quantity or undefined |
| AddItemForm.BlankFieldsAreDropped | src/features/shopping/components/AddItemForm.tsx:25-27 | no call exactly when the title is blank, no quantity exactly when it is blank |
| AddItemForm.SubmitRequestStable | src/features/shopping/components/AddItemForm.tsx:27 | resubmitting a request's own values gives the same request |
| AddItemForm.AddItemFormState.constructor | src/features/shopping/components/AddItemForm.tsx:10-13 | the form starts collapsed and empty |
| AddItemForm.AddItemFormState.CanSubmit | src/features/shopping/components/AddItemForm.tsx:118 | Add is enabled exactly when the title is not blank, that is, exactly when a submit would call |
| AddItemForm.AddItemFormState.Expand | src/features/shopping/components/AddItemForm.tsx:45 | the button expands the form, fields kept |
| AddItemForm.AddItemFormState.EditTitle | src/features/shopping/components/AddItemForm.tsx:75 | sets the title only |
| AddItemForm.AddItemFormState.EditQuantity | src/features/shopping/components/AddItemForm.tsx:85 | sets the quantity only |
| AddItemForm.AddItemFormState.SelectCategory | src/features/shopping/components/AddItemForm.tsx:92 | sets the category only |
| AddItemForm.AddItemFormState.Submit | src/features/shopping/components/AddItemForm.tsx:22-32 | returns the request SubmitRequest describes; blank title: no change; otherwise title and quantity cleared, category and expansion kept |
| AddItemForm.AddItemFormState.KeyDown | src/features/shopping/components/AddItemForm.tsx:34-40 | Escape collapses and clears title and quantity, keeping the category; other keys change nothing |
| AddItemForm.AddItemFormState.Cancel | src/features/shopping/components/AddItemForm.tsx:106-110 | collapses and clears title and quantity, keeping the category |

## Left out

- Backend access (the Supabase queries, insert, update and delete, and the first-user lookup at src/features/shopping/hooks/useShoppingItems.ts:90-95) is foreign I/O. Each call is a parameter: a write outcome, the fetched rows, the user rows. A missing user array is passed as the empty sequence.
- The server-side ordering of fetched rows (completed last, newest first) is the backend's behaviour. FetchItems stores the rows as given and assumes no order.
- ShoppingItems.ShoppingItemsStore.ToggleItem: a failed toggle uses the corrected rollback; the rollback as written is ItemLists.ToggleRollback (see Findings).
- ShoppingList.Render: the grouping key is a parameter; `AsIs` is the source, `NullAsUndefined` the correction (see Findings).
- The realtime channel subscription and teardown, and the browser online/offline listeners, are event plumbing. Only their handlers are modelled (OnRealtimeChange, OnOnline, OnOffline). The refetch that starts when the family changes is FetchItems called by the caller.
- Concurrency is not modelled. The source reads `items` in stale closures and can interleave in-flight operations and rollbacks; each operation here runs atomically, so its optimistic edit and rollback see the same list.
- Clocks and dates are not modelled. `Date.now()`, ISO timestamp strings and their parsing by `new Date(...).getTime()` become integers. The temporary id `temp-<time>` is a caller-supplied string. The two clock reads in toggleItem are one `now`. An unparsable timestamp (NaN in the comparator) is not modelled.
- ShoppingItems.ShoppingItemsStore.AddItem: a later refetch replaces the placeholder with the stored row; the model has no reconciliation, since the source has none either.
- The focus effect of the add-item form, the markup and styling, ShoppingItem, ShoppingHeader, the PWA and install components, and the family and category hooks are presentation or thin wrappers. They are not part of this model.
- CategorySection.RenderSection: the header falls back to the package icon U+1F4E6, not to the four characters stored at src/features/shopping/components/CategorySection.tsx:62 (see Findings); the header as written is CategorySection.Title with CategorySection.StoredFallbackIcon.
- AddItemForm.AddItemFormState: its handlers require the state in which the source renders them (the expand button only when collapsed, the form handlers only when expanded).

## Findings

| source | as written | input that shows it | evidently intended | confidence | as-written member | corrected member |
|---|---|---|---|---|---|---|
| src/features/shopping/hooks/useShoppingItems.ts:164 | the rollback of a failed toggle restores `completed_at` from the item after the optimistic edit, which has already cleared it | a completed item with a completion time, `toggleItem(id, true)`, update fails: the item is completed again but has no `completed_at` | the rollback restores the item as it was before the toggle, so "completed iff `completed_at`" still holds | not executed | ItemLists.ToggleRollbackCounterexample | ItemLists.RestoreToggleUndoesToggle |
| src/features/shopping/components/ShoppingList.tsx:44-150 | items are bucketed by `category_id` as is, and only the `undefined` bucket is rendered as uncategorised | a fetched item whose `category_id` column is empty, delivered as `null`: it lands in a `null` bucket that no section reads, so it is never rendered (a list of only such items shows neither sections nor the empty state) | items without a category, `null` or `undefined`, appear in the uncategorised section | not executed | ShoppingList.NullCategoryNeverRendered | ShoppingList.UncategorizedAlwaysRendered |
| src/features/shopping/components/CategorySection.tsx:62 | the fallback icon literal is stored as the four characters U+00F0 U+0178 U+201C U+00A6, the UTF-8 bytes of the package emoji read as Windows-1252 | any section whose category has no icon, e.g. the uncategorised section, shows those four characters in the header | the package emoji U+1F4E6 | not executed | CategorySection.StoredFallbackIsMisdecodedPackage | CategorySection.RenderSection |
