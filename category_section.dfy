/** One category section of the list
    (src/features/shopping/components/CategorySection.tsx): a header with the
    category's icon, name and item counts that collapses or expands the section,
    and the section's items sorted incomplete first, then newest first. */
module CategorySection {
  import opened Wrappers
  import opened ShoppingTypes
  import opened ItemLists

  // ---------------------------------------------------------------------------
  // Sorting
  // ---------------------------------------------------------------------------

  /** The comparator handed to `sort`: negative when `a` goes first. A completed
      item goes after an incomplete one; otherwise the newer item goes first. */
  function Compare(a: Item, b: Item): (r: int)
    ensures r < 0 <==> (!a.isCompleted && b.isCompleted) || (a.isCompleted == b.isCompleted && a.createdAt > b.createdAt)
    ensures r > 0 <==> (a.isCompleted && !b.isCompleted) || (a.isCompleted == b.isCompleted && a.createdAt < b.createdAt)
  {
    if a.isCompleted != b.isCompleted then (if a.isCompleted then 1 else -1)
    else b.createdAt - a.createdAt
  }

  /** Every pair is in comparator order. */
  predicate Sorted(s: seq<Item>) {
    forall i, j :: 0 <= i < j < |s| ==> Compare(s[i], s[j]) <= 0
  }

  /** Inserts `x` before the first element that does not come strictly before it,
      so that `x` stays ahead of the elements it ties with. */
  function Insert(x: Item, s: seq<Item>): (r: seq<Item>)
    ensures multiset(r) == multiset(s) + multiset{x}
  {
    if s == [] then [x]
    else if Compare(x, s[0]) <= 0 then [x] + s
    else
      assert s == [s[0]] + s[1..];
      [s[0]] + Insert(x, s[1..])
  }

  /** The sorted copy of the section's items (`[...items].sort(...)`; the sort is
      stable, so ties keep their order). */
  function SortItems(items: seq<Item>): (r: seq<Item>)
    ensures multiset(r) == multiset(items)
  {
    if items == [] then []
    else
      assert items == [items[0]] + items[1..];
      Insert(items[0], SortItems(items[1..]))
  }

  lemma {:induction false} InsertSorted(x: Item, s: seq<Item>)
    requires Sorted(s)
    ensures Sorted(Insert(x, s))
  {
    if s == [] {
    } else if Compare(x, s[0]) <= 0 {
      forall i | 0 <= i < |s| ensures Compare(x, s[i]) <= 0 {
        assert Compare(s[0], s[i]) <= 0;
      }
      ConsSorted(x, s);
    } else {
      var tail := s[1..];
      assert forall i :: 0 <= i < |tail| ==> tail[i] == s[i + 1];
      InsertSorted(x, tail);
      InsertAbove(x, tail, s[0]);
      ConsSorted(s[0], Insert(x, tail));
    }
  }

  /** An item that may go before `x` and before every element of `s` may go
      before every element after inserting `x`. */
  lemma {:induction false} InsertAbove(x: Item, s: seq<Item>, y: Item)
    requires Compare(y, x) <= 0
    requires forall i :: 0 <= i < |s| ==> Compare(y, s[i]) <= 0
    ensures forall i :: 0 <= i < |Insert(x, s)| ==> Compare(y, Insert(x, s)[i]) <= 0
  {
    if s != [] && Compare(x, s[0]) > 0 {
      var tail := s[1..];
      assert forall i :: 0 <= i < |tail| ==> tail[i] == s[i + 1];
      InsertAbove(x, tail, y);
    }
  }

  lemma ConsSorted(y: Item, s: seq<Item>)
    requires Sorted(s)
    requires forall i :: 0 <= i < |s| ==> Compare(y, s[i]) <= 0
    ensures Sorted([y] + s)
  {
    var r := [y] + s;
    forall i, j | 0 <= i < j < |r| ensures Compare(r[i], r[j]) <= 0 {
      assert r[j] == s[j - 1];
      if i > 0 {
        assert r[i] == s[i - 1];
      }
    }
  }

  /** The sorted copy is in comparator order. */
  lemma {:induction false} SortItemsSorted(items: seq<Item>)
    ensures Sorted(SortItems(items))
  {
    if items != [] {
      SortItemsSorted(items[1..]);
      InsertSorted(items[0], SortItems(items[1..]));
    }
  }

  /** What the comparator order means for the shown list: every incomplete item
      comes before every completed one, and items of the same completion come
      newest first. */
  lemma SortedMeansIncompleteFirstNewestFirst(items: seq<Item>)
    ensures var r := SortItems(items);
      && (forall i, j :: 0 <= i < j < |r| ==> !r[i].isCompleted || r[j].isCompleted)
      && (forall i, j :: 0 <= i < j < |r| && r[i].isCompleted == r[j].isCompleted ==>
            r[i].createdAt >= r[j].createdAt)
  {
    SortItemsSorted(items);
  }

  /** The items that tie with `x` under the comparator (same completion, same
      creation time), in order. */
  function Ties(s: seq<Item>, x: Item): seq<Item> {
    if s == [] then []
    else TieOf(s[0], x) + Ties(s[1..], x)
  }

  lemma TiesCons(a: Item, s: seq<Item>, x: Item)
    ensures Ties([a] + s, x) == TieOf(a, x) + Ties(s, x)
  {
    assert ([a] + s)[1..] == s;
  }

  /** The comparator ties exactly the items with the same completion and the
      same creation time. */
  predicate Tied(a: Item, b: Item) {
    a.isCompleted == b.isCompleted && a.createdAt == b.createdAt
  }

  /** A tie with `x`, as a list of zero or one items. */
  function TieOf(a: Item, x: Item): seq<Item> {
    if Tied(a, x) then [a] else []
  }

  /** Passing over `a` on the way to inserting `y` keeps the ties in order: `y`
      goes strictly after `a`, so the two cannot both tie with `x`. */
  lemma TiesSkip(y: Item, a: Item, rest: seq<Item>, inserted: seq<Item>, x: Item)
    requires Compare(y, a) > 0
    requires Ties(inserted, x) == TieOf(y, x) + Ties(rest, x)
    ensures Ties([a] + inserted, x) == TieOf(y, x) + Ties([a] + rest, x)
  {
    TiesCons(a, inserted, x);
    TiesCons(a, rest, x);
    if Tied(y, x) {
      assert !Tied(a, x);
      assert Ties([a] + inserted, x) == Ties(inserted, x);
      assert Ties([a] + rest, x) == Ties(rest, x);
    } else {
      assert Ties(inserted, x) == Ties(rest, x);
      assert TieOf(y, x) + Ties([a] + rest, x) == Ties([a] + rest, x);
    }
  }

  lemma {:induction false} InsertTies(y: Item, s: seq<Item>, x: Item)
    ensures Ties(Insert(y, s), x) == TieOf(y, x) + Ties(s, x)
  {
    if s == [] || Compare(y, s[0]) <= 0 {
      TiesCons(y, s, x);
    } else {
      InsertTies(y, s[1..], x);
      TiesSkip(y, s[0], s[1..], Insert(y, s[1..]), x);
      assert s == [s[0]] + s[1..];
    }
  }

  /** The sort is stable: items that tie keep their relative order. Together with
      the permutation and the comparator order this fixes the sorted list. */
  lemma {:induction false} SortItemsStable(items: seq<Item>, x: Item)
    ensures Ties(SortItems(items), x) == Ties(items, x)
  {
    if items != [] {
      SortItemsStable(items[1..], x);
      InsertTies(items[0], SortItems(items[1..]), x);
    }
  }

  // ---------------------------------------------------------------------------
  // The header and the section
  // ---------------------------------------------------------------------------

  /** The counts in the header: the number of incomplete items when there are any,
      the number of completed ones when there are any, and a " / " between them
      only when both are shown. */
  datatype HeaderCounts = HeaderCounts(incomplete: Option<nat>, separator: bool, completed: Option<nat>)

  function HeaderCountsOf(items: seq<Item>): (h: HeaderCounts)
    ensures h.incomplete.Some? <==> exists x :: x in items && !x.isCompleted
    ensures h.completed.Some? <==> exists x :: x in items && x.isCompleted
    ensures h.separator <==> h.incomplete.Some? && h.completed.Some?
    ensures h.incomplete.GetOr(0) + h.completed.GetOr(0) == |items|
    ensures h.incomplete.Some? ==> h.incomplete.value == CountWhere(items, false)
    ensures h.completed.Some? ==> h.completed.value == CountWhere(items, true)
  {
    var incompleteCount := StatsOf(items).remaining;
    var completedCount := StatsOf(items).completed;
    HeaderCounts(
      if incompleteCount > 0 then Some(incompleteCount) else None,
      incompleteCount > 0 && completedCount > 0,
      if completedCount > 0 then Some(completedCount) else None)
  }

  /** The package icon the header falls back to, U+1F4E6. */
  const PackageIcon: string := "\U{1F4E6}"

  /** The header's icon and name: the category's own when set and non-empty, else
      the `fallback` icon and "Uncategorized". The header as written falls back to
      `StoredFallbackIcon`; the rendered section below uses `PackageIcon`. */
  function Title(category: Option<Category>, fallback: string): (t: (string, string))
    ensures category.Some? && category.value.icon.Some? && category.value.icon.value != "" ==>
      t.0 == category.value.icon.value
    ensures category.Some? && category.value.name != "" ==> t.1 == category.value.name
    ensures t.0 == fallback <==>
      (category.None? || category.value.icon.None? || category.value.icon.value in {"", fallback})
    ensures t.1 == "Uncategorized" <==> category.None? || category.value.name in {"", "Uncategorized"}
  {
    var icon := if category.Some? && category.value.icon.Some? && category.value.icon.value != ""
                then category.value.icon.value else fallback;
    var name := if category.Some? && category.value.name != "" then category.value.name else "Uncategorized";
    (icon, name)
  }

  // ---------------------------------------------------------------------------
  // The fallback icon as the source file stores it
  // ---------------------------------------------------------------------------

  /** The fallback literal as stored in the component's source file: the four
      code points U+00F0 U+0178 U+201C U+00A6, which the header displays as is. */
  const StoredFallbackIcon: string := "\U{F0}\U{178}\U{201C}\U{A6}"

  /** The UTF-8 encoding of a Unicode scalar value, as byte values. */
  function Utf8(c: char): (bytes: seq<int>)
    ensures 1 <= |bytes| <= 4
    ensures forall i :: 0 <= i < |bytes| ==> 0 <= bytes[i] < 256
  {
    var cp := c as int;
    if cp < 0x80 then [cp]
    else if cp < 0x800 then [0xC0 + cp / 0x40, 0x80 + cp % 0x40]
    else if cp < 0x10000 then [0xE0 + cp / 0x1000, 0x80 + (cp / 0x40) % 0x40, 0x80 + cp % 0x40]
    else [0xF0 + cp / 0x40000, 0x80 + (cp / 0x1000) % 0x40, 0x80 + (cp / 0x40) % 0x40, 0x80 + cp % 0x40]
  }

  /** What Windows-1252 puts at 0x80..0x9F (the five unassigned bytes read as
      the control character of the same number); every other byte is the code
      point of the same number. */
  const Cp1252High: seq<char> := [
    '\U{20AC}', '\U{81}',   '\U{201A}', '\U{192}',  '\U{201E}', '\U{2026}', '\U{2020}', '\U{2021}',
    '\U{2C6}',  '\U{2030}', '\U{160}',  '\U{2039}', '\U{152}',  '\U{8D}',   '\U{17D}',  '\U{8F}',
    '\U{90}',   '\U{2018}', '\U{2019}', '\U{201C}', '\U{201D}', '\U{2022}', '\U{2013}', '\U{2014}',
    '\U{2DC}',  '\U{2122}', '\U{161}',  '\U{203A}', '\U{153}',  '\U{9D}',   '\U{17E}',  '\U{178}']

  /** Reads bytes as Windows-1252 text, one character per byte. */
  function Cp1252(bytes: seq<int>): (s: string)
    requires forall i :: 0 <= i < |bytes| ==> 0 <= bytes[i] < 256
    ensures |s| == |bytes|
  {
    seq(|bytes|, i requires 0 <= i < |bytes| =>
      if 0x80 <= bytes[i] < 0xA0 then Cp1252High[bytes[i] - 0x80] else bytes[i] as char)
  }

  /** The stored literal is the package icon's UTF-8 bytes read back as
      Windows-1252, so an uncategorised section shows four stray characters
      instead of the icon; the corrected header shows the icon. */
  lemma StoredFallbackIsMisdecodedPackage()
    ensures StoredFallbackIcon == Cp1252(Utf8(PackageIcon[0]))
    ensures StoredFallbackIcon != PackageIcon
    ensures Title(None, StoredFallbackIcon).0 == StoredFallbackIcon
    ensures Title(None, PackageIcon).0 == PackageIcon
  {
    var cp := PackageIcon[0] as int;
    assert cp == 0x1F4E6;
    assert cp / 0x40000 == 0 && (cp / 0x1000) % 0x40 == 0x1F;
    assert (cp / 0x40) % 0x40 == 0x13 && cp % 0x40 == 0x26;
    assert Utf8(PackageIcon[0]) == [0xF0, 0x9F, 0x93, 0xA6];
    assert Cp1252High[0x9F - 0x80] == '\U{178}' && Cp1252High[0x93 - 0x80] == '\U{201C}';
  }

  /** A rendered section: header and, unless collapsed, the sorted rows. */
  datatype SectionView = SectionView(icon: string, name: string, counts: HeaderCounts, rows: Option<seq<Item>>)

  /** The section for `items`: nothing at all for an empty list; otherwise the
      header (falling back to the package icon), and the sorted items when the
      section is not collapsed. */
  function RenderSection(category: Option<Category>, items: seq<Item>, isCollapsed: bool): (v: Option<SectionView>)
    ensures v.None? <==> items == []
    ensures v.Some? ==> (v.value.rows.None? <==> isCollapsed)
    ensures v.Some? && v.value.rows.Some? ==>
      multiset(v.value.rows.value) == multiset(items) && Sorted(v.value.rows.value)
    ensures v.Some? ==> v.value.counts == HeaderCountsOf(items)
    ensures v.Some? ==> (v.value.icon, v.value.name) == Title(category, PackageIcon)
    ensures v.Some? ==> v.value.rows == (if isCollapsed then None else Some(SortItems(items)))
  {
    if |items| == 0 then None
    else
      SortItemsSorted(items);
      var t := Title(category, PackageIcon);
      Some(SectionView(t.0, t.1, HeaderCountsOf(items), if isCollapsed then None else Some(SortItems(items))))
  }

  /** The section's one piece of state: whether it is collapsed. */
  class SectionState {
    var isCollapsed: bool

    constructor ()
      ensures !isCollapsed
    {
      isCollapsed := false;
    }

    /** A click on the header flips the collapsed state. */
    method ClickHeader()
      modifies this
      ensures isCollapsed == !old(isCollapsed)
    {
      isCollapsed := !isCollapsed;
    }
  }
}
