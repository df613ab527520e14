/** The list view of the clipboard history: the search projection, the
    `indices(where:)` helper, and the delete and clear-all actions, which map
    positions in the filtered list back to entries of the history by
    identifier before asking the manager to delete them. */
module ContentView {
  import opened Seqs
  import opened Clipboard

  /** ASCII upper-case letters folded to lower case; other characters unchanged. */
  function FoldAscii(c: char): char
  {
    if 'A' <= c <= 'Z' then (c as int + 32) as char else c
  }

  /** `needle` occurs at the start of `hay`, ignoring ASCII case. */
  predicate PrefixFolded(needle: string, hay: string)
  {
    |needle| <= |hay| && forall i :: 0 <= i < |needle| ==> FoldAscii(needle[i]) == FoldAscii(hay[i])
  }

  predicate ContainsFolded(hay: string, needle: string)
    ensures ContainsFolded(hay, needle) ==> |needle| <= |hay|
    decreases |hay|
  {
    PrefixFolded(needle, hay) || (hay != [] && ContainsFolded(hay[1..], needle))
  }

  /** Stand-in for Foundation's `localizedCaseInsensitiveContains`: a
      case-insensitive substring test, which never matches an empty search. */
  predicate Matches(content: string, search: string)
    ensures Matches(content, search) ==> 0 < |search| <= |content|
    ensures search != [] && search == content ==> Matches(content, search)
  {
    search != [] && ContainsFolded(content, search)
  }

  function SearchMatches(search: string): Item -> bool
  {
    (it: Item) => Matches(it.content, search)
  }

  /** The entries the list shows: all of them for an empty search, otherwise
      exactly those whose text matches the search, in history order. */
  function FilteredItems(items: seq<Item>, searchText: string): (r: seq<Item>)
    ensures searchText == [] ==> r == items
    ensures searchText != [] ==> forall x :: x in r <==> x in items && Matches(x.content, searchText)
    ensures searchText != [] ==>
      forall x :: multiset(r)[x] == if Matches(x.content, searchText) then multiset(items)[x] else 0
    ensures Subseq(r, items)
  {
    if searchText == [] then
      SubseqRefl(items);
      items
    else
      FilterInOrder(items, SearchMatches(searchText));
      Filter(items, SearchMatches(searchText))
  }

  /** Every position of `a` whose element satisfies `p`. */
  method IndicesWhere<T>(a: seq<T>, p: T -> bool) returns (indices: set<nat>)
    ensures forall i :: i in indices <==> 0 <= i < |a| && p(a[i])
  {
    indices := {};
    for i := 0 to |a|
      invariant forall k :: k in indices <==> 0 <= k < i && p(a[k])
    {
      if p(a[i]) {
        indices := indices + {i};
      }
    }
  }

  /** The identifiers shown at the positions `offsets` of the filtered list. */
  function ShownIds(filtered: seq<Item>, offsets: set<nat>): (ids: set<nat>)
    ensures forall o :: o in offsets && o < |filtered| ==> filtered[o].id in ids
    ensures forall id :: id in ids ==> exists o :: o in offsets && o < |filtered| && filtered[o].id == id
  {
    set o | o in offsets && o < |filtered| :: filtered[o].id
  }

  function IdIn(ids: set<nat>): Item -> bool
  {
    (it: Item) => it.id in ids
  }

  function IdNotIn(ids: set<nat>): Item -> bool
  {
    (it: Item) => it.id !in ids
  }

  /** The list's delete action: the filtered positions become identifiers, the
      identifiers become positions in the history, and those are deleted. */
  method DeleteOffsets(manager: ClipboardManager, searchText: string, offsets: set<nat>)
    requires forall o :: o in offsets ==> o < |FilteredItems(manager.clipboardItems, searchText)|
    modifies manager
    ensures manager.clipboardItems ==
      Filter(old(manager.clipboardItems),
             IdNotIn(ShownIds(FilteredItems(old(manager.clipboardItems), searchText), offsets)))
    ensures manager.saved == Some(manager.clipboardItems)
    ensures manager.pasteboardChangeCount == old(manager.pasteboardChangeCount)
    ensures DistinctContents(old(manager.clipboardItems)) ==> DistinctContents(manager.clipboardItems)
    ensures UniqueIds(old(manager.clipboardItems)) ==> UniqueIds(manager.clipboardItems)
  {
    var filtered := FilteredItems(manager.clipboardItems, searchText);
    var idsToRemove := ShownIds(filtered, offsets);
    var realIndices := IndicesWhere(manager.clipboardItems, IdIn(idsToRemove));
    RemoveOffsetsWhere(manager.clipboardItems, realIndices, IdNotIn(idsToRemove));
    manager.RemoveItem(realIndices);
  }

  /** Two entries of a history with unique identifiers that share an
      identifier are the same entry. */
  lemma SameIdSameItem(items: seq<Item>, x: Item, y: Item)
    requires UniqueIds(items)
    requires x in items && y in items && x.id == y.id
    ensures x == y
  {
    var i :| 0 <= i < |items| && items[i] == x;
    var j :| 0 <= j < |items| && items[j] == y;
    assert i == j by {
      if i < j {
      } else if j < i {
      }
    }
  }

  /** When identifiers are unique, the delete action removes exactly the
      entries shown at the chosen positions, and the rest keep their order. */
  lemma DeleteRemovesExactlyShown(items: seq<Item>, searchText: string, offsets: set<nat>)
    requires UniqueIds(items)
    requires forall o :: o in offsets ==> o < |FilteredItems(items, searchText)|
    ensures var f := FilteredItems(items, searchText);
            var r := Filter(items, IdNotIn(ShownIds(f, offsets)));
            Subseq(r, items) &&
            forall x :: x in r <==> x in items && forall o :: o in offsets ==> x != f[o]
  {
    var f := FilteredItems(items, searchText);
    var ids := ShownIds(f, offsets);
    FilterInOrder(items, IdNotIn(ids));
    forall x | x in items && x.id in ids
      ensures exists o :: o in offsets && x == f[o]
    {
      var o :| o in offsets && o < |f| && f[o].id == x.id;
      SameIdSameItem(items, x, f[o]);
    }
  }

  /** The swipe action on the row at `index`: deletes the first entry of the
      history with that row's identifier, if there is one. */
  method SwipeDelete(manager: ClipboardManager, searchText: string, index: nat)
    requires index < |FilteredItems(manager.clipboardItems, searchText)|
    modifies manager
    ensures var id := FilteredItems(old(manager.clipboardItems), searchText)[index].id;
      match FirstIndexWhere(old(manager.clipboardItems), IdIs(id))
      case Some(i) =>
        manager.clipboardItems == old(manager.clipboardItems)[..i] + old(manager.clipboardItems)[i + 1..] &&
        manager.saved == Some(manager.clipboardItems)
      case None =>
        manager.clipboardItems == old(manager.clipboardItems) && manager.saved == old(manager.saved)
    ensures manager.pasteboardChangeCount == old(manager.pasteboardChangeCount)
  {
    var items := manager.clipboardItems;
    var itemId := FilteredItems(items, searchText)[index].id;
    var realIndex := FirstIndexWhere(items, IdIs(itemId));
    if realIndex.Some? {
      var i := realIndex.value;
      RemoveOffsetsSingle(items, i);
      manager.RemoveItem({i});
      assert manager.clipboardItems == items[..i] + items[i + 1..];
    }
  }

  /** The swiped row's entry is always found in the history; with unique
      identifiers it is the entry that is deleted, and it is gone afterwards. */
  lemma SwipeRemovesShownItem(items: seq<Item>, searchText: string, index: nat)
    requires index < |FilteredItems(items, searchText)|
    ensures var f := FilteredItems(items, searchText);
            var k := FirstIndexWhere(items, IdIs(f[index].id));
            k.Some? && items[k.value].id == f[index].id &&
            (UniqueIds(items) ==>
               items[k.value] == f[index] && f[index] !in items[..k.value] + items[k.value + 1..])
  {
    var f := FilteredItems(items, searchText);
    var x := f[index];
    assert x in items;
    var j :| 0 <= j < |items| && items[j] == x;
    assert IdIs(x.id)(items[j]);
    var k := FirstIndexWhere(items, IdIs(x.id));
    if UniqueIds(items) {
      SameIdSameItem(items, items[k.value], x);
      RemoveAtIndex(items, k.value);
    }
  }

  /** The clear-all button: empties the history and saves. */
  method ClearAll(manager: ClipboardManager)
    modifies manager
    ensures manager.clipboardItems == []
    ensures manager.saved == Some([])
    ensures manager.pasteboardChangeCount == old(manager.pasteboardChangeCount)
  {
    manager.clipboardItems := [];
    manager.SaveItems();
  }
}
