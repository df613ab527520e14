/** The clipboard history of KimchiPaste: a most-recent-first list of text
    entries that every copy event keeps within `MaxItems` entries, one per
    distinct content, if it was so before; it is fed by polling the system
    pasteboard and mirrored into a key-value store.

    `Recorded` is the specification of one copy event; the lemmas below it
    state what a copy event does to the history, and the methods of
    `ClipboardManager` are proved to update their fields accordingly. */
module Clipboard {
  import opened Seqs

  /** A history entry. In the app `id` is a `UUID()` and `timestamp` a `Date()`
      taken when the entry is created; here both are supplied by the caller. */
  datatype Item = Item(id: nat, content: string, timestamp: nat)

  /** The capacity of the history. */
  const MaxItems: nat := 10

  function ContentIs(s: string): Item -> bool
  {
    (it: Item) => it.content == s
  }

  function IdIs(id: nat): Item -> bool
  {
    (it: Item) => it.id == id
  }

  /** No two entries hold the same text. */
  predicate DistinctContents(items: seq<Item>)
  {
    forall i, j :: 0 <= i < j < |items| ==> items[i].content != items[j].content
  }

  /** No two entries share an identifier. */
  predicate UniqueIds(items: seq<Item>)
  {
    forall i, j :: 0 <= i < j < |items| ==> items[i].id != items[j].id
  }

  /** Whether the pasteboard text `text` would create a new entry, which is the
      only kind of copy event that is written to the store. */
  predicate IsNewEntry(items: seq<Item>, text: Option<string>)
  {
    text.Some? && text.value != [] && FirstIndexWhere(items, ContentIs(text.value)).None?
  }

  /** The history after the pasteboard text `text` has been observed: nothing
      happens for missing or empty text; text already in the history moves its
      entry to the front; other text becomes a new front entry with identifier
      `freshId` and time `now`, and the last entry is dropped when the list
      has grown past `MaxItems`. */
  function Recorded(items: seq<Item>, text: Option<string>, freshId: nat, now: nat): (r: seq<Item>)
    ensures |r| == |items| || |r| == |items| + 1
    ensures forall x :: x in r ==> x in items || (text.Some? && x == Item(freshId, text.value, now))
  {
    if text.None? || text.value == [] then items
    else match FirstIndexWhere(items, ContentIs(text.value))
      case Some(i) => [items[i]] + (items[..i] + items[i + 1..])
      case None =>
        var grown := [Item(freshId, text.value, now)] + items;
        if |grown| > MaxItems then grown[..|grown| - 1] else grown
  }

  lemma RecordIgnoresEmptyText(items: seq<Item>, text: Option<string>, freshId: nat, now: nat)
    requires text.None? || text.value == []
    ensures Recorded(items, text, freshId, now) == items
    ensures !IsNewEntry(items, text)
  {
  }

  /** Copying text whose first entry is at `i` puts that same entry (same
      identifier and timestamp) in front, keeps the length, and leaves the
      other entries in their order. */
  lemma RecordPromotesExisting(items: seq<Item>, s: string, freshId: nat, now: nat, i: nat)
    requires s != [] && i < |items| && items[i].content == s
    requires forall j :: 0 <= j < i ==> items[j].content != s
    ensures !IsNewEntry(items, Some(s))
    ensures var r := Recorded(items, Some(s), freshId, now);
      |r| == |items| && r[0] == items[i] &&
      (forall j :: 0 <= j < i ==> r[j + 1] == items[j]) &&
      (forall j :: i < j < |items| ==> r[j] == items[j])
  {
    assert ContentIs(s)(items[i]);
    assert FirstIndexWhere(items, ContentIs(s)) == Some(i);
    var rest := items[..i] + items[i + 1..];
    var r := Recorded(items, Some(s), freshId, now);
    assert r == [items[i]] + rest;
    forall j | 0 <= j < i ensures r[j + 1] == items[j] {
      assert r[j + 1] == rest[j] == items[..i][j];
    }
    forall j | i < j < |items| ensures r[j] == items[j] {
      assert r[j] == rest[j - 1] == items[i + 1..][j - 1 - i];
    }
  }

  /** Copying the text of the front entry again leaves the history as it is. */
  lemma RecopyFrontIsNoop(items: seq<Item>, freshId: nat, now: nat)
    requires items != [] && items[0].content != []
    ensures Recorded(items, Some(items[0].content), freshId, now) == items
  {
    assert ContentIs(items[0].content)(items[0]);
    assert [items[0]] + (items[..0] + items[1..]) == items;
  }

  /** With history a, b, c (front first), copying b again gives b, a, c. */
  lemma RecopyMiddleScenario(a: Item, b: Item, c: Item, freshId: nat, now: nat)
    requires a.content == "a" && b.content == "b" && c.content == "c"
    ensures Recorded([a, b, c], Some("b"), freshId, now) == [b, a, c]
  {
    assert !ContentIs("b")(a) && ContentIs("b")(b);
    assert FirstIndexWhere([a, b, c], ContentIs("b")) == Some(1);
  }

  /** Copying text that is not in the history adds a fresh front entry, keeps
      every old entry in order, and evicts exactly the last one when the
      history already held `MaxItems` or more. */
  lemma RecordInsertsNew(items: seq<Item>, s: string, freshId: nat, now: nat)
    requires s != []
    requires forall j :: 0 <= j < |items| ==> items[j].content != s
    ensures IsNewEntry(items, Some(s))
    ensures var r := Recorded(items, Some(s), freshId, now);
      |r| > 0 && r[0] == Item(freshId, s, now) &&
      (|items| < MaxItems ==> r[1..] == items) &&
      (|items| >= MaxItems ==> r[1..] == items[..|items| - 1])
  {
    assert forall j :: 0 <= j < |items| ==> !ContentIs(s)(items[j]);
    var grown := [Item(freshId, s, now)] + items;
    if |grown| > MaxItems {
      assert grown[..|grown| - 1][1..] == items[..|items| - 1];
    }
  }

  /** A history within capacity stays within capacity. */
  lemma RecordKeepsBound(items: seq<Item>, text: Option<string>, freshId: nat, now: nat)
    requires |items| <= MaxItems
    ensures |Recorded(items, text, freshId, now)| <= MaxItems
  {
    if text.Some? && text.value != [] {
      match FirstIndexWhere(items, ContentIs(text.value))
      case Some(i) =>
        assert |items[..i] + items[i + 1..]| == |items| - 1;
      case None =>
    }
  }

  /** A copy event never creates a second entry for the same text. */
  lemma RecordKeepsContentsDistinct(items: seq<Item>, text: Option<string>, freshId: nat, now: nat)
    requires DistinctContents(items)
    ensures DistinctContents(Recorded(items, text, freshId, now))
  {
    if text.Some? && text.value != [] {
      match FirstIndexWhere(items, ContentIs(text.value))
      case Some(i) =>
        PromoteKeepsContentsDistinct(items, i);
      case None =>
        assert forall k :: 0 <= k < |items| ==> !ContentIs(text.value)(items[k]);
        InsertKeepsContentsDistinct(items, Item(freshId, text.value, now));
    }
  }

  lemma PromoteKeepsContentsDistinct(items: seq<Item>, i: nat)
    requires DistinctContents(items) && i < |items|
    ensures DistinctContents([items[i]] + (items[..i] + items[i + 1..]))
  {
    RemoveAtIndex(items, i);
    var rest := items[..i] + items[i + 1..];
    var r := [items[i]] + rest;
    forall a, b | 0 <= a < b < |r| ensures r[a].content != r[b].content {
      assert r[b] == rest[b - 1];
      if 0 < a {
        assert r[a] == rest[a - 1];
      }
    }
  }

  lemma InsertKeepsContentsDistinct(items: seq<Item>, x: Item)
    requires DistinctContents(items)
    requires forall k :: 0 <= k < |items| ==> items[k].content != x.content
    ensures DistinctContents([x] + items)
    ensures DistinctContents(([x] + items)[..|items|])
  {
    var grown := [x] + items;
    forall a, b | 0 <= a < b < |grown| ensures grown[a].content != grown[b].content {
      assert grown[b] == items[b - 1];
      if 0 < a {
        assert grown[a] == items[a - 1];
      }
    }
  }

  /** With a fresh identifier, a copy event never makes two entries share one. */
  lemma RecordKeepsIdsUnique(items: seq<Item>, text: Option<string>, freshId: nat, now: nat)
    requires UniqueIds(items)
    requires forall k :: 0 <= k < |items| ==> items[k].id != freshId
    ensures UniqueIds(Recorded(items, text, freshId, now))
  {
    if text.Some? && text.value != [] {
      match FirstIndexWhere(items, ContentIs(text.value))
      case Some(i) =>
        RemoveAtIndex(items, i);
      case None =>
        InsertKeepsIdsUnique(items, Item(freshId, text.value, now));
    }
  }

  lemma InsertKeepsIdsUnique(items: seq<Item>, x: Item)
    requires UniqueIds(items)
    requires forall k :: 0 <= k < |items| ==> items[k].id != x.id
    ensures UniqueIds([x] + items)
    ensures UniqueIds(([x] + items)[..|items|])
  {
    var grown := [x] + items;
    forall a, b | 0 <= a < b < |grown| ensures grown[a].id != grown[b].id {
      assert grown[b] == items[b - 1];
      if 0 < a {
        assert grown[a] == items[a - 1];
      }
    }
  }

  /** Keeping some of the entries of `prev` and then `x` keeps both invariants
      of `prev + [x]`. */
  lemma SnocKeepsInvariants(rest: seq<Item>, prev: seq<Item>, x: Item)
    requires forall y :: y in rest ==> y in prev
    ensures DistinctContents(rest) && DistinctContents(prev + [x]) ==> DistinctContents(rest + [x])
    ensures UniqueIds(rest) && UniqueIds(prev + [x]) ==> UniqueIds(rest + [x])
  {
    var g, r := prev + [x], rest + [x];
    forall a | 0 <= a < |rest|
      ensures (DistinctContents(g) ==> rest[a].content != x.content) && (UniqueIds(g) ==> rest[a].id != x.id)
    {
      assert rest[a] in prev;
      var i :| 0 <= i < |prev| && prev[i] == rest[a];
      assert g[i] == rest[a] && g[|prev|] == x;
    }
    assert forall a :: 0 <= a < |rest| ==> r[a] == rest[a];
  }

  /** Deleting entries at any positions keeps one entry per text and keeps
      identifiers unique. */
  lemma {:induction false} RemoveOffsetsKeepsInvariants(s: seq<Item>, offsets: set<nat>)
    ensures DistinctContents(s) ==> DistinctContents(RemoveOffsets(s, offsets))
    ensures UniqueIds(s) ==> UniqueIds(RemoveOffsets(s, offsets))
  {
    if s != [] {
      var n := |s| - 1;
      var prev := s[..n];
      var rest := RemoveOffsets(prev, offsets);
      assert s == prev + [s[n]];
      assert DistinctContents(s) ==> DistinctContents(prev);
      assert UniqueIds(s) ==> UniqueIds(prev);
      RemoveOffsetsKeepsInvariants(prev, offsets);
      if n !in offsets {
        assert RemoveOffsets(s, offsets) == rest + [s[n]];
        forall y | y in rest ensures y in prev {
          assert multiset(rest)[y] <= multiset(prev)[y];
        }
        SnocKeepsInvariants(rest, prev, s[n]);
      } else {
        assert RemoveOffsets(s, offsets) == rest;
      }
    }
  }

  /** Keeping the entries that satisfy a predicate keeps both invariants. */
  lemma FilterKeepsInvariants(s: seq<Item>, p: Item -> bool)
    ensures DistinctContents(s) ==> DistinctContents(Filter(s, p))
    ensures UniqueIds(s) ==> UniqueIds(Filter(s, p))
  {
    var failing := set i | 0 <= i < |s| && !p(s[i]);
    RemoveOffsetsWhere(s, failing, p);
    RemoveOffsetsKeepsInvariants(s, failing);
  }

  /** Deleting the entry at one position keeps both invariants. */
  lemma RemoveAtKeepsInvariants(s: seq<Item>, i: nat)
    requires i < |s|
    ensures DistinctContents(s) ==> DistinctContents(s[..i] + s[i + 1..])
    ensures UniqueIds(s) ==> UniqueIds(s[..i] + s[i + 1..])
  {
    RemoveOffsetsSingle(s, i);
    RemoveOffsetsKeepsInvariants(s, {i});
  }

  /** The texts of the entries, front first. */
  function Contents(items: seq<Item>): seq<string>
  {
    seq(|items|, i requires 0 <= i < |items| => items[i].content)
  }

  /** The history after the texts `texts` were copied one after the other,
      the k-th copy getting identifier `firstId + k` and time `start + k`. */
  function RecordAll(items: seq<Item>, texts: seq<string>, firstId: nat, start: nat): seq<Item>
    decreases |texts|
  {
    if texts == [] then items
    else
      var n := |texts| - 1;
      Recorded(RecordAll(items, texts[..n], firstId, start), Some(texts[n]), firstId + n, start + n)
  }

  lemma RecordAllLast(items: seq<Item>, texts: seq<string>, firstId: nat, start: nat)
    requires texts != []
    ensures var n := |texts| - 1;
            RecordAll(items, texts, firstId, start) ==
            Recorded(RecordAll(items, texts[..n], firstId, start), Some(texts[n]), firstId + n, start + n)
  {
  }

  /** A history holding only texts from `prefix` has no entry for a text
      outside it. */
  lemma NewestExcludes(before: seq<Item>, prefix: seq<string>, t: string)
    requires Contents(before) == Reverse(prefix)[..Min(|prefix|, MaxItems)]
    requires t !in prefix
    ensures forall j :: 0 <= j < |before| ==> before[j].content != t
  {
    forall j | 0 <= j < |before| ensures before[j].content != t {
      assert Contents(before)[j] == before[j].content;
      assert Reverse(prefix)[j] in Reverse(prefix);
    }
  }

  /** The inductive step of `RecordAllKeepsNewest`: a new text in front of the
      newest texts of `prefix` gives the newest texts of `prefix + [t]`. */
  lemma NewestAfterInsert(before: seq<Item>, prefix: seq<string>, t: string, freshId: nat, now: nat)
    requires Contents(before) == Reverse(prefix)[..Min(|prefix|, MaxItems)]
    requires t != [] && forall j :: 0 <= j < |before| ==> before[j].content != t
    ensures Contents(Recorded(before, Some(t), freshId, now)) ==
            Reverse(prefix + [t])[..Min(|prefix| + 1, MaxItems)]
  {
    assert |before| == |Contents(before)| == Min(|prefix|, MaxItems);
    ContentsAfterInsert(before, t, freshId, now);
    ReverseSnocTake(prefix, t, MaxItems, if |before| < MaxItems then |before| else |before| - 1);
  }

  /** The texts after copying a text that is not in the history: the new text,
      then the old texts, the last one dropped when capacity is reached. */
  lemma ContentsAfterInsert(before: seq<Item>, t: string, freshId: nat, now: nat)
    requires t != [] && forall j :: 0 <= j < |before| ==> before[j].content != t
    ensures var k := if |before| < MaxItems then |before| else |before| - 1;
            Contents(Recorded(before, Some(t), freshId, now)) == [t] + Contents(before)[..k]
  {
    RecordInsertsNew(before, t, freshId, now);
    var after := Recorded(before, Some(t), freshId, now);
    var k := if |before| < MaxItems then |before| else |before| - 1;
    if |before| < MaxItems {
      assert before[..k] == before;
    }
    assert after == [after[0]] + before[..k];
    ContentsCons(after[0], before[..k]);
    ContentsPrefix(before, k);
  }

  lemma ContentsCons(x: Item, rest: seq<Item>)
    ensures Contents([x] + rest) == [x.content] + Contents(rest)
  {
    assert forall j :: 0 < j <= |rest| ==> ([x] + rest)[j] == rest[j - 1];
  }

  lemma ContentsPrefix(s: seq<Item>, k: nat)
    requires k <= |s|
    ensures Contents(s[..k]) == Contents(s)[..k]
  {
  }

  /** Starting from an empty history, copying distinct non-empty texts leaves
      the last `MaxItems` of them, most recent first. */
  lemma {:induction false} RecordAllKeepsNewest(texts: seq<string>, firstId: nat, start: nat)
    requires forall i :: 0 <= i < |texts| ==> texts[i] != []
    requires Distinct(texts)
    ensures Contents(RecordAll([], texts, firstId, start)) == Reverse(texts)[..Min(|texts|, MaxItems)]
  {
    if texts != [] {
      var n := |texts| - 1;
      assert forall i :: 0 <= i < n ==> texts[..n][i] == texts[i];
      RecordAllKeepsNewest(texts[..n], firstId, start);
      assert texts[n] !in texts[..n];
      NewestStep(texts, firstId, start);
    } else {
      assert Reverse(texts) == [];
    }
  }

  /** The inductive step of `RecordAllKeepsNewest`, one copy at a time. */
  lemma NewestStep(texts: seq<string>, firstId: nat, start: nat)
    requires texts != [] && texts[|texts| - 1] != []
    requires texts[|texts| - 1] !in texts[..|texts| - 1]
    requires var n := |texts| - 1;
      Contents(RecordAll([], texts[..n], firstId, start)) == Reverse(texts[..n])[..Min(n, MaxItems)]
    ensures Contents(RecordAll([], texts, firstId, start)) == Reverse(texts)[..Min(|texts|, MaxItems)]
  {
    var n := |texts| - 1;
    var prefix, t := texts[..n], texts[n];
    var before := RecordAll([], prefix, firstId, start);
    NewestExcludes(before, prefix, t);
    NewestAfterInsert(before, prefix, t, firstId + n, start + n);
    RecordAllLast([], texts, firstId, start);
    assert texts == prefix + [t];
  }

  /** The pasteboard shared with every other application: a change counter
      and its current plain-text content, if any. */
  class Pasteboard {
    var changeCount: int
    var text: Option<string>

    constructor (changeCount: int, text: Option<string>)
      ensures this.changeCount == changeCount && this.text == text
    {
      this.changeCount := changeCount;
      this.text := text;
    }

    /** Declares plain text and writes `content`; declaring new types bumps the
        change counter. */
    method DeclareAndSetString(content: string)
      modifies this
      ensures changeCount == old(changeCount) + 1
      ensures text == Some(content)
    {
      changeCount := changeCount + 1;
      text := Some(content);
    }
  }

  /** The history store. `saved` is the value kept under the store key, already
      decoded; `None` stands for a key with no decodable data. */
  class ClipboardManager {
    var clipboardItems: seq<Item>
    var pasteboardChangeCount: int
    var saved: Option<seq<Item>>

    /** Starts with whatever the store holds (not truncated to `MaxItems`),
        or with an empty history when it holds nothing usable. */
    constructor (store: Option<seq<Item>>)
      ensures clipboardItems == (if store.Some? then store.value else [])
      ensures pasteboardChangeCount == 0
      ensures saved == store
    {
      pasteboardChangeCount := 0;
      saved := store;
      clipboardItems := [];
      new;
      LoadSavedItems();
    }

    method LoadSavedItems()
      modifies this`clipboardItems
      ensures saved.Some? ==> clipboardItems == saved.value
      ensures saved.None? ==> clipboardItems == old(clipboardItems)
    {
      if saved.Some? {
        clipboardItems := saved.value;
      }
    }

    /** One poll: a change counter different from the last one seen is
        recorded, and the current pasteboard text is added. */
    method CheckPasteboardChanges(pasteboard: Pasteboard, freshId: nat, now: nat)
      modifies this
      ensures pasteboardChangeCount == pasteboard.changeCount
      ensures old(pasteboardChangeCount) == pasteboard.changeCount ==>
        clipboardItems == old(clipboardItems) && saved == old(saved)
      ensures old(pasteboardChangeCount) != pasteboard.changeCount ==>
        clipboardItems == Recorded(old(clipboardItems), pasteboard.text, freshId, now) &&
        saved == (if IsNewEntry(old(clipboardItems), pasteboard.text) then Some(clipboardItems) else old(saved))
    {
      var currentChangeCount := pasteboard.changeCount;
      if currentChangeCount != pasteboardChangeCount {
        pasteboardChangeCount := currentChangeCount;
        AddCurrentPasteboardItem(pasteboard, freshId, now);
      }
    }

    /** Adds the pasteboard's text to the history; only a new entry is saved. */
    method AddCurrentPasteboardItem(pasteboard: Pasteboard, freshId: nat, now: nat)
      modifies this
      ensures clipboardItems == Recorded(old(clipboardItems), pasteboard.text, freshId, now)
      ensures saved == (if IsNewEntry(old(clipboardItems), pasteboard.text) then Some(clipboardItems) else old(saved))
      ensures pasteboardChangeCount == old(pasteboardChangeCount)
    {
      var text := pasteboard.text;
      if text.None? || text.value == [] {
        return;
      }
      var s := text.value;
      var existingIndex := FirstIndexWhere(clipboardItems, ContentIs(s));
      if existingIndex.Some? {
        var i := existingIndex.value;
        var existingItem := clipboardItems[i];
        clipboardItems := clipboardItems[..i] + clipboardItems[i + 1..];
        clipboardItems := [existingItem] + clipboardItems;
      } else {
        var newItem := Item(freshId, s, now);
        clipboardItems := [newItem] + clipboardItems;
        if |clipboardItems| > MaxItems {
          clipboardItems := clipboardItems[..|clipboardItems| - 1];
        }
        SaveItems();
      }
    }

    /** Writes `content` to the pasteboard; the history is not touched. */
    method CopyToClipboard(pasteboard: Pasteboard, content: string)
      modifies pasteboard
      ensures pasteboard.text == Some(content)
      ensures pasteboard.changeCount != old(pasteboard.changeCount)
      ensures unchanged(this)
    {
      pasteboard.DeclareAndSetString(content);
    }

    /** Deletes the entries at `offsets` and saves. */
    method RemoveItem(offsets: set<nat>)
      requires forall o :: o in offsets ==> o < |clipboardItems|
      modifies this
      ensures clipboardItems == RemoveOffsets(old(clipboardItems), offsets)
      ensures |clipboardItems| == |old(clipboardItems)| - |offsets|
      ensures saved == Some(clipboardItems)
      ensures pasteboardChangeCount == old(pasteboardChangeCount)
      ensures DistinctContents(old(clipboardItems)) ==> DistinctContents(clipboardItems)
      ensures UniqueIds(old(clipboardItems)) ==> UniqueIds(clipboardItems)
    {
      RemoveOffsetsLength(clipboardItems, offsets);
      RemoveOffsetsKeepsInvariants(clipboardItems, offsets);
      clipboardItems := RemoveOffsets(clipboardItems, offsets);
      SaveItems();
    }

    /** Writes the whole history to the store. */
    method SaveItems()
      modifies this`saved
      ensures saved == Some(clipboardItems)
    {
      saved := Some(clipboardItems);
    }
  }
}
