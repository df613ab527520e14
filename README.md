# KimchiPaste clipboard history, modelled in Dafny

KimchiPaste is a macOS utility that watches the system pasteboard and keeps a
short history of copied text. Its `ClipboardManager` holds `clipboardItems`,
a most-recent-first list that every copy event keeps within `maxItems` (10)
entries, one per distinct text. Each poll compares the pasteboard's change counter with the
last one seen. On a change it does one of three things:

- it ignores missing or empty text;
- it moves an entry with the same text to the front, keeping its identifier and timestamp;
- or it puts a new entry in front and drops the last entry when the list has grown past 10.

Only a new entry is written to the key-value store (`UserDefaults`). Deleting
by position writes the store too. The list view filters the history by a
search text. Its delete actions turn positions in the filtered list into
identifiers, and then into positions in the real history, before deleting.

Files:

- `seqs.dfy` (module `Seqs`): Swift's `firstIndex(where:)`, `filter` and
  `remove(atOffsets:)` as functions, with the facts the rest relies on, and
  the generic helpers `Subseq`, `Distinct`, `Reverse` and `Min`.
- `clipboard_manager.dfy` (module `Clipboard`): the `Item` record, the
  specification function `Recorded` of one copy event and its lemmas, and
  the classes `Pasteboard` and `ClipboardManager`. The manager's methods
  update `clipboardItems`, `pasteboardChangeCount` and the store snapshot
  `saved`, and are proved to do what `Recorded` says.
- `content_view.dfy` (module `ContentView`): `filteredItems`,
  `indices(where:)` as a loop, and the delete, swipe-delete and clear-all
  actions.

The two view files `KimchiPaste/Views/ContentView.swift` and
`KimchiPaste/ContentView.swift` contain the same search, delete and clear
logic line for line. They are modelled once, by the members of module
`ContentView`. The table cites each line range in one of the two files.

The pasteboard and the store are modelled as plain values.
- `Pasteboard` holds the change counter and the current text (`None` when there is no plain text).
- `saved` holds the decoded value under the store key (`None` when the key holds nothing decodable).
- `UUID()` and `Date()` become the parameters `freshId` and `now` of the operations that create entries.

The history bound, text uniqueness and identifier uniqueness are not class
invariants. The source loads stored data without truncating it, so a longer
list survives a relaunch. These facts are therefore stated as "preserved if
it held before" lemmas: about `Recorded` for copy events, and about
`RemoveOffsets` and `Filter` for the delete actions.

## Model

| member | source | states |
|---|---|---|
| `Seqs.FirstIndexWhere` | KimchiPaste/Managers/ClipboardManager.swift:47 | the result is the first position whose element satisfies the predicate, and `None` exactly when no element does |
| `Seqs.Filter` | KimchiPaste/Views/ContentView.swift:13 | an element is in the result exactly when it is in the input and satisfies the predicate; every occurrence of a satisfying element is kept and none of the others (multiset counts); the result is no longer than the input |
| `Seqs.FilterInOrder` | KimchiPaste/ContentView.swift:13 | filtering keeps the surviving elements in their original relative order |
| `Seqs.RemoveOffsets` | KimchiPaste/Managers/ClipboardManager.swift:75 | removing offsets never lengthens the list and never adds an occurrence of any element |
| `Seqs.RemoveOffsetsLength` | KimchiPaste/Managers/ClipboardManager.swift:75 | with every offset in range, removing offsets shortens the list by exactly the number of offsets |
| `Seqs.RemoveOffsetsMembers` | KimchiPaste/Managers/ClipboardManager.swift:75 | an element survives exactly when it sits at some position that is not among the offsets |
| `Seqs.RemoveOffsetsInOrder` | KimchiPaste/Managers/ClipboardManager.swift:75 | the survivors of a removal keep their relative order |
| `Seqs.RemoveOffsetsPrefix` | KimchiPaste/Managers/ClipboardManager.swift:75 | removing the offsets from a prefix of the list gives a prefix of the result |
| `Seqs.RemoveOffsetsPosition` | KimchiPaste/Managers/ClipboardManager.swift:75 | the element at a kept position `i` sits in the result right after the survivors of the positions before `i`, so it is that occurrence that survives |
| `Seqs.RemoveOffsetsDistinct` | KimchiPaste/Managers/ClipboardManager.swift:75 | removing offsets from a list without repeats leaves a list without repeats |
| `Seqs.RemoveOffsetsSingle` | KimchiPaste/Views/ContentView.swift:75 | removing the single offset `i` is removing the element at `i` and nothing else |
| `Seqs.RemoveOffsetsWhere` | KimchiPaste/ContentView.swift:84-85 | removing the positions of the elements that fail a predicate leaves the same list as filtering by that predicate |
| `Clipboard.Recorded` | KimchiPaste/Managers/ClipboardManager.swift:44-59 | one copy event changes the length by at most one (it grows by one or stays the same), and every entry afterwards is an old entry or the fresh entry for the copied text |
| `Clipboard.RecordIgnoresEmptyText` | KimchiPaste/Managers/ClipboardManager.swift:44 | missing or empty pasteboard text leaves the history unchanged and is not saved |
| `Clipboard.RecordPromotesExisting` | KimchiPaste/Managers/ClipboardManager.swift:47-50 | re-copying present text puts the same entry (same id, text, timestamp) at index 0, keeps the length, keeps the others in order, and is not saved |
| `Clipboard.RecopyFrontIsNoop` | KimchiPaste/Managers/ClipboardManager.swift:47-50 | re-copying the text of the front entry leaves the history unchanged |
| `Clipboard.RecopyMiddleScenario` | KimchiPaste/Managers/ClipboardManager.swift:47-50 | history a, b, c followed by a copy of b gives b, a, c |
| `Clipboard.RecordInsertsNew` | KimchiPaste/Managers/ClipboardManager.swift:51-62 | new text becomes a fresh entry at index 0, is saved, and the old entries follow in order; only the last one is dropped, and only when the history already held 10 or more |
| `Clipboard.ContentsAfterInsert` | KimchiPaste/Managers/ClipboardManager.swift:51-59 | after copying new text the texts are the new one followed by the old ones, the last old one dropped when the history already held 10 or more |
| `Clipboard.RecordKeepsBound` | KimchiPaste/Managers/ClipboardManager.swift:56-59 | a history of at most 10 entries still has at most 10 after a copy event |
| `Clipboard.RecordKeepsContentsDistinct` | KimchiPaste/Managers/ClipboardManager.swift:47-54 | if no two entries share a text before a copy event, none do afterwards |
| `Clipboard.RecordKeepsIdsUnique` | KimchiPaste/Managers/ClipboardManager.swift:53-54 | with a fresh identifier for the new entry, unique identifiers stay unique |
| `Clipboard.RemoveOffsetsKeepsInvariants` | KimchiPaste/Managers/ClipboardManager.swift:74-77 | deleting entries at any positions keeps one entry per text and keeps identifiers unique |
| `Clipboard.FilterKeepsInvariants` | KimchiPaste/Views/ContentView.swift:82-86 | keeping the entries that satisfy a predicate (what the list's delete action amounts to) keeps one entry per text and keeps identifiers unique |
| `Clipboard.RemoveAtKeepsInvariants` | KimchiPaste/Views/ContentView.swift:70-76 | deleting the entry at one position (the swipe action) keeps one entry per text and keeps identifiers unique |
| `Clipboard.RecordAllKeepsNewest` | KimchiPaste/Managers/ClipboardManager.swift:40-64 | starting empty, copying distinct non-empty texts one after another leaves the last 10 of them, most recent first |
| `Clipboard.Pasteboard.DeclareAndSetString` | KimchiPaste/Managers/ClipboardManager.swift:69-70 | the pasteboard holds the given text and its change counter has moved on |
| `Clipboard.ClipboardManager.constructor` | KimchiPaste/Managers/ClipboardManager.swift:11-14 | the history starts as the stored list (untruncated), or empty when nothing usable is stored; so saving and relaunching reproduces the saved list, and clearing then relaunching gives an empty one |
| `Clipboard.ClipboardManager.LoadSavedItems` | KimchiPaste/Managers/ClipboardManager.swift:88-95 | a decodable stored list replaces the history; otherwise the history is untouched |
| `Clipboard.ClipboardManager.CheckPasteboardChanges` | KimchiPaste/Managers/ClipboardManager.swift:29-37 | afterwards the stored counter equals the pasteboard's; an unchanged counter changes nothing (so a second poll is a no-op); a changed one records the pasteboard text as `Recorded` says |
| `Clipboard.ClipboardManager.AddCurrentPasteboardItem` | KimchiPaste/Managers/ClipboardManager.swift:40-64 | the new history is `Recorded` of the old one and the pasteboard text; the store is written with the new history exactly when a new entry was created, and otherwise keeps its old value |
| `Clipboard.ClipboardManager.CopyToClipboard` | KimchiPaste/Managers/ClipboardManager.swift:67-71 | the pasteboard holds the text and its counter changed; nothing in the manager changes |
| `Clipboard.ClipboardManager.RemoveItem` | KimchiPaste/Managers/ClipboardManager.swift:74-77 | the history loses exactly the entries at the offsets, shrinks by their number, and is saved; one entry per text and unique identifiers, if they held, still hold |
| `Clipboard.ClipboardManager.SaveItems` | KimchiPaste/Managers/ClipboardManager.swift:80-85 | the store holds the current history |
| `ContentView.Matches` | KimchiPaste/Views/ContentView.swift:13 | a match needs a non-empty search no longer than the text, and every non-empty text matches itself |
| `ContentView.FilteredItems` | KimchiPaste/Views/ContentView.swift:9-15 | an empty search shows the whole history; otherwise exactly the entries whose text matches, each as often as in the history, in history order |
| `ContentView.IndicesWhere` | KimchiPaste/Views/ContentView.swift:193-202 | the result holds exactly the in-range positions whose element satisfies the predicate |
| `ContentView.ShownIds` | KimchiPaste/Views/ContentView.swift:83 | the identifier of every chosen in-range row is collected, and every collected identifier belongs to a chosen row |
| `ContentView.DeleteOffsets` | KimchiPaste/Views/ContentView.swift:82-86 | the history becomes the old history without every entry whose id is shown at a chosen filtered position, and is saved; one entry per text and unique identifiers, if they held, still hold |
| `ContentView.DeleteRemovesExactlyShown` | KimchiPaste/ContentView.swift:82-86 | with unique ids, deleting through the filtered list removes exactly the chosen entries, and the survivors keep their order |
| `ContentView.SwipeDelete` | KimchiPaste/Views/ContentView.swift:70-76 | the first history entry with the swiped row's id is removed and the history saved; if there is none, nothing changes |
| `ContentView.SwipeRemovesShownItem` | KimchiPaste/ContentView.swift:72-76 | the swiped row's id is always found in the history; with unique ids the removed entry is the swiped one and it no longer appears |
| `ContentView.ClearAll` | KimchiPaste/Views/ContentView.swift:101-104 | the history is empty and the store holds the empty list |

## Left out

- The polling thread (`KimchiPaste/Managers/ClipboardManager.swift:17-26`) is left out: an endless background loop that sleeps 0.5 s and dispatches each check to the main queue. One poll is modelled as `CheckPasteboardChanges`, with the pasteboard as a parameter.
- JSON encoding and decoding and `UserDefaults` are foreign library calls. The store is the decoded value `saved`. A failed encode (`try?`) is not modelled: `SaveItems` always writes.
- `formattedTime` and `formattedDateTime` are `DateFormatter` output and are not modelled. `UUID()` and `Date()` are caller-supplied numbers. That identifiers are unique is a precondition of the lemmas that need it.
- `ContentView.Matches` approximates `localizedCaseInsensitiveContains` by a substring test that ignores ASCII case. Like the Foundation call, it never matches an empty search. Locale-aware folding and Unicode case mapping are not modelled.
- The pasteboard is reduced to its change counter and plain text. `Pasteboard.DeclareAndSetString` bumps the counter by one. Other content types are not read by the source.
- Recorded: texts are compared as sequences of Unicode scalars, not by Swift's `String ==`, which compares canonically equivalent strings as equal (a precomposed "é" and "e" followed by a combining accent). Two such texts get two entries in this model but share one in the app. The same holds for `DistinctContents`, `IsNewEntry` and `AddCurrentPasteboardItem`.
- Swift traps are preconditions. An offset out of range in `remove(atOffsets:)` is one. So is a filtered position out of range in the view's actions.
- SwiftUI layout, hover, cursor and alert state in both view files are not modelled. The view's copy button only calls `CopyToClipboard`.
- Three files are not part of this model. They are window and coordinate code (`KimchiPaste/Managers/FloatingButtonManager.swift`), the launch-agent installer (`KimchiPaste/LaunchAgent/LaunchAgentManager.swift`), and the settings screen (`KimchiPaste/Views/SettingsView.swift`). They are OS wrappers, floating-point geometry and UI.
- The entry points `KimchiPaste/Main.swift` and `KimchiPaste/KimchiPasteApp.swift` are not part of this model, nor is `KimchiPaste/Views/FloatingButtonView.swift`.
- The model has one `ClipboardManager` with its own store snapshot `saved`. In the app, the manager created in `KimchiPaste/KimchiPasteApp.swift` and one more per floating window (`KimchiPaste/Managers/FloatingButtonManager.swift`) each poll and write the same `UserDefaults` key, so a relaunch loads whichever wrote last. The constructor's relaunch facts hold for a single manager only.
- Promoting an existing entry does not write the store. This is modelled as written: `AddCurrentPasteboardItem` leaves `saved` unchanged on that path, so a relaunch restores the order from the last save.
