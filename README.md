# react-file-drop, modelled in Dafny

`FileDrop` is a React component that turns a `<div>` into a drop target for
files. This project models its two pieces of logic:

- the **accept filter**: `isMatchingFile` matches one dragged item against a
  list of `(type, subtype)` pairs, `getMatchingDataItems` parses the
  comma-separated `accept` string and selects items (single or multiple mode,
  empty accept = every file-kind item), and `getMatchingFiles` turns the
  selected items into `File`s, dropping `null`s;
- the **drag-depth state machine**: the `dragEnterCount` counter that the
  `dragenter`, `dragleave`, `drop` and `dragend` handlers update, and the
  `onEnter`, `onLeave` and `onFileDrop` callbacks they fire.

Modules, leaf to root:

| module | file | models |
|---|---|---|
| `Wrappers` | wrappers.dfy | `undefined`/`null` (`Option`), thrown exceptions (`Result`) |
| `JsStrings` | strings.dfy | `toLowerCase`, `split` with a one-character separator, `trim` (ASCII) |
| `JsArrays` | arrays.dfy | `Array.prototype.filter` and the subsequence relation |
| `Host` | host.dfy | `File`, `DataTransferItem`, `DataTransfer` as plain values |
| `MimeMatch` | mime_match.dfy | src/helpers/isMatchingFile.ts |
| `ItemFilter` | item_filter.dfy | src/helpers/getMatchingDataItems.ts |
| `FileResolver` | file_resolver.dfy | src/helpers/getMatchingFiles.ts |
| `DropTarget` | drop_target.dfy | the handlers in src/index.tsx, as class `FileDrop` |

The helpers are pure and become functions with lemmas about them. The
component mutates its ref step by step, so it becomes a class with a
`dragEnterCount` field, a `calls` field recording every callback invocation in
order, and one method per handler. The optional `onEnter` and `onLeave` props
are the flags `hasOnEnter` and `hasOnLeave`. `onFileDrop` is required, so it is
always invoked when the code calls it.

Some edge cases are modelled exactly as the code has them:

- `[files[0]]` with no file-kind item is a one-element list holding
  `undefined`. `GetMatchingDataItems` returns `seq<Option<DataItem>>`, and that
  slot is `None`.
- `getMatchingFiles` then calls `getAsFile()` on `undefined`, which throws a
  `TypeError`. `ResolveFiles` returns `Err(TypeError)`. `FileDrop.OnDrop`
  reports `threw`, has already reset the counter, and fires no callback.
  `FileResolver.ThrowsIff` gives the exact condition: empty accept, no
  `multiple`, and no file-kind item (for example, dropping only text).
- The counter has no lower bound. A `dragleave` without an enter makes it
  negative, and `onEnter` fires whenever the count after the increment is
  at most 1.
- `onEnter` receives a plain boolean, as declared at src/index.tsx:10 and
  passed at src/index.tsx:58. The tests and the story expect `{ canDrop }`
  instead. The model follows the code.
- The comment at src/index.tsx:43-48 says `onEnter` is told true for
  directories when `accept` is not given or is `*`. The first half holds
  (`NoAcceptAdmitsFileKind`). The second does not: `*` has no `/`, so
  src/helpers/getMatchingDataItems.ts:21 drops it, no item matches, and
  `onEnter` is told false for every transfer with items
  (`StarAcceptRejectsEverything`). The model follows the code.
- A transfer listing no items is reported droppable (src/index.tsx:55-56),
  but with the default props dropping it throws (`EmptyTransferDroppable`).

## Model

| member | source | states |
|---|---|---|
| JsStrings.ToLower | src/helpers/isMatchingFile.ts:8 | same length; each character is mapped by the ASCII case map; no upper-case letter remains |
| JsStrings.ToLowerCaseInsensitive | src/helpers/isMatchingFile.ts:7-8 | two strings lower-case to the same string iff they differ only in letter case (both directions) |
| JsStrings.ToLowerIdempotent | src/helpers/getMatchingDataItems.ts:18 | lower-casing twice is lower-casing once |
| JsStrings.ToLowerAppend | src/helpers/getMatchingDataItems.ts:18 | lower-casing distributes over concatenation |
| JsStrings.ToLowerKeepsSeparator | src/helpers/getMatchingDataItems.ts:18-19 | `,` and `/` occur in the lower-cased string iff they occur in the original |
| JsStrings.Split | src/helpers/getMatchingDataItems.ts:19 | `split` always yields at least one piece, and no piece contains the separator |
| JsStrings.SplitNoSeparator | src/helpers/isMatchingFile.ts:9 | a string without the separator splits into itself alone |
| JsStrings.SplitAppend | src/helpers/getMatchingDataItems.ts:19 | splitting `a + sep + b` is splitting `a` followed by splitting `b` |
| JsStrings.SplitLength | src/helpers/getMatchingDataItems.ts:20-21 | the number of pieces is one more than the number of separators |
| JsStrings.SplitPartChars | src/helpers/getMatchingDataItems.ts:19-20 | every character of a piece occurs in the split string |
| JsStrings.JoinSplit | src/helpers/getMatchingDataItems.ts:19 | joining the pieces with the separator gives back the string |
| JsStrings.SplitJoin | src/helpers/getMatchingDataItems.ts:19 | splitting a join of separator-free pieces gives back the pieces |
| JsStrings.TrimStart | src/helpers/getMatchingDataItems.ts:20 | defined by its body (drop leading ASCII white space); characterised by `TrimStartIsSuffix` |
| JsStrings.TrimEnd | src/helpers/getMatchingDataItems.ts:20 | defined by its body (drop trailing ASCII white space); characterised by `TrimEndIsPrefix` |
| JsStrings.Trim | src/helpers/getMatchingDataItems.ts:20 | defined by its body; characterised by `TrimIsInfix`, `TrimIdempotent`, `TrimKeepsAbsent` and `TrimKeepsLower` |
| JsStrings.TrimIsInfix | src/helpers/getMatchingDataItems.ts:20 | `trim` yields the infix left after removing all leading and trailing white space, which neither starts nor ends with white space |
| JsStrings.TrimIdempotent | src/helpers/isMatchingFile.ts:10 | trimming twice is trimming once |
| JsStrings.TrimKeepsAbsent | src/helpers/getMatchingDataItems.ts:20 | trimming never introduces a character |
| JsStrings.TrimKeepsLower | src/helpers/getMatchingDataItems.ts:18-20 | trimming a lower-case string keeps it lower-case |
| JsStrings.TrimAll | src/helpers/isMatchingFile.ts:10 | `map(trim)` keeps the number of parts and trims each one |
| JsArrays.Filter | src/helpers/getMatchingDataItems.ts:23 | `filter` returns no more elements than it received, each satisfying the predicate |
| JsArrays.FilterMembers | src/helpers/getMatchingDataItems.ts:12 | an element is kept iff it is in the input and satisfies the predicate |
| JsArrays.FilterAppend | src/helpers/getMatchingDataItems.ts:23 | filtering commutes with concatenation, so order is preserved |
| JsArrays.FilterIsSubsequence | src/helpers/getMatchingDataItems.ts:23 | the result is an order-preserving subsequence of the input |
| JsArrays.FilterEmpty | src/helpers/getMatchingDataItems.ts:25-27 | the result is empty iff no element satisfies the predicate |
| JsArrays.FilterFirst | src/helpers/getMatchingDataItems.ts:29 | the first element kept is the first element of the input that satisfies the predicate |
| JsArrays.FilterCongruent | src/helpers/getMatchingDataItems.ts:23 | predicates that agree on the input filter it identically |
| MimeMatch.ParseMime | src/helpers/isMatchingFile.ts:7-10 | defined by its body; characterised by `ParseMimeNoSlash`, `ParseMimeTwoParts` and `ParseMimeIgnoresExtraParts` |
| MimeMatch.PairAccepts | src/helpers/isMatchingFile.ts:14 | defined by its body; used by `AnyAcceptsIff` and `IsMatchingFileIff` |
| MimeMatch.AnyAccepts | src/helpers/isMatchingFile.ts:12-19 | defined by its body; characterised by `AnyAcceptsIff` |
| MimeMatch.IsMatchingFile | src/helpers/isMatchingFile.ts:1-20 | defined by its body; characterised by `IsMatchingFileIff`, `NonFileNeverMatches`, `Monotone`, `OrderIndependent` and `CaseInsensitive` |
| MimeMatch.AnyAcceptsIff | src/helpers/isMatchingFile.ts:12-19 | the early-return loop returns true iff some pair accepts the parsed type |
| MimeMatch.IsMatchingFileIff | src/helpers/isMatchingFile.ts:1-20 | true iff the item is of file kind and some pair has the item's main type and either subtype `*` or the item's subtype |
| MimeMatch.NonFileNeverMatches | src/helpers/isMatchingFile.ts:2-4 | an item whose kind is not `file` never matches |
| MimeMatch.EmptyAcceptsNeverMatch | src/helpers/isMatchingFile.ts:12-19 | an empty accept list never matches |
| MimeMatch.Monotone | src/helpers/isMatchingFile.ts:12-16 | appending pairs on either side never turns a match into a mismatch |
| MimeMatch.OrderIndependent | src/helpers/isMatchingFile.ts:12-16 | accept lists with the same pairs give the same result, whatever the order or repetition |
| MimeMatch.CaseInsensitive | src/helpers/isMatchingFile.ts:7-8 | changing only the letter case of the item's type does not change the result |
| MimeMatch.ParseMimeNoSlash | src/helpers/isMatchingFile.ts:7-10 | a type without `/` has no subtype, and its main type is the whole type, lower-cased and trimmed |
| MimeMatch.NoSlashMatchesOnlyWildcard | src/helpers/isMatchingFile.ts:7-16 | such a type matches iff some pair has subtype `*` and its main type equals the whole trimmed type |
| MimeMatch.ParseMimeTwoParts | src/helpers/isMatchingFile.ts:7-10 | `a/b` parses to its lower-cased, trimmed halves |
| MimeMatch.ParseMimeIgnoresExtraParts | src/helpers/isMatchingFile.ts:7 | everything after a second `/` is ignored |
| ItemFilter.ParseEntry | src/helpers/getMatchingDataItems.ts:20-21 | defined by its body; characterised by `ParseEntryIff` and `ParseEntryOf` |
| ItemFilter.ParseEntries | src/helpers/getMatchingDataItems.ts:20-21 | defined by its body; characterised by `ParseEntriesAppend` and `ParseEntriesMembers` |
| ItemFilter.ParseAccepts | src/helpers/getMatchingDataItems.ts:17-21 | defined by its body; characterised by `ParseAcceptsAppend`, `ParseAcceptsSingle` and `ParsedPairsAreNormal` |
| ItemFilter.ParseEntryIff | src/helpers/getMatchingDataItems.ts:20-21 | a comma-separated piece yields at most one pair, and yields one iff it contains exactly one `/` |
| ItemFilter.ParseEntryOf | src/helpers/getMatchingDataItems.ts:20 | the piece `a/b` yields the pair of its trimmed halves |
| ItemFilter.ParseEntriesMembers | src/helpers/getMatchingDataItems.ts:20-21 | a pair is parsed iff it comes from one of the pieces |
| ItemFilter.ParseAcceptsAppend | src/helpers/getMatchingDataItems.ts:17-21 | `a,b` parses to the pairs of `a` followed by the pairs of `b` |
| ItemFilter.ParseAcceptsSingle | src/helpers/getMatchingDataItems.ts:17-21 | a comma-free accept string is one lower-cased entry |
| ItemFilter.ParsedPairsAreNormal | src/helpers/getMatchingDataItems.ts:17-21 | every parsed type and subtype is lower-case and trimmed, and contains neither `,` nor `/` |
| ItemFilter.GetMatchingDataItems | src/helpers/getMatchingDataItems.ts:3-30 | defined by its body; characterised by `MultipleSelectsAdmitted`, `SingleSelectsFirst`, `EmptyAcceptSingleHasOneSlot` and `NonEmptyAcceptSelectsMatching` |
| ItemFilter.MultipleSelectsAdmitted | src/helpers/getMatchingDataItems.ts:10-29 | with `multiple`, the result is exactly the admitted items in input order, for empty and non-empty accept alike |
| ItemFilter.EmptyAcceptMultiple | src/helpers/getMatchingDataItems.ts:10-13 | empty accept with `multiple`: exactly the file-kind items, as an ordered subsequence of the input |
| ItemFilter.SingleSelectsFirst | src/helpers/getMatchingDataItems.ts:10-29 | without `multiple`: the first admitted item alone; if there is none, `[undefined]` for empty accept and `[]` otherwise |
| ItemFilter.EmptyAcceptSingleHasOneSlot | src/helpers/getMatchingDataItems.ts:11-13 | empty accept without `multiple` always gives one slot, and that slot is `undefined` iff no item is of file kind |
| ItemFilter.NonEmptyAcceptSelectsMatching | src/helpers/getMatchingDataItems.ts:21-29 | with non-empty accept, every slot is a defined file-kind input item that matches the parsed pairs, and the result is no longer than the input |
| ItemFilter.MalformedAcceptSelectsNothing | src/helpers/getMatchingDataItems.ts:21-27 | an accept string whose entries are all malformed selects nothing |
| ItemFilter.AcceptOrderIrrelevant | src/helpers/getMatchingDataItems.ts:17-23 | accept strings that parse to the same pairs select the same items |
| ItemFilter.ParseImageWildcard | src/helpers/getMatchingDataItems.ts:17-21 | the accept string `image/*` parses to the one pair `(image, *)` |
| ItemFilter.ImageWildcardKeepsImagesInOrder | src/__tests__/index.test.tsx:138-155 | `image/*` with `multiple` over [pdf, jpg, jpg] gives the two jpgs in order |
| FileResolver.FilesOf | src/helpers/getMatchingFiles.ts:9 | defined by its body; characterised by `FilesOfMembers`, `FilesOfLength` and `FilesOfAppend` |
| FileResolver.ResolveFiles | src/helpers/getMatchingFiles.ts:9 | defined by its body; characterised by `ResolveFilesIff` |
| FileResolver.GetMatchingFiles | src/helpers/getMatchingFiles.ts:3-10 | defined by its body; characterised by `ThrowsIff`, `MultipleDeliversAllAdmitted`, `SingleDeliversFirst` and `DeliveredFilesBounded` |
| FileResolver.FilesOfMembers | src/helpers/getMatchingFiles.ts:9 | a file is delivered iff some item resolves to it |
| FileResolver.FilesOfLength | src/helpers/getMatchingFiles.ts:9 | no more files than items; as many iff no item resolves to `null` |
| FileResolver.FilesOfAppend | src/helpers/getMatchingFiles.ts:9 | resolution keeps the order of the items |
| FileResolver.ResolveFilesIff | src/helpers/getMatchingFiles.ts:9 | resolution throws iff some slot is `undefined`; otherwise it gives the non-null files in order |
| FileResolver.ThrowsIff | src/helpers/getMatchingFiles.ts:8-9 | the pipeline throws iff the accept is empty, `multiple` is off and no item is of file kind |
| FileResolver.MultipleDeliversAllAdmitted | src/helpers/getMatchingFiles.ts:8-9 | with `multiple`, the non-null files of all admitted items, in input order |
| FileResolver.SingleDeliversFirst | src/helpers/getMatchingFiles.ts:8-9 | without `multiple`: the first admitted item's file if non-null; `[]` if nothing is admitted and accept is non-empty; a throw otherwise |
| FileResolver.DeliveredFilesBounded | src/helpers/getMatchingFiles.ts:9 | every delivered file comes from an admitted input item; never more files than admitted items, and at most one without `multiple` |
| FileResolver.FirstFileWins | src/__tests__/index.test.tsx:111-122 | no accept, no `multiple`, [pdf, jpg] dropped: only the pdf is delivered |
| DropTarget.CanDrop | src/index.tsx:38-58 | defined by its body; characterised by `CanDropIff`, `EmptyTransferDroppable` and `StarAcceptRejectsEverything` |
| DropTarget.CanDropIff | src/index.tsx:49-58 | for a transfer with items, `onEnter` gets true iff some item is admitted; `multiple` plays no part |
| DropTarget.CanDropMeansDropSucceeds | src/index.tsx:49-58 | if enter reported a transfer with items as droppable, dropping it does not throw; with no items it can throw (`EmptyTransferDroppable`) |
| DropTarget.EmptyTransferDroppable | src/index.tsx:51-56 | a transfer listing no items is reported droppable whatever the props; its drop throws iff the accept is empty and `multiple` is off |
| DropTarget.StarAcceptRejectsEverything | src/index.tsx:43-49 | the accept string `*` parses to no pair, so for every transfer with items and either `multiple` `onEnter` is told false, contrary to the comment at src/index.tsx:46-47 |
| DropTarget.NoAcceptAdmitsFileKind | src/index.tsx:43-49 | without an accept string any transfer holding a file-kind item, a directory included, is reported droppable, as the comment says |
| DropTarget.FileDrop.constructor | src/index.tsx:15-24 | `accept` defaults to `""`, `multiple` to false, the counter starts at 0, no callback has fired |
| DropTarget.FileDrop.OnDragOver | src/index.tsx:26-29 | the default action is suppressed and nothing changes |
| DropTarget.FileDrop.OnDragEnter | src/index.tsx:31-59 | the counter goes up by exactly 1; `onEnter` fires once, with the drop signal, iff it is supplied and the new count is at most 1 |
| DropTarget.FileDrop.OnDragLeave | src/index.tsx:61-67 | the counter goes down by 1 with no lower bound; `onLeave` fires iff it is supplied |
| DropTarget.FileDrop.OnDrop | src/index.tsx:69-83 | default suppressed; a null transfer changes nothing; otherwise the counter is reset to 0 and `onFileDrop(files)` fires iff the file list is non-empty, or the call throws and nothing fires |
| DropTarget.FileDrop.OnDragEnd | src/index.tsx:85-87 | the counter is reset to 0 and nothing fires |
| DropTarget.EnterThenLeave | src/index.tsx:31-67 | with both optional callbacks supplied (the test at src/__tests__/index.test.tsx:27-38 supplies only `onEnter`), enter then leave fires `onEnter` once and `onLeave` once, with no drop, and the counter returns to 0 |
| DropTarget.NestedEnterFiresOnce | src/index.tsx:32-36 | a second nested enter does not fire `onEnter` again |
| DropTarget.LeaveThenEnter | src/__tests__/index.test.tsx:75-86 | a leave first fires `onLeave` and drives the counter to -1; the next enter brings it back to 0 and fires `onEnter` |
| DropTarget.EnterWithoutTransfer | src/__tests__/index.test.tsx:67-73 | a null `dataTransfer` on enter reports false |
| DropTarget.DropWithoutTransfer | src/__tests__/index.test.tsx:166-172 | a drop with a null `dataTransfer` fires nothing, does not throw, and keeps the counter |
| DropTarget.DropWithoutMatch | src/__tests__/index.test.tsx:157-164 | a drop that `image/*` does not admit fires nothing |
| DropTarget.DropThenDragEnd | src/__tests__/index.test.tsx:88-99 | a drop delivers the file once, and the dragend that follows delivers nothing more |

## Left out

- Rendering: the JSX, the prop spreading, and the order in which the handlers are bound after the spread (src/index.tsx:89-101). This is presentation.
- `event.preventDefault()` as a host call. The dragover and drop handlers only return a `defaultPrevented` flag.
- `isFunction`, imported at src/index.tsx:4, is not part of this model. An optional callback is a flag saying whether it is supplied.
- The browser's `DataTransfer`, `DataTransferItemList` and `getAsFile()`. An item is a value carrying its kind, its type and the precomputed result of `getAsFile()`.
- Props that change between renders. `accept`, `multiple` and the callback flags are fixed per instance, while the ref persists.
- Full Unicode. `toLowerCase` maps only `A`-`Z`, and `trim` removes only ASCII white space (space, tab, LF, VT, FF, CR).
- The `{ canDrop }` object that the tests and the story expect from `onEnter`. The code passes a boolean; see above.
- Accept entries of other lengths. The matcher takes `(type, subtype)` pairs rather than arrays of any length, because its only caller passes two-element entries.
