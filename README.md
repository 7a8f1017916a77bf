# Print catalogue: store, label ranking, filtering and the prints hook

A Dafny model of the logic under the views of a browser app that catalogues photographed
documents ("prints"). Every print has an id, an image (a data-URI string), a title, labels
and a creation date. The model covers four parts:

- **The local store** (`Storage.LocalStore`). One `localStorage` key, `prints_data`, holds
  the print list as JSON. `GetPrints` is fail-soft: an absent or unreadable value reads as
  the empty list. `SavePrints` overwrites the key and swallows a failed write. `AddPrint`
  gives a record the id `Date.now().toString()` and puts it at the front. `DeletePrint`
  drops every record with the given id.
- **The label bar** (`LabelList.RankLabels`). Nested loops count how often each label
  occurs, in a JavaScript `Map`. The distinct labels are then sorted by count, most used
  first, with a stable sort. The bar renders nothing when there are no labels.
- **The print list** (`PrintList`). A print is shown when the search text occurs in its
  title or in one of its labels, ignoring case. If a label is selected, the print must
  also carry exactly that label. Clicking a label selects it and clears the search.
  Deleting asks for confirmation first.
- **The `usePrints` hook** (`UsePrints.PrintsHook`). It holds the in-memory list and the
  `loading` and `uploading` flags. Fetching makes the in-memory list equal to the stored
  one (`InStep`). Every add or delete whose write succeeds keeps it so. After a failed
  write the in-memory list is ahead of the store by that change. It also parses
  the comma-separated label field (`ParseLabels`).

`Text` models the JavaScript string operations the source relies on: `toLowerCase`,
`includes`, `trim`, `split(",")` and decimal `toString`. `Seqs` models `Array.filter` and
the key order of a `Map`. `PrintTypes` holds the `Print` record.

Inputs the program gets from the browser become parameters:

- `clock` is the value of `Date.now()`.
- `now` is `new Date()`.
- `writeOk` says whether `localStorage.setItem` succeeded.
- `encoded` is what `convertImageToBase64` resolved to, or `None` if it rejected.
- `confirmed` is the user's answer to `confirm`.

`addPrint` is split at its `await`. `BeginAdd` sets `uploading` and `FinishAdd` does the
rest, so the state while the image is being read is a real state of the model. The
stored value is `Absent`, `Corrupt` or a JSON array of records. In a stored record the
date is text (`DateText`), and reading turns it back into a `Timestamp`.

Three behaviours of the code that the model keeps:

- Ids are not checked for uniqueness. Two adds in the same millisecond produce a
  duplicate id (`Storage.SameMillisecondCollides`).
- Ties in the ranking are not left unspecified. They keep first-seen order, because the
  `Map` keeps insertion order and `Array.prototype.sort` is stable.
- The hook does not require a non-blank title. Only the form checks it.

## Model

| member | source | states |
|---|---|---|
| `Storage.LocalStore.GetPrints` | lib/storage.ts:7-22 | the result is the decoded stored list; it is `[]` when nothing is stored or the value cannot be parsed |
| `Storage.LocalStore.SavePrints` | lib/storage.ts:25-31 | after a successful write the key holds the encoded list; after a failed write it keeps its old value |
| `Storage.LocalStore.AddPrint` | lib/storage.ts:34-45 | returns the record with id `clock.toString()`; the stored list becomes that record followed by the old list unchanged, or just `[record]` if the old value was absent or corrupt; a failed write changes nothing |
| `Storage.LocalStore.DeletePrint` | lib/storage.ts:48-52 | the stored list becomes the old list without the records that have the id, so no record with that id is left; an absent id leaves the list as it was; a failed write changes nothing |
| `Storage.Decode` | lib/storage.ts:9-21 | absent or corrupt data decodes to `[]`; a JSON array decodes to one print per record |
| `Storage.DecodeEncode` | lib/storage.ts:14-17 | saving then loading gives back the same list, timestamps included |
| `Storage.AddKeepsIdsUnique` | lib/storage.ts:36-41 | after prepending the new record, ids are unique exactly when they were unique before and no stored record already had the new id |
| `Storage.LaterClockGivesFreshId` | lib/storage.ts:38 | if every stored id came from an earlier clock reading, the new id differs from all of them |
| `Storage.SameMillisecondCollides` | lib/storage.ts:38 | from any stored value, two successful adds with the same clock value leave a stored list whose ids are not unique |
| `Storage.AddTwiceInOneMillisecond` | lib/storage.ts:34-45 | through the store: two `addPrint` calls with one clock reading return records with equal ids, both in front of the stored list, which then has a duplicate id |
| `PrintTypes.WithoutIdSpec` | lib/storage.ts:50 | filtering out an id leaves no record with that id; each other record stays exactly as often as before and in the same relative order; if the id was absent the list is unchanged |
| `PrintTypes.UniqueIdsCons` | lib/storage.ts:41 | a list headed by `p` has unique ids iff its tail does and no tail record has `p`'s id |
| `PrintTypes.WithoutIdKeepsUnique` | lib/storage.ts:50 | removing records by id never creates duplicate ids |
| `Text.IncludesIffOccurs` | components/print-list.tsx:26-27 | the model of `includes` holds iff the second string occurs in the first at some position |
| `Text.Lower` | components/print-list.tsx:24-27 | `toLowerCase` keeps the length, replaces every ASCII capital by its small letter (code point plus 32) and leaves every other character as it is |
| `Text.TrimSplits` | hooks/usePrints.ts:40 | `trim` cuts a string into leading white space, a middle that neither starts nor ends with white space, and trailing white space, and returns the middle |
| `Text.TrimOfTrimmed` | hooks/usePrints.ts:40 | trimming a string that is already trimmed changes nothing |
| `Text.TrimIdempotent` | hooks/usePrints.ts:40 | trimming twice is the same as trimming once |
| `Text.JoinSplit` | hooks/usePrints.ts:39 | joining the pieces of `split(",")` with commas gives back the input |
| `Text.SplitPiecesHaveNoComma` | hooks/usePrints.ts:39 | no piece of `split(",")` contains a comma |
| `Text.SplitJoin` | hooks/usePrints.ts:39 | splitting comma-free pieces that were joined with commas gives back the pieces |
| `Text.NatToString` | lib/storage.ts:38 | `toString` of a number gives a non-empty string of decimal digits with no leading zero |
| `Text.NatToStringRoundTrip` | lib/storage.ts:38 | reading the digits back gives the number |
| `Text.NatToStringInjective` | lib/storage.ts:38 | different clock values give different ids |
| `Seqs.DedupFirstSeenOrder` | components/label-list.tsx:16-22 | the keys of the counting `Map` are listed in order of their first occurrence |
| `LabelList.RankLabels` | components/label-list.tsx:15-25 | the result equals `Ranking(prints)`; it has no duplicates; it contains exactly the labels of the prints; it is ordered by non-increasing number of occurrences |
| `LabelList.CountPrintLabels` | components/label-list.tsx:18-20 | after one print's labels are counted, the counts and the key order are those of all labels seen so far |
| `LabelList.CountStep` | components/label-list.tsx:19 | one `labelCount.set` adds one to the label's count (from 0 if new) and appends a new label to the key order |
| `LabelList.SortByCountSorts` | components/label-list.tsx:23 | the sort orders entries by non-increasing count |
| `LabelList.SortByCountPermutes` | components/label-list.tsx:23 | the sort is a permutation of its input |
| `LabelList.SortByCountIsStable` | components/label-list.tsx:23 | for every count, entries with that count keep their input order |
| `LabelList.CountedEntriesSpec` | components/label-list.tsx:16-22 | every entry's count is the total number of occurrences of its label, repeats within one print included; entries follow first-seen order |
| `LabelList.RankingDistinct` | components/label-list.tsx:16-24 | no label is ranked twice |
| `LabelList.RankingMembers` | components/label-list.tsx:17-22 | a string is ranked iff it is a label of some print |
| `LabelList.RankingOrdered` | components/label-list.tsx:23 | ranked labels have non-increasing numbers of occurrences |
| `LabelList.RankingStable` | components/label-list.tsx:16-23 | labels with the same number of occurrences appear in the order they were first met |
| `LabelList.RankingEmpty` | components/label-list.tsx:22-27 | the bar renders nothing iff no print has a label |
| `PrintList.FilterPrintsSpec` | components/print-list.tsx:22-34 | a print is shown iff (the search is empty, or it occurs, ignoring case, in the title or in some label) and (no label is selected, or the print carries the selected label exactly); the result is a subsequence of the prints, and each shown print appears as often as in the input |
| `PrintList.NoFilterShowsAll` | components/print-list.tsx:25-29 | with an empty search and no selected label, every print is shown, in order |
| `PrintList.SelectingLabelNarrows` | components/print-list.tsx:29-32 | selecting a label gives the unselected result for the same search, restricted to prints that carry the label; it is a subsequence of that result |
| `PrintList.ClickedLabelShowsItsPrints` | components/print-list.tsx:42-46 | with the search cleared and a label selected, exactly the prints carrying that label are shown |
| `PrintList.CaseSensitivity` | components/print-list.tsx:26-30 | a print labelled "A" is found by searching "a" but not by selecting the label "a" |
| `PrintList.PrintListView.constructor` | components/print-list.tsx:19-20 | the list starts with an empty search and no selected label |
| `PrintList.PrintListView.SetSearchTerm` | components/print-list.tsx:75 | typing replaces the search text |
| `PrintList.PrintListView.HandleLabelClick` | components/print-list.tsx:42-46 | the selected label becomes the clicked one (possibly none) and the search becomes `""`; the view then shows all prints, or exactly those carrying the label |
| `PrintList.PrintListView.HandleDelete` | components/print-list.tsx:36-40 | only a confirmed delete with `onDelete` present deletes; it then has the hook's delete effect on the list and the store; otherwise nothing changes; the hook's `loading` and `uploading` flags never change; a hook in step with the store stays in step unless a confirmed delete's write fails |
| `UsePrints.ParseLabels` | hooks/usePrints.ts:37-41 | every parsed label is non-empty, trimmed and comma-free |
| `UsePrints.ParseJoinRoundTrip` | hooks/usePrints.ts:38-41 | labels that are non-empty, trimmed and comma-free, joined with commas, parse back to themselves, in order and with repeats; no labels join to `""`, which parses to no labels |
| `UsePrints.ParseLabelsIdempotent` | hooks/usePrints.ts:38-41 | parsing the comma-joined result of a parse gives the same labels |
| `UsePrints.TrimAllPieces` | hooks/usePrints.ts:40 | trimming comma-free pieces gives trimmed, comma-free pieces |
| `UsePrints.PrintsHook.constructor` | hooks/usePrints.ts:8-10 | the hook starts with no prints, `loading` true and `uploading` false |
| `UsePrints.PrintsHook.FetchPrints` | hooks/usePrints.ts:13-23 | `prints` becomes the stored list (`[]` if absent or corrupt), so the hook is in step with the store; `loading` becomes false, and nothing else changes |
| `UsePrints.PrintsHook.BeginAdd` | hooks/usePrints.ts:26-29 | without an image nothing changes; otherwise `uploading` becomes true |
| `UsePrints.PrintsHook.FinishAdd` | hooks/usePrints.ts:30-55 | `uploading` ends false either way; if the image cannot be read, nothing else changes; otherwise the store gets the new record and the in-memory list becomes that record followed by the old list; a hook in step with the store stays in step unless the write fails, and then the list is the record followed by the stored list |
| `UsePrints.PrintsHook.AddPrint` | hooks/usePrints.ts:26-56 | without an image, list, store and `uploading` are untouched; otherwise `uploading` ends false and, on success, the record carries the parsed labels and the title as entered (untrimmed), and is put in front of the in-memory list and the stored list; a hook in step with the store stays in step unless the write fails, and then the list is ahead of the store by that record |
| `UsePrints.PrintsHook.DeletePrint` | hooks/usePrints.ts:59-66 | the store deletes the id, and the in-memory list drops every record with that id and keeps the rest in order; a hook in step with the store stays in step after a successful write, and after a failed one the list is the stored list without the id |

## Left out

- JSX rendering, styling, skeleton loaders and `app/page.tsx`. They are layout only.
- `components/upload-modal.tsx`: camera capture and file input. This is browser I/O. Its 5 MB size check is not part of this model.
- `components/print-form.tsx`: form UI and previews. Its submit guard (image present, title non-blank after trim, not uploading) is not modelled. `UsePrints.PrintsHook.BeginAdd` shows that `uploading` is set for the whole time the image is read.
- `convertImageToBase64` and `FileReader`: the result is the `encoded` parameter, and `imageUrl` is an opaque string.
- JSON text and ISO date text: a stored value is `Absent`, `Corrupt` or a list of records.
- JSON records with missing or mistyped fields are not modelled. JavaScript would accept them into the list with `undefined` fields.
- `new Date` on unparseable text (an Invalid Date) is not modelled.
- `Date.now()`, `new Date()`, `confirm`, `alert`, `console.error`: the first three are parameters. Logging and alerts have no state effect.
- `Text.Lower` lowers ASCII letters only, not the full Unicode case mapping of `toLowerCase`.
- React state batching and async scheduling: operations are sequential method calls, and `addPrint` is split only at its one `await`.
- The `catch` in `fetchPrints` (hooks/usePrints.ts:17-19) is not modelled because it cannot run: `getPrints` catches every error itself.
- The `catch` in `deletePrint` (hooks/usePrints.ts:63-65) is not modelled because it cannot run: `localStorageUtils.deletePrint` does not throw.
- `types/print.ts` `PrintFormData` is a datatype only. `ImageFile` stands for a `File` and is known only by identity.
- A `localStorage.getItem` that throws (storage disabled) is not modelled separately. `getPrints` catches it and returns `[]`, the same as for `Corrupt`.
