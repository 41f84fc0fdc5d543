# Notes manager — a verified Dafny model

This project models the `NotesManager` class of a small command-line note-taking
tool. The class keeps the user's notes in memory, in insertion order. After every
mutation it writes the whole collection to a primary JSON file (`notes.json` in the
working directory unless another path is given).

The class has these operations:

- Mutators: create, update, delete, clear and import (replace or merge).
- Queries: list, look up by id, case-insensitive text search, and case-insensitive
  exact tag filtering.
- Persistence: load at construction, save after mutations, and export to another path.

Modules, one per component:

- `Text` (`text.dfy`): ASCII case folding (`Lower`) and the substring test `Includes`. `Includes` is proved equal to "there is an offset where the query occurs".
- `Seqs` (`seqs.dfy`): the order-preserving `Filter` behind `Array.prototype.filter`, with its properties. These are: subsequence, multiplicities kept, filter of a concatenation, when nothing is dropped, congruence and idempotence.
- `Notes` (`notes.dfy`): the `Note` value, the partial update record, the pure queries (`FindIndex`, `GetNoteById`, `RemoveId`, `SearchNotes`, `GetNotesByTag`) and the lemmas about them. It also has the store's intended invariant `WellFormed`: ids are unique and `createdAt <= updatedAt`.
- `Storage` (`storage.dfy`): the file system as a `FileSystem` object. It maps paths to a stored document or to an unreadable file, and has the set of paths where writing fails.
- `Manager` (`manager.dfy`): the `NotesManager` class. Its field `notes: seq<Note>` is a sequence value that the mutators reassign: the `push` calls and the indexed assignment at src/NotesManager.ts lines 50, 67 and 128 become value updates of the field. Its predicate `Persisted()` says the primary file holds exactly `notes`. Every mutator states the whole new state, and every mutator that saves ensures `Persisted()` when the save succeeds. An update of an unknown id and a delete that removes nothing write no file. Two client methods derive the restart and export/import round trips from the contracts alone.

Inputs that the source takes from the environment are parameters here:

- The id of a new note (`generateId`) is passed in, and must not already be in the store.
- The clock reading (`new Date()`) is passed in as `now: nat`.
- The working directory (`process.cwd()`) is passed in as `cwd`.

Behaviour of the code that the model keeps:

- Each mutator changes `notes` before it saves (src/NotesManager.ts lines 50-51, 67-73, 79-82 and 127-133). After a failed save the change stays in memory. In the model, where a failed write changes nothing, the file also keeps its old content; partly written files are set aside under "## Left out".
- `deleteNote` removes every note with the id (line 79), and ids can repeat after a merge import (line 128). `RemoveId` removes them all, and `DeleteNote` keeps exactly the notes whose id differs. `RemoveUniqueId` proves that exactly one note goes when ids are unique.
- A save failure inside `importNotes` is caught by the import's own handler (lines 134-136) and rethrown as an import error. `ImportNotes` therefore reports `ImportFailed`, not `SaveFailed`.

## Model

| member | source | states |
|---|---|---|
| Text.IncludesIff | src/NotesManager.ts:91-94 | the recursive `includes` holds exactly when the query occurs at some offset of the string (both directions) |
| Text.IncludesEmpty | src/NotesManager.ts:89-92 | the empty query is included in every string |
| Text.Lower | src/NotesManager.ts:89 | the folded string has the same length, no ASCII capital letter left, and every character that is not a capital in its place unchanged |
| Text.LowerIdempotent | src/NotesManager.ts:89 | folding a folded string changes nothing |
| Seqs.Filter | src/NotesManager.ts:79 | the result is a subsequence of the input (order kept), holds each satisfying element with its original multiplicity and no other element |
| Seqs.FilterAppend | src/NotesManager.ts:128 | filtering a concatenation is concatenating the filters |
| Seqs.FilterLength | src/NotesManager.ts:81 | the filter is never longer, and is as long as its input exactly when every element satisfies the condition, in which case it is the input |
| Seqs.FilterCongruent | src/NotesManager.ts:90 | filters by conditions that agree on the elements are equal |
| Seqs.FilterIdempotent | src/NotesManager.ts:90 | filtering a filtered sequence again changes nothing |
| Seqs.FilterCount | src/NotesManager.ts:79-81 | the filter keeps exactly as many elements as satisfy the condition |
| Notes.FindIndex | src/NotesManager.ts:64-65 | None exactly when no note has the id; otherwise the first index whose note has the id |
| Notes.GetNoteById | src/NotesManager.ts:59-61 | None (`undefined`) exactly when no note has the id; otherwise the note at the first index with the id |
| Notes.ApplyUpdate | src/NotesManager.ts:67-71 | id and createdAt kept, each supplied field replaced, each unsupplied field kept, updatedAt set to the clock |
| Notes.RemoveId | src/NotesManager.ts:77-86 | order-preserving subsequence without the id, keeping every other note with its multiplicity, as many notes as have another id; shorter exactly when the id was present; unchanged when it was not |
| Notes.SearchNotes | src/NotesManager.ts:88-99 | order-preserving subsequence of exactly the notes (with their multiplicities) whose folded title, content or (when asked) some folded tag includes the folded query |
| Notes.GetNotesByTag | src/NotesManager.ts:101-106 | order-preserving subsequence of exactly the notes (with their multiplicities) with some tag equal to the tag after folding |
| Notes.SearchMatchIff | src/NotesManager.ts:90-98 | the search condition holds exactly when the folded query is a substring of a folded title, content or tag |
| Notes.SearchSubstringSpec | src/NotesManager.ts:88-99 | a note is in the search result exactly when it is in the store and the folded query is a substring of one of its folded fields |
| Notes.SearchEmptyQuery | src/NotesManager.ts:88-99 | the empty query returns the whole store in order |
| Notes.SearchCaseInsensitive | src/NotesManager.ts:89-94 | two queries with the same folding give the same result |
| Notes.SearchFoldedQuery | src/NotesManager.ts:89 | searching the folded query is searching the query |
| Notes.SearchIdempotent | src/NotesManager.ts:88-99 | searching a search result with the same query returns it unchanged |
| Notes.SearchAppend | src/NotesManager.ts:88-99 | the search over old notes followed by imported notes is the search over each, concatenated |
| Notes.TagFilterAppend | src/NotesManager.ts:101-106 | the tag filter over a concatenation is the concatenation of the tag filters |
| Notes.TagFilterWithinSearch | src/NotesManager.ts:101-106 | every note found by the exact tag filter is found by the search of the tag's text |
| Notes.TagFilterScenario | tests/notes.test.ts:139-153 | a note tagged "Urgent" is found by the tag filter for "urgent"; a note tagged "tag1" is not found by the unknown tag "tag_inexistant" |
| Notes.TagFilterIsExact | src/NotesManager.ts:104 | the tag comparison is whole-tag equality: a note tagged "urgentissime" is found by a search for "urgent" but not by the tag filter for "urgent" |
| Notes.GetAfterAppend | src/NotesManager.ts:50-60 | after appending a note with a fresh id, the lookup of that id returns the note and the lookups of old ids are unchanged |
| Notes.UpdateThenGet | src/NotesManager.ts:64-74 | after the update at the first matching index, the lookup of the id returns the updated note |
| Notes.RemoveUniqueId | src/NotesManager.ts:79 | with unique ids, deleting a present id removes exactly one note |
| Notes.SubsequenceWellFormed | src/NotesManager.ts:79 | every subsequence of a well-formed store is well formed and draws its notes from it |
| Notes.RemoveKeepsWellFormed | src/NotesManager.ts:79 | deletion keeps the store well formed |
| Notes.CreateKeepsWellFormed | src/NotesManager.ts:40-50 | appending a new note with a fresh id keeps the store well formed |
| Notes.UpdateKeepsWellFormed | src/NotesManager.ts:67-71 | with a clock that has not gone back, an update keeps the store well formed and does not decrease updatedAt |
| Notes.MergeWellFormedIff | src/NotesManager.ts:128 | a merged store is well formed exactly when both parts are and no id occurs in both |
| Notes.MergeSelfDuplicatesIds | src/NotesManager.ts:128 | merging a non-empty store with itself duplicates ids, and deleting such an id removes at least two notes |
| Storage.LoadAfterWrite | src/NotesManager.ts:14-38 | after the notes are written to a path, loading that path gives back exactly those notes, and loading any other path gives what it gave before |
| Storage.FileSystem.WriteDocument | src/NotesManager.ts:34 | a write to a writable path replaces that file's document and nothing else; a failed write changes nothing |
| Manager.NotesManager.constructor | src/NotesManager.ts:9-12 | the primary path is the given one unless it is absent or empty; the notes are what the primary file holds, or empty |
| Manager.NotesManager.LoadNotes | src/NotesManager.ts:14-29 | a missing file keeps the notes, an unreadable one empties them, a readable one replaces them |
| Manager.NotesManager.SaveNotes | src/NotesManager.ts:31-38 | overwrites the primary file with the notes, or fails with a save error and changes nothing |
| Manager.NotesManager.CreateNote | src/NotesManager.ts:40-53 | appends exactly one note (given fields, tags default empty, both timestamps the clock); on success the file equals the notes and the note is found by its id; lookups of old ids unchanged; well-formedness kept |
| Manager.NotesManager.UpdateNote | src/NotesManager.ts:63-75 | unknown id: null, nothing changes; otherwise only the first matching index is replaced by the update, the returned note is the stored one and is found by its id, the file is saved; well-formedness kept under a monotone clock |
| Manager.NotesManager.DeleteNote | src/NotesManager.ts:77-86 | the notes become the old ones without the id, in order; as many notes kept as have another id; false and nothing written when the id was absent, else true after a save, and then the file equals the notes; exactly one removed when ids were unique |
| Manager.NotesManager.ExportNotes | src/NotesManager.ts:108-115 | writes the notes to the export path; the notes and any other primary file are unchanged; a persisted store stays persisted |
| Manager.NotesManager.ImportNotes | src/NotesManager.ts:117-137 | missing or unreadable file: import error, nothing changes; otherwise the notes become the imported ones (replace) or the old ones followed by them (merge, no de-duplication), then the primary file is saved |
| Manager.NotesManager.ClearAllNotes | src/NotesManager.ts:143-146 | the notes become empty and the primary file is saved |
| Manager.ReopenAfterCreate | tests/notes.test.ts:365-374 | a manager constructed after a successful create on the same path lists the same notes and finds the new note |
| Manager.ExportThenImport | tests/notes.test.ts:243-256 | after a successful export, a manager on another file that replace-imports it lists the same notes, ids and timestamps included |

`listNotes` is `NotesManager.ListNotes`. A Dafny sequence is a value, so the copy the
source makes is implicit. `NotesManager.GetNoteById`, `NotesManager.SearchNotes` and
`NotesManager.GetNotesByTag` pass `notes` to the functions of the same name in
`Notes`, whose contracts are listed above.

Four small functions model source expressions directly and are used by the contracts above:

- `Storage.ReadDocument` is `readFileSync` followed by `JSON.parse` (src/NotesManager.ts lines 17-18 and 119-120). It gives None for a missing or unreadable file.
- `Storage.LoadedNotes` is what `loadNotes` (lines 14-29) leaves in a fresh manager: the stored notes, or the empty store when the primary file is missing or unreadable.
- `Manager.PrimaryPath` is the `dataFilePath || path.join(...)` of line 10.
- `Notes.NewNote` is the note literal of lines 41-48.

## Left out

- JSON text and `JSON.parse`/`JSON.stringify`: a file is an abstract document or an unreadable marker. Date parsing is taken to give back the stored timestamps exactly.
- The `fs` module beyond a path→file map: a write either replaces the whole file or fails and leaves it as it was. Partially written files, and errors on read other than "missing" or "unreadable", are not modelled. The error message strings are not modelled.
- `generateId`: its uniqueness is only probabilistic. `CreateNote` takes the id as a parameter and requires that no note already has it.
- `CreateNote`: the source reads the clock twice, so `createdAt` and `updatedAt` could differ by a millisecond. The model uses one reading for both.
- `Text.Lower`: ASCII folding only. Unicode `toLowerCase`, e.g. of accented capitals, is not modelled.
- `Manager.DefaultPath`: `path.join` normalisation is not modelled. The default path is the working directory followed by `/notes.json`.
- Aliasing: the source stores the caller's `tags` array and returns the stored note object, so later mutation through those references would change the store. Notes here are values.
- `NoteUpdate`: an explicitly present but `undefined` field in the TypeScript update object would overwrite the field with `undefined`. Here a field is either supplied with a value or absent.
- `console.error` at load: the diagnostic for an unreadable primary file is not modelled.
- src/index.ts, the command-line front end, is not part of this model. src/types.ts is not part of this model either: `Note` and `NotesData` are defined here directly.
