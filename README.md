# Simple Notes App: a model of the note-list state machine

The App component of the notes front end (`notes_frontend/src/App.js`) keeps
an array of notes `{ id, title, body, updated }`, the search string, the
selected id, an editor draft and an editing flag. Every change to the notes
array is written to browser storage under the key `notes-v1`. This project
models that state and its handlers in Dafny and proves what they do.

- `Wrappers`: `Option`, which stands in for `null`.
- `Seqs`: `Filter`, which is `Array.prototype.filter`, and the subsequence
  relation between its result and its input.
- `Text`: `toLowerCase`, `includes` and `trim`.
- `NoteStore`: the `Note` record and the operations on the notes array: find
  by id (`FindById`), the replace-or-insert of a save (`ReplaceById`,
  `Upsert`), the filter of a delete (`RemoveId`), and the load from storage
  (`Load`).
- `NoteViews`: the values derived on each render. `SortByUpdated` is
  `getSorted`, a stable sort by `updated`, most recent first. `FilteredNotes`
  is `filteredNotes`, the case-insensitive search. `NoteForMainArea` is the
  choice of the note shown in the main area.
- `NotesApp`: class `App`, with one method per handler (`HandleCreateNote`,
  `HandleSelectNote`, `HandleDeleteNote`, `HandleStartEdit`,
  `HandleCancelEdit`, `HandleEditorChange`, `HandleSaveNote`), plus `Persist`,
  the auto-select effect (`AutoSelect`) and the search box's setter. Its
  invariant `Valid()` says two things. Storage mirrors the notes: loading what
  is stored gives back the current array. And the editor is open exactly when
  there is a draft. The handlers that change the notes (create, delete and
  save) also keep every title non-blank when all titles were non-blank
  before: the new note is titled `Untitled Note`, and the save refuses a
  title that is all whitespace.
- `Scenarios`: sequences of user actions on a freshly loaded `App`, proved
  from the handlers' contracts alone.

Each handler is one atomic transition. The auto-select effect is a separate
step, run after any transition. The handlers get their inputs as parameters:
the new note's id and the creation time (`Date.now()`, `Math.random()`), the
save time, and the answer to the delete confirmation. The rejected save
(`alert`) is modelled as the result `false` of `HandleSaveNote`.

Where the code differs from what one would expect of a notes app, the
model follows the code:

- The first selection after loading picks `notes[0]`, the first element of
  the stored array. It is not the most recently updated note (`App.js:62`).
  The same holds for the selection after deleting the selected note
  (`App.js:94`). `Scenarios.LoadSelectDelete` shows a case where the sidebar
  lists B first but A is selected.
- Saving an existing note replaces it where it stands. It does not move to the
  front of the array (`App.js:134-140`).
- Cancelling the editor after creating a note leaves that "Untitled Note" in
  the list and in storage (`App.js:82`, `App.js:108-111`).
- "No selection" is JavaScript falsiness (`!selectedId`): no id, or the empty
  string (`App.js:61`).
- A malformed storage entry is not treated as empty. The code calls
  `JSON.parse` on it with no recovery. The model keeps the stored notes
  abstract: `Load` gives the stored array, or the empty array when nothing
  was stored (`App.js:28-29`).
- The title's 60-character limit is the `maxLength` attribute of the input.
  No handler enforces it, so it is not a rule here.

## Model

| member | source | states |
|---|---|---|
| `Seqs.Filter` | notes_frontend/src/App.js:91 | `Array.prototype.filter`, as used by the delete and the search; specified by FilterMembers and FilterIsSubsequence |
| `Seqs.FilterMembers` | notes_frontend/src/App.js:47-50 | `filter` keeps exactly the elements that satisfy the predicate, each as often as it occurs in the input, and never grows the array |
| `Seqs.FilterIsSubsequence` | notes_frontend/src/App.js:47-50 | `filter` keeps the order of its input: the result is a subsequence of it |
| `Text.Lower` | notes_frontend/src/App.js:48-49 | `toLowerCase`, character by character on the ASCII capitals; specified by LowerIdempotent |
| `Text.LowerIdempotent` | notes_frontend/src/App.js:48-49 | a lowered string has no capitals left, so lowering it again changes nothing |
| `Text.Contains` | notes_frontend/src/App.js:48-49 | `includes`, trying each offset from the left; specified by ContainsIff |
| `Text.ContainsIff` | notes_frontend/src/App.js:48-49 | `includes` holds exactly when the query occurs at some offset; every string includes the empty string |
| `Text.TrimStart` | notes_frontend/src/App.js:125 | the result is the suffix left after an all-whitespace prefix, and it does not start with whitespace |
| `Text.TrimEnd` | notes_frontend/src/App.js:125 | the result is the prefix that comes before an all-whitespace suffix, and it does not end with whitespace |
| `Text.Trim` | notes_frontend/src/App.js:125 | `trim`, as TrimEnd after TrimStart, whose contracts fix the result; specified by TrimEmptyIff for the blank-title test |
| `Text.TrimEmptyIff` | notes_frontend/src/App.js:125 | `!title.trim()` holds exactly when every character of the title is ECMAScript whitespace |
| `NoteStore.Load` | notes_frontend/src/App.js:28-29 | the first notes: the stored array, or the empty array when nothing was stored; the class invariant `Valid()` keeps it equal to the notes after every handler |
| `NoteStore.FindById` | notes_frontend/src/App.js:154 | `find` returns nothing exactly when no note has the id; otherwise it returns a note of the array with that id |
| `NoteStore.FindByIdFirst` | notes_frontend/src/App.js:154 | `find` returns the first note that has the id |
| `NoteStore.WithField` | notes_frontend/src/App.js:114-121 | an editor change sets only the named field of the draft; the id, the other text field and `updated` stay |
| `NoteStore.ReplaceById` | notes_frontend/src/App.js:134-140 | the save's `map`; specified by ReplaceByIdAt, and MapReplacing proves the loop equal to it |
| `NoteStore.ReplaceByIdAt` | notes_frontend/src/App.js:134-140 | the save's `map` keeps the length; a note with the saved id becomes the saved note, and every other note stays at its position |
| `NoteStore.Upsert` | notes_frontend/src/App.js:129-143 | the notes after a save: replace in place when the id is present, otherwise put in front; specified by UpsertExisting, UpsertFinds, UpsertKeepsUniqueIds, UpsertKeepsTitles and UpsertIdempotent |
| `NoteStore.UpsertExisting` | notes_frontend/src/App.js:133-143 | saving a note whose id is present keeps the length and every other note's position; it does not move the note to the front |
| `NoteStore.UpsertFinds` | notes_frontend/src/App.js:129-145 | after either kind of save, `find` on the saved id returns the saved note |
| `NoteStore.UpsertKeepsUniqueIds` | notes_frontend/src/App.js:133-143 | a save keeps the ids unique |
| `NoteStore.UpsertKeepsTitles` | notes_frontend/src/App.js:125-144 | a save whose title passed the blank check keeps every stored title non-blank |
| `NoteStore.UpsertIdempotent` | notes_frontend/src/App.js:129-143 | saving the same stamped note twice gives the same array as saving it once |
| `NoteStore.RemoveId` | notes_frontend/src/App.js:91 | the delete's `filter(n => n.id !== id)`; specified by RemoveIdSpec, RemoveIdAbsent, RemoveIdIdempotent, RemoveIdKeepsUniqueIds and RemoveIdKeepsTitles |
| `NoteStore.RemoveIdSpec` | notes_frontend/src/App.js:91 | the delete's filter keeps exactly the notes with a different id, each as often as it occurs, with none of that id left, in their original relative order |
| `NoteStore.RemoveIdAbsent` | notes_frontend/src/App.js:91 | deleting an id that is not present changes nothing |
| `NoteStore.RemoveIdIdempotent` | notes_frontend/src/App.js:91 | a second delete of the same id leaves the notes as the first one did |
| `NoteStore.RemoveIdKeepsUniqueIds` | notes_frontend/src/App.js:91 | a delete keeps the ids unique |
| `NoteStore.RemoveIdKeepsTitles` | notes_frontend/src/App.js:91-92 | a delete keeps every stored title non-blank |
| `NoteViews.SortByUpdated` | notes_frontend/src/App.js:44 | `getSorted`, the stable sort of a copy; specified by SortPermutes, SortSorted and SortStable |
| `NoteViews.SortPermutes` | notes_frontend/src/App.js:44 | `getSorted` returns the same notes as often as its input: a permutation |
| `NoteViews.SortSorted` | notes_frontend/src/App.js:44 | `getSorted` orders the notes by `updated`, most recent first |
| `NoteViews.SortStable` | notes_frontend/src/App.js:44 | `getSorted` is stable: notes with the same `updated` keep their relative order |
| `NoteViews.FilteredNotes` | notes_frontend/src/App.js:47-50 | `filteredNotes`; specified by FilteredSpec, FilteredByLowerCase, FilteredEmptyQuery and FilteredHelloExample |
| `NoteViews.FilteredSpec` | notes_frontend/src/App.js:47-50 | the sidebar list is a subsequence of the sorted notes and is sorted; a note occurs in it exactly as often as in the notes when its lowered title or lowered body includes the lowered query, and not at all otherwise |
| `NoteViews.FilteredByLowerCase` | notes_frontend/src/App.js:47-50 | the search depends on the query only through its lower-case form |
| `NoteViews.FilteredEmptyQuery` | notes_frontend/src/App.js:47-50 | an empty search string lists every note, sorted |
| `NoteViews.FilteredHelloExample` | notes_frontend/src/App.js:47-50 | searching for "HELLO" and for "hello" gives the same list |
| `NoteViews.NoteForMainArea` | notes_frontend/src/App.js:151-154 | while editing with a draft, the main area shows the draft; otherwise it shows a note with the selected id if there is one, and nothing otherwise |
| `NotesApp.MapReplacing` | notes_frontend/src/App.js:133-140 | the save's loop returns every note with the draft's id replaced, and sets `replaced` exactly when some note has that id; with no such note the array is returned unchanged |
| `NotesApp.App.Filtered` | notes_frontend/src/App.js:47-50 | `filteredNotes` of the current state; its properties are those of FilteredNotes, used in LoadSelectDelete |
| `NotesApp.App.DisplayedNote` | notes_frontend/src/App.js:151-154 | the note for the main area in the current state; specified by the contract of NoteForMainArea, and named in the contracts of the handlers |
| `NotesApp.App.constructor` | notes_frontend/src/App.js:26-34 | the initial notes are those in storage, or none; no search string, no selection, no draft, not editing |
| `NotesApp.App.Persist` | notes_frontend/src/App.js:38-41 | the new array becomes the notes and overwrites storage; nothing else changes |
| `NotesApp.App.AutoSelect` | notes_frontend/src/App.js:60-64 | with notes present and no selection, selects `notes[0]`; otherwise the selection stays; only the selection can change |
| `NotesApp.App.SetSearchString` | notes_frontend/src/App.js:209 | the search box sets the search string and nothing else |
| `NotesApp.App.HandleSelectNote` | notes_frontend/src/App.js:68-72 | selects the id and closes the editor; the notes and storage do not change; the main area shows the note with that id |
| `NotesApp.App.HandleCreateNote` | notes_frontend/src/App.js:75-86 | puts `{id, "Untitled Note", "", now}` in front and stores the result; selects it and opens it in the editor; with a fresh id, the ids stay unique; titles that were all non-blank stay so |
| `NotesApp.App.HandleDeleteNote` | notes_frontend/src/App.js:89-99 | unconfirmed: nothing changes; confirmed: the notes lose every note with the id and are stored; if the note was selected, the selection moves to the first remaining note or to none, and the editor closes; otherwise the selection and editor stay; titles that were all non-blank stay so |
| `NotesApp.App.HandleStartEdit` | notes_frontend/src/App.js:102-105 | opens a copy of the note as the draft; the selection, the notes and storage stay |
| `NotesApp.App.HandleCancelEdit` | notes_frontend/src/App.js:108-111 | drops the draft and closes the editor; the notes, storage and selection stay |
| `NotesApp.App.HandleEditorChange` | notes_frontend/src/App.js:114-121 | changes only the named field of the draft; the notes and storage stay |
| `NotesApp.App.HandleSaveNote` | notes_frontend/src/App.js:124-148 | a title that is all whitespace is rejected and changes nothing; otherwise the draft, stamped with `now`, replaces or is put in front of the notes, storage is written, the saved note is selected and shown, and the editor closes; titles that were all non-blank stay so |
| `Scenarios.CreateThenCancel` | notes_frontend/src/App.js:75-111 | creating a note and then cancelling leaves the "Untitled Note" in front of the loaded notes and in storage |
| `Scenarios.CreateEditSave` | notes_frontend/src/App.js:75-148 | from empty storage: create, set the title and the body, then save; the list is exactly the saved note, which is selected and shown |
| `Scenarios.SaveBlankTitle` | notes_frontend/src/App.js:124-128 | a title of blanks is rejected; the list keeps the "Untitled Note" and the editor stays open |
| `Scenarios.LoadSelectDelete` | notes_frontend/src/App.js:44-99 | with A (updated 100) and B (updated 200) stored in that order, the list shows B first, but the first selection is A; deleting the selected A moves the selection to B |

## Left out

- Rendering and styling: `Sidebar`, `MainPanel`, the colour palette and the layout (`App.js:4-15`, `App.js:157-516`). They are presentation only.
- The effect that focuses the title input (`App.js:53-57`). It only touches the DOM.
- `window.confirm` and `alert` (`App.js:90`, `App.js:126`). The confirmation is the `confirmed` parameter of `HandleDeleteNote`. The alert is the result `false` of `HandleSaveNote`.
- `Date.now()` and `Math.random()` (`App.js:77`, `App.js:80`, `App.js:131`). The id and the times are parameters. `HandleCreateNote` promises unique ids only when the id it is given is fresh.
- `localStorage`, `JSON.stringify` and `JSON.parse` (`App.js:28-29`, `App.js:40`). Storage is an abstract field that holds the note array, so serialisation and parse errors are not modelled.
- React's batching of state updates and its scheduling of effects. Each handler is one atomic step, and the auto-select effect is a step of its own.
- Text.Lower: maps only the ASCII capitals. JavaScript's `toLowerCase` also lowers the other Unicode capitals, and for a few characters it changes the length of the string. A Dafny `string` is also a sequence of Unicode scalar values, while a JavaScript string is a sequence of UTF-16 code units, so a string holding a lone surrogate cannot be represented.
- NotesApp.App.HandleSaveNote: requires an open draft. The source dereferences the draft there, and its only caller is the editor form, which is shown only while a draft is open.
- NotesApp.App.HandleEditorChange: requires an open draft. The inputs that call it exist only while a draft is open. With no draft, the source would build a record holding only the changed field, and the model does not represent that.
- Display-only details: the date format and the 56-character body preview (`App.js:251`, `App.js:260`, `App.js:479`), and the title's `maxLength` (`App.js:344`).
- `notes_frontend/src/App.test.js`: it only checks that the heading and a button render.
