# Notes app: note store, view filter and modal flow

This project models the logic of the single React component `App` of a
note-taking page. A note has an id, a title, a description, a category and a
creation time. The component keeps the list of notes and a small amount of
view state, and it handles these events:

- adding a note through a modal form, and editing one through the same form;
- deleting a note from a card's menu or from the side panel;
- filtering the grid by category and by a case-insensitive search text;
- selecting a note for the side panel, and opening or closing a card's menu.

A save is refused when the trimmed title or description is empty. It is also
refused when another note of the same category has the same trimmed,
lower-cased title. When editing, the note being edited does not count.

Modules:

- `Wrappers`: `Option` (JavaScript's `null`) and `Result` (a value or a
  validation error).
- `Seqs`: `filter`, `map` and `some` over sequences. It also defines
  subsequences and pairwise relations, and proves the lemmas the store needs.
- `Text`: `trim`, `toLowerCase` and `includes`. `trim` strips exactly
  ECMAScript's WhiteSpace and LineTerminator code points. `toLowerCase` folds
  only A-Z.
- `Notes`: the pure logic.
  - The view filter.
  - The duplicate-title check.
  - `Save`, which validates the draft and then edits or appends.
  - Delete by id, and the selection and menu rules.
  - The store invariant: no two notes share an id or a (category, normalised
    title) slot. Saves and deletes are proved to keep it.
- `NotesApp`: the class `App`. Its fields are the component's `useState`
  variables, and its methods are the event handlers. Each method changes only
  the fields its `modifies` clause names.

A note on event bubbling: the Edit and Delete items of a card's menu sit
inside the card, and their handlers do not stop the click. The card's own
click handler therefore runs after them and selects the note. `App.OpenEditFromMenu`
models this as the code does. For Delete it defeats the handler's own
clearing of the selection; see "## Findings".

## Model

| member | source | states |
|---|---|---|
| `Seqs.Filter` | src/App.jsx:56-65 | `filter` keeps, in order, exactly the elements that pass the predicate: the result is a subsequence, all its elements pass, and each passing element occurs in it as often as in the input (a failing one not at all) |
| `Seqs.Map` | src/App.jsx:120-129 | `map` keeps the length and applies the function at every index |
| `Seqs.Any` | src/App.jsx:106-111 | `some` is true exactly when some element satisfies the predicate |
| `Seqs.FilterConcat` | src/App.jsx:56-65 | filtering a concatenation is concatenating the filtered parts |
| `Seqs.FilterKeepsAll` | src/App.jsx:56-65 | filtering returns the list itself exactly when every element passes |
| `Seqs.FilterIdempotent` | src/App.jsx:368 | filtering twice with the same predicate is filtering once |
| `Seqs.SubsequencePairwise` | src/App.jsx:368 | a relation that holds between all ordered pairs of a list still holds after deletions |
| `Text.TrimStart` | src/App.jsx:96-97 | the start of `trim`: drops only white space, keeps a suffix, and the result does not start with white space |
| `Text.TrimEnd` | src/App.jsx:96-97 | the end of `trim`: drops only white space, keeps a prefix, and the result does not end with white space |
| `Text.TrimIsSlice` | src/App.jsx:96-97 | `trim` returns a contiguous slice bounded by white space only, and it neither starts nor ends with white space |
| `Text.TrimIdempotent` | src/App.jsx:110 | trimming an already trimmed title changes nothing |
| `Text.TrimEmpty` | src/App.jsx:99 | a trimmed field is empty exactly when the field is all white space |
| `Text.LowerIdempotent` | src/App.jsx:61-62 | `toLowerCase` keeps the length and lower-casing twice is lower-casing once |
| `Text.Includes` | src/App.jsx:61-62 | `includes` is true exactly when the needle occurs at some index of the string |
| `Text.IncludesEmpty` | src/App.jsx:61-62 | every string includes the empty string |
| `Notes.FilteredNotes` | src/App.jsx:56-65 | the grid shows a subsequence of the notes; every shown note passes the category test and the case-insensitive title/description search; every note left out fails one of them; a visible note is shown as often as it occurs in the list, a hidden one never |
| `Notes.ShowAllWhenUnfiltered` | src/App.jsx:56-65 | with "All Notes" and an empty search, the grid shows the whole list in order |
| `Notes.SearchIgnoresCase` | src/App.jsx:60-62 | a search text and its lower-cased form select the same notes |
| `Notes.FilteredAppend` | src/App.jsx:56-65 | after a note is appended, the view is the old view followed by the new note if it passes the filter |
| `Notes.DuplicateExists` | src/App.jsx:104-111 | the duplicate check is true exactly when some note with a different id (any note when adding) has the category and the normalised title |
| `Notes.ApplyEdit` | src/App.jsx:120-129 | an edit keeps length, order, ids and creation times; notes with the edited id take the new title, description and category; all other notes are unchanged |
| `Notes.RemoveId` | src/App.jsx:368 | delete keeps, in order, exactly the notes whose id differs, each as often as it occurred; no note with the id remains |
| `Notes.RemoveAbsentId` | src/App.jsx:368 | deleting an id that no note has leaves the list unchanged |
| `Notes.RemoveIdIdempotent` | src/App.jsx:456 | deleting the same id twice is deleting it once |
| `Notes.SelectionAfterDelete` | src/App.jsx:369 | after a delete the selection is empty exactly when it was empty or showed the deleted id; otherwise it is the same note as before |
| `Notes.MenuDeleteSelectsDeletedNote` | src/App.jsx:295-371 | as written, a Delete click in a card's menu leaves the deleted note selected although it is gone from the list |
| `Notes.DuplicateInSameCategory` | src/App.jsx:104-116 | a Work note titled "groceries " blocks adding "Groceries" to Work: trimming and lower-casing make the titles equal |
| `Notes.AcceptedInOtherCategory` | src/App.jsx:104-116 | the same list accepts "Groceries" in Personal, because the check is scoped by category |
| `Notes.AcceptedAfterDelete` | src/App.jsx:104-116 | once that Work note is deleted, "Groceries" is accepted in Work |
| `Notes.ToggleMenu` | src/App.jsx:324 | the clicked card's menu opens unless it was the open one; otherwise no menu is open |
| `Notes.Save` | src/App.jsx:95-116 | a save fails with EmptyField exactly when the trimmed title or description is empty, and with DuplicateTitle exactly when both are non-empty and some note collides |
| `Notes.SaveAppends` | src/App.jsx:144-152 | a successful add appends one note with the trimmed fields, the category, the given id and the given time, and leaves the existing notes as a prefix |
| `Notes.SaveEditsInPlace` | src/App.jsx:118-130 | a successful edit keeps length, ids and creation times, rewrites the notes with the edited id, and leaves the rest unchanged |
| `Notes.SavePreservesInvariant` | src/App.jsx:104-153 | a successful save keeps ids and (category, normalised title) slots distinct, provided an added note's id is new |
| `Notes.RemovePreservesInvariant` | src/App.jsx:368 | deleting keeps ids and slots distinct |
| `Notes.SaveOwnTitleSucceeds` | src/App.jsx:106-111 | in a consistent list, re-saving a note under its own title and category is never a duplicate |
| `NotesApp.App.constructor` | src/App.jsx:6-35 | the initial state: the given list, "All Notes", an empty search, a closed modal, a blank draft with category "Work", and nothing edited, selected or open |
| `NotesApp.App.SelectCategory` | src/App.jsx:203-229 | a category button sets the active category |
| `NotesApp.App.SetSearchText` | src/App.jsx:270 | typing sets the search text |
| `NotesApp.App.SelectNote` | src/App.jsx:295-298 | clicking a card selects it and closes any menu |
| `NotesApp.App.CloseDetails` | src/App.jsx:474 | Close clears the selection |
| `NotesApp.App.ToggleCardMenu` | src/App.jsx:322-325 | the dots icon opens the card's menu, or closes it when it was the open one |
| `NotesApp.App.OpenAdd` | src/App.jsx:249-255 | the modal opens in add mode with a blank draft and category "Work" |
| `NotesApp.App.BeginEdit` | src/App.jsx:350-354 | the modal opens in edit mode with the draft copied from the note |
| `NotesApp.App.OpenEditFromMenu` | src/App.jsx:349-356 | menu Edit opens the modal on the note and closes the menu; the bubbled card click selects the note |
| `NotesApp.App.OpenEditFromPanel` | src/App.jsx:434-440 | panel Edit opens the modal on the selected note |
| `NotesApp.App.SetDraftTitle` | src/App.jsx:513 | typing in the title field sets the draft title |
| `NotesApp.App.SetDraftDescription` | src/App.jsx:526 | typing in the description field sets the draft description |
| `NotesApp.App.SetDraftCategory` | src/App.jsx:537 | the category select sets the draft category |
| `NotesApp.App.Cancel` | src/App.jsx:552-555 | Cancel closes the modal and ends edit mode |
| `NotesApp.App.HandleSaveNote` | src/App.jsx:95-160 | a rejected save reports its error and changes nothing. A successful one commits `Save`'s list, updates the selected note if it was the edited one, ends edit mode, resets the draft to "", "", "Work", closes the modal and keeps the store invariant |
| `NotesApp.App.CommitDraft` | src/App.jsx:118-159 | after validation: the edit (or the append of the new note), the carried-over selection, the end of edit mode, the reset draft and the closed modal |
| `NotesApp.App.DeleteFromMenu` | src/App.jsx:367-371 | menu Delete removes the id, clears a selection of it, closes the menu and keeps the store invariant (corrected; see Findings) |
| `NotesApp.App.DeleteSelected` | src/App.jsx:455-458 | panel Delete removes the selected note's id, clears the selection and keeps the store invariant |

## Left out

- Persistence (src/App.jsx:28-40) is left out. Reading local storage, `JSON.parse` and the write after every change are browser I/O. The starting list is the constructor's parameter.
- `formatDate` (src/App.jsx:43-53) is left out. It depends on `Date` and on locale formatting.
- The theme state and all styling (src/App.jsx:16, 68-92, 182-199 and the JSX) are left out. They are presentation only.
- `Date.now()` and `new Date().toISOString()` (src/App.jsx:146, 150) become the `freshId` and `now` parameters. The source does not guarantee that ids are unique, so the store invariant is proved only when the given id is new.
- The two `alert` calls (src/App.jsx:100, 114) become the returned `SaveError`.
- `Text.LowerChar`: folds only A-Z. Full Unicode `toLowerCase` mappings are not modelled. `trim` does use ECMAScript's full white-space set.
- Ids are integers. String ids from the seed file are not modelled. Ids are only ever compared with strict equality, so no rule depends on their type.
- A note has exactly five fields. Extra fields that a seed record might carry, and that the spread in the edit would keep, are not modelled.
- React runs a handler's state setters as one batch. Each method here reads the old state before it writes, and so reaches the same final state.
- The model follows the code in three places worth noting:
  - Categories are plain strings and are compared with `===`.
  - An edit rewrites every note that has the edited id, not just the first one.
  - The card menu's Delete leaves the deleted note selected. `Notes.SelectionAfterMenuDeleteAsWritten` and `Notes.MenuDeleteSelectsDeletedNote` model this as written. `NotesApp.App.DeleteFromMenu` uses the corrected `Notes.SelectionAfterDelete` instead (see Findings).

## Findings

| source | as written | input that shows it | evidently intended | confidence | as-written member | corrected member |
|---|---|---|---|---|---|---|
| src/App.jsx:367-371 | The menu's Delete handler clears a selection of the note. The click then bubbles to the card's handler (src/App.jsx:295-298), which selects the note again. | Open a card's menu and click Delete. The list loses the note, but `selectedNote` is that note, so the side panel still shows it. | The selection is cleared when it showed the deleted note, and is otherwise kept. | medium; not executed | `Notes.MenuDeleteSelectsDeletedNote` | `Notes.SelectionAfterDelete` |
