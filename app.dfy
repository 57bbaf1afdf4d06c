/** The `App` component's state and event handlers. Each field is one of the
    component's `useState` variables; each method is a handler and changes
    exactly the fields its `modifies` clause names. The theme is left out. */
module NotesApp {
  import opened Wrappers
  import opened Text
  import opened Notes

  class App {
    var notes: seq<Note>
    var activeCategory: string
    var searchText: string
    var isModalOpen: bool
    var newTitle: string
    var newDescription: string
    var newCategory: string
    var editingNote: Option<Note>
    var selectedNote: Option<Note>
    var menuOpen: Option<Id>

    /** The initial render; `initial` is the list read from local storage or
        the bundled seed file. */
    constructor (initial: seq<Note>)
      ensures notes == initial
      ensures activeCategory == AllNotes && searchText == ""
      ensures !isModalOpen && newTitle == "" && newDescription == "" && newCategory == DefaultCategory
      ensures editingNote == None && selectedNote == None && menuOpen == None
    {
      notes := initial;
      activeCategory := AllNotes;
      searchText := "";
      isModalOpen := false;
      newTitle := "";
      newDescription := "";
      newCategory := DefaultCategory;
      editingNote := None;
      selectedNote := None;
      menuOpen := None;
    }

    /** The notes the grid shows on this render. */
    function VisibleNotes(): seq<Note>
      reads this
    {
      FilteredNotes(notes, activeCategory, searchText)
    }

    /** What saving the current draft would do to the note list. */
    ghost function SaveOutcome(freshId: Id, now: string): Result<seq<Note>, SaveError>
      reads this
    {
      Save(notes, editingNote, newTitle, newDescription, newCategory, freshId, now)
    }

    /** A category button in the sidebar. */
    method SelectCategory(category: string)
      modifies this`activeCategory
      ensures activeCategory == category
    {
      activeCategory := category;
    }

    /** Typing in the search bar. */
    method SetSearchText(text: string)
      modifies this`searchText
      ensures searchText == text
    {
      searchText := text;
    }

    /** Clicking a card: it is shown in the side panel and any menu closes. */
    method SelectNote(note: Note)
      modifies this`selectedNote, this`menuOpen
      ensures selectedNote == Some(note) && menuOpen == None
    {
      selectedNote := SelectCard(note);
      menuOpen := None;
    }

    /** The side panel's "Close" button. */
    method CloseDetails()
      modifies this`selectedNote
      ensures selectedNote == None
    {
      selectedNote := None;
    }

    /** The three-dots icon of a card; it stops the click, so the card is not
        selected. */
    method ToggleCardMenu(id: Id)
      modifies this`menuOpen
      ensures menuOpen == (if old(menuOpen) == Some(id) then None else Some(id))
    {
      menuOpen := ToggleMenu(menuOpen, id);
    }

    /** "+ Add Note": the modal opens in add mode with a blank draft. */
    method OpenAdd()
      modifies this`editingNote, this`newTitle, this`newDescription, this`newCategory, this`isModalOpen
      ensures editingNote == None && isModalOpen
      ensures newTitle == "" && newDescription == "" && newCategory == DefaultCategory
    {
      editingNote := None;
      newTitle := "";
      newDescription := "";
      newCategory := DefaultCategory;
      isModalOpen := true;
    }

    /** The modal opens in edit mode with the draft copied from `note`. */
    method BeginEdit(note: Note)
      modifies this`editingNote, this`newTitle, this`newDescription, this`newCategory, this`isModalOpen
      ensures editingNote == Some(note) && isModalOpen
      ensures newTitle == note.title && newDescription == note.description && newCategory == note.category
    {
      editingNote := Some(note);
      newTitle := note.title;
      newDescription := note.description;
      newCategory := note.category;
      isModalOpen := true;
    }

    /** "Edit" in a card's menu. The menu closes; the click then reaches the
        card, which selects the note. */
    method OpenEditFromMenu(note: Note)
      modifies this`editingNote, this`newTitle, this`newDescription, this`newCategory, this`isModalOpen
      modifies this`menuOpen, this`selectedNote
      ensures editingNote == Some(note) && isModalOpen
      ensures newTitle == note.title && newDescription == note.description && newCategory == note.category
      ensures menuOpen == None && selectedNote == Some(note)
    {
      BeginEdit(note);
      menuOpen := None;
      // the card's click handler
      selectedNote := SelectCard(note);
      menuOpen := None;
    }

    /** "Edit" in the side panel, which is shown only while a note is selected. */
    method OpenEditFromPanel()
      requires selectedNote.Some?
      modifies this`editingNote, this`newTitle, this`newDescription, this`newCategory, this`isModalOpen
      ensures editingNote == old(selectedNote) && isModalOpen
      ensures newTitle == selectedNote.value.title && newDescription == selectedNote.value.description
      ensures newCategory == selectedNote.value.category
    {
      BeginEdit(selectedNote.value);
    }

    /** The modal's input fields. */
    method SetDraftTitle(title: string)
      modifies this`newTitle
      ensures newTitle == title
    {
      newTitle := title;
    }

    method SetDraftDescription(description: string)
      modifies this`newDescription
      ensures newDescription == description
    {
      newDescription := description;
    }

    method SetDraftCategory(category: string)
      modifies this`newCategory
      ensures newCategory == category
    {
      newCategory := category;
    }

    /** "Cancel": the modal closes and edit mode ends; the draft stays. */
    method Cancel()
      modifies this`isModalOpen, this`editingNote
      ensures !isModalOpen && editingNote == None
    {
      isModalOpen := false;
      editingNote := None;
    }

    /** `handleSaveNote`. `freshId` and `now` stand for `Date.now()` and
        `new Date().toISOString()`. A rejected save reports its error and
        changes nothing. A successful save commits the list `Save` computes,
        carries the edit over to the selected note when it is the edited one,
        ends edit mode, resets the draft and closes the modal; the committed
        list keeps the store invariant when the list had it and an added
        note's id is new. */
    method HandleSaveNote(freshId: Id, now: string) returns (err: Option<SaveError>)
      modifies this`notes, this`editingNote, this`selectedNote
      modifies this`newTitle, this`newDescription, this`newCategory, this`isModalOpen
      ensures err.Some? <==> old(SaveOutcome(freshId, now)).Failure?
      ensures err.Some? ==>
                err.value == old(SaveOutcome(freshId, now)).error &&
                notes == old(notes) && editingNote == old(editingNote) && selectedNote == old(selectedNote) &&
                newTitle == old(newTitle) && newDescription == old(newDescription) &&
                newCategory == old(newCategory) && isModalOpen == old(isModalOpen)
      ensures err.None? ==>
                notes == old(SaveOutcome(freshId, now)).value && editingNote == None &&
                newTitle == "" && newDescription == "" && newCategory == DefaultCategory && !isModalOpen
      ensures err.None? ==>
                selectedNote ==
                  if old(editingNote).Some? && old(selectedNote).Some? &&
                     old(selectedNote).value.id == old(editingNote).value.id
                  then Some(WithFields(old(selectedNote).value, Trim(old(newTitle)), Trim(old(newDescription)), old(newCategory)))
                  else old(selectedNote)
      ensures old(StoreInvariant(notes)) &&
              (old(editingNote).None? ==> forall i :: 0 <= i < |old(notes)| ==> old(notes)[i].id != freshId) ==>
                StoreInvariant(notes)
    {
      var trimmedTitle := Trim(newTitle);
      var trimmedDesc := Trim(newDescription);
      if trimmedTitle == [] || trimmedDesc == [] {
        return Some(EmptyField);
      }
      var normalizedTitle := Lower(trimmedTitle);
      if DuplicateExists(notes, ExcludedId(editingNote), newCategory, normalizedTitle) {
        return Some(DuplicateTitle);
      }
      if StoreInvariant(notes) && (editingNote.None? ==> forall i :: 0 <= i < |notes| ==> notes[i].id != freshId) {
        SavePreservesInvariant(notes, editingNote, newTitle, newDescription, newCategory, freshId, now);
      }
      CommitDraft(trimmedTitle, trimmedDesc, freshId, now);
      err := None;
    }

    /** The part of `handleSaveNote` after validation: the edit or the add,
        then the reset of the draft and the closing of the modal. */
    method CommitDraft(trimmedTitle: string, trimmedDesc: string, freshId: Id, now: string)
      modifies this`notes, this`editingNote, this`selectedNote
      modifies this`newTitle, this`newDescription, this`newCategory, this`isModalOpen
      ensures old(editingNote).Some? ==>
                notes == ApplyEdit(old(notes), old(editingNote).value.id, trimmedTitle, trimmedDesc, old(newCategory))
      ensures old(editingNote).None? ==>
                notes == old(notes) + [Note(freshId, trimmedTitle, trimmedDesc, old(newCategory), now)]
      ensures selectedNote ==
                if old(editingNote).Some? && old(selectedNote).Some? &&
                   old(selectedNote).value.id == old(editingNote).value.id
                then Some(WithFields(old(selectedNote).value, trimmedTitle, trimmedDesc, old(newCategory)))
                else old(selectedNote)
      ensures editingNote == None && !isModalOpen
      ensures newTitle == "" && newDescription == "" && newCategory == DefaultCategory
    {
      if editingNote.Some? {
        notes := ApplyEdit(notes, editingNote.value.id, trimmedTitle, trimmedDesc, newCategory);
        if selectedNote.Some? && selectedNote.value.id == editingNote.value.id {
          selectedNote := Some(WithFields(selectedNote.value, trimmedTitle, trimmedDesc, newCategory));
        }
        editingNote := None;
      } else {
        notes := notes + [Note(freshId, trimmedTitle, trimmedDesc, newCategory, now)];
      }
      newTitle := "";
      newDescription := "";
      newCategory := DefaultCategory;
      isModalOpen := false;
    }

    /** "Delete" in a card's menu, with the click kept from reaching the card
        (see `Notes.SelectionAfterMenuDeleteAsWritten` for what happens when
        it does): every note with the id goes, a selection showing it is
        cleared, and the menu closes. */
    method DeleteFromMenu(note: Note)
      modifies this`notes, this`selectedNote, this`menuOpen
      ensures notes == RemoveId(old(notes), note.id)
      ensures selectedNote == SelectionAfterDelete(old(selectedNote), note.id)
      ensures menuOpen == None
      ensures old(StoreInvariant(notes)) ==> StoreInvariant(notes)
    {
      if StoreInvariant(notes) {
        RemovePreservesInvariant(notes, note.id);
      }
      notes := RemoveId(notes, note.id);
      selectedNote := SelectionAfterDelete(selectedNote, note.id);
      menuOpen := None;
    }

    /** "Delete" in the side panel, which is shown only while a note is
        selected: that note's id goes and the selection is cleared. */
    method DeleteSelected()
      requires selectedNote.Some?
      modifies this`notes, this`selectedNote
      ensures notes == RemoveId(old(notes), old(selectedNote).value.id)
      ensures selectedNote == None
      ensures old(StoreInvariant(notes)) ==> StoreInvariant(notes)
    {
      if StoreInvariant(notes) {
        RemovePreservesInvariant(notes, selectedNote.value.id);
      }
      notes := RemoveId(notes, selectedNote.value.id);
      selectedNote := None;
    }
  }
}
