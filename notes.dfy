/** The note list and the logic the component computes from it: the
    category/search view, the duplicate-title check, save (add or edit) and
    delete. Everything here is a value computed from other values; the
    component state that holds these values is in module NotesApp. */
module Notes {
  import opened Wrappers
  import opened Seqs
  import opened Text

  /** Ids come from `Date.now()` when a note is added. */
  type Id = int

  datatype Note = Note(id: Id, title: string, description: string, category: string, createdAt: string)

  /** The category filter value that lets every note through. */
  const AllNotes: string := "All Notes"

  /** The category a fresh draft starts with. */
  const DefaultCategory: string := "Work"

  // ---------------------------------------------------------------------
  // View filter

  predicate MatchesCategory(n: Note, activeCategory: string)
  {
    activeCategory == AllNotes || n.category == activeCategory
  }

  /** The lower-cased search text occurs in the lower-cased title or description. */
  predicate MatchesSearch(n: Note, searchText: string)
  {
    Includes(Lower(n.title), Lower(searchText)) || Includes(Lower(n.description), Lower(searchText))
  }

  predicate IsVisible(n: Note, activeCategory: string, searchText: string)
  {
    MatchesCategory(n, activeCategory) && MatchesSearch(n, searchText)
  }

  /** `filteredNotes`: the notes shown in the grid. They are the notes that
      pass both tests, in list order; every note left out fails one test. */
  function FilteredNotes(notes: seq<Note>, activeCategory: string, searchText: string): (r: seq<Note>)
    ensures IsSubsequence(r, notes)
    ensures forall i :: 0 <= i < |r| ==> MatchesCategory(r[i], activeCategory) && MatchesSearch(r[i], searchText)
    ensures forall i :: 0 <= i < |notes| ==>
              (notes[i] in r <==> MatchesCategory(notes[i], activeCategory) && MatchesSearch(notes[i], searchText))
    ensures forall n :: multiset(r)[n] ==
              if IsVisible(n, activeCategory, searchText) then multiset(notes)[n] else 0
  {
    Filter(notes, n => IsVisible(n, activeCategory, searchText))
  }

  /** With the "All Notes" category and an empty search, the grid shows the
      whole list, in order. */
  lemma ShowAllWhenUnfiltered(notes: seq<Note>)
    ensures FilteredNotes(notes, AllNotes, "") == notes
  {
    forall i | 0 <= i < |notes| ensures IsVisible(notes[i], AllNotes, "") {
      IncludesEmpty(Lower(notes[i].title));
    }
    FilterKeepsAll(notes, n => IsVisible(n, AllNotes, ""));
  }

  /** A search text and its lower-cased form select the same notes. */
  lemma SearchIgnoresCase(notes: seq<Note>, activeCategory: string, searchText: string)
    ensures FilteredNotes(notes, activeCategory, Lower(searchText)) == FilteredNotes(notes, activeCategory, searchText)
  {
    LowerIdempotent(searchText);
    FilterSamePredicate(notes, n => IsVisible(n, activeCategory, Lower(searchText)),
                        n => IsVisible(n, activeCategory, searchText));
  }

  /** The view of a list with a note appended is the old view, followed by
      the new note when it passes the filter. */
  lemma FilteredAppend(notes: seq<Note>, n: Note, activeCategory: string, searchText: string)
    ensures FilteredNotes(notes + [n], activeCategory, searchText) ==
            FilteredNotes(notes, activeCategory, searchText) +
            (if IsVisible(n, activeCategory, searchText) then [n] else [])
  {
    var p := m => IsVisible(m, activeCategory, searchText);
    FilterConcat(notes, [n], p);
    assert Filter([n], p) == (if p(n) then [n] else []) by {
      assert [n][1..] == [];
    }
  }

  // ---------------------------------------------------------------------
  // Duplicate-title check

  /** Title normalisation for the duplicate check: trim, then lower-case. */
  function Normalize(title: string): string
  {
    Lower(Trim(title))
  }

  /** The id the duplicate check leaves out: the edited note's id, or `null`
      (None) when adding, which equals no note's id. */
  function ExcludedId(editing: Option<Note>): Option<Id>
  {
    if editing.Some? then Some(editing.value.id) else None
  }

  /** `n` blocks a save of a note titled `normalizedTitle` in `category`. */
  predicate Collides(n: Note, excluded: Option<Id>, category: string, normalizedTitle: string)
  {
    Some(n.id) != excluded && n.category == category && Normalize(n.title) == normalizedTitle
  }

  /** `duplicateExists`: some note of the list collides. */
  function DuplicateExists(notes: seq<Note>, excluded: Option<Id>, category: string, normalizedTitle: string): (r: bool)
    ensures r <==> exists n :: n in notes && Collides(n, excluded, category, normalizedTitle)
  {
    Any(notes, n => Collides(n, excluded, category, normalizedTitle))
  }

  // ---------------------------------------------------------------------
  // Edit, add and delete

  /** The note `n` with its three editable fields replaced (`{...n, title, description, category}`). */
  function WithFields(n: Note, title: string, description: string, category: string): Note
  {
    n.(title := title, description := description, category := category)
  }

  /** The edit step of a save: every note with id `id` takes the new title,
      description and category and keeps its id and creation time; every
      other note is left as it was; length and order do not change. */
  function ApplyEdit(notes: seq<Note>, id: Id, title: string, description: string, category: string): (r: seq<Note>)
    ensures |r| == |notes|
    ensures forall i :: 0 <= i < |notes| ==> r[i].id == notes[i].id && r[i].createdAt == notes[i].createdAt
    ensures forall i :: 0 <= i < |notes| && notes[i].id == id ==>
              r[i].title == title && r[i].description == description && r[i].category == category
    ensures forall i :: 0 <= i < |notes| && notes[i].id != id ==> r[i] == notes[i]
  {
    Map(notes, (n: Note) => if n.id == id then WithFields(n, title, description, category) else n)
  }

  /** Delete by id (`notes.filter((n) => n.id !== id)`): exactly the notes
      with that id go, the rest stay in order. */
  function RemoveId(notes: seq<Note>, id: Id): (r: seq<Note>)
    ensures IsSubsequence(r, notes)
    ensures forall i :: 0 <= i < |r| ==> r[i].id != id
    ensures forall i :: 0 <= i < |notes| && notes[i].id != id ==> notes[i] in r
    ensures forall n :: multiset(r)[n] == if n.id != id then multiset(notes)[n] else 0
  {
    Filter(notes, (n: Note) => n.id != id)
  }

  /** Deleting an id no note has leaves the list as it is. */
  lemma RemoveAbsentId(notes: seq<Note>, id: Id)
    requires forall i :: 0 <= i < |notes| ==> notes[i].id != id
    ensures RemoveId(notes, id) == notes
  {
    FilterKeepsAll(notes, (n: Note) => n.id != id);
  }

  /** Deleting the same id twice is deleting it once. */
  lemma RemoveIdIdempotent(notes: seq<Note>, id: Id)
    ensures RemoveId(RemoveId(notes, id), id) == RemoveId(notes, id)
  {
    FilterIdempotent(notes, (n: Note) => n.id != id);
  }

  /** The selection after a note is deleted: it is cleared when it shows the
      deleted id and kept otherwise. */
  function SelectionAfterDelete(selected: Option<Note>, id: Id): (r: Option<Note>)
    ensures r.None? <==> selected.None? || selected.value.id == id
    ensures r.Some? ==> r == selected && r.value.id != id
  {
    if selected.Some? && selected.value.id == id then None else selected
  }

  /** The card click handler's effect on the selection: whatever was
      selected before, the clicked note is selected now. */
  function SelectCard(note: Note): Option<Note>
  {
    Some(note)
  }

  /** The selection after a click on "Delete" in a card's menu, as the
      component runs it. The menu sits inside the card and its handler does
      not stop the click, so after the delete handler has cleared the
      selection the card's own click handler runs and selects the note. */
  function SelectionAfterMenuDeleteAsWritten(selected: Option<Note>, note: Note): Option<Note>
  {
    // The delete handler's write, `SelectionAfterDelete(selected, note.id)`,
    // is followed in the same event by the card handler's write, which wins.
    SelectCard(note)
  }

  /** Deleting a note from its card menu leaves that very note selected,
      though it is no longer in the list. */
  lemma MenuDeleteSelectsDeletedNote(notes: seq<Note>, selected: Option<Note>, note: Note)
    ensures SelectionAfterMenuDeleteAsWritten(selected, note) == Some(note)
    ensures note !in RemoveId(notes, note.id)
  {
  }

  /** The card menu toggle: the clicked note's menu opens unless it was the
      open one, in which case no menu is open; at most one menu is open. */
  function ToggleMenu(open: Option<Id>, id: Id): (r: Option<Id>)
    ensures r == Some(id) <==> open != Some(id)
    ensures r != Some(id) ==> r == None
  {
    if open == Some(id) then None else Some(id)
  }

  // ---------------------------------------------------------------------
  // Save

  datatype SaveError =
    | EmptyField      // "Title and Description cannot be empty."
    | DuplicateTitle  // "A note with this title already exists in this category."

  /** `handleSaveNote` on the note list: validate the draft, then edit the
      note being edited or append a new note with the given id and time. */
  function Save(notes: seq<Note>, editing: Option<Note>, title: string, description: string,
                category: string, freshId: Id, now: string): (r: Result<seq<Note>, SaveError>)
    ensures r == Failure(EmptyField) <==> Trim(title) == [] || Trim(description) == []
    ensures r == Failure(DuplicateTitle) <==>
              Trim(title) != [] && Trim(description) != [] &&
              exists n :: n in notes && Collides(n, ExcludedId(editing), category, Normalize(title))
  {
    var trimmedTitle := Trim(title);
    var trimmedDesc := Trim(description);
    if trimmedTitle == [] || trimmedDesc == [] then
      Failure(EmptyField)
    else if DuplicateExists(notes, ExcludedId(editing), category, Lower(trimmedTitle)) then
      Failure(DuplicateTitle)
    else if editing.Some? then
      Success(ApplyEdit(notes, editing.value.id, trimmedTitle, trimmedDesc, category))
    else
      Success(notes + [Note(freshId, trimmedTitle, trimmedDesc, category, now)])
  }

  /** A successful add appends exactly one note, holding the trimmed fields,
      the category, the given id and the given time; the notes before it are
      unchanged. */
  lemma SaveAppends(notes: seq<Note>, title: string, description: string, category: string, freshId: Id, now: string)
    requires Save(notes, None, title, description, category, freshId, now).Success?
    ensures var r := Save(notes, None, title, description, category, freshId, now).value;
            |r| == |notes| + 1 && r[..|notes|] == notes &&
            r[|notes|] == Note(freshId, Trim(title), Trim(description), category, now)
  {
  }

  /** A successful edit keeps length, order, ids and creation times; the
      notes with the edited id carry the trimmed fields and the category, and
      every other note is unchanged. */
  lemma SaveEditsInPlace(notes: seq<Note>, editing: Note, title: string, description: string,
                         category: string, freshId: Id, now: string)
    requires Save(notes, Some(editing), title, description, category, freshId, now).Success?
    ensures var r := Save(notes, Some(editing), title, description, category, freshId, now).value;
            |r| == |notes| &&
            (forall i :: 0 <= i < |notes| ==> r[i].id == notes[i].id && r[i].createdAt == notes[i].createdAt) &&
            (forall i :: 0 <= i < |notes| && notes[i].id == editing.id ==>
               r[i] == WithFields(notes[i], Trim(title), Trim(description), category)) &&
            (forall i :: 0 <= i < |notes| && notes[i].id != editing.id ==> r[i] == notes[i])
  {
  }

  // ---------------------------------------------------------------------
  // The store invariant the save checks keep

  /** Two notes occupy the same (category, normalised title) slot. */
  predicate SameSlot(a: Note, b: Note)
  {
    a.category == b.category && Normalize(a.title) == Normalize(b.title)
  }

  /** Two different entries of the list: distinct ids and distinct slots. */
  predicate Distinct(a: Note, b: Note)
  {
    a.id != b.id && !SameSlot(a, b)
  }

  /** No two notes share an id or a (category, normalised title) slot. The
      component does not check this of the list it starts from; saves and
      deletes keep it once it holds. */
  ghost predicate StoreInvariant(notes: seq<Note>)
  {
    Pairwise(notes, Distinct)
  }

  /** A successful save keeps the store invariant, provided an added note's
      id is new. */
  lemma SavePreservesInvariant(notes: seq<Note>, editing: Option<Note>, title: string, description: string,
                               category: string, freshId: Id, now: string)
    requires StoreInvariant(notes)
    requires editing.None? ==> forall i :: 0 <= i < |notes| ==> notes[i].id != freshId
    requires Save(notes, editing, title, description, category, freshId, now).Success?
    ensures StoreInvariant(Save(notes, editing, title, description, category, freshId, now).value)
  {
    var r := Save(notes, editing, title, description, category, freshId, now).value;
    TrimIdempotent(title);
    assert Normalize(Trim(title)) == Normalize(title);
    forall i, j | 0 <= i < j < |r| ensures Distinct(r[i], r[j]) {
      if j == |notes| {
        assert !Collides(notes[i], ExcludedId(editing), category, Normalize(title));
      } else if editing.Some? && notes[i].id == editing.value.id {
        assert Distinct(notes[i], notes[j]);
        assert !Collides(notes[j], ExcludedId(editing), category, Normalize(title));
      } else if editing.Some? && notes[j].id == editing.value.id {
        assert !Collides(notes[i], ExcludedId(editing), category, Normalize(title));
      }
    }
  }

  /** Deleting keeps the store invariant. */
  lemma RemovePreservesInvariant(notes: seq<Note>, id: Id)
    requires StoreInvariant(notes)
    ensures StoreInvariant(RemoveId(notes, id))
  {
    SubsequencePairwise(RemoveId(notes, id), notes, Distinct);
  }

  /** Self-exclusion: in a list that keeps the invariant, saving a note under
      its own title and category is never a duplicate. */
  lemma SaveOwnTitleSucceeds(notes: seq<Note>, k: nat, description: string, freshId: Id, now: string)
    requires StoreInvariant(notes) && k < |notes|
    requires Trim(notes[k].title) != [] && Trim(description) != []
    ensures Save(notes, Some(notes[k]), notes[k].title, description, notes[k].category, freshId, now).Success?
  {
    var e := notes[k];
    forall n | n in notes ensures !Collides(n, Some(e.id), e.category, Normalize(e.title)) {
      var i :| 0 <= i < |notes| && notes[i] == n;
      OnlyItselfInItsSlot(notes, k, i);
    }
  }

  lemma OnlyItselfInItsSlot(notes: seq<Note>, k: nat, i: nat)
    requires StoreInvariant(notes) && k < |notes| && i < |notes|
    ensures !Collides(notes[i], Some(notes[k].id), notes[k].category, Normalize(notes[k].title))
  {
    var a, b := notes[i], notes[k];
    if i < k {
      assert Distinct(a, b);
    } else if k < i {
      assert Distinct(b, a);
    }
    DistinctDoesNotCollide(a, b);
  }

  /** A note never collides with itself, nor with a note it is distinct from. */
  lemma DistinctDoesNotCollide(a: Note, b: Note)
    requires Distinct(a, b) || Distinct(b, a) || a == b
    ensures !Collides(a, Some(b.id), b.category, Normalize(b.title))
  {
  }

  // ---------------------------------------------------------------------
  // A worked example: the list holds one Work note titled "groceries ", and
  // a new note titled "Groceries" with description "eggs" is saved.

  /** The stored title's trailing blank is trimmed away. */
  lemma TrimPaddedGroceries()
    ensures Trim("groceries ") == "groceries"
  {
    assert TrimStart("groceries ") == "groceries ";
    assert "groceries "[..9] == "groceries";
    assert TrimEnd("groceries ") == TrimEnd("groceries");
  }

  /** The new title has nothing to trim. */
  lemma TrimGroceries()
    ensures Trim("Groceries") == "Groceries"
  {
    assert TrimStart("Groceries") == "Groceries";
  }

  /** The new description is not blank. */
  lemma TrimEggs()
    ensures Trim("eggs") != []
  {
    assert TrimStart("eggs") == "eggs";
  }

  lemma LowerGroceriesStored()
    ensures Lower("groceries") == "groceries"
  {
    var l := Lower("groceries");
    assert forall i :: 0 <= i < 9 ==> l[i] == "groceries"[i];
  }

  lemma LowerGroceriesNew()
    ensures Lower("Groceries") == "groceries"
  {
    var u := Lower("Groceries");
    assert forall i :: 0 <= i < 9 ==> u[i] == "groceries"[i];
  }

  /** Both titles normalize to "groceries". */
  lemma NormalizeGroceries()
    ensures Normalize("groceries ") == Normalize("Groceries") == "groceries"
  {
    TrimPaddedGroceries();
    LowerGroceriesStored();
    TrimGroceries();
    LowerGroceriesNew();
  }

  /** Adding "Groceries" to Work is refused as a duplicate of the Work note
      "groceries ": case and surrounding blanks do not tell titles apart. */
  lemma DuplicateInSameCategory()
    ensures Save([Note(1, "groceries ", "milk", "Work", "t1")], None, "Groceries", "eggs", "Work", 2, "t2")
            == Failure(DuplicateTitle)
  {
    var notes := [Note(1, "groceries ", "milk", "Work", "t1")];
    NormalizeGroceries();
    TrimGroceries();
    TrimEggs();
    assert notes[0] in notes && Collides(notes[0], None, "Work", Normalize("Groceries"));
  }

  /** The same title is accepted in Personal: the check is scoped by category. */
  lemma AcceptedInOtherCategory()
    ensures Save([Note(1, "groceries ", "milk", "Work", "t1")], None, "Groceries", "eggs", "Personal", 2, "t2").Success?
  {
    var notes := [Note(1, "groceries ", "milk", "Work", "t1")];
    TrimGroceries();
    TrimEggs();
    assert forall n :: n in notes ==> n.category == "Work";
  }

  /** Once the Work note is deleted, "Groceries" is accepted in Work. */
  lemma AcceptedAfterDelete()
    ensures Save(RemoveId([Note(1, "groceries ", "milk", "Work", "t1")], 1), None,
                 "Groceries", "eggs", "Work", 2, "t2").Success?
  {
    assert RemoveId([Note(1, "groceries ", "milk", "Work", "t1")], 1) == [];
    TrimGroceries();
    TrimEggs();
  }
}
