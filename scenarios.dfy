/** Sequences of user actions on a freshly loaded App, and what the
    handlers' contracts let a caller conclude about them. */
module Scenarios {
  import opened Wrappers
  import opened NoteStore
  import opened NoteViews
  import opened Seqs
  import opened NotesApp

  /** Creating a note and cancelling the editor leaves the new "Untitled Note"
      in the list and in storage. */
  method CreateThenCancel(initial: Option<seq<Note>>, id: string, now: int)
    returns (notes: seq<Note>, stored: Option<seq<Note>>, editing: bool)
    ensures notes == [Note(id, UNTITLED, "", now)] + Load(initial)
    ensures stored == Some(notes)
    ensures !editing
  {
    var app := new App(initial);
    app.HandleCreateNote(id, now);
    app.AutoSelect();
    app.HandleCancelEdit();
    notes, stored, editing := app.notes, app.stored, app.editing;
  }

  /** Starting from empty storage: create, type a title and a body, save.
      The list then holds exactly the saved note, which is selected. */
  method CreateEditSave(id: string, created: int, saved: int)
    returns (notes: seq<Note>, selectedId: Option<string>, shown: Option<Note>)
    ensures notes == [Note(id, "Groceries", "milk, eggs", saved)]
    ensures selectedId == Some(id)
    ensures shown == Some(notes[0])
  {
    var app := new App(None);
    app.HandleCreateNote(id, created);
    app.AutoSelect();
    app.HandleEditorChange(Title, "Groceries");
    app.HandleEditorChange(Body, "milk, eggs");
    var draft := Note(id, "Groceries", "milk, eggs", created);
    assert app.editorNote == Some(draft);
    assert !Text.IsWhitespace(draft.title[0]);
    var accepted := app.HandleSaveNote(saved);
    var stamped := draft.(updated := saved);
    var untitled := Note(id, UNTITLED, "", created);
    assert HasId([untitled], id) by { assert [untitled][0].id == id; }
    assert [untitled][1..] == [];
    assert ReplaceById([untitled], stamped) == [stamped] + ReplaceById([], stamped);
    assert Upsert([untitled], stamped) == [stamped];
    app.AutoSelect();
    notes, selectedId, shown := app.notes, app.selectedId, app.DisplayedNote();
  }

  /** A title of blanks is rejected and the draft stays open for correction. */
  method SaveBlankTitle(id: string, created: int, saved: int)
    returns (accepted: bool, notes: seq<Note>, editing: bool)
    ensures !accepted && editing
    ensures notes == [Note(id, UNTITLED, "", created)]
  {
    var app := new App(None);
    app.HandleCreateNote(id, created);
    app.HandleEditorChange(Title, "   ");
    accepted := app.HandleSaveNote(saved);
    notes, editing := app.notes, app.editing;
  }

  /** With A (updated 100) and B (updated 200) stored in that order: the
      sidebar, with no search string, shows B first, yet the first selection after loading is A, the first
      element of the stored array. Deleting A while it is selected moves the
      selection to B, the one note left. */
  method LoadSelectDelete()
    returns (sorted: seq<Note>, firstSelection: Option<string>, afterDelete: Option<string>)
    ensures sorted == [Note("b", "B", "", 200), Note("a", "A", "", 100)]
    ensures firstSelection == Some("a")
    ensures afterDelete == Some("b")
  {
    var a := Note("a", "A", "", 100);
    var b := Note("b", "B", "", 200);
    var app := new App(Some([a, b]));
    assert [a, b][1..] == [b] && [b][1..] == [];
    assert SortByUpdated([b]) == [b];
    assert Insert(a, [b]) == [b, a];
    FilteredEmptyQuery(app.notes);
    sorted := app.Filtered();
    app.AutoSelect();
    firstSelection := app.selectedId;
    app.HandleDeleteNote("a", true);
    assert Filter([b], IdIsNot("a")) == [b];
    assert RemoveId([a, b], "a") == [b];
    afterDelete := app.selectedId;
  }
}
