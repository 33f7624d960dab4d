/** The state of the App component and its event handlers. Each handler is
    one atomic transition of the component's state; the auto-select effect is
    a transition of its own, run after the others. */
module NotesApp {
  import opened Wrappers
  import opened Text
  import opened NoteStore
  import opened NoteViews

  /** `!selectedId` in JavaScript: no selection, or the empty string. */
  predicate Unselected(selectedId: Option<string>)
  {
    selectedId.None? || selectedId.value == ""
  }

  /** The `notes.map` of a save: every note with `u`'s id is replaced by `u`,
      and `replaced` records whether that happened at all. */
  method MapReplacing(notes: seq<Note>, u: Note) returns (updatedNotes: seq<Note>, replaced: bool)
    ensures updatedNotes == ReplaceById(notes, u)
    ensures replaced == HasId(notes, u.id)
    ensures !replaced ==> updatedNotes == notes
  {
    replaced := false;
    updatedNotes := [];
    var i := 0;
    while i < |notes|
      invariant 0 <= i <= |notes|
      invariant |updatedNotes| == i
      invariant forall k :: 0 <= k < i ==>
        updatedNotes[k] == if notes[k].id == u.id then u else notes[k]
      invariant replaced <==> exists k :: 0 <= k < i && notes[k].id == u.id
    {
      var n := notes[i];
      if n.id == u.id {
        replaced := true;
        updatedNotes := updatedNotes + [u];
      } else {
        updatedNotes := updatedNotes + [n];
      }
      i := i + 1;
    }
    ReplaceByIdAt(notes, u);
  }

  class App {
    var notes: seq<Note>
    var searchString: string
    var selectedId: Option<string>
    var editorNote: Option<Note>
    var editing: bool
    /** The value of the storage entry, or None while nothing was ever written. */
    var stored: Option<seq<Note>>

    /** Storage mirrors the notes, so that reloading the page gives back the
        same notes, and the editor is open exactly when there is a draft. */
    ghost predicate Valid()
      reads this
    {
      Load(stored) == notes && (editing <==> editorNote.Some?)
    }

    /** `filteredNotes` of the current state. */
    function Filtered(): seq<Note>
      reads this
    {
      FilteredNotes(notes, searchString)
    }

    /** The note for the main area in the current state. */
    function DisplayedNote(): Option<Note>
      reads this
    {
      NoteForMainArea(notes, selectedId, editorNote, editing)
    }

    /** The initial state: the notes are those in storage, or none. */
    constructor (initial: Option<seq<Note>>)
      ensures Valid()
      ensures notes == Load(initial) && stored == initial
      ensures searchString == "" && selectedId == None && editorNote == None && !editing
    {
      notes := Load(initial);
      stored := initial;
      searchString := "";
      selectedId := None;
      editorNote := None;
      editing := false;
    }

    /** `persist`: the new notes become the state and overwrite storage. */
    method Persist(newNotes: seq<Note>)
      modifies this`notes, this`stored
      ensures notes == newNotes && stored == Some(newNotes)
      ensures Load(stored) == notes
    {
      notes := newNotes;
      stored := Some(newNotes);
    }

    /** The effect "select first note if no selected": it picks the first
        element of the unsorted array, not the most recent note. */
    method AutoSelect()
      requires Valid()
      modifies this`selectedId
      ensures Valid()
      ensures old(|notes| > 0 && Unselected(selectedId)) ==> selectedId == Some(notes[0].id)
      ensures !old(|notes| > 0 && Unselected(selectedId)) ==> selectedId == old(selectedId)
      ensures |notes| > 0 && notes[0].id != "" ==> !Unselected(selectedId)
      ensures notes == old(notes) && stored == old(stored)
    {
      if |notes| > 0 && Unselected(selectedId) {
        selectedId := Some(notes[0].id);
      }
    }

    /** The search box's change handler. */
    method SetSearchString(query: string)
      requires Valid()
      modifies this`searchString
      ensures Valid()
      ensures searchString == query
      ensures notes == old(notes) && stored == old(stored) && selectedId == old(selectedId)
    {
      searchString := query;
    }

    method HandleSelectNote(id: string)
      requires Valid()
      modifies this`selectedId, this`editing, this`editorNote
      ensures Valid()
      ensures selectedId == Some(id) && !editing && editorNote == None
      ensures DisplayedNote() == FindById(notes, id)
      ensures notes == old(notes) && stored == old(stored)
    {
      selectedId := Some(id);
      editing := false;
      editorNote := None;
    }

    /** The new note, with the id and the time the browser would supply, is
        stored at once and opened in the editor. */
    method HandleCreateNote(id: string, now: int)
      requires Valid()
      modifies this
      ensures Valid()
      ensures var note := Note(id, UNTITLED, "", now);
        && notes == [note] + old(notes)
        && stored == Some(notes)
        && selectedId == Some(id)
        && editorNote == Some(note) && editing
        && DisplayedNote() == Some(note)
      ensures searchString == old(searchString)
      ensures old(UniqueIds(notes)) && !old(HasId(notes, id)) ==> UniqueIds(notes)
      ensures old(TitlesNonBlank(notes)) ==> TitlesNonBlank(notes)
    {
      var note := Note(id, UNTITLED, "", now);
      Persist([note] + notes);
      selectedId := Some(id);
      editorNote := Some(note);
      editing := true;
      assert UniqueIds(old(notes)) && !HasId(old(notes), id) ==> UniqueIds(notes) by {
        if UniqueIds(old(notes)) && !HasId(old(notes), id) {
          UpsertKeepsUniqueIds(old(notes), note);
        }
      }
      assert !IsWhitespace(UNTITLED[0]);
      assert TitlesNonBlank(old(notes)) ==> TitlesNonBlank(notes) by {
        if TitlesNonBlank(old(notes)) {
          UpsertKeepsTitles(old(notes), note);
        }
      }
    }

    /** A confirmed delete removes the note; if it was the selected one, the
        selection moves to the first remaining note of the unsorted array and
        the editor closes. */
    method HandleDeleteNote(id: string, confirmed: bool)
      requires Valid()
      modifies this
      ensures Valid()
      ensures !confirmed ==> unchanged(this)
      ensures confirmed ==> notes == RemoveId(old(notes), id) && stored == Some(notes)
      ensures confirmed && old(selectedId) == Some(id) ==>
        && selectedId == (if notes == [] then None else Some(notes[0].id))
        && editorNote == None && !editing
      ensures old(selectedId) != Some(id) ==>
        selectedId == old(selectedId) && editorNote == old(editorNote) && editing == old(editing)
      ensures searchString == old(searchString)
      ensures old(UniqueIds(notes)) ==> UniqueIds(notes)
      ensures old(TitlesNonBlank(notes)) ==> TitlesNonBlank(notes)
    {
      if confirmed {
        var filtered := RemoveId(notes, id);
        if UniqueIds(notes) { RemoveIdKeepsUniqueIds(notes, id); }
        if TitlesNonBlank(notes) { RemoveIdKeepsTitles(notes, id); }
        Persist(filtered);
        if selectedId == Some(id) {
          selectedId := if |filtered| > 0 then Some(filtered[0].id) else None;
          editorNote := None;
          editing := false;
        }
      }
    }

    /** Opens a copy of `note` in the editor; the selection stays. */
    method HandleStartEdit(note: Note)
      requires Valid()
      modifies this`editorNote, this`editing
      ensures Valid()
      ensures editorNote == Some(note) && editing
      ensures DisplayedNote() == Some(note)
      ensures notes == old(notes) && stored == old(stored) && selectedId == old(selectedId)
    {
      editorNote := Some(note);
      editing := true;
    }

    /** Closes the editor and drops the draft; the notes are not touched, so a
        note created just before stays in the list as "Untitled Note". */
    method HandleCancelEdit()
      requires Valid()
      modifies this`editorNote, this`editing
      ensures Valid()
      ensures editorNote == None && !editing
      ensures selectedId.Some? ==> DisplayedNote() == FindById(notes, selectedId.value)
      ensures selectedId.None? ==> DisplayedNote() == None
      ensures notes == old(notes) && stored == old(stored) && selectedId == old(selectedId)
    {
      editorNote := None;
      editing := false;
    }

    /** A change of one editor input: only the named field of the draft changes. */
    method HandleEditorChange(field: Field, value: string)
      requires Valid() && editorNote.Some?
      modifies this`editorNote
      ensures Valid()
      ensures editorNote == Some(WithField(old(editorNote).value, field, value))
      ensures notes == old(notes) && stored == old(stored) && selectedId == old(selectedId)
    {
      editorNote := Some(WithField(editorNote.value, field, value));
    }

    /** Saves the draft, stamped with `now`. A title that is blank after
        `trim` is rejected (the alert) and changes nothing. Otherwise every
        note with the draft's id is replaced in place, or the draft is put in
        front when there is none; the saved note becomes the selection and the
        editor closes. */
    method HandleSaveNote(now: int) returns (accepted: bool)
      requires Valid() && editorNote.Some?
      modifies this
      ensures Valid()
      ensures accepted <==> !AllWhitespace(old(editorNote).value.title)
      ensures !accepted ==> unchanged(this)
      ensures accepted ==>
        var saved := old(editorNote).value.(updated := now);
        && notes == Upsert(old(notes), saved)
        && stored == Some(notes)
        && selectedId == Some(saved.id)
        && editorNote == None && !editing
        && searchString == old(searchString)
        && DisplayedNote() == Some(saved)
      ensures old(TitlesNonBlank(notes)) ==> TitlesNonBlank(notes)
    {
      var draft := editorNote.value;
      TrimEmptyIff(draft.title);
      if Trim(draft.title) == [] {
        return false;
      }
      var updated := draft.(updated := now);
      var updatedNotes, replaced := MapReplacing(notes, updated);
      if !replaced {
        updatedNotes := [updated] + updatedNotes;
      }
      assert updatedNotes == Upsert(notes, updated);
      UpsertFinds(notes, updated);
      if TitlesNonBlank(notes) {
        UpsertKeepsTitles(notes, updated);
      }
      Persist(updatedNotes);
      selectedId := Some(updated.id);
      editorNote := None;
      editing := false;
      accepted := true;
    }
  }
}
