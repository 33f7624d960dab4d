/** The note record and the operations on the note array that the handlers
    of the App component perform: lookup by id, the replace-or-insert of a
    save, the removal of a delete, and loading what storage holds. */
module NoteStore {
  import opened Wrappers
  import opened Seqs
  import opened Text

  /** `{ id, title, body, updated }`; `updated` is an epoch-millisecond time. */
  datatype Note = Note(id: string, title: string, body: string, updated: int)

  /** The two inputs of the editor, by their `name` attribute. */
  datatype Field = Title | Body

  /** The title every new note starts with. */
  const UNTITLED: string := "Untitled Note"

  /** Some note in `s` carries `id`. */
  predicate HasId(s: seq<Note>, id: string)
  {
    exists k :: 0 <= k < |s| && s[k].id == id
  }

  /** No two notes in `s` share an id. */
  predicate UniqueIds(s: seq<Note>)
  {
    forall i, j :: 0 <= i < j < |s| ==> s[i].id != s[j].id
  }

  /** Every note in `s` has a title that is not blank. */
  predicate TitlesNonBlank(s: seq<Note>)
  {
    forall k :: 0 <= k < |s| ==> !AllWhitespace(s[k].title)
  }

  /** The note array a page load starts from: the stored array, or none at all. */
  function Load(stored: Option<seq<Note>>): seq<Note>
  {
    if stored.Some? then stored.value else []
  }

  /** `notes.find(n => n.id === id)`. */
  function FindById(s: seq<Note>, id: string): (r: Option<Note>)
    ensures r.None? <==> !HasId(s, id)
    ensures r.Some? ==> r.value in s && r.value.id == id
  {
    if s == [] then None
    else if s[0].id == id then Some(s[0])
    else FindById(s[1..], id)
  }

  /** `find` returns the first note that carries the id. */
  lemma {:induction false} FindByIdFirst(s: seq<Note>, id: string, k: int)
    requires 0 <= k < |s| && s[k].id == id
    requires forall j :: 0 <= j < k ==> s[j].id != id
    ensures FindById(s, id) == Some(s[k])
  {
    if k > 0 {
      FindByIdFirst(s[1..], id, k - 1);
    }
  }

  /** The editor's change of one field: `{ ...draft, [name]: value }`. */
  function WithField(draft: Note, field: Field, value: string): (r: Note)
    ensures r.id == draft.id && r.updated == draft.updated
    ensures r.title == (if field == Title then value else draft.title)
    ensures r.body == (if field == Body then value else draft.body)
  {
    match field
    case Title => draft.(title := value)
    case Body => draft.(body := value)
  }

  /** `s.map(n => n.id === u.id ? u : n)`. */
  function ReplaceById(s: seq<Note>, u: Note): seq<Note>
  {
    if s == [] then []
    else [if s[0].id == u.id then u else s[0]] + ReplaceById(s[1..], u)
  }

  /** Replacing works position by position: every note with `u`'s id becomes
      `u`, every other note stays where it was. */
  lemma {:induction false} ReplaceByIdAt(s: seq<Note>, u: Note)
    ensures |ReplaceById(s, u)| == |s|
    ensures forall k :: 0 <= k < |s| ==>
      ReplaceById(s, u)[k] == if s[k].id == u.id then u else s[k]
  {
    if s != [] {
      ReplaceByIdAt(s[1..], u);
    }
  }

  /** What a save makes of the note array: the saved note replaces every note
      with its id if there is one, and is put in front otherwise. */
  function Upsert(s: seq<Note>, u: Note): seq<Note>
  {
    if HasId(s, u.id) then ReplaceById(s, u) else [u] + s
  }

  /** A save of a note whose id is present keeps the length and every position. */
  lemma UpsertExisting(s: seq<Note>, u: Note)
    requires HasId(s, u.id)
    ensures |Upsert(s, u)| == |s|
    ensures forall k :: 0 <= k < |s| ==>
      Upsert(s, u)[k] == if s[k].id == u.id then u else s[k]
  {
    ReplaceByIdAt(s, u);
  }

  /** Whichever way it goes, the saved note is what `find` returns for its id. */
  lemma UpsertFinds(s: seq<Note>, u: Note)
    ensures FindById(Upsert(s, u), u.id) == Some(u)
  {
    var r := Upsert(s, u);
    if HasId(s, u.id) {
      ReplaceByIdAt(s, u);
      var k :| 0 <= k < |s| && s[k].id == u.id && forall j :: 0 <= j < k ==> s[j].id != u.id by {
        FirstWithId(s, u.id);
      }
      FindByIdFirst(r, u.id, k);
    } else {
      FindByIdFirst(r, u.id, 0);
    }
  }

  /** Helper: when an id is present there is a first position that carries it. */
  lemma {:induction false} FirstWithId(s: seq<Note>, id: string)
    requires HasId(s, id)
    ensures exists k :: 0 <= k < |s| && s[k].id == id && forall j :: 0 <= j < k ==> s[j].id != id
  {
    if s[0].id != id {
      var k :| 0 <= k < |s| && s[k].id == id;
      assert s[1..][k - 1].id == id;
      FirstWithId(s[1..], id);
      var m :| 0 <= m < |s| - 1 && s[1..][m].id == id && forall j :: 0 <= j < m ==> s[1..][j].id != id;
      assert forall j :: 0 <= j < m + 1 ==> s[j].id != id by {
        forall j | 0 <= j < m + 1 ensures s[j].id != id {
          if j > 0 { assert s[j] == s[1..][j - 1]; }
        }
      }
    }
  }

  /** A save keeps the ids unique: a replacement keeps every id where it was,
      and an insertion only happens for an id that is absent. */
  lemma UpsertKeepsUniqueIds(s: seq<Note>, u: Note)
    requires UniqueIds(s)
    ensures UniqueIds(Upsert(s, u))
  {
    if HasId(s, u.id) {
      ReplaceByIdAt(s, u);
    } else {
      var r := Upsert(s, u);
      forall i, j | 0 <= i < j < |r| ensures r[i].id != r[j].id {
        if i == 0 {
          assert r[j] == s[j - 1];
        } else {
          assert r[i] == s[i - 1] && r[j] == s[j - 1];
        }
      }
    }
  }

  /** Saving the same note twice is saving it once. */
  lemma UpsertIdempotent(s: seq<Note>, u: Note)
    ensures Upsert(Upsert(s, u), u) == Upsert(s, u)
  {
    var r := Upsert(s, u);
    assert r == ReplaceById(s, u) || r == [u] + s;
    assert HasId(r, u.id) by {
      UpsertFinds(s, u);
    }
    ReplaceByIdAt(r, u);
    if HasId(s, u.id) {
      ReplaceByIdAt(s, u);
    }
  }

  /** The predicate of the delete's filter: `n => n.id !== id`. */
  function IdIsNot(id: string): Note -> bool
  {
    (n: Note) => n.id != id
  }

  /** `notes.filter(n => n.id !== id)`. */
  function RemoveId(s: seq<Note>, id: string): seq<Note>
  {
    Filter(s, IdIsNot(id))
  }

  /** A delete removes every note with the id and keeps every other note, as
      often as it occurs and in the original relative order. */
  lemma RemoveIdSpec(s: seq<Note>, id: string)
    ensures forall n :: multiset(RemoveId(s, id))[n] == (if n.id != id then multiset(s)[n] else 0)
    ensures forall n :: n in RemoveId(s, id) ==> n in s && n.id != id
    ensures forall n :: n in s && n.id != id ==> n in RemoveId(s, id)
    ensures !HasId(RemoveId(s, id), id)
    ensures IsSubsequence(RemoveId(s, id), s)
  {
    FilterMembers(s, IdIsNot(id));
    FilterIsSubsequence(s, IdIsNot(id));
    var r := RemoveId(s, id);
    forall k | 0 <= k < |r| ensures r[k].id != id {
      assert r[k] in r;
    }
  }

  /** Deleting an id that is absent changes nothing; so a second delete of
      the same id is a no-op. */
  lemma RemoveIdAbsent(s: seq<Note>, id: string)
    requires !HasId(s, id)
    ensures RemoveId(s, id) == s
  {
    forall n | n in s ensures IdIsNot(id)(n) {
      var k :| 0 <= k < |s| && s[k] == n;
    }
    FilterKeepsAll(s, IdIsNot(id));
  }

  lemma RemoveIdIdempotent(s: seq<Note>, id: string)
    ensures RemoveId(RemoveId(s, id), id) == RemoveId(s, id)
  {
    RemoveIdSpec(s, id);
    RemoveIdAbsent(RemoveId(s, id), id);
  }

  /** A filter of notes with unique ids has unique ids. */
  lemma {:induction false} FilterKeepsUniqueIds(s: seq<Note>, p: Note -> bool)
    requires UniqueIds(s)
    ensures UniqueIds(Filter(s, p))
  {
    if s != [] {
      var t := Filter(s[1..], p);
      assert UniqueIds(s[1..]) by {
        forall i, j | 0 <= i < j < |s| - 1 ensures s[1..][i].id != s[1..][j].id {
          assert s[1..][i] == s[i + 1] && s[1..][j] == s[j + 1];
        }
      }
      FilterKeepsUniqueIds(s[1..], p);
      if p(s[0]) {
        assert forall x :: x in t ==> x in s[1..] by {
          FilterMembers(s[1..], p);
        }
        var r := Filter(s, p);
        assert r == [s[0]] + t;
        forall i, j | 0 <= i < j < |r| ensures r[i].id != r[j].id {
          if i == 0 {
            assert r[j] == t[j - 1] && t[j - 1] in s[1..];
            var m :| 0 <= m < |s| - 1 && s[1..][m] == t[j - 1];
            assert s[m + 1] == r[j];
          } else {
            assert r[i] == t[i - 1] && r[j] == t[j - 1];
          }
        }
      }
    }
  }

  lemma RemoveIdKeepsUniqueIds(s: seq<Note>, id: string)
    requires UniqueIds(s)
    ensures UniqueIds(RemoveId(s, id))
  {
    FilterKeepsUniqueIds(s, IdIsNot(id));
  }

  /** A save of a note with a title that is not blank keeps every title
      non-blank. */
  lemma UpsertKeepsTitles(s: seq<Note>, u: Note)
    requires TitlesNonBlank(s) && !AllWhitespace(u.title)
    ensures TitlesNonBlank(Upsert(s, u))
  {
    if HasId(s, u.id) {
      ReplaceByIdAt(s, u);
    } else {
      var r := Upsert(s, u);
      forall k | 0 <= k < |r| ensures !AllWhitespace(r[k].title) {
        if k > 0 {
          assert r[k] == s[k - 1];
        }
      }
    }
  }

  /** A delete keeps every title non-blank. */
  lemma RemoveIdKeepsTitles(s: seq<Note>, id: string)
    requires TitlesNonBlank(s)
    ensures TitlesNonBlank(RemoveId(s, id))
  {
    RemoveIdSpec(s, id);
    var r := RemoveId(s, id);
    forall k | 0 <= k < |r| ensures !AllWhitespace(r[k].title) {
      assert r[k] in s;
      var m :| 0 <= m < |s| && s[m] == r[k];
    }
  }
}
