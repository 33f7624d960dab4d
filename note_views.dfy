/** The values the App component derives from its state on every render:
    the notes sorted by recency, the sidebar's search result, and the note
    shown in the main area. */
module NoteViews {
  import opened Wrappers
  import opened Seqs
  import opened Text
  import opened NoteStore

  /** Most recently updated first. */
  predicate SortedDesc(s: seq<Note>)
  {
    forall i, j :: 0 <= i < j < |s| ==> s[i].updated >= s[j].updated
  }

  /** Puts `x` before the first note of `r` that is not more recent than it. */
  function Insert(x: Note, r: seq<Note>): seq<Note>
  {
    if r == [] || r[0].updated <= x.updated then [x] + r
    else [r[0]] + Insert(x, r[1..])
  }

  /** `getSorted`: `[...ns].sort((a, b) => b.updated - a.updated)`, a stable
      sort of a copy, written as an insertion sort. */
  function SortByUpdated(s: seq<Note>): seq<Note>
  {
    if s == [] then [] else Insert(s[0], SortByUpdated(s[1..]))
  }

  lemma {:induction false} InsertPermutes(x: Note, r: seq<Note>)
    ensures multiset(Insert(x, r)) == multiset(r) + multiset{x}
  {
    if r != [] && r[0].updated > x.updated {
      InsertPermutes(x, r[1..]);
      assert r == [r[0]] + r[1..];
    }
  }

  /** Inserting a note no more recent than `b` into notes no more recent
      than `b` gives notes no more recent than `b`. */
  lemma InsertBounded(x: Note, r: seq<Note>, b: int)
    requires x.updated <= b
    requires forall j :: 0 <= j < |r| ==> r[j].updated <= b
    ensures forall j :: 0 <= j < |Insert(x, r)| ==> Insert(x, r)[j].updated <= b
  {
  }

  lemma {:induction false} InsertSorted(x: Note, r: seq<Note>)
    requires SortedDesc(r)
    ensures SortedDesc(Insert(x, r))
  {
    if r != [] && r[0].updated > x.updated {
      var t := Insert(x, r[1..]);
      InsertSorted(x, r[1..]);
      assert forall j :: 0 <= j < |r| - 1 ==> r[1..][j].updated <= r[0].updated;
      InsertBounded(x, r[1..], r[0].updated);
      var u := Insert(x, r);
      assert u == [r[0]] + t;
      forall i, j | 0 <= i < j < |u| ensures u[i].updated >= u[j].updated {
        assert u[j] == t[j - 1];
        if i > 0 {
          assert u[i] == t[i - 1];
        }
      }
    }
  }

  /** `getSorted` returns its input reordered: the same notes, as often as before. */
  lemma {:induction false} SortPermutes(s: seq<Note>)
    ensures multiset(SortByUpdated(s)) == multiset(s)
  {
    if s != [] {
      SortPermutes(s[1..]);
      InsertPermutes(s[0], SortByUpdated(s[1..]));
      assert s == [s[0]] + s[1..];
    }
  }

  /** `getSorted` orders by `updated`, most recent first. */
  lemma {:induction false} SortSorted(s: seq<Note>)
    ensures SortedDesc(SortByUpdated(s))
  {
    if s != [] {
      SortSorted(s[1..]);
      InsertSorted(s[0], SortByUpdated(s[1..]));
    }
  }

  /** The notes stamped at time `k`. */
  function UpdatedIs(k: int): Note -> bool
  {
    (n: Note) => n.updated == k
  }

  lemma {:induction false} InsertStable(x: Note, r: seq<Note>, k: int)
    requires SortedDesc(r)
    ensures Filter(Insert(x, r), UpdatedIs(k)) ==
      (if x.updated == k then [x] else []) + Filter(r, UpdatedIs(k))
  {
    if r != [] && r[0].updated > x.updated {
      var t := Insert(x, r[1..]);
      assert SortedDesc(r[1..]) by {
        forall i, j | 0 <= i < j < |r| - 1 ensures r[1..][i].updated >= r[1..][j].updated {
          assert r[1..][i] == r[i + 1] && r[1..][j] == r[j + 1];
        }
      }
      InsertStable(x, r[1..], k);
      assert ([r[0]] + t)[1..] == t;
    }
  }

  /** `getSorted` is stable: notes stamped with the same time keep the order
      they have in the input. */
  lemma {:induction false} SortStable(s: seq<Note>, k: int)
    ensures Filter(SortByUpdated(s), UpdatedIs(k)) == Filter(s, UpdatedIs(k))
  {
    if s != [] {
      SortStable(s[1..], k);
      SortSorted(s[1..]);
      InsertStable(s[0], SortByUpdated(s[1..]), k);
    }
  }

  /** The search test of one note: its lowered title or its lowered body
      includes the lowered query. */
  predicate Matches(n: Note, query: string)
  {
    Contains(Lower(n.title), Lower(query)) || Contains(Lower(n.body), Lower(query))
  }

  function MatchesQuery(query: string): Note -> bool
  {
    (n: Note) => Matches(n, query)
  }

  /** `filteredNotes`: the sorted notes that match the search string. */
  function FilteredNotes(notes: seq<Note>, query: string): seq<Note>
  {
    Filter(SortByUpdated(notes), MatchesQuery(query))
  }

  /** A filter of a sorted sequence is sorted. */
  lemma {:induction false} FilterKeepsSorted(s: seq<Note>, p: Note -> bool)
    requires SortedDesc(s)
    ensures SortedDesc(Filter(s, p))
  {
    if s != [] {
      assert SortedDesc(s[1..]) by {
        forall i, j | 0 <= i < j < |s| - 1 ensures s[1..][i].updated >= s[1..][j].updated {
          assert s[1..][i] == s[i + 1] && s[1..][j] == s[j + 1];
        }
      }
      FilterKeepsSorted(s[1..], p);
      if p(s[0]) {
        var t := Filter(s[1..], p);
        var r := Filter(s, p);
        assert forall x :: x in t ==> x in s[1..] by {
          FilterMembers(s[1..], p);
        }
        forall i, j | 0 <= i < j < |r| ensures r[i].updated >= r[j].updated {
          assert r[j] == t[j - 1] && t[j - 1] in s[1..];
          var m :| 0 <= m < |s| - 1 && s[1..][m] == t[j - 1];
          assert s[m + 1] == r[j];
          if i > 0 {
            assert r[i] == t[i - 1];
          }
        }
      }
    }
  }

  /** The sidebar list is a subsequence of the sorted notes, is itself sorted,
      and holds exactly the notes that match the query, each as often as it
      occurs in the notes. */
  lemma FilteredSpec(notes: seq<Note>, query: string)
    ensures IsSubsequence(FilteredNotes(notes, query), SortByUpdated(notes))
    ensures forall n ::
              multiset(FilteredNotes(notes, query))[n] == if Matches(n, query) then multiset(notes)[n] else 0
    ensures SortedDesc(FilteredNotes(notes, query))
    ensures forall n :: n in FilteredNotes(notes, query) ==> n in notes && Matches(n, query)
    ensures forall n :: n in notes && Matches(n, query) ==> n in FilteredNotes(notes, query)
  {
    var sorted := SortByUpdated(notes);
    FilterIsSubsequence(sorted, MatchesQuery(query));
    SortSorted(notes);
    FilterKeepsSorted(sorted, MatchesQuery(query));
    FilterMembers(sorted, MatchesQuery(query));
    SortPermutes(notes);
    assert forall n :: n in sorted <==> n in multiset(sorted);
    assert forall n :: n in notes <==> n in multiset(notes);
  }

  /** The search is case-insensitive: two queries with the same lower-case
      form select the same notes, in particular a query and its lower case. */
  lemma FilteredByLowerCase(notes: seq<Note>, q1: string, q2: string)
    requires Lower(q1) == Lower(q2)
    ensures FilteredNotes(notes, q1) == FilteredNotes(notes, q2)
    ensures FilteredNotes(notes, q1) == FilteredNotes(notes, Lower(q1))
  {
    LowerIdempotent(q1);
    FilterAgreeing(SortByUpdated(notes), MatchesQuery(q1), MatchesQuery(q2));
    FilterAgreeing(SortByUpdated(notes), MatchesQuery(q1), MatchesQuery(Lower(q1)));
  }

  /** An empty search string lists every note, sorted. */
  lemma FilteredEmptyQuery(notes: seq<Note>)
    ensures FilteredNotes(notes, "") == SortByUpdated(notes)
  {
    forall n | n in SortByUpdated(notes) ensures MatchesQuery("")(n) {
      ContainsIff(Lower(n.title), Lower(""));
    }
    FilterKeepsAll(SortByUpdated(notes), MatchesQuery(""));
  }

  /** Searching for "HELLO" and for "hello" gives the same list. */
  lemma FilteredHelloExample(notes: seq<Note>)
    ensures FilteredNotes(notes, "HELLO") == FilteredNotes(notes, "hello")
  {
    assert Lower("HELLO") == Lower("hello");
    FilteredByLowerCase(notes, "HELLO", "hello");
  }

  /** The note for the main area: the draft while editing, otherwise the
      first note whose id is the selected one, if any. */
  function NoteForMainArea(notes: seq<Note>, selectedId: Option<string>,
                           editorNote: Option<Note>, editing: bool): (r: Option<Note>)
    ensures editing && editorNote.Some? ==> r == editorNote
    ensures !(editing && editorNote.Some?) ==>
      (r.Some? <==> selectedId.Some? && HasId(notes, selectedId.value))
    ensures !(editing && editorNote.Some?) && r.Some? ==>
      r.value in notes && r.value.id == selectedId.value
  {
    if editing && editorNote.Some? then editorNote
    else if selectedId.Some? then FindById(notes, selectedId.value)
    else None
  }
}
