/** Notes and the pure queries of the note manager (src/NotesManager.ts):
    lookup by id, removal by id, text search and tag filtering over the
    insertion-ordered sequence of notes. */
module Notes {
  import opened Text
  import opened Seqs

  datatype Option<T> = None | Some(value: T)

  type NoteId = string

  /** A note; timestamps are clock readings in milliseconds. */
  datatype Note = Note(
    id: NoteId,
    title: string,
    content: string,
    tags: seq<string>,
    createdAt: nat,
    updatedAt: nat)

  /** The partial update accepted by `updateNote`: each field is supplied or not.
      `id` and `createdAt` cannot be supplied, and a supplied `updatedAt` would be
      overwritten by the clock anyway, so it is not a field here. */
  datatype NoteUpdate = NoteUpdate(
    title: Option<string>,
    content: Option<string>,
    tags: Option<seq<string>>)

  // ---------------------------------------------------------------------------
  // Identity and the store's intended invariants

  predicate HasId(ns: seq<Note>, id: NoteId)
  {
    exists i :: 0 <= i < |ns| && ns[i].id == id
  }

  ghost predicate UniqueIds(ns: seq<Note>)
  {
    forall i, j :: 0 <= i < j < |ns| ==> ns[i].id != ns[j].id
  }

  /** Ids are unique and no note was updated before it was created. */
  ghost predicate WellFormed(ns: seq<Note>)
  {
    && UniqueIds(ns)
    && forall i :: 0 <= i < |ns| ==> ns[i].createdAt <= ns[i].updatedAt
  }

  /** i is the first position of a note with this id. */
  ghost predicate FirstWithId(ns: seq<Note>, id: NoteId, i: int)
  {
    0 <= i < |ns| && ns[i].id == id && forall j :: 0 <= j < i ==> ns[j].id != id
  }

  // ---------------------------------------------------------------------------
  // Lookup: `findIndex` and `find` on the id

  /** `notes.findIndex(note => note.id === id)`, with None for -1. */
  function FindIndex(ns: seq<Note>, id: NoteId): (r: Option<nat>)
    ensures r.None? <==> !HasId(ns, id)
    ensures r.Some? ==> FirstWithId(ns, id, r.value)
  {
    if ns == [] then None
    else if ns[0].id == id then Some(0)
    else match FindIndex(ns[1..], id)
      case None =>
        assert forall i :: 1 <= i < |ns| ==> ns[i] == ns[1..][i - 1];
        None
      case Some(i) =>
        assert forall j :: 1 <= j < i + 1 ==> ns[j] == ns[1..][j - 1];
        Some(i + 1)
  }

  /** `getNoteById`: the first note with the id, or None (`undefined`). */
  function GetNoteById(ns: seq<Note>, id: NoteId): (r: Option<Note>)
    ensures r.None? <==> !HasId(ns, id)
    ensures r.Some? ==> exists i :: FirstWithId(ns, id, i) && ns[i] == r.value
  {
    match FindIndex(ns, id)
    case None => None
    case Some(i) => Some(ns[i])
  }

  /** The note literal built by `createNote`. */
  function NewNote(id: NoteId, title: string, content: string, tags: seq<string>, now: nat): Note
  {
    Note(id, title, content, tags, now, now)
  }

  /** `{ ...note, ...updates, updatedAt: new Date() }`: supplied fields replace the
      note's, the others are kept, and the clock refreshes `updatedAt`. */
  function ApplyUpdate(n: Note, u: NoteUpdate, now: nat): (m: Note)
    ensures m.id == n.id && m.createdAt == n.createdAt && m.updatedAt == now
    ensures m.title == (if u.title.Some? then u.title.value else n.title)
    ensures m.content == (if u.content.Some? then u.content.value else n.content)
    ensures m.tags == (if u.tags.Some? then u.tags.value else n.tags)
  {
    n.(
      title := match u.title case Some(t) => t case None => n.title,
      content := match u.content case Some(c) => c case None => n.content,
      tags := match u.tags case Some(ts) => ts case None => n.tags,
      updatedAt := now)
  }

  // ---------------------------------------------------------------------------
  // Removal: `notes.filter(note => note.id !== id)`

  /** The filter condition of `deleteNote`. */
  function OtherThan(id: NoteId): Note -> bool
  {
    (n: Note) => n.id != id
  }

  function RemoveId(ns: seq<Note>, id: NoteId): (r: seq<Note>)
    ensures IsSubsequence(r, ns)
    ensures forall n :: multiset(r)[n] == if n.id != id then multiset(ns)[n] else 0
    ensures forall n :: n in r <==> n in ns && n.id != id
    ensures |r| == Count(ns, OtherThan(id))
    ensures !HasId(r, id)
    ensures |r| < |ns| <==> HasId(ns, id)
    ensures !HasId(ns, id) ==> r == ns
  {
    var r := Filter(ns, OtherThan(id));
    FilterLength(ns, OtherThan(id));
    FilterCount(ns, OtherThan(id));
    assert forall i :: 0 <= i < |r| ==> r[i] in r;
    r
  }

  // ---------------------------------------------------------------------------
  // Search and tag filtering

  /** Some tag, folded, includes the folded query. */
  predicate SomeTagIncludes(tags: seq<string>, lowerQuery: string)
  {
    exists i :: 0 <= i < |tags| && Includes(Lower(tags[i]), lowerQuery)
  }

  /** The filter condition of `searchNotes` for an already folded query. */
  predicate SearchMatch(n: Note, lowerQuery: string, searchInTags: bool)
  {
    || Includes(Lower(n.title), lowerQuery)
    || Includes(Lower(n.content), lowerQuery)
    || (searchInTags && SomeTagIncludes(n.tags, lowerQuery))
  }

  /** The same condition read as "the folded query is a substring of a folded field". */
  ghost predicate SubstringMatch(n: Note, lowerQuery: string, searchInTags: bool)
  {
    || IsSubstring(lowerQuery, Lower(n.title))
    || IsSubstring(lowerQuery, Lower(n.content))
    || (searchInTags && exists i :: 0 <= i < |n.tags| && IsSubstring(lowerQuery, Lower(n.tags[i])))
  }

  /** `searchNotes(query, searchInTags = true)`. */
  function SearchNotes(ns: seq<Note>, query: string, searchInTags: bool := true): (r: seq<Note>)
    ensures IsSubsequence(r, ns)
    ensures forall n :: multiset(r)[n] == if SearchMatch(n, Lower(query), searchInTags) then multiset(ns)[n] else 0
    ensures forall n :: n in r <==> n in ns && SearchMatch(n, Lower(query), searchInTags)
  {
    Filter(ns, (n: Note) => SearchMatch(n, Lower(query), searchInTags))
  }

  /** Some tag equals the folded tag after folding (exact, not substring). */
  predicate HasTag(n: Note, lowerTag: string)
  {
    exists i :: 0 <= i < |n.tags| && Lower(n.tags[i]) == lowerTag
  }

  /** `getNotesByTag(tag)`. */
  function GetNotesByTag(ns: seq<Note>, tag: string): (r: seq<Note>)
    ensures IsSubsequence(r, ns)
    ensures forall n :: multiset(r)[n] == if HasTag(n, Lower(tag)) then multiset(ns)[n] else 0
    ensures forall n :: n in r <==> n in ns && HasTag(n, Lower(tag))
  {
    Filter(ns, (n: Note) => HasTag(n, Lower(tag)))
  }

  // ---------------------------------------------------------------------------
  // Properties of the queries

  /** The recursive matcher agrees with the substring reading of the search, so the
      search returns exactly the notes where the folded query is a substring of the
      folded title, content or (when asked) some folded tag. */
  lemma SearchMatchIff(n: Note, lowerQuery: string, searchInTags: bool)
    ensures SearchMatch(n, lowerQuery, searchInTags) <==> SubstringMatch(n, lowerQuery, searchInTags)
  {
    IncludesIff(Lower(n.title), lowerQuery);
    IncludesIff(Lower(n.content), lowerQuery);
    forall i | 0 <= i < |n.tags|
      ensures Includes(Lower(n.tags[i]), lowerQuery) <==> IsSubstring(lowerQuery, Lower(n.tags[i]))
    {
      IncludesIff(Lower(n.tags[i]), lowerQuery);
    }
  }

  lemma SearchSubstringSpec(ns: seq<Note>, query: string, searchInTags: bool)
    ensures forall n :: n in SearchNotes(ns, query, searchInTags) <==>
      n in ns && SubstringMatch(n, Lower(query), searchInTags)
  {
    forall n | n in ns {
      SearchMatchIff(n, Lower(query), searchInTags);
    }
  }

  /** The empty query matches every note, so the search returns the whole store. */
  lemma SearchEmptyQuery(ns: seq<Note>, searchInTags: bool)
    ensures SearchNotes(ns, "", searchInTags) == ns
  {
    var p := (n: Note) => SearchMatch(n, Lower(""), searchInTags);
    assert Lower("") == "";
    forall i | 0 <= i < |ns| ensures p(ns[i]) {
      IncludesEmpty(Lower(ns[i].title));
    }
    FilterLength(ns, p);
  }

  /** Queries that fold to the same string find the same notes, in the same order. */
  lemma SearchCaseInsensitive(ns: seq<Note>, q1: string, q2: string, searchInTags: bool)
    requires Lower(q1) == Lower(q2)
    ensures SearchNotes(ns, q1, searchInTags) == SearchNotes(ns, q2, searchInTags)
  {
    FilterCongruent(ns,
      (n: Note) => SearchMatch(n, Lower(q1), searchInTags),
      (n: Note) => SearchMatch(n, Lower(q2), searchInTags));
  }

  /** In particular, searching for the folded query is searching for the query. */
  lemma SearchFoldedQuery(ns: seq<Note>, query: string, searchInTags: bool)
    ensures SearchNotes(ns, Lower(query), searchInTags) == SearchNotes(ns, query, searchInTags)
  {
    LowerIdempotent(query);
    SearchCaseInsensitive(ns, Lower(query), query, searchInTags);
  }

  /** Searching a search result again with the same query changes nothing. */
  lemma SearchIdempotent(ns: seq<Note>, query: string, searchInTags: bool)
    ensures SearchNotes(SearchNotes(ns, query, searchInTags), query, searchInTags)
         == SearchNotes(ns, query, searchInTags)
  {
    FilterIdempotent(ns, (n: Note) => SearchMatch(n, Lower(query), searchInTags));
  }

  /** The search over a merged store is the search over each part, in order. */
  lemma SearchAppend(a: seq<Note>, b: seq<Note>, query: string, searchInTags: bool)
    ensures SearchNotes(a + b, query, searchInTags)
         == SearchNotes(a, query, searchInTags) + SearchNotes(b, query, searchInTags)
  {
    FilterAppend(a, b, (n: Note) => SearchMatch(n, Lower(query), searchInTags));
  }

  /** Tag filtering over a merged store is tag filtering over each part, in order. */
  lemma TagFilterAppend(a: seq<Note>, b: seq<Note>, tag: string)
    ensures GetNotesByTag(a + b, tag) == GetNotesByTag(a, tag) + GetNotesByTag(b, tag)
  {
    FilterAppend(a, b, (n: Note) => HasTag(n, Lower(tag)));
  }

  /** An exact tag match is also a substring match, so every note the tag filter
      returns is also returned by a search of the tag's text in tags. */
  lemma TagFilterWithinSearch(ns: seq<Note>, tag: string)
    ensures forall n :: n in GetNotesByTag(ns, tag) ==> n in SearchNotes(ns, tag, true)
  {
    forall n | n in GetNotesByTag(ns, tag)
      ensures n in SearchNotes(ns, tag, true)
    {
      var i :| 0 <= i < |n.tags| && Lower(n.tags[i]) == Lower(tag);
      IncludesSelf(Lower(tag));
      assert SomeTagIncludes(n.tags, Lower(tag));
    }
  }

  // ---------------------------------------------------------------------------
  // Properties of lookup after a mutation

  /** Appending a note with a fresh id makes it the note found for that id, and
      leaves the lookup of every id already present as it was. */
  lemma GetAfterAppend(ns: seq<Note>, n: Note, id: NoteId)
    requires !HasId(ns, n.id)
    ensures GetNoteById(ns + [n], n.id) == Some(n)
    ensures HasId(ns, id) ==> GetNoteById(ns + [n], id) == GetNoteById(ns, id)
  {
    var ns' := ns + [n];
    assert ns'[|ns|] == n;
    assert forall j :: 0 <= j < |ns| ==> ns'[j] == ns[j];
    assert FirstWithId(ns', n.id, |ns|);
    FirstWithIdUnique(ns', n.id, |ns|, FindIndex(ns', n.id).value);
    if HasId(ns, id) {
      var i := FindIndex(ns, id).value;
      assert FirstWithId(ns', id, i);
      FirstWithIdUnique(ns', id, i, FindIndex(ns', id).value);
    }
  }

  lemma FirstWithIdUnique(ns: seq<Note>, id: NoteId, i: int, k: int)
    requires FirstWithId(ns, id, i) && FirstWithId(ns, id, k)
    ensures i == k
  {
  }

  /** After the update at the first index with the id, looking the id up returns
      the updated note. */
  lemma UpdateThenGet(ns: seq<Note>, id: NoteId, u: NoteUpdate, now: nat)
    requires HasId(ns, id)
    ensures var i := FindIndex(ns, id).value;
      GetNoteById(ns[i := ApplyUpdate(ns[i], u, now)], id) == Some(ApplyUpdate(ns[i], u, now))
  {
    var i := FindIndex(ns, id).value;
    var ns' := ns[i := ApplyUpdate(ns[i], u, now)];
    assert FirstWithId(ns', id, i);
    var k := FindIndex(ns', id).value;
    FirstWithIdUnique(ns', id, i, k);
  }

  /** With unique ids, deleting a present id removes exactly one note. */
  lemma {:induction false} RemoveUniqueId(ns: seq<Note>, id: NoteId)
    requires UniqueIds(ns) && HasId(ns, id)
    ensures |RemoveId(ns, id)| == |ns| - 1
    decreases |ns|
  {
    var tail := ns[1..];
    assert forall j :: 0 <= j < |tail| ==> tail[j] == ns[j + 1];
    if ns[0].id == id {
      FilterLength(tail, OtherThan(id));
    } else {
      var i :| 0 <= i < |ns| && ns[i].id == id;
      assert tail[i - 1].id == id;
      RemoveUniqueId(tail, id);
    }
  }

  // ---------------------------------------------------------------------------
  // Preservation of the intended invariants

  /** A subsequence of a well-formed store is well formed (deletion, search and
      tag filtering results). */
  lemma {:induction false} SubsequenceWellFormed(a: seq<Note>, s: seq<Note>)
    requires IsSubsequence(a, s) && WellFormed(s)
    ensures WellFormed(a)
    ensures forall x :: x in a ==> x in s
    decreases |s|
  {
    if a != [] {
      assert forall j :: 0 <= j < |s| - 1 ==> s[1..][j] == s[j + 1];
      if a[0] == s[0] && IsSubsequence(a[1..], s[1..]) {
        SubsequenceWellFormed(a[1..], s[1..]);
        assert forall j :: 0 < j < |a| ==> a[j] == a[1..][j - 1];
        assert forall x :: x in a ==> x == a[0] || x in a[1..];
        forall j | 0 < j < |a| ensures a[0].id != a[j].id {
          assert a[j] in a[1..];
          var k :| 0 <= k < |s[1..]| && s[1..][k] == a[j];
          assert s[k + 1] == a[j];
        }
      } else {
        SubsequenceWellFormed(a, s[1..]);
      }
    }
  }

  lemma RemoveKeepsWellFormed(ns: seq<Note>, id: NoteId)
    requires WellFormed(ns)
    ensures WellFormed(RemoveId(ns, id))
  {
    SubsequenceWellFormed(RemoveId(ns, id), ns);
  }

  /** Creating a note with a fresh id keeps the store well formed. */
  lemma CreateKeepsWellFormed(ns: seq<Note>, id: NoteId, title: string, content: string, tags: seq<string>, now: nat)
    requires WellFormed(ns) && !HasId(ns, id)
    ensures WellFormed(ns + [NewNote(id, title, content, tags, now)])
  {
  }

  /** Updating a note keeps the store well formed when the clock has not gone back
      since the note was last updated. */
  lemma UpdateKeepsWellFormed(ns: seq<Note>, i: nat, u: NoteUpdate, now: nat)
    requires WellFormed(ns) && i < |ns| && ns[i].updatedAt <= now
    ensures WellFormed(ns[i := ApplyUpdate(ns[i], u, now)])
    ensures ns[i].updatedAt <= ApplyUpdate(ns[i], u, now).updatedAt
  {
  }

  /** A merge import keeps the store well formed exactly when both parts are well
      formed and no id occurs in both. */
  lemma MergeWellFormedIff(a: seq<Note>, b: seq<Note>)
    ensures WellFormed(a + b) <==>
      WellFormed(a) && WellFormed(b) && forall i, j :: 0 <= i < |a| && 0 <= j < |b| ==> a[i].id != b[j].id
  {
    var ab := a + b;
    assert forall i :: 0 <= i < |a| ==> ab[i] == a[i];
    assert forall j :: 0 <= j < |b| ==> ab[|a| + j] == b[j];
    if WellFormed(ab) {
      forall i, j | 0 <= i < |a| && 0 <= j < |b| ensures a[i].id != b[j].id {
        assert ab[i].id != ab[|a| + j].id;
      }
      forall i, j | 0 <= i < j < |b| ensures b[i].id != b[j].id {
        assert ab[|a| + i].id != ab[|a| + j].id;
      }
      forall i | 0 <= i < |b| ensures b[i].createdAt <= b[i].updatedAt {
        assert ab[|a| + i] == b[i];
      }
    }
  }

  /** Merging a non-empty store with an export of itself duplicates every id: the
      merge import does not de-duplicate. */
  lemma MergeSelfDuplicatesIds(ns: seq<Note>)
    requires |ns| > 0
    ensures !UniqueIds(ns + ns)
    ensures |RemoveId(ns + ns, ns[0].id)| <= |ns + ns| - 2
  {
    var ab := ns + ns;
    assert ab[0] == ab[|ns|] == ns[0];
    var p := (n: Note) => n.id != ns[0].id;
    FilterAppend(ns, ns, p);
    assert ns == [ns[0]] + ns[1..];
    FilterLength(ns[1..], p);
  }

  // ---------------------------------------------------------------------------
  // Tag filtering on concrete strings

  /** The tag-filter tests: a note tagged "Urgent" is found by the filter for
      "urgent", and a note tagged "tag1" is not found by an unknown tag. */
  lemma TagFilterScenario(now: nat)
    ensures var a := NewNote("a", "Note", "Contenu", ["Urgent"], now);
      GetNotesByTag([a], "urgent") == [a]
    ensures var c := NewNote("c", "Note", "Contenu", ["tag1"], now);
      GetNotesByTag([c], "tag_inexistant") == []
  {
    var a := NewNote("a", "Note", "Contenu", ["Urgent"], now);
    var c := NewNote("c", "Note", "Contenu", ["tag1"], now);
    assert Lower("urgent") == "urgent";
    assert Lower("Urgent") == "urgent";
    assert Lower(a.tags[0]) == Lower("urgent");
    assert HasTag(a, Lower("urgent"));
    assert Filter([a], (n: Note) => HasTag(n, Lower("urgent"))) == [a];
    assert !HasTag(c, Lower("tag_inexistant")) by {
      assert |Lower(c.tags[0])| != |Lower("tag_inexistant")|;
    }
  }

  /** The tag filter compares whole tags: a note tagged "urgentissime" is found by
      a search for "urgent" but not by the tag filter for "urgent". */
  lemma TagFilterIsExact(now: nat)
    ensures var b := NewNote("b", "Note", "Contenu", ["urgentissime"], now);
      GetNotesByTag([b], "urgent") == [] && SearchNotes([b], "urgent") == [b]
  {
    var b := NewNote("b", "Note", "Contenu", ["urgentissime"], now);
    assert Lower("urgent") == "urgent";
    assert Lower("urgentissime") == "urgentissime";
    assert !HasTag(b, Lower("urgent")) by {
      assert |Lower("urgentissime")| != |Lower("urgent")|;
    }
    assert StartsWith(Lower(b.tags[0]), "urgent");
    assert SomeTagIncludes(b.tags, "urgent");
  }
}
