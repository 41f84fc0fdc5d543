/** The `NotesManager` class of src/NotesManager.ts: an insertion-ordered store of
    notes that mirrors itself to its primary file after every mutation. */
module Manager {
  import opened Notes
  import opened Storage
  import opened Seqs

  /** `path.join(process.cwd(), 'notes.json')`, without path normalisation. */
  function DefaultPath(cwd: Path): Path
  {
    cwd + "/notes.json"
  }

  /** `dataFilePath || default`: both an absent and an empty path are falsy. */
  function PrimaryPath(dataFilePath: string, cwd: Path): Path
  {
    if dataFilePath != "" then dataFilePath else DefaultPath(cwd)
  }

  class NotesManager {
    const dataFilePath: Path
    const fs: FileSystem
    var notes: seq<Note>

    /** The primary file holds exactly the in-memory notes. */
    ghost predicate Persisted()
      reads this, fs
    {
      ReadDocument(fs.files, dataFilePath) == Some(notes)
    }

    /** The file map after a save that succeeded (`saved`) or failed. */
    ghost predicate SavedOver(before: map<Path, File>, saved: bool)
      reads this, fs
    {
      fs.files == if saved then before[dataFilePath := Document(notes)] else before
    }

    constructor(fs: FileSystem, cwd: Path, dataFilePath: string := "")
      ensures this.fs == fs && this.dataFilePath == PrimaryPath(dataFilePath, cwd)
      ensures notes == LoadedNotes(fs.files, this.dataFilePath)
      ensures ReadDocument(fs.files, this.dataFilePath).Some? ==> Persisted()
    {
      this.dataFilePath := PrimaryPath(dataFilePath, cwd);
      this.fs := fs;
      notes := [];
      new;
      LoadNotes();
    }

    /** A missing file keeps the current notes; an unreadable one empties them. */
    method LoadNotes()
      modifies this`notes
      ensures notes == if dataFilePath !in fs.files then old(notes) else LoadedNotes(fs.files, dataFilePath)
    {
      if dataFilePath in fs.files {
        match fs.files[dataFilePath]
        case Document(ns) => notes := ns;
        case Unreadable => notes := [];
      }
    }

    method SaveNotes() returns (o: Outcome)
      modifies fs`files
      ensures o == if dataFilePath in fs.unwritable then Fail(SaveFailed) else Pass
      ensures SavedOver(old(fs.files), o.Pass?)
      ensures o.Pass? ==> Persisted()
    {
      var ok := fs.WriteDocument(dataFilePath, notes);
      o := if ok then Pass else Fail(SaveFailed);
    }

    /** `id` is the value of the id generator and `now` the clock reading. The note
        stays in memory even when the save fails. */
    method CreateNote(id: NoteId, now: nat, title: string, content: string, tags: seq<string> := [])
      returns (r: Result<Note>)
      requires !HasId(notes, id)
      modifies this`notes, fs`files
      ensures notes == old(notes) + [NewNote(id, title, content, tags, now)]
      ensures r == if dataFilePath in fs.unwritable then Err(SaveFailed) else Ok(NewNote(id, title, content, tags, now))
      ensures SavedOver(old(fs.files), r.Ok?)
      ensures r.Ok? ==> Persisted() && GetNoteById(r.value.id) == Some(r.value)
      ensures forall k :: HasId(old(notes), k) ==> GetNoteById(k) == Notes.GetNoteById(old(notes), k)
      ensures old(WellFormed(notes)) ==> WellFormed(notes)
    {
      var note := NewNote(id, title, content, tags, now);
      ghost var before := notes;
      notes := notes + [note];
      forall k | HasId(before, k) ensures GetNoteById(k) == Notes.GetNoteById(before, k) {
        GetAfterAppend(before, note, k);
      }
      GetAfterAppend(before, note, id);
      if WellFormed(before) {
        CreateKeepsWellFormed(before, id, title, content, tags, now);
      }
      var o := SaveNotes();
      r := if o.Pass? then Ok(note) else Err(SaveFailed);
    }

    function ListNotes(): seq<Note>
      reads this
    {
      notes
    }

    function GetNoteById(id: NoteId): Option<Note>
      reads this
    {
      Notes.GetNoteById(notes, id)
    }

    /** Ok(None) is the `null` of an unknown id; only the first note with the id
        changes, and the saved note is the one returned. */
    method UpdateNote(id: NoteId, updates: NoteUpdate, now: nat) returns (r: Result<Option<Note>>)
      modifies this`notes, fs`files
      ensures !HasId(old(notes), id) ==> r == Ok(None) && notes == old(notes) && fs.files == old(fs.files)
      ensures HasId(old(notes), id) ==>
        var i := FindIndex(old(notes), id).value;
        && notes == old(notes)[i := ApplyUpdate(old(notes)[i], updates, now)]
        && r == (if dataFilePath in fs.unwritable then Err(SaveFailed) else Ok(Some(notes[i])))
        && SavedOver(old(fs.files), r.Ok?)
        && GetNoteById(id) == Some(notes[i])
      ensures r.Ok? && r.value.Some? ==> Persisted()
      ensures old(WellFormed(notes)) && (forall k :: 0 <= k < |old(notes)| ==> old(notes)[k].updatedAt <= now)
        ==> WellFormed(notes)
    {
      var found := FindIndex(notes, id);
      if found.None? {
        return Ok(None);
      }
      var i := found.value;
      ghost var before := notes;
      notes := notes[i := ApplyUpdate(notes[i], updates, now)];
      UpdateThenGet(before, id, updates, now);
      if WellFormed(before) && before[i].updatedAt <= now {
        UpdateKeepsWellFormed(before, i, updates, now);
      }
      var o := SaveNotes();
      r := if o.Pass? then Ok(Some(notes[i])) else Err(SaveFailed);
    }

    /** Every note with the id goes; the file is written only when one did. */
    method DeleteNote(id: NoteId) returns (r: Result<bool>)
      modifies this`notes, fs`files
      ensures notes == RemoveId(old(notes), id)
      ensures !HasId(old(notes), id) ==> r == Ok(false) && notes == old(notes) && fs.files == old(fs.files)
      ensures HasId(old(notes), id) ==>
        && r == (if dataFilePath in fs.unwritable then Err(SaveFailed) else Ok(true))
        && SavedOver(old(fs.files), r.Ok?)
        && |notes| < |old(notes)|
      ensures r == Ok(true) ==> Persisted()
      ensures |notes| == Count(old(notes), OtherThan(id))
      ensures old(UniqueIds(notes)) && HasId(old(notes), id) ==> |notes| == |old(notes)| - 1
      ensures old(WellFormed(notes)) ==> WellFormed(notes)
    {
      var initialLength := |notes|;
      ghost var before := notes;
      notes := RemoveId(notes, id);
      if UniqueIds(before) && HasId(before, id) {
        RemoveUniqueId(before, id);
      }
      if WellFormed(before) {
        RemoveKeepsWellFormed(before, id);
      }
      if |notes| < initialLength {
        var o := SaveNotes();
        r := if o.Pass? then Ok(true) else Err(SaveFailed);
      } else {
        r := Ok(false);
      }
    }

    function SearchNotes(query: string, searchInTags: bool := true): seq<Note>
      reads this
    {
      Notes.SearchNotes(notes, query, searchInTags)
    }

    function GetNotesByTag(tag: string): seq<Note>
      reads this
    {
      Notes.GetNotesByTag(notes, tag)
    }

    /** Writes the notes to another path; the primary file is written only when the
        export path is the primary path, and then with the same notes. */
    method ExportNotes(exportPath: Path) returns (o: Outcome)
      modifies fs`files
      ensures o == if exportPath in fs.unwritable then Fail(ExportFailed) else Pass
      ensures fs.files == if o.Pass? then old(fs.files)[exportPath := Document(notes)] else old(fs.files)
      ensures o.Pass? ==> ReadDocument(fs.files, exportPath) == Some(notes)
      ensures exportPath != dataFilePath ==> ReadDocument(fs.files, dataFilePath) == ReadDocument(old(fs.files), dataFilePath)
      ensures old(Persisted()) ==> Persisted()
    {
      var ok := fs.WriteDocument(exportPath, notes);
      o := if ok then Pass else Fail(ExportFailed);
    }

    /** Replaces the notes with the document at importPath, or appends it when
        `merge` holds (ids are not de-duplicated); a missing or unreadable file
        changes nothing, and a failed save after the change is reported as an
        import failure. */
    method ImportNotes(importPath: Path, merge: bool := false) returns (o: Outcome)
      modifies this`notes, fs`files
      ensures ReadDocument(old(fs.files), importPath).None? ==>
        o == Fail(ImportFailed) && notes == old(notes) && fs.files == old(fs.files)
      ensures ReadDocument(old(fs.files), importPath).Some? ==>
        var imported := ReadDocument(old(fs.files), importPath).value;
        && notes == (if merge then old(notes) + imported else imported)
        && o == (if dataFilePath in fs.unwritable then Fail(ImportFailed) else Pass)
        && SavedOver(old(fs.files), o.Pass?)
      ensures o.Pass? ==> Persisted()
    {
      var read := ReadDocument(fs.files, importPath);
      if read.None? {
        return Fail(ImportFailed);
      }
      var imported := read.value;
      if merge {
        notes := notes + imported;
      } else {
        notes := imported;
      }
      var saved := SaveNotes();
      o := if saved.Pass? then Pass else Fail(ImportFailed);
    }

    method ClearAllNotes() returns (o: Outcome)
      modifies this`notes, fs`files
      ensures notes == []
      ensures o == if dataFilePath in fs.unwritable then Fail(SaveFailed) else Pass
      ensures SavedOver(old(fs.files), o.Pass?)
      ensures o.Pass? ==> Persisted()
    {
      notes := [];
      o := SaveNotes();
    }
  }

  // ---------------------------------------------------------------------------
  // What a caller can conclude from the contracts alone

  /** A note created and saved by one manager is there, with everything else, in a
      manager constructed afterwards on the same primary path. */
  method ReopenAfterCreate(fs: FileSystem, cwd: Path, dataFilePath: string,
                           id: NoteId, now: nat, title: string, content: string, tags: seq<string>)
    returns (first: NotesManager, r: Result<Note>, second: NotesManager)
    requires !HasId(LoadedNotes(fs.files, PrimaryPath(dataFilePath, cwd)), id)
    modifies fs`files
    ensures first.notes == LoadedNotes(old(fs.files), PrimaryPath(dataFilePath, cwd)) + [NewNote(id, title, content, tags, now)]
    ensures r.Ok? ==> second.ListNotes() == first.ListNotes()
    ensures r.Ok? ==> second.GetNoteById(id) == Some(NewNote(id, title, content, tags, now))
  {
    first := new NotesManager(fs, cwd, dataFilePath);
    r := first.CreateNote(id, now, title, content, tags);
    second := new NotesManager(fs, cwd, dataFilePath);
  }

  /** Exporting a manager's notes and replace-importing them into a manager on
      another primary file reproduces the same list, ids and timestamps included. */
  method ExportThenImport(m: NotesManager, exportPath: Path, cwd: Path, otherPath: string)
    returns (exported: Outcome, imported: Outcome, other: NotesManager)
    modifies m.fs`files
    ensures exported.Pass? ==> other.ListNotes() == m.ListNotes()
    ensures exported.Pass? && imported.Pass? ==> other.Persisted()
  {
    exported := m.ExportNotes(exportPath);
    other := new NotesManager(m.fs, cwd, otherPath);
    if exported.Fail? {
      imported := exported;
      return;
    }
    imported := other.ImportNotes(exportPath);
  }
}
