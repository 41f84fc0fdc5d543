/** The file system as the note manager sees it: a map from path to what is
    stored there, and the set of paths where a write fails. */
module Storage {
  import opened Notes

  type Path = string

  /** A stored notes document, or a file that exists but cannot be read or
      parsed as `{ "notes": [...] }`. */
  datatype File = Document(notes: seq<Note>) | Unreadable

  /** The three errors the manager throws: a failed save of the primary file, a
      failed export, and a failed import (read, parse or the save that follows). */
  datatype Error = SaveFailed | ExportFailed | ImportFailed

  datatype Outcome = Pass | Fail(error: Error)

  datatype Result<T> = Ok(value: T) | Err(error: Error)

  /** What `readFileSync` followed by `JSON.parse` yields: the stored notes, or None
      when the file is missing or unreadable. */
  function ReadDocument(files: map<Path, File>, p: Path): Option<seq<Note>>
  {
    if p in files && files[p].Document? then Some(files[p].notes) else None
  }

  /** What `loadNotes` leaves in a fresh manager: a missing or unreadable primary
      file both give the empty store. */
  function LoadedNotes(files: map<Path, File>, p: Path): seq<Note>
  {
    match ReadDocument(files, p)
    case Some(ns) => ns
    case None => []
  }

  /** Saving then loading: after a document is written at p, loading p gives back
      exactly its notes, and loading any other path gives what it gave before. */
  lemma LoadAfterWrite(files: map<Path, File>, p: Path, q: Path, ns: seq<Note>)
    ensures LoadedNotes(files[p := Document(ns)], p) == ns
    ensures q != p ==> LoadedNotes(files[p := Document(ns)], q) == LoadedNotes(files, q)
  {
  }

  class FileSystem {
    var files: map<Path, File>
    var unwritable: set<Path>

    constructor(files: map<Path, File>, unwritable: set<Path>)
      ensures this.files == files && this.unwritable == unwritable
    {
      this.files := files;
      this.unwritable := unwritable;
    }

    /** `writeFileSync(p, JSON.stringify({ notes: ns }))`: overwrites the file at p,
        or fails and leaves every file as it was. */
    method WriteDocument(p: Path, ns: seq<Note>) returns (ok: bool)
      modifies this`files
      ensures ok <==> p !in unwritable
      ensures files == if ok then old(files)[p := Document(ns)] else old(files)
      ensures ReadDocument(files, p) == if ok then Some(ns) else ReadDocument(old(files), p)
    {
      ok := p !in unwritable;
      if ok {
        files := files[p := Document(ns)];
      }
    }
  }
}
