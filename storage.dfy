/**
 * The filesystem as the batch sees it: which paths exist and with what bytes, and which
 * paths cannot be opened for reading, opened for writing, or removed.
 */
module Storage {

  import opened Transform
  import opened Naming

  datatype Option<T> = None | Some(value: T)

  /** A snapshot of the filesystem; the three permission sets never change during a batch. */
  datatype DiskState = DiskState(
    files: map<Path, Bytes>,
    unreadable: set<Path>,
    unwritable: set<Path>,
    undeletable: set<Path>)

  /** The same permission sets, whatever the files hold. */
  predicate SamePermissions(d: DiskState, e: DiskState)
  {
    d.unreadable == e.unreadable && d.unwritable == e.unwritable && d.undeletable == e.undeletable
  }

  /** Path p is absent from both maps or holds the same bytes in both. */
  predicate SameAt(m: map<Path, Bytes>, n: map<Path, Bytes>, p: Path)
  {
    (p in m <==> p in n) && (p in m ==> m[p] == n[p])
  }

  /** Opening p for reading and reading it whole; fails when p is missing or unreadable. */
  function ReadFile(d: DiskState, p: Path): Option<Bytes>
  {
    if p in d.files && p !in d.unreadable then Some(d.files[p]) else None
  }

  /** Opening p for writing (creating or truncating it) and writing `data`; fails when p is unwritable. */
  function WriteFile(d: DiskState, p: Path, data: Bytes): Option<DiskState>
  {
    if p in d.unwritable then None else Some(d.(files := d.files[p := data]))
  }

  /** Removing p; a path that cannot be removed stays, and the failure goes unnoticed. */
  function RemoveFile(d: DiskState, p: Path): DiskState
  {
    if p in d.undeletable then d else d.(files := d.files - {p})
  }

  /** The filesystem whose file table the batch changes in place. */
  class FileStore {
    var files: map<Path, Bytes>
    const unreadable: set<Path>
    const unwritable: set<Path>
    const undeletable: set<Path>

    function State(): DiskState
      reads this
    {
      DiskState(files, unreadable, unwritable, undeletable)
    }

    constructor (d: DiskState)
      ensures State() == d
    {
      files := d.files;
      unreadable := d.unreadable;
      unwritable := d.unwritable;
      undeletable := d.undeletable;
    }

    /** Opens p for reading and reads it whole; None when the open fails. */
    method Read(p: Path) returns (r: Option<Bytes>)
      ensures r.Some? <==> p in files && p !in unreadable
      ensures r.Some? ==> r.value == files[p]
      ensures r == ReadFile(State(), p)
    {
      if p in files && p !in unreadable {
        r := Some(files[p]);
      } else {
        r := None;
      }
    }

    /** Opens p for writing and writes `data`; false when the open fails, and then nothing changes. */
    method Write(p: Path, data: Bytes) returns (ok: bool)
      modifies this
      ensures ok <==> p !in unwritable
      ensures ok ==> files == old(files)[p := data]
      ensures !ok ==> files == old(files)
      ensures WriteFile(old(State()), p, data) == if ok then Some(State()) else None
    {
      ok := p !in unwritable;
      if ok {
        files := files[p := data];
      }
    }

    /** Removes p, or leaves it when it cannot be removed; the outcome is not reported. */
    method Remove(p: Path)
      modifies this
      ensures State() == RemoveFile(old(State()), p)
      ensures p !in undeletable ==> p !in files
      ensures forall q :: q != p ==> SameAt(old(files), files, q)
    {
      if p !in undeletable {
        files := files - {p};
      }
    }
  }
}
