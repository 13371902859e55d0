/** The part of the operating system's file system that the scrollo cache
    touches: directory entries naming files, and file contents. Two names
    bound to the same file identity are hard links to one file. A `fault`
    argument stands for any refusal the model does not see (permissions, a
    missing directory, a full disk). */
module Files {
  import opened Base

  /** The identity of a file (its inode). */
  type FileId = nat

  /** `fs.ErrExist`, `fs.ErrNotExist`, and every other I/O error. */
  datatype FsError = ErrExist | ErrNotExist | ErrIo

  /** What `os.Stat` tells the caller. */
  datatype StatResult = Exists | NotExist | StatFailed

  /** A snapshot of the file system. */
  datatype FsState = FsState(names: map<string, FileId>, contents: map<FileId, string>, nextId: FileId)

  /** Every name denotes a file, and fresh identities lie above all used ones. */
  predicate WellFormed(st: FsState)
  {
    && st.names.Values <= st.contents.Keys
    && forall id :: id in st.contents ==> id < st.nextId
  }

  /** The content reached through `path`. */
  function Read(st: FsState, path: string): string
    requires WellFormed(st) && path in st.names
  {
    st.contents[st.names[path]]
  }

  /** `os.Stat(path)`. */
  function StatOf(st: FsState, path: string, fault: bool): (r: StatResult)
    ensures r == Exists ==> path in st.names
    ensures r == NotExist ==> path !in st.names
    ensures r == StatFailed <==> fault
  {
    if fault then StatFailed else if path in st.names then Exists else NotExist
  }

  /** `os.Create(path)`: an existing file is truncated, otherwise a new
      empty file is made under `path`. */
  function CreateIn(st: FsState, path: string, fault: bool): (r: (FsState, Result<FileId, FsError>))
    requires WellFormed(st)
    ensures WellFormed(r.0)
    ensures fault ==> r == (st, Failure(ErrIo))
    ensures !fault ==> r.1.Success? && path in r.0.names && r.0.names[path] == r.1.value
    ensures !fault ==> Read(r.0, path) == ""
    ensures !fault && path in st.names ==>
              r.1.value == st.names[path] && r.0.names == st.names &&
              r.0.contents == st.contents[st.names[path] := ""]
    ensures !fault && path !in st.names ==>
              r.1.value !in st.contents && r.0.names == st.names[path := r.1.value] &&
              forall id :: id in st.contents ==> id in r.0.contents && r.0.contents[id] == st.contents[id]
  {
    if fault then (st, Failure(ErrIo))
    else if path in st.names then
      var id := st.names[path];
      assert st.contents[id := ""].Keys == st.contents.Keys;
      (st.(contents := st.contents[id := ""]), Success(id))
    else
      var id := st.nextId;
      assert st.names[path := id].Values <= st.names.Values + {id};
      (FsState(st.names[path := id], st.contents[id := ""], id + 1), Success(id))
  }

  /** `f.WriteString(s)` on a file opened at offset zero and written once:
      the text is appended to what the file holds. */
  function WriteIn(st: FsState, f: FileId, s: string, fault: bool): (r: (FsState, Result<(), FsError>))
    requires WellFormed(st) && f in st.contents
    ensures WellFormed(r.0) && r.0.names == st.names
    ensures fault ==> r == (st, Failure(ErrIo))
    ensures !fault ==> r.1.Success? && r.0.contents == st.contents[f := st.contents[f] + s]
  {
    if fault then (st, Failure(ErrIo))
    else (st.(contents := st.contents[f := st.contents[f] + s]), Success(()))
  }

  /** `os.Link(oldname, newname)`: a second name for the file `oldname`
      names. It never replaces anything: an existing `newname` is an
      error, as is a missing `oldname`. */
  function LinkIn(st: FsState, oldname: string, newname: string, fault: bool): (r: (FsState, Result<(), FsError>))
    requires WellFormed(st)
    ensures WellFormed(r.0) && r.0.contents == st.contents
    ensures r.1.Success? <==> !fault && oldname in st.names && newname !in st.names
    ensures r.1.Success? ==> r.0.names == st.names[newname := st.names[oldname]]
    ensures r.1.Failure? ==> r.0 == st
    ensures newname in st.names ==> r.1.Failure?
  {
    if oldname !in st.names then (st, Failure(ErrNotExist))
    else if newname in st.names then (st, Failure(ErrExist))
    else if fault then (st, Failure(ErrIo))
    else (st.(names := st.names[newname := st.names[oldname]]), Success(()))
  }

  /** The file system as a mutable object, whose `os` calls update it in
      place. */
  class FileSystem {
    var names: map<string, FileId>
    var contents: map<FileId, string>
    var nextId: FileId

    function State(): FsState
      reads this
    {
      FsState(names, contents, nextId)
    }

    ghost predicate Valid()
      reads this
    {
      WellFormed(State())
    }

    /** A file system with no files. */
    constructor ()
      ensures Valid() && State() == FsState(map[], map[], 0)
    {
      names, contents, nextId := map[], map[], 0;
    }

    method Stat(path: string, fault: bool) returns (r: StatResult)
      ensures r == StatOf(State(), path, fault)
    {
      if fault {
        r := StatFailed;
      } else if path in names {
        r := Exists;
      } else {
        r := NotExist;
      }
    }

    method Create(path: string, fault: bool) returns (r: Result<FileId, FsError>)
      requires Valid()
      modifies this
      ensures Valid()
      ensures (State(), r) == CreateIn(old(State()), path, fault)
    {
      if fault {
        return Failure(ErrIo);
      }
      if path in names {
        var id := names[path];
        contents := contents[id := ""];
        assert State() == old(State()).(contents := old(contents)[id := ""]);
        return Success(id);
      }
      var id := nextId;
      names := names[path := id];
      contents := contents[id := ""];
      nextId := nextId + 1;
      return Success(id);
    }

    method WriteString(f: FileId, s: string, fault: bool) returns (r: Result<(), FsError>)
      requires Valid() && f in contents
      modifies this
      ensures Valid()
      ensures (State(), r) == WriteIn(old(State()), f, s, fault)
    {
      if fault {
        return Failure(ErrIo);
      }
      contents := contents[f := contents[f] + s];
      return Success(());
    }

    method Link(oldname: string, newname: string, fault: bool) returns (r: Result<(), FsError>)
      requires Valid()
      modifies this
      ensures Valid()
      ensures (State(), r) == LinkIn(old(State()), oldname, newname, fault)
    {
      if oldname !in names {
        return Failure(ErrNotExist);
      }
      if newname in names {
        return Failure(ErrExist);
      }
      if fault {
        return Failure(ErrIo);
      }
      names := names[newname := names[oldname]];
      return Success(());
    }
  }
}
