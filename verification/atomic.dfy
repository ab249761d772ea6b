/** `writeFile` releases a file's old chain before it checks for space, so
    a write that fails for lack of space loses the file's content, although
    the method's rollback handler is meant to undo a failed write. This
    module states that loss for the code as written, and defines the write
    that checks first: it fails in exactly the same cases, leaves the state
    untouched when it fails, and behaves as `writeFile` otherwise. */
module AtomicWrite {
  import opened Status
  import opened FEntries
  import opened Disk
  import opened Bitmap
  import opened FsState
  import opened FileSystemManager
  import opened Properties
  import opened Theorems

  /** As written: when a non-empty file is overwritten with content that
      does not fit even into its own blocks plus the free ones, the write
      fails and the file, which read back non-empty before, reads back
      empty afterwards. */
  lemma WriteFileLosesContent(s: FileSystem, name: string, contents: seq<byte>, i: int)
    requires CanWrite(s, contents)
    requires 0 <= i < MAXFILES && Named(s.entries[i], name) && s.entries[i].value.filesize > 0
    requires CeilDiv(|contents|) > CountFree(s.freeList, 0) + |ChainOf(s, i)|
    ensures WriteFile(s, name, contents).outcome == Failed(InsufficientSpace)
    ensures Valid(WriteFile(s, name, contents).fs)
    ensures ReadFile(WriteFile(s, name, contents).fs, name) == Success([])
    ensures ReadFile(s, name) != Success([])
  {
    WriteFileOutOfSpace(s, name, contents, i);
    assert ReadFile(s, name).Success?;
    assert Content(s, i, ReadFile(s, name).value);
  }

  /** The write with the space check moved in front of the release: the
      old chain counts as available, as it does in `writeFile`, but nothing
      is changed unless the new content fits. */
  function AtomicWriteFile(s: FileSystem, name: string, contents: seq<byte>): (r: Step)
    requires CanWrite(s, contents)
    ensures r.outcome.Failed? ==> r.fs == s
    ensures !Exists(s.entries, name) ==> r.outcome == Failed(FileNotFound)
    ensures Exists(s.entries, name) ==> r.outcome in {Done, Failed(InsufficientSpace)}
  {
    match FindEntry(s.entries, name)
    case None => Step(s, Failed(FileNotFound))
    case Some(i) =>
      if CeilDiv(|contents|) > CountFree(s.freeList, 0) + |ChainOf(s, i)| then
        Step(s, Failed(InsufficientSpace))
      else
        WriteFileOutOfSpace(s, name, contents, i);
        WriteFile(s, name, contents)
  }

  /** The atomic write fails exactly when `writeFile` does, with the same
      error, and when it succeeds it leaves the same state. */
  lemma AtomicWriteAgrees(s: FileSystem, name: string, contents: seq<byte>)
    requires CanWrite(s, contents)
    ensures AtomicWriteFile(s, name, contents).outcome == WriteFile(s, name, contents).outcome
    ensures AtomicWriteFile(s, name, contents).outcome == Done ==>
      AtomicWriteFile(s, name, contents).fs == WriteFile(s, name, contents).fs
  {
    if Exists(s.entries, name) {
      var i := FindEntry(s.entries, name).value;
      WriteFileOutOfSpace(s, name, contents, i);
    }
  }

  /** The atomic write keeps the invariant, reads back what it wrote when
      it succeeds, and leaves every file's content as it was when it fails. */
  lemma AtomicWriteThenRead(s: FileSystem, name: string, contents: seq<byte>, other: string)
    requires CanWrite(s, contents)
    ensures Valid(AtomicWriteFile(s, name, contents).fs)
    ensures AtomicWriteFile(s, name, contents).outcome == Done ==>
      ReadFile(AtomicWriteFile(s, name, contents).fs, name) == Success(contents)
    ensures AtomicWriteFile(s, name, contents).outcome.Failed? ==>
      ReadFile(AtomicWriteFile(s, name, contents).fs, other) == ReadFile(s, other)
  {
    AtomicWriteAgrees(s, name, contents);
    WriteThenRead(s, name, contents);
  }
}
