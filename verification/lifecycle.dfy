/** What `listFiles`, `createFile` and `deleteFile` promise about one
    another and about reads: the listing is exactly the set of live names,
    a created file reads back empty, a deleted file's blocks go back to the
    free pool zeroed and its name becomes available again, and neither
    operation disturbs any other file. */
module Lifecycle {
  import opened Status
  import opened FNodes
  import opened FEntries
  import opened Disk
  import opened Chains
  import opened FsState
  import opened FileSystemManager
  import opened Properties
  import opened Theorems

  /** `listFiles` names exactly the live files. */
  lemma ListFilesNames(s: FileSystem, name: string)
    ensures name in ListFiles(s) <==> Exists(s.entries, name)
  {
    var names := ListFiles(s);
    var live := LiveSlots(s.entries, 0);
    if name in names {
      var m :| 0 <= m < |names| && names[m] == name;
      assert Named(s.entries[live[m]], name);
    }
    if Exists(s.entries, name) {
      var j :| 0 <= j < |s.entries| && Named(s.entries[j], name);
      var m :| 0 <= m < |live| && live[m] == j;
      assert names[m] == name;
    }
  }

  /** Under unique names, `listFiles` lists no name twice. */
  lemma ListFilesDistinct(s: FileSystem)
    requires UniqueNames(s.entries)
    ensures forall m, m' :: 0 <= m < m' < |ListFiles(s)| ==> ListFiles(s)[m] != ListFiles(s)[m']
  {
    var live := LiveSlots(s.entries, 0);
    forall m, m' | 0 <= m < m' < |ListFiles(s)|
      ensures ListFiles(s)[m] != ListFiles(s)[m']
    {
      assert live[m] < live[m'];
    }
  }

  /** The name limit counts UTF-16 code units, as Java's `length()` does:
      six copies of U+1F600 are six characters but twelve code units, so
      `createFile` rejects the name as too long. */
  lemma CreateFileCountsCodeUnits(s: FileSystem)
    ensures var name := seq(6, _ => '\U{1F600}');
      && |name| == 6
      && Utf16Length(name) == 12
      && CreateFile(s, name) == Step(s, Failed(FilenameTooLong))
  {
    var name := seq(6, _ => '\U{1F600}');
    assert forall k :: 0 <= k < |name| ==> (name[k] as int) >= 0x1_0000;
  }

  /** Setting a slot with an empty chain to an entry not called `other`
      changes no read of `other`. */
  lemma SlotChangeReadsOthers(s: FileSystem, k: int, slot: Option<FEntry>, other: string)
    requires Valid(s) && 0 <= k < MAXFILES && ChainOf(s, k) == []
    requires slot.Some? ==>
      && Utf16Length(slot.value.filename) <= MAX_NAME_LENGTH
      && slot.value.filesize == 0 && slot.value.firstBlock == NONE
      && forall j :: 0 <= j < MAXFILES && j != k ==> !Named(s.entries[j], slot.value.filename)
    requires !Named(s.entries[k], other) && !Named(slot, other)
    ensures Valid(s.(entries := s.entries[k := slot]))
    ensures ReadFile(s.(entries := s.entries[k := slot]), other) == ReadFile(s, other)
  {
    var t := s.(entries := s.entries[k := slot]);
    EmptySlotChange(s, k, slot);
    assert forall j :: 0 <= j < MAXFILES && j != k ==> ChainOf(t, j) == ChainOf(s, j);
    ReadAgrees(s, t, other);
  }

  /** A successful `createFile` makes a file that reads back empty and is
      listed, and changes no read of any other name. */
  lemma CreateThenRead(s: FileSystem, name: string, other: string)
    requires Valid(s) && other != name
    ensures Valid(CreateFile(s, name).fs)
    ensures CreateFile(s, name).outcome == Done ==>
      && ReadFile(CreateFile(s, name).fs, name) == Success([])
      && name in ListFiles(CreateFile(s, name).fs)
    ensures ReadFile(CreateFile(s, name).fs, other) == ReadFile(s, other)
  {
    CreateFileValid(s, name);
    var t := CreateFile(s, name).fs;
    if CreateFile(s, name).outcome == Done {
      var k :| 0 <= k < |s.entries| && s.entries[k].None? &&
        t == s.(entries := s.entries[k := Some(FEntry(name, 0, NONE))]);
      assert Named(t.entries[k], name);
      ReadContent(t, name, k, []);
      ListFilesNames(t, name);
      SlotChangeReadsOthers(s, k, Some(FEntry(name, 0, NONE)), other);
    }
  }

  /** A successful `deleteFile` of the file in slot `i` empties the slot
      and does to the blocks, nodes and bitmap exactly what releasing its
      chain does: each block of the chain is zero-filled and marked free,
      each of its nodes is reset to `(-1, -1)`, and nothing else changes. */
  lemma DeleteFileEffect(s: FileSystem, name: string, i: int)
    requires Valid(s) && 0 <= i < MAXFILES && Named(s.entries[i], name)
    ensures DeleteFile(s, name).outcome == Done
    ensures DeleteFile(s, name).fs.entries == s.entries[i := None]
    ensures forall b :: 0 <= b < s.maxBlocks ==>
      && DeleteFile(s, name).fs.freeList[b] == (s.freeList[b] || b in ChainOf(s, i))
      && DeleteFile(s, name).fs.nodes[b] == (if b in ChainOf(s, i) then FNode(NONE, NONE) else s.nodes[b])
      && DeleteFile(s, name).fs.disk[b] == (if b in ChainOf(s, i) then ZeroBlock() else s.disk[b])
  {
    assert FindEntry(s.entries, name) == Some(i);
    SameUpdate(FreeFileBlocks(s, i).entries, s.entries, i, None);
  }

  /** After a successful `deleteFile`, the name is gone: reading it fails,
      it is not listed, and a file of that name can be created again; every
      other name reads as before. */
  lemma DeleteThenRead(s: FileSystem, name: string, other: string)
    requires Valid(s) && other != name
    ensures Valid(DeleteFile(s, name).fs)
    ensures ReadFile(DeleteFile(s, name).fs, name) == Failure(FileNotFound)
    ensures name !in ListFiles(DeleteFile(s, name).fs)
    ensures Utf16Length(name) <= MAX_NAME_LENGTH && Exists(s.entries, name) ==>
      CreateFile(DeleteFile(s, name).fs, name).outcome == Done
    ensures ReadFile(DeleteFile(s, name).fs, other) == ReadFile(s, other)
  {
    DeleteFileValid(s, name);
    var t := DeleteFile(s, name).fs;
    if Exists(s.entries, name) {
      var i := FindEntry(s.entries, name).value;
      var freed := FreeFileBlocks(s, i);
      DeleteFileEffect(s, name, i);
      assert !Exists(t.entries, name);
      assert t.entries[i].None?;
      ReleaseReadsOthers(s, i, other);
      ReleaseChains(s, i);
      SlotChangeReadsOthers(freed, i, None, other);
    }
    ListFilesNames(t, name);
  }
}
