/** Properties of the storage engine: every operation keeps the invariant,
    written content reads back unchanged, and a failed write leaves the
    file empty because the old chain is released before space is checked. */
module Properties {
  import opened Status
  import opened FNodes
  import opened FEntries
  import opened Disk
  import opened Chains
  import opened Bitmap
  import opened FsState
  import opened FileSystemManager

  /** A freshly constructed manager satisfies the invariant. */
  lemma InitValid(totalSize: int, image: seq<Block>)
    requires forall b :: 0 <= b < |image| ==> |image[b]| == BLOCK_SIZE
    requires JavaDiv(totalSize, BLOCK_SIZE) >= 0 ==> |image| == JavaDiv(totalSize, BLOCK_SIZE)
    ensures Init(totalSize, image).Success? ==> Valid(Init(totalSize, image).value)
  {
    var r := Init(totalSize, image);
    if r.Success? {
      var s := r.value;
      assert forall i :: 0 <= i < |s.entries| ==> ChainOf(s, i) == [];
      assert forall b :: !InUse(s, b);
    }
  }

  /** Releasing slot `i`'s chain empties it and leaves every other slot's
      chain, and its validity, as it was. */
  lemma ReleaseChains(s: FileSystem, i: int)
    requires Valid(s) && 0 <= i < MAXFILES
    ensures ChainOf(FreeFileBlocks(s, i), i) == []
    ensures SlotValid(FreeFileBlocks(s, i), i)
    ensures forall j :: 0 <= j < MAXFILES && j != i ==>
      ChainOf(FreeFileBlocks(s, i), j) == ChainOf(s, j) && SlotValid(FreeFileBlocks(s, i), j)
  {
    var r := FreeFileBlocks(s, i);
    var c := ChainOf(s, i);
    forall j | 0 <= j < MAXFILES && j != i
      ensures ChainOf(r, j) == ChainOf(s, j) && SlotValid(r, j)
    {
      forall k | k in ChainOf(s, j)
        ensures r.nodes[k] == s.nodes[k]
      {
        assert k !in c;
      }
      SlotFrame(s, r, j);
    }
    assert SlotValid(s, i);
  }

  /** Blocks in use after the release are those in use before, minus the
      released chain. */
  lemma ReleaseInUse(s: FileSystem, i: int)
    requires Valid(s) && 0 <= i < MAXFILES
    ensures forall b :: InUse(FreeFileBlocks(s, i), b) <==> InUse(s, b) && b !in ChainOf(s, i)
  {
    var r := FreeFileBlocks(s, i);
    var c := ChainOf(s, i);
    ReleaseChains(s, i);
    forall b
      ensures InUse(r, b) <==> InUse(s, b) && b !in c
    {
      if InUse(r, b) {
        var j :| 0 <= j < |r.entries| && b in ChainOf(r, j);
        assert j != i && b in ChainOf(s, j);
      }
      if InUse(s, b) && b !in c {
        var j :| 0 <= j < |s.entries| && b in ChainOf(s, j);
        assert j != i && b in ChainOf(r, j);
      }
    }
  }

  /** Releasing slot `i`'s chain (`freeFileBlocks`) keeps the invariant. */
  lemma FreeFileBlocksValid(s: FileSystem, i: int)
    requires Valid(s) && 0 <= i < MAXFILES
    ensures Valid(FreeFileBlocks(s, i))
  {
    var r := FreeFileBlocks(s, i);
    var c := ChainOf(s, i);
    ReleaseChains(s, i);
    ReleaseInUse(s, i);
    assert UniqueNames(r.entries);
    assert Disjoint(r);
    assert BitmapExact(r);
  }

  /** Replacing an entry whose chain is empty by no entry, or by an empty
      entry with a short name no other slot uses, keeps the invariant. */
  lemma EmptySlotChange(s: FileSystem, k: int, slot: Option<FEntry>)
    requires Valid(s) && 0 <= k < MAXFILES && ChainOf(s, k) == []
    requires slot.Some? ==>
      && Utf16Length(slot.value.filename) <= MAX_NAME_LENGTH
      && slot.value.filesize == 0 && slot.value.firstBlock == NONE
      && forall j :: 0 <= j < MAXFILES && j != k ==> !Named(s.entries[j], slot.value.filename)
    ensures Valid(s.(entries := s.entries[k := slot]))
  {
    var r := s.(entries := s.entries[k := slot]);
    assert forall j :: 0 <= j < MAXFILES ==> ChainOf(r, j) == ChainOf(s, j);
    forall j | 0 <= j < MAXFILES
      ensures SlotValid(r, j)
    {
      assert SlotValid(s, j);
    }
    forall b
      ensures InUse(r, b) <==> InUse(s, b)
    {
      if InUse(s, b) {
        var j :| 0 <= j < |s.entries| && b in ChainOf(s, j);
        assert b in ChainOf(r, j);
      }
    }
    assert UniqueNames(r.entries);
    assert Disjoint(r);
    assert BitmapExact(r);
  }

  /** `deleteFile` keeps the invariant. */
  lemma DeleteFileValid(s: FileSystem, name: string)
    requires Valid(s)
    ensures Valid(DeleteFile(s, name).fs)
  {
    if FindEntry(s.entries, name).Some? {
      var i := FindEntry(s.entries, name).value;
      FreeFileBlocksValid(s, i);
      ReleaseChains(s, i);
      EmptySlotChange(FreeFileBlocks(s, i), i, None);
    }
  }

  /** `createFile` keeps the invariant. */
  lemma CreateFileValid(s: FileSystem, name: string)
    requires Valid(s)
    ensures Valid(CreateFile(s, name).fs)
  {
    if CreateFile(s, name).outcome.Done? {
      var k :| 0 <= k < |s.entries| && s.entries[k].None? &&
        CreateFile(s, name).fs == s.(entries := s.entries[k := Some(FEntry(name, 0, NONE))]);
      EmptySlotChange(s, k, Some(FEntry(name, 0, NONE)));
    }
  }

  /** After a commit of the blocks `a` to the empty slot `i`, slot `i`'s
      chain is exactly `a`, in order, and the slot is valid. */
  lemma CommitOwnChain(s: FileSystem, i: int, a: seq<int>, contents: seq<byte>)
    requires Shaped(s) && 0 <= i < MAXFILES && s.entries[i].Some?
    requires Utf16Length(s.entries[i].value.filename) <= MAX_NAME_LENGTH
    requires Ascending(a, s.maxBlocks) && 0 < |a| == CeilDiv(|contents|)
    ensures ChainOf(Commit(s, i, a, contents), i) == a
    ensures SlotValid(Commit(s, i, a, contents), i)
  {
    var r := Commit(s, i, a, contents);
    assert forall j :: 0 <= j < |a| ==>
      r.nodes[a[j]].next == Successor(a, j);
    LinkedChain(r.nodes, a, 0);
    assert a[0..] == a;
    assert Head(r, i) == a[0];
    assert forall m :: 0 <= m < |a| ==> r.nodes[a[m]].blockIndex == a[m];
    var e := r.entries[i].value;
    assert e.filesize == |contents| > 0 && e.firstBlock == a[0] >= 0;
    assert WellFormed(r.nodes, e.firstBlock);
    assert |Chain(r.nodes, e.firstBlock)| == CeilDiv(e.filesize);
  }

  /** The blocks on a live chain are in range and marked used. */
  lemma ChainUsed(s: FileSystem, j: int)
    requires Valid(s) && 0 <= j < MAXFILES
    ensures forall k :: k in ChainOf(s, j) ==> 0 <= k < s.maxBlocks && !s.freeList[k]
  {
    forall k | k in ChainOf(s, j)
      ensures 0 <= k < s.maxBlocks && !s.freeList[k]
    {
      assert InUse(s, k);
    }
  }

  /** A commit to slot `i` leaves any other slot's chain, and its validity,
      as they were: the committed blocks were free, so on no chain. */
  lemma CommitOtherChain(s: FileSystem, i: int, a: seq<int>, contents: seq<byte>, j: int)
    requires Shaped(s) && 0 <= i < MAXFILES && s.entries[i].Some?
    requires Ascending(a, s.maxBlocks) && 0 < |a| == CeilDiv(|contents|)
    requires forall m :: 0 <= m < |a| ==> s.freeList[a[m]]
    requires 0 <= j < MAXFILES && j != i && SlotValid(s, j)
    requires forall k :: k in ChainOf(s, j) ==> !s.freeList[k]
    ensures ChainOf(Commit(s, i, a, contents), j) == ChainOf(s, j)
    ensures SlotValid(Commit(s, i, a, contents), j)
  {
    var r := Commit(s, i, a, contents);
    forall k | k in ChainOf(s, j)
      ensures r.nodes[k] == s.nodes[k]
    {
      assert k !in a;
    }
    SlotFrame(s, r, j);
  }

  /** A slot whose entry, and the nodes on whose chain, are the same in two
      states has the same chain in both, and is valid in both. */
  lemma SlotFrame(s: FileSystem, r: FileSystem, j: int)
    requires 0 <= j < |s.entries| == |r.entries| && |r.nodes| == |s.nodes|
    requires r.entries[j] == s.entries[j] && SlotValid(s, j)
    requires forall k :: k in ChainOf(s, j) ==> r.nodes[k] == s.nodes[k]
    ensures ChainOf(r, j) == ChainOf(s, j) && SlotValid(r, j)
  {
    assert Head(r, j) == Head(s, j);
    ChainFrame(s.nodes, r.nodes, Head(s, j));
  }

  /** The chains after a commit of the blocks `a` to the empty slot `i`. */
  lemma CommitChains(s: FileSystem, i: int, a: seq<int>, contents: seq<byte>)
    requires Valid(s) && 0 <= i < MAXFILES && s.entries[i].Some? && ChainOf(s, i) == []
    requires Ascending(a, s.maxBlocks) && 0 < |a| == CeilDiv(|contents|)
    requires forall m :: 0 <= m < |a| ==> s.freeList[a[m]]
    ensures ChainOf(Commit(s, i, a, contents), i) == a
    ensures forall j :: 0 <= j < MAXFILES ==> SlotValid(Commit(s, i, a, contents), j)
    ensures forall j :: 0 <= j < MAXFILES && j != i ==>
      ChainOf(Commit(s, i, a, contents), j) == ChainOf(s, j)
  {
    assert SlotValid(s, i);
    CommitOwnChain(s, i, a, contents);
    forall j | 0 <= j < MAXFILES && j != i
      ensures ChainOf(Commit(s, i, a, contents), j) == ChainOf(s, j)
      ensures SlotValid(Commit(s, i, a, contents), j)
    {
      assert SlotValid(s, j);
      ChainUsed(s, j);
      CommitOtherChain(s, i, a, contents, j);
    }
  }

  /** Extending the empty chain of slot `i` to `a` while keeping the
      other chains adds exactly `a` to the blocks in use. */
  lemma ExtendInUse(s: FileSystem, r: FileSystem, i: int, a: seq<int>)
    requires |s.entries| == |r.entries| == MAXFILES && 0 <= i < MAXFILES
    requires ChainOf(s, i) == [] && ChainOf(r, i) == a
    requires forall j :: 0 <= j < MAXFILES && j != i ==> ChainOf(r, j) == ChainOf(s, j)
    ensures forall b :: InUse(r, b) <==> InUse(s, b) || b in a
  {
    forall b
      ensures InUse(r, b) <==> InUse(s, b) || b in a
    {
      if InUse(r, b) {
        var j :| 0 <= j < |r.entries| && b in ChainOf(r, j);
        if j != i {
          assert b in ChainOf(s, j);
        }
      }
      if InUse(s, b) {
        var j :| 0 <= j < |s.entries| && b in ChainOf(s, j);
        assert j != i && b in ChainOf(r, j);
      }
      if b in a {
        assert b in ChainOf(r, i);
      }
    }
  }

  /** Extending the empty chain of slot `i` to blocks on no chain keeps
      the chains disjoint. */
  lemma ExtendDisjoint(s: FileSystem, r: FileSystem, i: int, a: seq<int>)
    requires |s.entries| == |r.entries| == MAXFILES && 0 <= i < MAXFILES
    requires Disjoint(s) && forall b :: b in a ==> !InUse(s, b)
    requires ChainOf(s, i) == [] && ChainOf(r, i) == a
    requires forall j :: 0 <= j < MAXFILES && j != i ==> ChainOf(r, j) == ChainOf(s, j)
    ensures Disjoint(r)
  {
    forall j, j', k | 0 <= j < MAXFILES && 0 <= j' < MAXFILES && j != j' && k in ChainOf(r, j)
      ensures k !in ChainOf(r, j')
    {
      if j == i {
        assert !InUse(s, k);
      } else if j' == i {
        assert InUse(s, k);
      }
    }
  }

  /** Marking exactly the newly chained blocks used, and giving them nodes
      of their own, keeps the bitmap exact. */
  lemma ExtendBitmap(s: FileSystem, r: FileSystem, a: seq<int>)
    requires Shaped(s) && Shaped(r) && r.maxBlocks == s.maxBlocks && BitmapExact(s)
    requires forall b :: InUse(r, b) <==> InUse(s, b) || b in a
    requires forall b :: 0 <= b < s.maxBlocks ==> r.freeList[b] == (s.freeList[b] && b !in a)
    requires forall b :: 0 <= b < s.maxBlocks && b !in a ==> r.nodes[b] == s.nodes[b]
    ensures BitmapExact(r)
  {
  }

  /** Extending the empty chain of slot `i` with free blocks, marking
      exactly them used and leaving every other chain and node alone keeps
      the invariant. */
  lemma ExtendValid(s: FileSystem, r: FileSystem, i: int, a: seq<int>)
    requires Valid(s) && Shaped(r) && r.maxBlocks == s.maxBlocks && 0 <= i < MAXFILES
    requires forall m :: 0 <= m < |a| ==> 0 <= a[m] < s.maxBlocks && s.freeList[a[m]]
    requires ChainOf(s, i) == [] && ChainOf(r, i) == a
    requires forall j :: 0 <= j < MAXFILES && j != i ==> ChainOf(r, j) == ChainOf(s, j)
    requires forall j :: 0 <= j < MAXFILES ==> SlotValid(r, j)
    requires UniqueNames(r.entries)
    requires forall b :: 0 <= b < s.maxBlocks ==> r.freeList[b] == (s.freeList[b] && b !in a)
    requires forall b :: 0 <= b < s.maxBlocks && b !in a ==> r.nodes[b] == s.nodes[b]
    ensures Valid(r)
  {
    ExtendInUse(s, r, i, a);
    assert forall b :: b in a ==> !InUse(s, b);
    ExtendDisjoint(s, r, i, a);
    ExtendBitmap(s, r, a);
  }

  /** Committing free blocks to an empty slot keeps the invariant. */
  lemma CommitValid(s: FileSystem, i: int, a: seq<int>, contents: seq<byte>)
    requires Valid(s) && 0 <= i < MAXFILES && s.entries[i].Some? && ChainOf(s, i) == []
    requires Ascending(a, s.maxBlocks) && 0 < |a| == CeilDiv(|contents|)
    requires forall m :: 0 <= m < |a| ==> s.freeList[a[m]]
    ensures Valid(Commit(s, i, a, contents))
  {
    var r := Commit(s, i, a, contents);
    CommitChains(s, i, a, contents);
    SameNameUnique(s.entries, i, FEntry(s.entries[i].value.filename, |contents|, a[0]));
    ExtendValid(s, r, i, a);
  }

  /** Replacing a live entry by one of the same name keeps names unique. */
  lemma SameNameUnique(entries: seq<Option<FEntry>>, i: int, e: FEntry)
    requires UniqueNames(entries) && 0 <= i < |entries| && entries[i].Some?
    requires e.filename == entries[i].value.filename
    ensures UniqueNames(entries[i := Some(e)])
  {
  }
}
