/** What callers of the storage engine can rely on: the write-then-read
    round trip, the exact effect of a failed write, where a write puts its
    blocks, and what create and delete do to the other files. */
module Theorems {
  import opened Status
  import opened FNodes
  import opened FEntries
  import opened Disk
  import opened Chains
  import opened Bitmap
  import opened FsState
  import opened FileSystemManager
  import opened Properties

  /** The preconditions of `writeFile`: a valid state, and sizes and block
      indices that fit the `short` fields of an entry. */
  predicate CanWrite(s: FileSystem, contents: seq<byte>)
  {
    Valid(s) && |contents| <= SHORT_MAX && s.maxBlocks <= SHORT_MAX + 1
  }

  /** Block `b` is free once slot `i`'s chain has been released. */
  predicate Available(s: FileSystem, i: int, b: int)
    requires 0 <= i < |s.entries| && 0 <= b < |s.freeList|
  {
    s.freeList[b] || b in ChainOf(s, i)
  }

  /** A slot's content is determined by the state. */
  lemma ContentUnique(s: FileSystem, i: int, d1: seq<byte>, d2: seq<byte>)
    requires Valid(s) && 0 <= i < |s.entries| && s.entries[i].Some?
    requires Content(s, i, d1) && Content(s, i, d2)
    ensures d1 == d2
  {
  }

  /** Content moves between states that agree on a slot's entry, its
      chain and the bytes on that chain. */
  lemma ContentTransfer(s: FileSystem, t: FileSystem, j: int, v: seq<byte>)
    requires Valid(s) && Valid(t) && 0 <= j < MAXFILES && s.entries[j].Some?
    requires t.entries[j] == s.entries[j] && ChainOf(t, j) == ChainOf(s, j)
    requires forall k :: k in ChainOf(s, j) ==> t.disk[k] == s.disk[k]
    requires Content(s, j, v)
    ensures Content(t, j, v)
  {
    assert SlotValid(s, j);
    var c := ChainOf(s, j);
    forall x | 0 <= x < |v|
      ensures v[x] == t.disk[c[BlockOf(x)]][OffsetOf(x)]
    {
      assert c[BlockOf(x)] in c;
    }
  }

  /** Two valid states read the same for `name` when the slot holding it
      has the same entry, the same chain and the same bytes on that chain. */
  lemma ReadAgrees(s: FileSystem, t: FileSystem, name: string)
    requires Valid(s) && Valid(t)
    requires forall j :: 0 <= j < MAXFILES ==> (Named(s.entries[j], name) <==> Named(t.entries[j], name))
    requires forall j :: 0 <= j < MAXFILES && Named(s.entries[j], name) ==>
      && t.entries[j] == s.entries[j]
      && ChainOf(t, j) == ChainOf(s, j)
      && (forall k :: k in ChainOf(s, j) ==> t.disk[k] == s.disk[k])
    ensures ReadFile(t, name) == ReadFile(s, name)
  {
    if Exists(s.entries, name) {
      var j :| 0 <= j < MAXFILES && Named(s.entries[j], name);
      var v := ReadFile(s, name).value;
      var w := ReadFile(t, name).value;
      ContentTransfer(s, t, j, v);
      ContentUnique(t, j, v, w);
    } else {
      assert !Exists(t.entries, name);
    }
  }

  /** `writeFile` keeps the invariant. */
  lemma WriteFileValid(s: FileSystem, name: string, contents: seq<byte>)
    requires CanWrite(s, contents)
    ensures Valid(WriteFile(s, name, contents).fs)
  {
    if FindEntry(s.entries, name).Some? {
      var i := FindEntry(s.entries, name).value;
      var freed := FreeFileBlocks(s, i);
      var needed := CeilDiv(|contents|);
      var a := CollectFree(freed.freeList, 0, needed);
      WriteFileCases(s, name, contents, i);
      if needed > 0 && |a| == needed {
        ReleaseCommitValid(s, i, a, contents);
      }
    }
  }

  /** Committing the collected blocks after the release keeps the
      invariant. */
  lemma ReleaseCommitValid(s: FileSystem, i: int, a: seq<int>, contents: seq<byte>)
    requires Valid(s) && 0 <= i < MAXFILES && s.entries[i].Some?
    requires 0 < |a| == CeilDiv(|contents|)
    requires a == CollectFree(FreeFileBlocks(s, i).freeList, 0, |a|)
    ensures Valid(Commit(FreeFileBlocks(s, i), i, a, contents))
  {
    FreeFileBlocksValid(s, i);
    ReleaseChains(s, i);
    CommitValid(FreeFileBlocks(s, i), i, a, contents);
  }

  /** The space check of `writeFile` runs after the old chain has been
      released, so it counts the file's own former blocks as free. */
  lemma ReleaseAddsFreeBlocks(s: FileSystem, i: int)
    requires Valid(s) && 0 <= i < MAXFILES
    ensures CountFree(FreeFileBlocks(s, i).freeList, 0) == CountFree(s.freeList, 0) + |ChainOf(s, i)|
  {
    var c := ChainOf(s, i);
    forall m | 0 <= m < |c|
      ensures !s.freeList[c[m]]
    {
      assert InUse(s, c[m]);
    }
    CountRelease(s.freeList, FreeFileBlocks(s, i).freeList, c);
  }

  /** The three ways `writeFile` ends on an existing file, once its old
      chain has been released: empty content, too little space, or a
      commit of the collected blocks. */
  lemma WriteFileCases(s: FileSystem, name: string, contents: seq<byte>, i: int)
    requires CanWrite(s, contents)
    requires 0 <= i < MAXFILES && Named(s.entries[i], name)
    ensures
      var freed := FreeFileBlocks(s, i);
      var needed := CeilDiv(|contents|);
      var a := CollectFree(freed.freeList, 0, needed);
      && Valid(freed)
      && WriteFile(s, name, contents) ==
           if needed == 0 then Step(freed, Done)
           else if |a| < needed then Step(freed, Failed(InsufficientSpace))
           else Step(Commit(freed, i, a, contents), Done)
  {
    assert FindEntry(s.entries, name) == Some(i);
    var freed := FreeFileBlocks(s, i);
    FreeFileBlocksValid(s, i);
    var needed := CeilDiv(|contents|);
    if needed == 0 {
      var e := freed.entries[i].value;
      assert SetFirstBlock(SetFilesize(e, 0), NONE) == e;
      SameUpdate(freed.entries, freed.entries, i, Some(e));
    } else {
      var a := CollectFree(freed.freeList, 0, needed);
      if |a| < needed {
        MarkFreeUnchanged(freed.freeList, a);
      }
    }
  }

  /** Releasing slot `i`'s chain frees exactly the blocks available to it. */
  lemma ReleaseAvailable(s: FileSystem, i: int)
    requires Valid(s) && 0 <= i < MAXFILES
    ensures forall b :: 0 <= b < s.maxBlocks ==> FreeFileBlocks(s, i).freeList[b] == Available(s, i, b)
  {
  }

  /** A write to an existing file fails exactly when the content needs more
      blocks than are free once the file's own blocks are released. Such a
      failed write does NOT keep the old content: the old chain is already
      zeroed and free, the file is left empty (size 0, first node -1) and no
      newly collected block stays marked used. */
  lemma WriteFileOutOfSpace(s: FileSystem, name: string, contents: seq<byte>, i: int)
    requires CanWrite(s, contents)
    requires 0 <= i < MAXFILES && Named(s.entries[i], name)
    ensures Valid(WriteFile(s, name, contents).fs)
    ensures WriteFile(s, name, contents).outcome == Failed(InsufficientSpace) <==>
      CeilDiv(|contents|) > CountFree(s.freeList, 0) + |ChainOf(s, i)|
    ensures WriteFile(s, name, contents).outcome == Failed(InsufficientSpace) ==>
      var t := WriteFile(s, name, contents).fs;
      && t.entries == s.entries[i := Some(FEntry(name, 0, NONE))]
      && (forall b :: 0 <= b < s.maxBlocks ==>
            && t.freeList[b] == Available(s, i, b)
            && t.disk[b] == (if b in ChainOf(s, i) then ZeroBlock() else s.disk[b]))
      && ReadFile(t, name) == Success([])
  {
    WriteFileValid(s, name, contents);
    WriteFileCases(s, name, contents, i);
    ReleaseAddsFreeBlocks(s, i);
    ReleaseAvailable(s, i);
    var freed := FreeFileBlocks(s, i);
    assert Named(freed.entries[i], name) && freed.entries[i].value.filesize == 0;
    ReadContent(freed, name, i, []);
  }

  /** Writing empty content to an existing file releases its chain and
      leaves it empty, with success. */
  lemma WriteFileEmpty(s: FileSystem, name: string, i: int)
    requires CanWrite(s, [])
    requires 0 <= i < MAXFILES && Named(s.entries[i], name)
    ensures WriteFile(s, name, []).outcome == Done
    ensures WriteFile(s, name, []).fs.entries == s.entries[i := Some(FEntry(name, 0, NONE))]
    ensures forall b :: 0 <= b < s.maxBlocks ==>
      WriteFile(s, name, []).fs.freeList[b] == Available(s, i, b)
  {
    WriteFileCases(s, name, [], i);
    ReleaseAvailable(s, i);
  }

  /** A commit marks its blocks used and links them in ascending order,
      node index equal to block index, the last node ending the chain. */
  lemma CommitNodes(s: FileSystem, i: int, a: seq<int>, contents: seq<byte>)
    requires Shaped(s) && 0 <= i < MAXFILES && s.entries[i].Some?
    requires Ascending(a, s.maxBlocks) && 0 < |a| == CeilDiv(|contents|)
    ensures forall m :: 0 <= m < |a| ==>
      && !Commit(s, i, a, contents).freeList[a[m]]
      && Commit(s, i, a, contents).nodes[a[m]] == FNode(a[m], Successor(a, m))
  {
    assert forall m :: 0 <= m < |a| ==> a[m] in a;
  }

  /** Slot `i` of `t` holds a file `name` of `n > 0` bytes in the
      `ceil(n / BLOCK_SIZE)` lowest blocks available to slot `i` in `s`,
      linked in ascending order with node index equal to block index and
      the last node ending the chain, all marked used, and the entry points
      at the first of them; the other entries are those of `s`. */
  predicate Allocated(s: FileSystem, t: FileSystem, i: int, name: string, n: nat)
    requires Shaped(s) && Shaped(t) && s.maxBlocks == t.maxBlocks && 0 <= i < MAXFILES
  {
    var c := ChainOf(t, i);
    && 0 < |c| == CeilDiv(n)
    && t.entries == s.entries[i := Some(FEntry(name, n, c[0]))]
    && (forall m :: 0 <= m < |c| ==> Available(s, i, c[m]) && !t.freeList[c[m]])
    && (forall m :: 0 <= m < |c| ==>
          t.nodes[c[m]] == FNode(c[m], Successor(c, m)))
    && (forall b, m :: 0 <= b < s.maxBlocks && Available(s, i, b) && b !in c && 0 <= m < |c| ==>
          c[m] < b)
  }

  /** Committing the lowest free blocks after releasing slot `i` allocates
      them as `Allocated` describes. */
  lemma ReleaseCommitAllocated(s: FileSystem, i: int, a: seq<int>, contents: seq<byte>)
    requires Valid(s) && 0 <= i < MAXFILES && s.entries[i].Some?
    requires 0 < |a| == CeilDiv(|contents|)
    requires a == CollectFree(FreeFileBlocks(s, i).freeList, 0, |a|)
    ensures Allocated(s, Commit(FreeFileBlocks(s, i), i, a, contents), i,
                      s.entries[i].value.filename, |contents|)
  {
    var t := Commit(FreeFileBlocks(s, i), i, a, contents);
    ReleaseCommitChain(s, i, a, contents);
    ReleaseCommitEntries(s, i, a, contents);
    ReleaseCommitNodes(s, i, a, contents);
    LowestAvailable(s, i, a);
    AllocatedIntro(s, t, i, s.entries[i].value.filename, |contents|, a);
  }

  /** After the release and commit, slot `i`'s chain is `a`. */
  lemma ReleaseCommitChain(s: FileSystem, i: int, a: seq<int>, contents: seq<byte>)
    requires Valid(s) && 0 <= i < MAXFILES && s.entries[i].Some?
    requires 0 < |a| == CeilDiv(|contents|)
    requires a == CollectFree(FreeFileBlocks(s, i).freeList, 0, |a|)
    ensures ChainOf(Commit(FreeFileBlocks(s, i), i, a, contents), i) == a
  {
    assert SlotValid(s, i);
    CommitOwnChain(FreeFileBlocks(s, i), i, a, contents);
  }

  /** After the release and commit, slot `i`'s entry records the new size
      and first node; no other entry changes. */
  lemma ReleaseCommitEntries(s: FileSystem, i: int, a: seq<int>, contents: seq<byte>)
    requires Valid(s) && 0 <= i < MAXFILES && s.entries[i].Some?
    requires 0 < |a| == CeilDiv(|contents|)
    requires a == CollectFree(FreeFileBlocks(s, i).freeList, 0, |a|)
    ensures Commit(FreeFileBlocks(s, i), i, a, contents).entries ==
      s.entries[i := Some(FEntry(s.entries[i].value.filename, |contents|, a[0]))]
  {
    var freed := FreeFileBlocks(s, i);
    assert freed.entries[i].value.filename == s.entries[i].value.filename;
    SameUpdate(freed.entries, s.entries, i, Some(FEntry(s.entries[i].value.filename, |contents|, a[0])));
  }

  /** After the release and commit, the blocks of `a` are marked used and
      linked in order. */
  lemma ReleaseCommitNodes(s: FileSystem, i: int, a: seq<int>, contents: seq<byte>)
    requires Valid(s) && 0 <= i < MAXFILES && s.entries[i].Some?
    requires 0 < |a| == CeilDiv(|contents|)
    requires a == CollectFree(FreeFileBlocks(s, i).freeList, 0, |a|)
    ensures forall m :: 0 <= m < |a| ==>
      && !Commit(FreeFileBlocks(s, i), i, a, contents).freeList[a[m]]
      && Commit(FreeFileBlocks(s, i), i, a, contents).nodes[a[m]] == FNode(a[m], Successor(a, m))
  {
    CommitNodes(FreeFileBlocks(s, i), i, a, contents);
  }

  /** Two tables that agree off index `i` agree after both are set at `i`. */
  lemma SameUpdate<T>(x: seq<T>, y: seq<T>, i: int, e: T)
    requires |x| == |y| && 0 <= i < |x|
    requires forall j :: 0 <= j < |x| && j != i ==> x[j] == y[j]
    ensures x[i := e] == y[i := e]
  {
    var x', y' := x[i := e], y[i := e];
    assert forall j :: 0 <= j < |x| ==> x'[j] == y'[j];
  }

  lemma AllocatedIntro(s: FileSystem, t: FileSystem, i: int, name: string, n: nat, a: seq<int>)
    requires Shaped(s) && Shaped(t) && s.maxBlocks == t.maxBlocks && 0 <= i < MAXFILES
    requires ChainOf(t, i) == a && 0 < |a| == CeilDiv(n)
    requires t.entries == s.entries[i := Some(FEntry(name, n, a[0]))]
    requires forall m :: 0 <= m < |a| ==> Available(s, i, a[m]) && !t.freeList[a[m]]
    requires forall m :: 0 <= m < |a| ==>
      t.nodes[a[m]] == FNode(a[m], Successor(a, m))
    requires forall b, m :: 0 <= b < s.maxBlocks && Available(s, i, b) && b !in a && 0 <= m < |a| ==> a[m] < b
    ensures Allocated(s, t, i, name, n)
  {
  }

  /** The blocks collected after releasing slot `i` are the lowest ones
      available to it. */
  lemma LowestAvailable(s: FileSystem, i: int, a: seq<int>)
    requires Valid(s) && 0 <= i < MAXFILES
    requires a == CollectFree(FreeFileBlocks(s, i).freeList, 0, |a|)
    ensures forall m :: 0 <= m < |a| ==> 0 <= a[m] < s.maxBlocks && Available(s, i, a[m])
    ensures forall b, m :: 0 <= b < s.maxBlocks && Available(s, i, b) && b !in a && 0 <= m < |a| ==> a[m] < b
  {
    ReleaseAvailable(s, i);
  }

  /** A successful non-empty write allocates as `Allocated` describes. */
  lemma WriteFileAllocation(s: FileSystem, name: string, contents: seq<byte>, i: int)
    requires CanWrite(s, contents) && |contents| > 0
    requires 0 <= i < MAXFILES && Named(s.entries[i], name)
    requires WriteFile(s, name, contents).outcome == Done
    ensures Allocated(s, WriteFile(s, name, contents).fs, i, name, |contents|)
  {
    var freed := FreeFileBlocks(s, i);
    var a := CollectFree(freed.freeList, 0, CeilDiv(|contents|));
    WriteFileCommits(s, name, contents, i);
    ReleaseCommitAllocated(s, i, a, contents);
  }

  /** A successful non-empty write is a commit of the collected blocks to
      the released slot. */
  lemma WriteFileCommits(s: FileSystem, name: string, contents: seq<byte>, i: int)
    requires CanWrite(s, contents) && |contents| > 0
    requires 0 <= i < MAXFILES && Named(s.entries[i], name)
    requires WriteFile(s, name, contents).outcome == Done
    ensures
      var freed := FreeFileBlocks(s, i);
      var a := CollectFree(freed.freeList, 0, CeilDiv(|contents|));
      && Valid(freed) && freed.entries[i].Some? && ChainOf(freed, i) == []
      && 0 < |a| == CeilDiv(|contents|)
      && WriteFile(s, name, contents).fs == Commit(freed, i, a, contents)
  {
    WriteFileCases(s, name, contents, i);
  }

  /** Reading `name` yields exactly the content its slot holds. */
  lemma ReadContent(t: FileSystem, name: string, i: int, data: seq<byte>)
    requires Valid(t) && 0 <= i < MAXFILES && Named(t.entries[i], name)
    requires Content(t, i, data)
    ensures ReadFile(t, name) == Success(data)
  {
    var v := ReadFile(t, name).value;
    ContentUnique(t, i, v, data);
  }

  /** A commit of free blocks to an empty slot stores `contents` there. */
  lemma CommitContent(s: FileSystem, i: int, a: seq<int>, contents: seq<byte>)
    requires Valid(s) && 0 <= i < MAXFILES && s.entries[i].Some? && ChainOf(s, i) == []
    requires Ascending(a, s.maxBlocks) && 0 < |a| == CeilDiv(|contents|)
    requires forall m :: 0 <= m < |a| ==> s.freeList[a[m]]
    ensures Valid(Commit(s, i, a, contents))
    ensures Content(Commit(s, i, a, contents), i, contents)
  {
    CommitValid(s, i, a, contents);
    assert SlotValid(s, i);
    CommitOwnChain(s, i, a, contents);
  }

  /** Main theorem: after a successful `writeFile(name, contents)`,
      `readFile(name)` returns exactly `contents`. */
  lemma WriteThenRead(s: FileSystem, name: string, contents: seq<byte>)
    requires CanWrite(s, contents)
    ensures Valid(WriteFile(s, name, contents).fs)
    ensures WriteFile(s, name, contents).outcome == Done ==>
      ReadFile(WriteFile(s, name, contents).fs, name) == Success(contents)
  {
    WriteFileValid(s, name, contents);
    var t := WriteFile(s, name, contents).fs;
    if WriteFile(s, name, contents).outcome == Done {
      var i := FindEntry(s.entries, name).value;
      if |contents| > 0 {
        var freed := FreeFileBlocks(s, i);
        var a := CollectFree(freed.freeList, 0, CeilDiv(|contents|));
        WriteFileCommits(s, name, contents, i);
        CommitContent(freed, i, a, contents);
        assert Named(t.entries[i], name);
        ReadContent(t, name, i, contents);
      } else {
        WriteFileEmpty(s, name, i);
        assert Named(t.entries[i], name);
        ReadContent(t, name, i, contents);
      }
    }
  }

  /** Releasing slot `i`'s chain leaves another live slot's entry, chain and
      chain bytes as they were. */
  lemma ReleaseKeepsSlot(s: FileSystem, i: int, j: int)
    requires Valid(s) && 0 <= i < MAXFILES && 0 <= j < MAXFILES && i != j
    ensures FreeFileBlocks(s, i).entries[j] == s.entries[j]
    ensures ChainOf(FreeFileBlocks(s, i), j) == ChainOf(s, j)
    ensures forall k :: k in ChainOf(s, j) ==>
      FreeFileBlocks(s, i).disk[k] == s.disk[k] && !FreeFileBlocks(s, i).freeList[k]
  {
    ReleaseChains(s, i);
    ReleaseInUse(s, i);
    FreeFileBlocksValid(s, i);
    forall k | k in ChainOf(s, j)
      ensures k !in ChainOf(s, i) && InUse(FreeFileBlocks(s, i), k)
    {
      assert InUse(s, k);
    }
  }

  /** A commit to slot `i` leaves another slot's entry, chain and chain
      bytes as they were. */
  lemma CommitKeepsSlot(s: FileSystem, i: int, a: seq<int>, contents: seq<byte>, j: int)
    requires Valid(s) && 0 <= i < MAXFILES && s.entries[i].Some? && ChainOf(s, i) == []
    requires Ascending(a, s.maxBlocks) && 0 < |a| == CeilDiv(|contents|)
    requires forall m :: 0 <= m < |a| ==> s.freeList[a[m]]
    requires 0 <= j < MAXFILES && j != i
    ensures Commit(s, i, a, contents).entries[j] == s.entries[j]
    ensures ChainOf(Commit(s, i, a, contents), j) == ChainOf(s, j)
    ensures forall k :: k in ChainOf(s, j) ==> Commit(s, i, a, contents).disk[k] == s.disk[k]
  {
    ChainUsed(s, j);
    CommitOtherChain(s, i, a, contents, j);
    var r := Commit(s, i, a, contents);
    forall k | k in ChainOf(s, j)
      ensures r.disk[k] == s.disk[k]
    {
      assert k !in a;
    }
  }

  /** Releasing slot `i`'s chain changes no read of another name. */
  lemma ReleaseReadsOthers(s: FileSystem, i: int, other: string)
    requires Valid(s) && 0 <= i < MAXFILES && !Named(s.entries[i], other)
    ensures Valid(FreeFileBlocks(s, i))
    ensures ReadFile(FreeFileBlocks(s, i), other) == ReadFile(s, other)
  {
    var t := FreeFileBlocks(s, i);
    FreeFileBlocksValid(s, i);
    forall j | 0 <= j < MAXFILES && Named(s.entries[j], other)
      ensures t.entries[j] == s.entries[j] && ChainOf(t, j) == ChainOf(s, j)
      ensures forall k :: k in ChainOf(s, j) ==> t.disk[k] == s.disk[k]
    {
      ReleaseKeepsSlot(s, i, j);
    }
    ReadAgrees(s, t, other);
  }

  /** A commit to slot `i`, which then holds another name, changes no read
      of `other`. */
  lemma CommitReadsOthers(s: FileSystem, i: int, a: seq<int>, contents: seq<byte>, other: string)
    requires Valid(s) && 0 <= i < MAXFILES && s.entries[i].Some? && ChainOf(s, i) == []
    requires s.entries[i].value.filename != other
    requires Ascending(a, s.maxBlocks) && 0 < |a| == CeilDiv(|contents|)
    requires forall m :: 0 <= m < |a| ==> s.freeList[a[m]]
    ensures Valid(Commit(s, i, a, contents))
    ensures ReadFile(Commit(s, i, a, contents), other) == ReadFile(s, other)
  {
    var t := Commit(s, i, a, contents);
    CommitValid(s, i, a, contents);
    CommitKeepsNamed(s, i, a, contents, other);
    ReadAgrees(s, t, other);
  }

  /** The slots holding `other` survive a commit to slot `i` intact. */
  lemma CommitKeepsNamed(s: FileSystem, i: int, a: seq<int>, contents: seq<byte>, other: string)
    requires Valid(s) && 0 <= i < MAXFILES && s.entries[i].Some? && ChainOf(s, i) == []
    requires s.entries[i].value.filename != other
    requires Ascending(a, s.maxBlocks) && 0 < |a| == CeilDiv(|contents|)
    requires forall m :: 0 <= m < |a| ==> s.freeList[a[m]]
    ensures forall j :: 0 <= j < MAXFILES ==>
      (Named(s.entries[j], other) <==> Named(Commit(s, i, a, contents).entries[j], other))
    ensures forall j :: 0 <= j < MAXFILES && Named(s.entries[j], other) ==>
      && Commit(s, i, a, contents).entries[j] == s.entries[j]
      && ChainOf(Commit(s, i, a, contents), j) == ChainOf(s, j)
      && (forall k :: k in ChainOf(s, j) ==> Commit(s, i, a, contents).disk[k] == s.disk[k])
  {
    forall j | 0 <= j < MAXFILES && Named(s.entries[j], other)
      ensures Commit(s, i, a, contents).entries[j] == s.entries[j]
      ensures ChainOf(Commit(s, i, a, contents), j) == ChainOf(s, j)
      ensures forall k :: k in ChainOf(s, j) ==> Commit(s, i, a, contents).disk[k] == s.disk[k]
    {
      CommitKeepsSlot(s, i, a, contents, j);
    }
  }

  /** A write to one file changes no other file's content or existence. */
  lemma WriteFileKeepsOthers(s: FileSystem, name: string, contents: seq<byte>, other: string)
    requires CanWrite(s, contents) && other != name
    ensures Valid(WriteFile(s, name, contents).fs)
    ensures ReadFile(WriteFile(s, name, contents).fs, other) == ReadFile(s, other)
  {
    WriteFileValid(s, name, contents);
    if FindEntry(s.entries, name).Some? {
      var i := FindEntry(s.entries, name).value;
      var freed := FreeFileBlocks(s, i);
      var needed := CeilDiv(|contents|);
      var a := CollectFree(freed.freeList, 0, needed);
      WriteFileCases(s, name, contents, i);
      ReleaseReadsOthers(s, i, other);
      if needed > 0 && |a| == needed {
        assert ChainOf(freed, i) == [];
        CommitReadsOthers(freed, i, a, contents, other);
      }
    }
  }
}
