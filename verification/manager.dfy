/** The storage engine: the manager's constructor and its five operations,
    each a function from the state before the call to the state after it
    and the call's result. Every operation runs as one atomic step;
    `FileSystemManager.java` obtains that with a global read-write lock. */
module FileSystemManager {
  import opened Status
  import opened FNodes
  import opened FEntries
  import opened Disk
  import opened Chains
  import opened Bitmap
  import opened FsState

  /** The state after a mutating operation, and how the call ended. */
  datatype Step = Step(fs: FileSystem, outcome: Outcome)

  /** Java's `int` division, which truncates toward zero: the quotient has
      the sign of `a` and `q * d` lies between 0 and `a`, within one `d`. */
  function JavaDiv(a: int, d: int): (q: int)
    requires d > 0
    ensures a >= 0 ==> q >= 0 && q * d <= a < q * d + d
    ensures a < 0 ==> q <= 0 && q * d - d < a <= q * d
  {
    if a >= 0 then a / d else -((-a) / d)
  }

  /** The constructor. The backing file is sized to `MAXBLOCKS` blocks,
      where `MAXBLOCKS = totalSize / BLOCK_SIZE`; `image` is whatever the
      file holds after that, which the constructor does not clear. A negative
      block count makes the sizing fail. */
  function Init(totalSize: int, image: seq<Block>): (r: Result<FileSystem>)
    requires forall b :: 0 <= b < |image| ==> |image[b]| == BLOCK_SIZE
    requires JavaDiv(totalSize, BLOCK_SIZE) >= 0 ==> |image| == JavaDiv(totalSize, BLOCK_SIZE)
    ensures r.Failure? <==> totalSize <= -(BLOCK_SIZE as int)
    ensures r.Failure? ==> r.error == IOFailure
    ensures r.Success? ==>
      && r.value.maxBlocks == JavaDiv(totalSize, BLOCK_SIZE)
      && r.value.disk == image
      && |r.value.entries| == MAXFILES
      && (forall i :: 0 <= i < MAXFILES ==> r.value.entries[i].None?)
      && |r.value.freeList| == |r.value.nodes| == r.value.maxBlocks
      && (forall b :: 0 <= b < r.value.maxBlocks ==>
            r.value.freeList[b] && r.value.nodes[b] == FNode(NONE, NONE))
  {
    var maxBlocks := JavaDiv(totalSize, BLOCK_SIZE);
    if maxBlocks < 0 then Failure(IOFailure)
    else
      Success(FileSystem(
        maxBlocks,
        seq(MAXFILES, _ => None),
        seq(maxBlocks, _ => NewNode(NONE)),
        seq(maxBlocks, _ => true),
        image))
  }

  /** The lookup loop shared by read, write and delete: the lowest slot
      from `i` on that holds a live entry called `name`. */
  function FindFrom(entries: seq<Option<FEntry>>, name: string, i: nat): (r: Option<nat>)
    requires i <= |entries|
    decreases |entries| - i
    ensures r.Some? ==>
      && i <= r.value < |entries|
      && Named(entries[r.value], name)
      && (forall j :: i <= j < r.value ==> !Named(entries[j], name))
    ensures r.None? ==> forall j :: i <= j < |entries| ==> !Named(entries[j], name)
  {
    if i == |entries| then None
    else if Named(entries[i], name) then Some(i)
    else FindFrom(entries, name, i + 1)
  }

  /** The slot holding `name`, if any. Names are unique, so the slot found
      is the only one holding it. */
  function FindEntry(entries: seq<Option<FEntry>>, name: string): (r: Option<nat>)
    ensures r.None? <==> !Exists(entries, name)
    ensures r.Some? ==> r.value < |entries| && Named(entries[r.value], name)
    ensures r.Some? && UniqueNames(entries) ==>
      forall j :: 0 <= j < |entries| && Named(entries[j], name) ==> j == r.value
  {
    FindFrom(entries, name, 0)
  }

  /** The free-slot loop of `createFile`: the lowest empty slot from `i` on. */
  function FirstEmptyFrom(entries: seq<Option<FEntry>>, i: nat): (r: Option<nat>)
    requires i <= |entries|
    decreases |entries| - i
    ensures r.Some? ==>
      && i <= r.value < |entries|
      && entries[r.value].None?
      && (forall j :: i <= j < r.value ==> entries[j].Some?)
    ensures r.None? ==> forall j :: i <= j < |entries| ==> entries[j].Some?
  {
    if i == |entries| then None
    else if entries[i].None? then Some(i)
    else FirstEmptyFrom(entries, i + 1)
  }

  /** `createFile`: rejects a name longer than 11 characters, then a name
      already in use, then a full table; otherwise puts an empty entry
      (size 0, first node -1) into the lowest empty slot and changes
      nothing else. */
  function CreateFile(s: FileSystem, name: string): (r: Step)
    ensures Utf16Length(name) > MAX_NAME_LENGTH ==> r == Step(s, Failed(FilenameTooLong))
    ensures Utf16Length(name) <= MAX_NAME_LENGTH && Exists(s.entries, name) ==>
      r == Step(s, Failed(FileAlreadyExists))
    ensures Utf16Length(name) <= MAX_NAME_LENGTH && !Exists(s.entries, name) &&
            (forall j :: 0 <= j < |s.entries| ==> s.entries[j].Some?) ==>
      r == Step(s, Failed(MaxFilesReached))
    ensures r.outcome.Done? <==>
      Utf16Length(name) <= MAX_NAME_LENGTH && !Exists(s.entries, name) &&
      exists j :: 0 <= j < |s.entries| && s.entries[j].None?
    ensures r.outcome.Done? ==>
      exists k :: 0 <= k < |s.entries| && s.entries[k].None? &&
        (forall j :: 0 <= j < k ==> s.entries[j].Some?) &&
        r.fs == s.(entries := s.entries[k := Some(FEntry(name, 0, NONE))])
  {
    if Utf16Length(name) > MAX_NAME_LENGTH then Step(s, Failed(FilenameTooLong))
    else if FindEntry(s.entries, name).Some? then Step(s, Failed(FileAlreadyExists))
    else match FirstEmptyFrom(s.entries, 0)
      case None => Step(s, Failed(MaxFilesReached))
      case Some(k) => Step(s.(entries := s.entries[k := Some(FEntry(name, 0, NONE))]), Done)
  }

  /** Indices of the live slots from `i` on, in ascending order. */
  function LiveSlots(entries: seq<Option<FEntry>>, i: nat): (r: seq<nat>)
    requires i <= |entries|
    decreases |entries| - i
    ensures forall m :: 0 <= m < |r| ==> i <= r[m] < |entries| && entries[r[m]].Some?
    ensures forall k :: i <= k < |entries| && entries[k].Some? ==> k in r
    ensures forall m, m' :: 0 <= m < m' < |r| ==> r[m] < r[m']
  {
    if i == |entries| then []
    else if entries[i].Some? then [i] + LiveSlots(entries, i + 1)
    else LiveSlots(entries, i + 1)
  }

  /** The listing loop from slot `i` on. */
  function ListFrom(entries: seq<Option<FEntry>>, i: nat): (names: seq<string>)
    requires i <= |entries|
    decreases |entries| - i
    ensures |names| == |LiveSlots(entries, i)|
    ensures forall m :: 0 <= m < |names| ==>
      names[m] == entries[LiveSlots(entries, i)[m]].value.filename
  {
    if i == |entries| then []
    else if entries[i].Some? then [entries[i].value.filename] + ListFrom(entries, i + 1)
    else ListFrom(entries, i + 1)
  }

  /** `listFiles`: the names of the live entries, in slot order; a query,
      so the state is not touched. */
  function ListFiles(s: FileSystem): (names: seq<string>)
    ensures |names| == |LiveSlots(s.entries, 0)|
    ensures forall m :: 0 <= m < |names| ==>
      names[m] == s.entries[LiveSlots(s.entries, 0)[m]].value.filename
  {
    ListFrom(s.entries, 0)
  }

  /** The read loop from node `cur` with `remaining` bytes still to copy:
      each block contributes `min(BLOCK_SIZE, remaining)` bytes, in chain
      order. */
  function ReadChain(nodes: seq<FNode>, disk: seq<Block>, cur: int, remaining: nat): (r: seq<byte>)
    requires WellFormed(nodes, cur)
    requires forall k :: k in Chain(nodes, cur) ==> nodes[k].blockIndex == k
    requires forall m :: 0 <= m < |Chain(nodes, cur)| ==>
      Chain(nodes, cur)[m] < |disk| && |disk[Chain(nodes, cur)[m]]| == BLOCK_SIZE
    requires |Chain(nodes, cur)| == CeilDiv(remaining)
    decreases Rank(nodes, cur)
    ensures |r| == remaining
    ensures forall x :: 0 <= x < remaining ==>
      r[x] == disk[Chain(nodes, cur)[BlockOf(x)]][OffsetOf(x)]
  {
    if cur == NONE then []
    else
      ChainStep(nodes, cur);
      var next := nodes[cur].next;
      assert Chain(nodes, next) == Chain(nodes, cur)[1..];
      CeilDivStep(remaining);
      var toRead := Min(BLOCK_SIZE, remaining);
      var rest := ReadChain(nodes, disk, next, remaining - toRead);
      PrependBlock(disk, Chain(nodes, cur), remaining, rest);
      disk[nodes[cur].blockIndex][..toRead] + rest
  }

  /** `readFile`: fails on an unknown name; otherwise returns the file's
      content, an empty buffer for an empty file. A query: the state is
      not touched. */
  function ReadFile(s: FileSystem, name: string): (r: Result<seq<byte>>)
    requires Valid(s)
    ensures r.Failure? <==> !Exists(s.entries, name)
    ensures r.Failure? ==> r.error == FileNotFound
    ensures r.Success? ==>
      forall i :: 0 <= i < |s.entries| && Named(s.entries[i], name) ==> Content(s, i, r.value)
  {
    match FindEntry(s.entries, name)
    case None => Failure(FileNotFound)
    case Some(i) =>
      assert SlotValid(s, i);
      var e := s.entries[i].value;
      if e.filesize == 0 then Success([])
      else Success(ReadChain(s.nodes, s.disk, e.firstBlock, e.filesize))
  }

  /** The walk of `freeFileBlocks` from node `cur`: each visited block is
      overwritten with zeros and marked free, and each visited node is reset
      to `(-1, -1)`. Nothing off the chain changes. */
  function FreeChain(s: FileSystem, cur: int): (r: FileSystem)
    requires Shaped(s)
    requires WellFormed(s.nodes, cur)
    requires forall k :: k in Chain(s.nodes, cur) ==> s.nodes[k].blockIndex == k
    decreases Rank(s.nodes, cur)
    ensures Shaped(r) && r.maxBlocks == s.maxBlocks && r.entries == s.entries
    ensures forall b :: 0 <= b < s.maxBlocks ==>
      && r.freeList[b] == (s.freeList[b] || b in Chain(s.nodes, cur))
      && r.nodes[b] == (if b in Chain(s.nodes, cur) then FNode(NONE, NONE) else s.nodes[b])
      && r.disk[b] == (if b in Chain(s.nodes, cur) then ZeroBlock() else s.disk[b])
  {
    if cur == NONE then s
    else
      ChainStep(s.nodes, cur);
      var blockIndex := s.nodes[cur].blockIndex;
      var next := s.nodes[cur].next;
      var reset := SetBlockIndex(SetNext(s.nodes[cur], NONE), NONE);
      SettersCommute(s.nodes[cur], NONE, NONE);
      var s' := s.(
        disk := s.disk[blockIndex := ZeroBlock()],
        freeList := s.freeList[blockIndex := true],
        nodes := s.nodes[cur := reset]);
      ChainFrame(s.nodes, s'.nodes, next);
      FreeChain(s', next)
  }

  /** `freeFileBlocks`: releases slot `i`'s chain and leaves its entry
      with size 0 and first node -1. An entry without blocks is left as it
      is (its size is already 0). */
  function FreeFileBlocks(s: FileSystem, i: int): (r: FileSystem)
    requires Valid(s) && 0 <= i < MAXFILES
    ensures Shaped(r) && r.maxBlocks == s.maxBlocks
    ensures forall j :: 0 <= j < MAXFILES && j != i ==> r.entries[j] == s.entries[j]
    ensures r.entries[i] == match s.entries[i]
      case None => None
      case Some(e) => Some(FEntry(e.filename, 0, NONE))
    ensures forall b :: 0 <= b < s.maxBlocks ==>
      && r.freeList[b] == (s.freeList[b] || b in ChainOf(s, i))
      && r.nodes[b] == (if b in ChainOf(s, i) then FNode(NONE, NONE) else s.nodes[b])
      && r.disk[b] == (if b in ChainOf(s, i) then ZeroBlock() else s.disk[b])
  {
    assert SlotValid(s, i);
    if s.entries[i].None? || s.entries[i].value.firstBlock == NONE then s
    else
      var e := s.entries[i].value;
      var freed := FreeChain(s, e.firstBlock);
      freed.(entries := freed.entries[i := Some(SetFilesize(SetFirstBlock(e, NONE), 0))])
  }

  /** `deleteFile`: fails on an unknown name and changes nothing; otherwise
      releases the file's chain and empties its slot. */
  function DeleteFile(s: FileSystem, name: string): (r: Step)
    requires Valid(s)
    ensures !Exists(s.entries, name) ==> r == Step(s, Failed(FileNotFound))
    ensures Exists(s.entries, name) ==> r.outcome == Done
  {
    match FindEntry(s.entries, name)
    case None => Step(s, Failed(FileNotFound))
    case Some(i) =>
      var freed := FreeFileBlocks(s, i);
      Step(freed.(entries := freed.entries[i := None]), Done)
  }

  /** Strictly ascending list of block indices below `n`: the shape of an
      allocation. */
  predicate Ascending(a: seq<int>, n: int)
  {
    && (forall m :: 0 <= m < |a| ==> 0 <= a[m] < n)
    && (forall m, m' :: 0 <= m < m' < |a| ==> a[m] < a[m'])
  }

  /** The linking loop of `writeFile` from position `j`: node `a[m]` is
      pointed at node `a[m + 1]` for every `m` from `j` up to the one before
      last. */
  function LinkNodes(nodes: seq<FNode>, a: seq<int>, j: nat): (r: seq<FNode>)
    requires Ascending(a, |nodes|) && j < |a|
    decreases |a| - j
    ensures |r| == |nodes|
    ensures forall m :: j <= m < |a| - 1 ==> r[a[m]] == SetNext(nodes[a[m]], a[m + 1])
    ensures forall b :: 0 <= b < |nodes| && b !in a[j..|a| - 1] ==> r[b] == nodes[b]
  {
    if j == |a| - 1 then nodes
    else
      var r := LinkNodes(nodes[a[j] := SetNext(nodes[a[j]], a[j + 1])], a, j + 1);
      assert a[j..|a| - 1] == [a[j]] + a[j + 1..|a| - 1];
      r
  }

  /** The `setBlockIndex` calls of the data loop of `writeFile` from
      position `j`: node `a[m]` is made to refer to block `a[m]`. */
  function SetBlockIndices(nodes: seq<FNode>, a: seq<int>, j: nat): (r: seq<FNode>)
    requires Ascending(a, |nodes|) && j <= |a|
    decreases |a| - j
    ensures |r| == |nodes|
    ensures forall m :: j <= m < |a| ==> r[a[m]] == SetBlockIndex(nodes[a[m]], a[m])
    ensures forall b :: 0 <= b < |nodes| && b !in a[j..] ==> r[b] == nodes[b]
  {
    if j == |a| then nodes
    else
      var r := SetBlockIndices(nodes[a[j] := SetBlockIndex(nodes[a[j]], a[j])], a, j + 1);
      assert a[j..] == [a[j]] + a[j + 1..];
      r
  }

  /** The disk writes of the data loop of `writeFile` from position `j`:
      block `a[m]` receives bytes `m * BLOCK_SIZE` up to
      `min((m + 1) * BLOCK_SIZE, |contents|)` of the content. */
  function WriteBlocks(disk: seq<Block>, a: seq<int>, contents: seq<byte>, j: nat): (r: seq<Block>)
    requires forall b :: 0 <= b < |disk| ==> |disk[b]| == BLOCK_SIZE
    requires Ascending(a, |disk|) && |a| == CeilDiv(|contents|) && j <= |a|
    decreases |a| - j
    ensures |r| == |disk|
    ensures forall b :: 0 <= b < |r| ==> |r[b]| == BLOCK_SIZE
    ensures forall b :: 0 <= b < |disk| && b !in a[j..] ==> r[b] == disk[b]
    ensures forall x :: j * BLOCK_SIZE <= x < |contents| ==>
      r[a[BlockOf(x)]][OffsetOf(x)] == contents[x]
  {
    if j == |a| then disk
    else
      var start := j * BLOCK_SIZE;
      var len := Min(BLOCK_SIZE, |contents| - start);
      var written := disk[a[j] := WriteAt(disk[a[j]], contents[start..start + len])];
      var r := WriteBlocks(written, a, contents, j + 1);
      assert a[j..] == [a[j]] + a[j + 1..];
      assert r[a[j]] == written[a[j]];
      WriteStepContent(a, contents, j, r);
      r
  }

  /** Block `a[j]` holding bytes `j * BLOCK_SIZE` onwards (up to a block's
      worth) and the later blocks holding the rest make the blocks from
      `a[j]` on hold every byte from `j * BLOCK_SIZE` on. */
  lemma WriteStepContent(a: seq<int>, contents: seq<byte>, j: nat, r: seq<Block>)
    requires j < |a| == CeilDiv(|contents|)
    requires forall m :: 0 <= m < |a| ==> 0 <= a[m] < |r|
    requires forall b :: 0 <= b < |r| ==> |r[b]| == BLOCK_SIZE
    requires forall o :: 0 <= o < Min(BLOCK_SIZE, |contents| - j * BLOCK_SIZE) ==>
      r[a[j]][o] == contents[j * BLOCK_SIZE + o]
    requires forall x :: (j + 1) * BLOCK_SIZE <= x < |contents| ==>
      r[a[BlockOf(x)]][OffsetOf(x)] == contents[x]
    ensures forall x :: j * BLOCK_SIZE <= x < |contents| ==>
      r[a[BlockOf(x)]][OffsetOf(x)] == contents[x]
  {
    forall x | j * BLOCK_SIZE <= x < (j + 1) * BLOCK_SIZE && x < |contents|
      ensures r[a[BlockOf(x)]][OffsetOf(x)] == contents[x]
    {
      assert BlockOf(x) == j && OffsetOf(x) == x - j * BLOCK_SIZE;
    }
  }

  /** The node updates of `writeFile` for the allocation `a`: each node
      refers to its own block and points at the next node of `a`, the last
      one at `-1`; every other node is left as it was. */
  function Relink(nodes: seq<FNode>, a: seq<int>): (r: seq<FNode>)
    requires Ascending(a, |nodes|) && 0 < |a|
    ensures |r| == |nodes|
    ensures forall m :: 0 <= m < |a| ==> r[a[m]] == FNode(a[m], Successor(a, m))
    ensures forall b :: 0 <= b < |nodes| && b !in a ==> r[b] == nodes[b]
  {
    var last := a[|a| - 1];
    var linked := LinkNodes(nodes, a, 0);
    var terminated := linked[last := SetNext(linked[last], NONE)];
    RelinkLinks(nodes, a);
    RelinkFrame(nodes, a);
    SetBlockIndices(terminated, a, 0)
  }

  /** `Relink` leaves the nodes outside `a` alone. */
  lemma RelinkFrame(nodes: seq<FNode>, a: seq<int>)
    requires Ascending(a, |nodes|) && 0 < |a|
    ensures
      var linked := LinkNodes(nodes, a, 0);
      var terminated := linked[a[|a| - 1] := SetNext(linked[a[|a| - 1]], NONE)];
      var r := SetBlockIndices(terminated, a, 0);
      forall b :: 0 <= b < |nodes| && b !in a ==> r[b] == nodes[b]
  {
    var last := a[|a| - 1];
    var linked := LinkNodes(nodes, a, 0);
    var terminated := linked[last := SetNext(linked[last], NONE)];
    var r := SetBlockIndices(terminated, a, 0);
    assert a[0..] == a;
    forall b | 0 <= b < |nodes| && b !in a
      ensures r[b] == nodes[b]
    {
      assert b !in a[0..|a| - 1] && b != last;
    }
  }

  /** `Relink` links the nodes of `a` in order. */
  lemma RelinkLinks(nodes: seq<FNode>, a: seq<int>)
    requires Ascending(a, |nodes|) && 0 < |a|
    ensures
      var linked := LinkNodes(nodes, a, 0);
      var terminated := linked[a[|a| - 1] := SetNext(linked[a[|a| - 1]], NONE)];
      var r := SetBlockIndices(terminated, a, 0);
      forall m :: 0 <= m < |a| ==> r[a[m]] == FNode(a[m], Successor(a, m))
  {
    var last := a[|a| - 1];
    var linked := LinkNodes(nodes, a, 0);
    var terminated := linked[last := SetNext(linked[last], NONE)];
    var r := SetBlockIndices(terminated, a, 0);
    forall m | 0 <= m < |a|
      ensures r[a[m]] == FNode(a[m], Successor(a, m))
    {
      assert r[a[m]] == SetBlockIndex(terminated[a[m]], a[m]);
      if m < |a| - 1 {
        assert a[m] < last;
        assert terminated[a[m]] == SetNext(nodes[a[m]], a[m + 1]);
      }
    }
  }

  /** The successful tail of `writeFile` once `a` holds the allocated
      blocks: mark them used, link them in order, store the content and
      point the entry at the new chain. */
  function Commit(s: FileSystem, i: int, a: seq<int>, contents: seq<byte>): (r: FileSystem)
    requires Shaped(s) && 0 <= i < MAXFILES && s.entries[i].Some?
    requires Ascending(a, s.maxBlocks) && 0 < |a| == CeilDiv(|contents|)
    ensures Shaped(r) && r.maxBlocks == s.maxBlocks
    ensures r.entries == s.entries[i := Some(FEntry(s.entries[i].value.filename, |contents|, a[0]))]
    ensures forall b :: 0 <= b < s.maxBlocks ==> r.freeList[b] == (s.freeList[b] && b !in a)
    ensures forall m :: 0 <= m < |a| ==> r.nodes[a[m]] == FNode(a[m], Successor(a, m))
    ensures forall b :: 0 <= b < s.maxBlocks && b !in a ==>
      r.nodes[b] == s.nodes[b] && r.disk[b] == s.disk[b]
    ensures forall x :: 0 <= x < |contents| ==> r.disk[a[BlockOf(x)]][OffsetOf(x)] == contents[x]
  {
    var e := s.entries[i].value;
    assert a[0..] == a;
    s.(freeList := MarkAll(s.freeList, a, false),
       nodes := Relink(s.nodes, a),
       disk := WriteBlocks(s.disk, a, contents, 0),
       entries := s.entries[i := Some(SetFilesize(SetFirstBlock(e, a[0]), |contents|))])
  }

  /** `writeFile`. An unknown name fails with nothing changed. Otherwise
      the file's old chain is released FIRST; then empty content leaves the
      file empty, too few free blocks fails (the rollback re-marks the
      collected blocks free, which they already are), and otherwise the
      `ceil(n / BLOCK_SIZE)` lowest free blocks become the new chain. */
  function WriteFile(s: FileSystem, name: string, contents: seq<byte>): (r: Step)
    requires Valid(s)
    requires |contents| <= SHORT_MAX && s.maxBlocks <= SHORT_MAX + 1
    ensures !Exists(s.entries, name) ==> r == Step(s, Failed(FileNotFound))
    ensures Exists(s.entries, name) ==> r.outcome in {Done, Failed(InsufficientSpace)}
    ensures Shaped(r.fs) && r.fs.maxBlocks == s.maxBlocks
  {
    match FindEntry(s.entries, name)
    case None => Step(s, Failed(FileNotFound))
    case Some(i) =>
      var freed := FreeFileBlocks(s, i);
      var needed := CeilDiv(|contents|);
      if needed == 0 then
        var e := freed.entries[i].value;
        Step(freed.(entries := freed.entries[i := Some(SetFirstBlock(SetFilesize(e, 0), NONE))]), Done)
      else
        var a := CollectFree(freed.freeList, 0, needed);
        if |a| < needed then
          Step(freed.(freeList := MarkAll(freed.freeList, a, true)), Failed(InsufficientSpace))
        else
          Step(Commit(freed, i, a, contents), Done)
  }
}
