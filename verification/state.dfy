/** The in-memory state of the file system manager and the invariant every
    operation keeps. */
module FsState {
  import opened Status
  import opened FNodes
  import opened FEntries
  import opened Disk
  import opened Chains

  /** Number of file entry slots. */
  const MAXFILES: nat := 5

  /** Longest accepted file name, in UTF-16 code units. */
  const MAX_NAME_LENGTH: nat := 11

  /** Length of `s` as Java's `String.length()` counts it: in UTF-16 code
      units, where a character outside the Basic Multilingual Plane takes
      two (a surrogate pair) and every other character one. */
  function Utf16Length(s: string): (n: nat)
    ensures |s| <= n <= 2 * |s|
    ensures n == |s| <==> forall k :: 0 <= k < |s| ==> (s[k] as int) < 0x1_0000
    ensures n == 2 * |s| <==> forall k :: 0 <= k < |s| ==> (s[k] as int) >= 0x1_0000
  {
    if s == [] then 0
    else (if (s[0] as int) < 0x1_0000 then 1 else 2) + Utf16Length(s[1..])
  }

  /** Largest value of a Java `short`, the type sizes and first-node
      indices are stored as. */
  const SHORT_MAX: nat := 32767

  /** The entry table (`null` = empty slot), the node table with one node
      per block, the free-block bitmap and the blocks of the backing file. */
  datatype FileSystem = FileSystem(
    maxBlocks: nat,
    entries: seq<Option<FEntry>>,
    nodes: seq<FNode>,
    freeList: seq<bool>,
    disk: seq<Block>)

  /** The slot holds a live entry called `name`. */
  predicate Named(slot: Option<FEntry>, name: string)
  {
    slot.Some? && slot.value.filename == name
  }

  /** Some slot holds a live entry called `name`. */
  predicate Exists(entries: seq<Option<FEntry>>, name: string)
  {
    exists i :: 0 <= i < |entries| && Named(entries[i], name)
  }

  /** First node of slot `i`'s chain, `-1` for an empty slot. */
  function Head(s: FileSystem, i: int): int
    requires 0 <= i < |s.entries|
  {
    if s.entries[i].Some? then s.entries[i].value.firstBlock else NONE
  }

  /** The node indices on slot `i`'s chain, in chain order. */
  function ChainOf(s: FileSystem, i: int): seq<int>
    requires 0 <= i < |s.entries|
  {
    Chain(s.nodes, Head(s, i))
  }

  /** Block `b` lies on some live file's chain. */
  predicate InUse(s: FileSystem, b: int)
  {
    exists i :: 0 <= i < |s.entries| && b in ChainOf(s, i)
  }

  /** The tables have the sizes the constructor gives them. */
  predicate Shaped(s: FileSystem)
  {
    && |s.entries| == MAXFILES
    && |s.nodes| == s.maxBlocks
    && |s.freeList| == s.maxBlocks
    && |s.disk| == s.maxBlocks
    && (forall b :: 0 <= b < |s.disk| ==> |s.disk[b]| == BLOCK_SIZE)
  }

  /** A live entry has a short name, a size of `ceil(size / BLOCK_SIZE)`
      chain nodes, a first node of `-1` exactly when it is empty, and a
      well-formed chain whose node `k` refers to block `k`. */
  predicate SlotValid(s: FileSystem, i: int)
    requires 0 <= i < |s.entries|
  {
    match s.entries[i]
    case None => true
    case Some(e) =>
      && Utf16Length(e.filename) <= MAX_NAME_LENGTH
      && 0 <= e.filesize
      && (e.firstBlock == NONE <==> e.filesize == 0)
      && WellFormed(s.nodes, e.firstBlock)
      && |Chain(s.nodes, e.firstBlock)| == CeilDiv(e.filesize)
      && (forall k :: k in Chain(s.nodes, e.firstBlock) ==> s.nodes[k].blockIndex == k)
  }

  /** No two live entries share a name. */
  predicate UniqueNames(entries: seq<Option<FEntry>>)
  {
    forall i, j :: 0 <= i < j < |entries| && entries[i].Some? && entries[j].Some? ==>
      entries[i].value.filename != entries[j].value.filename
  }

  /** No block lies on two chains. */
  predicate Disjoint(s: FileSystem)
  {
    forall i, j, k :: 0 <= i < |s.entries| && 0 <= j < |s.entries| && i != j && k in ChainOf(s, i) ==>
      k !in ChainOf(s, j)
  }

  /** The bitmap marks a block free exactly when no chain holds it, and a
      node no chain holds is in the state the constructor leaves it in. */
  predicate BitmapExact(s: FileSystem)
    requires Shaped(s)
  {
    && (forall b :: 0 <= b < s.maxBlocks ==> (s.freeList[b] <==> !InUse(s, b)))
    && (forall b :: 0 <= b < s.maxBlocks && !InUse(s, b) ==> s.nodes[b] == FNode(NONE, NONE))
  }

  /** The invariant of the manager's state. */
  predicate Valid(s: FileSystem)
  {
    && Shaped(s)
    && (forall i :: 0 <= i < |s.entries| ==> SlotValid(s, i))
    && UniqueNames(s.entries)
    && Disjoint(s)
    && BitmapExact(s)
  }

  /** `data` is what slot `i` holds: its size many bytes, byte `x` stored at
      offset `OffsetOf(x)` of the `BlockOf(x)`-th block of its chain. */
  predicate Content(s: FileSystem, i: int, data: seq<byte>)
    requires Valid(s) && 0 <= i < |s.entries| && s.entries[i].Some?
  {
    assert SlotValid(s, i);
    var c := ChainOf(s, i);
    && |data| == s.entries[i].value.filesize
    && forall x :: 0 <= x < |data| ==> data[x] == s.disk[c[BlockOf(x)]][OffsetOf(x)]
  }
}
