/** The backing store: `MAXBLOCKS` blocks of `BLOCK_SIZE` bytes each.
    The Java code reaches a block by seeking to `blockIndex * BLOCK_SIZE`
    in a random-access file; here the store is a sequence of blocks and a
    seek followed by a read or write is an access to one block. */
module Disk {

  newtype byte = b: int | 0 <= b < 256

  const BLOCK_SIZE: nat := 128

  type Block = seq<byte>

  function Min(a: int, b: int): int
  {
    if a <= b then a else b
  }

  /** Position in a file's chain of the block holding byte `x`. */
  function BlockOf(x: nat): nat
  {
    x / BLOCK_SIZE
  }

  /** Offset of byte `x` within its block. */
  function OffsetOf(x: nat): nat
  {
    x % BLOCK_SIZE
  }

  /** Number of blocks `n` bytes occupy: the least `k` with
      `k * BLOCK_SIZE >= n`, so that every byte below `n` falls in one of
      the first `k` blocks. */
  function CeilDiv(n: nat): (k: nat)
    ensures k * BLOCK_SIZE >= n
    ensures k > 0 ==> (k - 1) * BLOCK_SIZE < n
    ensures forall x :: 0 <= x < n ==> BlockOf(x) < k
  {
    (n + BLOCK_SIZE - 1) / BLOCK_SIZE
  }

  /** Dropping the first block of a file shifts every later byte back by
      one block and keeps its offset. */
  lemma ShiftBlock(x: nat)
    requires x >= BLOCK_SIZE
    ensures BlockOf(x - BLOCK_SIZE) == BlockOf(x) - 1
    ensures OffsetOf(x - BLOCK_SIZE) == OffsetOf(x)
  {
  }

  /** Taking `min(BLOCK_SIZE, n)` bytes off a non-empty `n` leaves one block
      fewer to fill. */
  lemma CeilDivStep(n: nat)
    requires n > 0
    ensures CeilDiv(n - Min(BLOCK_SIZE, n)) == CeilDiv(n) - 1
  {
  }

  /** Reading a file whose blocks are `c`: the first `min(BLOCK_SIZE,
      remaining)` bytes of block `c[0]`, followed by the content of the
      blocks `c[1..]`, put byte `x` at offset `OffsetOf(x)` of block
      `c[BlockOf(x)]`. */
  lemma PrependBlock(disk: seq<Block>, c: seq<int>, remaining: nat, rest: seq<byte>)
    requires |c| == CeilDiv(remaining) && remaining > 0
    requires forall m :: 0 <= m < |c| ==> 0 <= c[m] < |disk| && |disk[c[m]]| == BLOCK_SIZE
    requires |rest| == remaining - Min(BLOCK_SIZE, remaining)
    requires forall y :: 0 <= y < |rest| ==> rest[y] == disk[c[1..][BlockOf(y)]][OffsetOf(y)]
    ensures forall x :: 0 <= x < remaining ==>
      (disk[c[0]][..Min(BLOCK_SIZE, remaining)] + rest)[x] == disk[c[BlockOf(x)]][OffsetOf(x)]
  {
    CeilDivStep(remaining);
    var toRead := Min(BLOCK_SIZE, remaining);
    var r := disk[c[0]][..toRead] + rest;
    forall x | 0 <= x < remaining
      ensures r[x] == disk[c[BlockOf(x)]][OffsetOf(x)]
    {
      if x >= toRead {
        ShiftBlock(x);
        assert r[x] == rest[x - toRead];
      }
    }
  }

  /** The buffer of zero bytes written over a block when it is freed. */
  function ZeroBlock(): (z: Block)
    ensures |z| == BLOCK_SIZE
    ensures forall o :: 0 <= o < |z| ==> z[o] == 0
  {
    seq(BLOCK_SIZE, _ => 0)
  }

  /** Writes `data` at the start of `block`; the bytes after it keep their
      previous value. */
  function WriteAt(block: Block, data: seq<byte>): (r: Block)
    requires |data| <= |block|
    ensures |r| == |block|
    ensures forall o :: 0 <= o < |data| ==> r[o] == data[o]
    ensures forall o :: |data| <= o < |block| ==> r[o] == block[o]
  {
    data + block[|data|..]
  }
}
