/** The node table's element: which block a node refers to, and which node
    follows it in its file's chain. */
module FNodes {

  /** The `-1` of the Java code: "no block" in `blockIndex`, "end of chain" in `next`. */
  const NONE: int := -1

  datatype FNode = FNode(blockIndex: int, next: int)

  /** `new FNode(blockIndex)`: the given block, and no successor. */
  function NewNode(blockIndex: int): (n: FNode)
    ensures n.blockIndex == blockIndex
    ensures n.next == NONE
  {
    FNode(blockIndex, NONE)
  }

  /** `setBlockIndex`: replaces the block and keeps the successor. */
  function SetBlockIndex(n: FNode, blockIndex: int): (n': FNode)
    ensures n'.blockIndex == blockIndex
    ensures n'.next == n.next
  {
    n.(blockIndex := blockIndex)
  }

  /** `setNext`: replaces the successor and keeps the block. */
  function SetNext(n: FNode, next: int): (n': FNode)
    ensures n'.next == next
    ensures n'.blockIndex == n.blockIndex
  {
    n.(next := next)
  }

  /** The two setters touch different fields, so their order does not matter;
      in particular the reset `freeFileBlocks` applies to a visited node
      (`setNext(-1)` then `setBlockIndex(-1)`) gives back the node the
      constructor builds for an unused slot. */
  lemma SettersCommute(n: FNode, blockIndex: int, next: int)
    ensures SetBlockIndex(SetNext(n, next), blockIndex) == SetNext(SetBlockIndex(n, blockIndex), next)
    ensures SetBlockIndex(SetNext(n, next), blockIndex) == FNode(blockIndex, next)
    ensures SetBlockIndex(SetNext(n, NONE), NONE) == NewNode(NONE)
  {
  }
}
