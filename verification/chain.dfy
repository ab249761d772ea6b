/** Block chains: a file's blocks form a singly linked list threaded
    through the node table by the `next` field, starting at the entry's
    first node and ending at `-1`. */
module Chains {
  import opened FNodes

  /** The walk from `cur` reaches `-1` through nodes of strictly increasing
      index, never leaving the table. `writeFile` links the blocks it
      allocates in ascending order, so every chain it builds is of this
      shape, and the rising index is what makes the walks terminate. */
  predicate WellFormed(nodes: seq<FNode>, cur: int)
    decreases |nodes| - cur
  {
    cur == NONE ||
    (0 <= cur < |nodes| &&
     (nodes[cur].next == NONE ||
      (cur < nodes[cur].next && WellFormed(nodes, nodes[cur].next))))
  }

  /** The node indices the walk `while (cur != -1) { ...; cur = next }`
      visits from `cur`, in order. The walk stops at an index outside the
      table and at a link that does not point upwards, so it is defined
      everywhere; on a well-formed chain it is exactly the walk of the Java loops. */
  function Chain(nodes: seq<FNode>, cur: int): (c: seq<int>)
    decreases |nodes| - cur
    ensures |c| == 0 <==> !(0 <= cur < |nodes|)
    ensures |c| > 0 ==> c[0] == cur
    ensures forall m :: 0 <= m < |c| ==> cur <= c[m] < |nodes|
    ensures forall k :: k in c ==> cur <= k < |nodes|
    ensures forall m, m' :: 0 <= m < m' < |c| ==> c[m] < c[m']
  {
    if cur < 0 || cur >= |nodes| then []
    else if nodes[cur].next <= cur then [cur]
    else [cur] + Chain(nodes, nodes[cur].next)
  }

  /** Termination measure of a walk standing at `cur`: the number of table
      slots from `cur` on, and 0 once the walk has left the table. It drops
      on every step of a well-formed chain, including the last one to `-1`. */
  function Rank(nodes: seq<FNode>, cur: int): nat
  {
    if 0 <= cur < |nodes| then |nodes| - cur else 0
  }

  /** One step of the walk: a well-formed chain is its first node followed
      by the chain of that node's successor. */
  lemma ChainStep(nodes: seq<FNode>, cur: int)
    requires WellFormed(nodes, cur) && cur != NONE
    ensures WellFormed(nodes, nodes[cur].next)
    ensures Chain(nodes, cur) == [cur] + Chain(nodes, nodes[cur].next)
    ensures Rank(nodes, nodes[cur].next) < Rank(nodes, cur)
  {
  }

  /** A chain depends only on the nodes it visits: changing other nodes of
      the table leaves it, and its well-formedness, as they were. */
  lemma {:induction false} ChainFrame(nodes: seq<FNode>, nodes': seq<FNode>, cur: int)
    requires |nodes'| == |nodes|
    requires forall k :: k in Chain(nodes, cur) ==> nodes'[k] == nodes[k]
    ensures Chain(nodes', cur) == Chain(nodes, cur)
    ensures WellFormed(nodes', cur) == WellFormed(nodes, cur)
    decreases |nodes| - cur
  {
    if 0 <= cur < |nodes| {
      assert cur in Chain(nodes, cur);
      var next := nodes[cur].next;
      if cur < next {
        assert forall k :: k in Chain(nodes, next) ==> k in Chain(nodes, cur);
        ChainFrame(nodes, nodes', next);
      }
    }
  }

  /** The node index that follows position `m` of the list `a` in a chain
      laid over it: the next entry, or `-1` after the last. */
  function Successor(a: seq<int>, m: int): int
    requires 0 <= m < |a|
  {
    if m + 1 < |a| then a[m + 1] else NONE
  }

  /** The links `writeFile` lays over an ascending list of node indices
      (each node points at the following one, the last at `-1`) form a
      well-formed chain that visits exactly that list, from any position
      on. */
  lemma {:induction false} LinkedChain(nodes: seq<FNode>, a: seq<int>, m: nat)
    requires m < |a|
    requires forall j :: 0 <= j < |a| ==> 0 <= a[j] < |nodes|
    requires forall j, j' :: 0 <= j < j' < |a| ==> a[j] < a[j']
    requires forall j :: 0 <= j < |a| ==>
      nodes[a[j]].next == Successor(a, j)
    ensures WellFormed(nodes, a[m])
    ensures Chain(nodes, a[m]) == a[m..]
    decreases |a| - m
  {
    if m + 1 < |a| {
      LinkedChain(nodes, a, m + 1);
      assert a[m..] == [a[m]] + a[m + 1..];
    } else {
      assert a[m..] == [a[m]];
    }
  }

  /** A node fresh from the constructor ends its chain at once. */
  lemma FreshNodeIsTerminal(nodes: seq<FNode>, k: int)
    requires 0 <= k < |nodes|
    ensures WellFormed(nodes[k := NewNode(k)], k)
    ensures Chain(nodes[k := NewNode(k)], k) == [k]
  {
  }
}
