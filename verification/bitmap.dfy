/** The free-block bitmap (`true` = free) and the two scans `writeFile`
    makes over it. */
module Bitmap {

  /** Number of free entries of `free` at index `i` or above. */
  function CountFree(free: seq<bool>, i: nat): nat
    requires i <= |free|
    decreases |free| - i
  {
    if i == |free| then 0
    else (if free[i] then 1 else 0) + CountFree(free, i + 1)
  }

  /** The allocation scan: walks the bitmap upwards from `i` and collects
      free indices until `needed` are found or the bitmap ends.
      The result is the `|r|` lowest free indices from `i` on, in ascending
      order; it is short of `needed` only when fewer are free. */
  function CollectFree(free: seq<bool>, i: nat, needed: nat): (r: seq<int>)
    requires i <= |free|
    decreases |free| - i
    ensures |r| == if needed <= CountFree(free, i) then needed else CountFree(free, i)
    ensures forall m :: 0 <= m < |r| ==> i <= r[m] < |free| && free[r[m]]
    ensures forall m, m' :: 0 <= m < m' < |r| ==> r[m] < r[m']
    ensures forall b, m :: i <= b < |free| && free[b] && b !in r && 0 <= m < |r| ==> r[m] < b
  {
    if i == |free| || needed == 0 then []
    else if free[i] then [i] + CollectFree(free, i + 1, needed - 1)
    else CollectFree(free, i + 1, needed)
  }

  /** Sets the bitmap entry of every index in `blocks` to `value`. */
  function MarkAll(free: seq<bool>, blocks: seq<int>, value: bool): (r: seq<bool>)
    requires forall m :: 0 <= m < |blocks| ==> 0 <= blocks[m] < |free|
    ensures |r| == |free|
    ensures forall b :: 0 <= b < |free| ==> r[b] == if b in blocks then value else free[b]
    decreases |blocks|
  {
    if blocks == [] then free
    else MarkAll(free[blocks[0] := value], blocks[1..], value)
  }

  /** Marking blocks free that already are changes nothing: the rollback
      of a failed allocation is a no-op on the bitmap. */
  lemma MarkFreeUnchanged(free: seq<bool>, blocks: seq<int>)
    requires forall m :: 0 <= m < |blocks| ==> 0 <= blocks[m] < |free| && free[blocks[m]]
    ensures MarkAll(free, blocks, true) == free
  {
    var r := MarkAll(free, blocks, true);
    forall b | 0 <= b < |free|
      ensures r[b] == free[b]
    {
      if b in blocks {
        var m :| 0 <= m < |blocks| && blocks[m] == b;
      }
    }
  }

  /** Freeing one used block adds one to the count of free blocks at or
      below it. */
  lemma {:induction false} CountFlip(free: seq<bool>, b: int, i: nat)
    requires 0 <= b < |free| && !free[b] && i <= |free|
    ensures CountFree(free[b := true], i) == CountFree(free, i) + (if i <= b then 1 else 0)
    decreases |free| - i
  {
    if i < |free| {
      CountFlip(free, b, i + 1);
    }
  }

  /** Freeing the distinct used blocks `c` adds `|c|` free blocks. */
  lemma {:induction false} CountRelease(free: seq<bool>, free': seq<bool>, c: seq<int>)
    requires |free'| == |free|
    requires forall m :: 0 <= m < |c| ==> 0 <= c[m] < |free| && !free[c[m]]
    requires forall m, m' :: 0 <= m < m' < |c| ==> c[m] != c[m']
    requires forall b :: 0 <= b < |free| ==> free'[b] == (free[b] || b in c)
    ensures CountFree(free', 0) == CountFree(free, 0) + |c|
    decreases |c|
  {
    if c == [] {
      assert free' == free;
    } else {
      var g := free[c[0] := true];
      CountFlip(free, c[0], 0);
      assert c == [c[0]] + c[1..];
      assert forall b :: 0 <= b < |g| ==> free'[b] == (g[b] || b in c[1..]);
      CountRelease(g, free', c[1..]);
    }
  }
}
