/**
 * The abstract free-block stack of one superblock: the header addresses of its
 * free blocks, top of the stack first, bounded by the superblock's block count.
 * Superblocks.Superblock keeps this sequence as ghost state and proves each of
 * its in-place operations against the functions below.
 */
module FreeStack {
  import opened Layout

  ghost predicate Distinct(s: seq<int>)
  {
    forall i, j :: 0 <= i < j < |s| ==> s[i] != s[j]
  }

  /**
   * Pop the top block: the null pointer and no change on an empty stack,
   * otherwise the top block and the stack beneath it.
   */
  function Pop(free: seq<int>): (r: (int, seq<int>))
    ensures free == [] ==> r == (Null, free)
    ensures free != [] ==> [r.0] + r.1 == free
    ensures free != [] && Distinct(free) ==> Distinct(r.1) && r.0 !in r.1
  {
    if |free| == 0 then (Null, free) else (free[0], free[1..])
  }

  /**
   * Push `blk` onto a stack that may hold at most `total` blocks: refused, with
   * no change, exactly when the stack already holds `total` blocks.
   */
  function Push(free: seq<int>, total: nat, blk: int): (r: (bool, seq<int>))
    ensures r.0 <==> |free| != total
    ensures !r.0 ==> r.1 == free
    ensures r.0 ==> |r.1| == |free| + 1 && Pop(r.1) == (blk, free)
    ensures |free| <= total && Distinct(free) && blk !in free ==> |r.1| <= total && Distinct(r.1)
  {
    if |free| == total then (false, free) else (true, [blk] + free)
  }

  /** Pop `k` times; the popped blocks in the order they came out, and the remaining stack. */
  function PopMany(free: seq<int>, k: nat): (r: (seq<int>, seq<int>))
    ensures |r.0| == k
    ensures k <= |free| ==> r.0 == free[..k] && r.1 == free[k..]
  {
    if k == 0 then ([], free)
    else
      var (blk, rest) := Pop(free);
      var (popped, left) := PopMany(rest, k - 1);
      ([blk] + popped, left)
  }

  /** Push the blocks of `blks` one after the other, each subject to the bound `total`. */
  function PushMany(free: seq<int>, total: nat, blks: seq<int>): (r: seq<int>)
    ensures |free| + |blks| <= total ==>
      |r| == |free| + |blks| && r[|blks|..] == free
      && forall i :: 0 <= i < |blks| ==> r[i] == blks[|blks| - 1 - i]
    decreases |blks|
  {
    if blks == [] then free
    else PushMany(Push(free, total, blks[0]).1, total, blks[1..])
  }

  /**
   * Last in, first out: after pushing `blks` onto a stack with room for them,
   * popping as many blocks yields them in reverse order and restores the stack.
   */
  lemma {:induction false} PushManyThenPopMany(free: seq<int>, total: nat, blks: seq<int>)
    requires |free| + |blks| <= total
    ensures var (popped, rest) := PopMany(PushMany(free, total, blks), |blks|);
      rest == free && |popped| == |blks|
      && forall i :: 0 <= i < |blks| ==> popped[i] == blks[|blks| - 1 - i]
  {
  }

  /** The stack a freshly carved superblock of `n` blocks starts with: the blocks in address order. */
  function Carving(n: nat, stride: nat): seq<int>
  {
    seq(n, k requires 0 <= k < n => BlockAddr(k, stride))
  }

  /**
   * The carving lists the addresses of the `n` blocks in strictly ascending
   * order, each distinct.
   */
  lemma {:induction false} CarvingAscending(n: nat, stride: nat)
    requires stride > 0
    ensures forall i :: 0 <= i < n ==> IsBlockAddr(Carving(n, stride)[i], stride, n)
    ensures forall i, j :: 0 <= i < j < n ==> Carving(n, stride)[i] < Carving(n, stride)[j]
    ensures Distinct(Carving(n, stride))
  {
    forall i | 0 <= i < n
      ensures IsBlockAddr(Carving(n, stride)[i], stride, n)
    {
      assert Carving(n, stride)[i] == BlockAddr(i, stride);
    }
    forall i, j | 0 <= i < j < n
      ensures Carving(n, stride)[i] < Carving(n, stride)[j]
    {
      BlockAddrAscending(i, j, stride);
    }
  }

  /**
   * A freshly carved superblock hands out its blocks in ascending address
   * order: the first `k` pops return the first `k` blocks of the buffer.
   */
  lemma {:induction false} FreshPopsInAddressOrder(n: nat, stride: nat, k: nat)
    requires stride > 0 && k <= n
    ensures PopMany(Carving(n, stride), k).0 == Carving(k, stride)
    ensures forall i, j :: 0 <= i < j < k ==> PopMany(Carving(n, stride), k).0[i] < PopMany(Carving(n, stride), k).0[j]
  {
    CarvingAscending(k, stride);
  }
}
