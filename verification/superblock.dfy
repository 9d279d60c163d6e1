/**
 * A superblock: a fixed-capacity buffer carved into equal-stride blocks whose
 * headers thread an intrusive LIFO stack of the free blocks.
 *
 * The buffer is an array of header-sized cells; a cell that starts a block holds
 * that block's header (next free block, owning superblock, size class), the
 * others are payload and are never read. Addresses are indices into this array
 * (see Layout). The stack's contents are kept as the ghost sequence `stack`,
 * top first, and every operation is proved against FreeStack.
 */
module Superblocks {
  import opened Layout
  import FreeStack

  /** The header in front of every block. `nextBlk` means something only while the block is free. */
  datatype BlockHeader = BlockHeader(nextBlk: int, owner: Superblock?, size: nat)

  /**
   * The addresses met by following `k` next-links from `start`, stopping early at
   * an address outside the buffer.
   */
  function Chain(mem: seq<BlockHeader>, start: int, k: nat): (r: seq<int>)
    ensures |r| <= k
    ensures forall i :: 0 <= i < |r| ==> 0 <= r[i] < |mem|
    ensures r != [] ==> r[0] == start
    decreases k
  {
    if k == 0 || !(0 <= start < |mem|) then []
    else [start] + Chain(mem, mem[start].nextBlk, k - 1)
  }

  /** The headers of `stack` lie in `mem` and each links to the one after it. */
  ghost predicate Linked(mem: seq<BlockHeader>, stack: seq<int>)
  {
    (forall i :: 0 <= i < |stack| ==> 0 <= stack[i] < |mem|) &&
    (forall i :: 0 <= i < |stack| - 1 ==> mem[stack[i]].nextBlk == stack[i + 1])
  }

  /** Following the links from the head of a linked stack visits exactly that stack. */
  lemma {:induction false} ChainOfLinked(mem: seq<BlockHeader>, head: int, stack: seq<int>)
    requires Linked(mem, stack)
    requires stack != [] ==> head == stack[0]
    ensures Chain(mem, head, |stack|) == stack
    decreases |stack|
  {
    if stack != [] {
      var rest := stack[1..];
      assert Linked(mem, rest);
      ChainOfLinked(mem, mem[head].nextBlk, rest);
    }
  }

  /** Headers that link each carved block to the next one make the carving a linked stack. */
  lemma CarvingLinked(mem: seq<BlockHeader>, n: nat, stride: nat)
    requires forall k: nat :: k < n ==> BlockAddr(k, stride) < |mem|
    requires forall k: nat :: k < n - 1 ==> mem[BlockAddr(k, stride)].nextBlk == BlockAddr(k, stride) + stride
    ensures Linked(mem, FreeStack.Carving(n, stride))
  {
  }

  /**
   * Bytes held by used blocks and by free blocks add up to those of all blocks,
   * are zero only when every block is free, and never exceed the capacity.
   */
  lemma UsedBytesFit(superblockSize: nat, sizeClassBytes: nat, h: nat, total: nat, free: nat)
    requires h > 0 && free <= total
    requires total == BlockCount(superblockSize, sizeClassBytes, h)
    ensures (total - free) * BlockSizeInBytes(sizeClassBytes, h) + free * BlockSizeInBytes(sizeClassBytes, h)
      == total * BlockSizeInBytes(sizeClassBytes, h)
    ensures (total - free) * BlockSizeInBytes(sizeClassBytes, h) == 0 <==> free == total
    ensures (total - free) * BlockSizeInBytes(sizeClassBytes, h) <= superblockSize
  {
    var stride := BlockSizeInHeaders(sizeClassBytes, h);
    var b := BlockSizeInBytes(sizeClassBytes, h);
    var used := total - free;
    MulSplit(used, free, b);
    if used > 0 {
      MulMonotone(1, used, b);
    }
    MulMonotone(used, total, stride);
    MulMonotone(used * stride, superblockSize / h, h);
    DivModBounds(superblockSize, h);
    MulAssoc(used, stride, h);
  }

  lemma MulSplit(u: nat, f: nat, b: nat)
    ensures u * b + f * b == (u + f) * b
  {
  }

  lemma MulAssoc(x: nat, y: nat, z: nat)
    ensures x * (y * z) == (x * y) * z
  {
  }

  class Superblock {
    /** The width of one block header in bytes. */
    const headerWidth: nat
    /** The capacity of the block buffer in bytes (SUPERBLOCK_SIZE). */
    const superblockSize: nat

    var sizeClassBytes: nat
    /** The number of blocks carved (_NoBlks). */
    var total: nat
    /** The number of free blocks (_NoFreeBlks). */
    var freeCount: nat
    /** The top of the free-block stack (_pFreeBlkStack); meaningful while freeCount > 0. */
    var head: int
    /** Neighbours in the size class's list of superblocks. */
    var prevSb: Superblock?
    var nextSb: Superblock?
    /** The block buffer, in header units. */
    var buff: array<BlockHeader>

    /** The free blocks' header addresses, top of the stack first. */
    ghost var stack: seq<int>

    function Stride(): nat
      reads this
      requires headerWidth > 0
    {
      BlockSizeInHeaders(sizeClassBytes, headerWidth)
    }

    /** Every carved block's header names this superblock as owner and carries its size class. */
    ghost predicate Stamped()
      reads this, buff
      requires headerWidth > 0
    {
      forall k: nat :: k < total ==>
        BlockAddr(k, Stride()) < buff.Length
        && buff[BlockAddr(k, Stride())].owner == this
        && buff[BlockAddr(k, Stride())].size == sizeClassBytes
    }

    ghost predicate Valid()
      reads this, buff
    {
      headerWidth > 0 &&
      buff.Length == superblockSize / headerWidth &&
      total == BlockCount(superblockSize, sizeClassBytes, headerWidth) &&
      freeCount <= total &&
      |stack| == freeCount &&
      (forall i :: 0 <= i < |stack| ==> IsBlockAddr(stack[i], Stride(), total)) &&
      FreeStack.Distinct(stack) &&
      (freeCount > 0 ==> head == stack[0]) &&
      Linked(buff[..], stack) &&
      Stamped()
    }

    /**
     * Carve a fresh buffer into blocks of `sizeClassBytes` and stack them all,
     * first block on top. The buffer's initial contents are arbitrary.
     */
    constructor (sizeClassBytes: nat, superblockSize: nat, headerWidth: nat)
      requires headerWidth > 0
      requires BlockCount(superblockSize, sizeClassBytes, headerWidth) >= 1
      ensures Valid() && fresh(buff)
      ensures this.sizeClassBytes == sizeClassBytes
      ensures this.superblockSize == superblockSize && this.headerWidth == headerWidth
      ensures total == freeCount == BlockCount(superblockSize, sizeClassBytes, headerWidth)
      ensures prevSb == null && nextSb == null
      ensures head == 0
      ensures stack == FreeStack.Carving(total, Stride())
      ensures forall k: nat :: k < total - 1 ==> buff[BlockAddr(k, Stride())].nextBlk == BlockAddr(k, Stride()) + Stride()
      ensures total >= 2 ==> buff[BlockAddr(total - 1, Stride())].nextBlk == Null
      ensures forall k: nat :: k < total ==>
        buff[BlockAddr(k, Stride())].owner == this && buff[BlockAddr(k, Stride())].size == sizeClassBytes
    {
      var blockOffset := BlockSizeInHeaders(sizeClassBytes, headerWidth);
      var numberOfBlocks := BlockCount(superblockSize, sizeClassBytes, headerWidth);
      this.headerWidth := headerWidth;
      this.superblockSize := superblockSize;
      this.sizeClassBytes := sizeClassBytes;
      total, freeCount := numberOfBlocks, numberOfBlocks;
      prevSb, nextSb := null, null;
      buff := new BlockHeader[superblockSize / headerWidth];
      head := 0;
      stack := FreeStack.Carving(numberOfBlocks, blockOffset);
      new;
      var p := 0;
      buff[p] := buff[p].(owner := this, size := sizeClassBytes);
      var i := 0;
      label Carve:
      while i < numberOfBlocks - 1
        invariant unchanged@Carve(this)
        invariant 0 <= i <= numberOfBlocks - 1
        invariant p == BlockAddr(i, blockOffset)
        invariant forall k: nat :: k <= i ==>
          BlockAddr(k, blockOffset) < buff.Length
          && buff[BlockAddr(k, blockOffset)].owner == this
          && buff[BlockAddr(k, blockOffset)].size == sizeClassBytes
        invariant forall k: nat :: k < i ==> buff[BlockAddr(k, blockOffset)].nextBlk == BlockAddr(k, blockOffset) + blockOffset
        invariant i > 0 ==> buff[p].nextBlk == Null
      {
        BlockAddrAscending(i + 1, numberOfBlocks, blockOffset);
        CarvedBlocksFit(superblockSize, sizeClassBytes, headerWidth);
        forall k: nat | k <= i
          ensures BlockAddr(k, blockOffset) + blockOffset <= BlockAddr(i + 1, blockOffset)
        {
          BlockAddrAscending(k, i + 1, blockOffset);
        }
        var pPrev := p;
        p := p + blockOffset;
        buff[pPrev] := buff[pPrev].(nextBlk := p);
        buff[p] := BlockHeader(Null, this, sizeClassBytes);
        i := i + 1;
      }
      CarvingLinked(buff[..], numberOfBlocks, blockOffset);
      FreeStack.CarvingAscending(numberOfBlocks, blockOffset);
    }

    /**
     * Pop the top free block: the null pointer and no change when no block is
     * free; otherwise the old head, whose link is cleared and whose owner stays.
     */
    method PopBlock() returns (blk: int)
      requires Valid()
      modifies this`head, this`freeCount, this`stack, buff
      ensures Valid()
      ensures (blk, stack) == FreeStack.Pop(old(stack))
      ensures old(freeCount) == 0 ==>
        blk == Null && head == old(head) && freeCount == 0 && buff[..] == old(buff[..])
      ensures old(freeCount) > 0 ==>
        blk == old(head) && freeCount == old(freeCount) - 1
        && head == old(buff[head].nextBlk)
        && buff[..] == old(buff[..])[blk := old(buff[blk]).(nextBlk := Null)]
        && buff[blk].owner == this
    {
      if freeCount == 0 {
        return Null;
      }
      var pTail := head;
      head := buff[head].nextBlk;
      freeCount := freeCount - 1;
      buff[pTail] := buff[pTail].(nextBlk := Null);
      stack := stack[1..];
      blk := pTail;
    }

    /**
     * Push `blk` on top of the free stack: refused, with nothing changed, when
     * every block is already free; otherwise its link becomes the old head.
     * When the superblock is not full the caller must hand back one of its own
     * blocks that is not free already: nothing here checks that.
     */
    method PushBlock(blk: int) returns (sb: Superblock?)
      requires Valid()
      requires freeCount == total || (IsBlockAddr(blk, Stride(), total) && blk !in stack)
      modifies this`head, this`freeCount, this`stack, buff
      ensures Valid()
      ensures sb == (if old(freeCount) == total then null else this)
      ensures (sb != null, stack) == FreeStack.Push(old(stack), total, blk)
      ensures old(freeCount) == total ==>
        head == old(head) && freeCount == old(freeCount) && buff[..] == old(buff[..])
      ensures old(freeCount) < total ==>
        head == blk && freeCount == old(freeCount) + 1
        && buff[..] == old(buff[..])[blk := old(buff[blk]).(nextBlk := old(head))]
    {
      if freeCount == total {
        return null;
      }
      HeaderOfBlock(blk);
      buff[blk] := buff[blk].(nextBlk := head);
      head := blk;
      freeCount := freeCount + 1;
      stack := [blk] + stack;
      sb := this;
    }

    /**
     * Hand out a block: the payload address one header past the popped header.
     * Callers pick a superblock with a free block; the empty case is not handled.
     */
    method Allocate() returns (ptr: int)
      requires Valid() && freeCount > 0
      modifies this`head, this`freeCount, this`stack, buff
      ensures Valid()
      ensures ptr == PayloadOf(old(head)) && HeaderForPtr(ptr) == old(stack)[0]
      ensures stack == old(stack)[1..] && freeCount == old(freeCount) - 1
      ensures IsBlockAddr(HeaderForPtr(ptr), Stride(), total) && HeaderForPtr(ptr) !in stack
      ensures SuperblockForPtr(ptr) == this && buff[HeaderForPtr(ptr)].size == sizeClassBytes
      ensures head == old(buff[head].nextBlk)
      ensures buff[..] == old(buff[..])[old(head) := old(buff[head]).(nextBlk := Null)]
    {
      var block := PopBlock();
      HeaderOfBlock(block);
      ptr := PayloadOf(block);
    }

    /** Return block `blk` to this superblock; `ok` is false when the superblock was already full. */
    method FreeBlock(blk: int) returns (ok: bool)
      requires Valid()
      requires freeCount == total || (IsBlockAddr(blk, Stride(), total) && blk !in stack)
      modifies this`head, this`freeCount, this`stack, buff
      ensures Valid()
      ensures ok <==> old(freeCount) < total
      ensures (ok, stack) == FreeStack.Push(old(stack), total, blk)
      ensures ok ==> head == blk && freeCount == old(freeCount) + 1
      ensures ok ==> buff[..] == old(buff[..])[blk := old(buff[blk]).(nextBlk := old(head))]
      ensures !ok ==> head == old(head) && freeCount == old(freeCount) && buff[..] == old(buff[..])
    {
      var sb := PushBlock(blk);
      ok := sb != null;
    }

    /** Bytes taken by the blocks in use, header included. */
    function BytesUsed(): (r: nat)
      reads this
      requires headerWidth > 0 && freeCount <= total
      requires total == BlockCount(superblockSize, sizeClassBytes, headerWidth)
      ensures r + freeCount * BlockSizeInBytes(sizeClassBytes, headerWidth)
        == total * BlockSizeInBytes(sizeClassBytes, headerWidth)
      ensures r <= superblockSize
      ensures r == 0 <==> freeCount == total
    {
      UsedBytesFit(superblockSize, sizeClassBytes, headerWidth, total, freeCount);
      (total - freeCount) * BlockSizeInBytes(sizeClassBytes, headerWidth)
    }

    /** The superblock recorded in the header in front of payload `ptr`. */
    function SuperblockForPtr(ptr: int): (sb: Superblock?)
      reads this, buff
      requires Valid()
      requires IsBlockAddr(HeaderForPtr(ptr), Stride(), total)
      ensures sb == this
    {
      HeaderOfBlock(HeaderForPtr(ptr));
      buff[HeaderForPtr(ptr)].owner
    }

    /** The header of every carved block lies in the buffer and is stamped with this superblock. */
    lemma HeaderOfBlock(a: int)
      requires Valid() && IsBlockAddr(a, Stride(), total)
      ensures 0 <= a < buff.Length && buff[a].owner == this && buff[a].size == sizeClassBytes
    {
      var k := BlockIndexOf(a, Stride(), total);
    }

    /** The free count equals the number of headers reachable from the stack's head. */
    lemma FreeBlocksReachable()
      requires Valid()
      ensures Chain(buff[..], head, freeCount) == stack
      ensures |Chain(buff[..], head, freeCount)| == freeCount
    {
      ChainOfLinked(buff[..], head, stack);
    }

    /** Relabel the superblock's size class, as is done for a large allocation outside the size classes. */
    method MakeDummy(bytes: nat) returns (sb: Superblock)
      modifies this`sizeClassBytes
      ensures sb == this && sizeClassBytes == bytes
    {
      sizeClassBytes := bytes;
      sb := this;
    }
  }
}
