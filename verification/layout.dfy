/**
 * Block layout of a superblock: the stride between block headers, the number of
 * blocks carved out of the buffer, and the header <-> payload pointer arithmetic.
 *
 * Addresses are measured in header units (multiples of the header width `h`)
 * from the start of the superblock's buffer: block k's header sits at
 * `BlockAddr(k, stride)` and the pointer handed to the user is one header later.
 * The superblock capacity (SUPERBLOCK_SIZE) and the header width are parameters.
 */
module Layout {

  /** The null pointer, as a header-unit address no block ever has. */
  const Null: int := -1

  /**
   * The distance between consecutive block headers, in header units, for a size
   * class of `sizeClassBytes` bytes: one header plus enough headers to hold the payload.
   */
  function BlockSizeInHeaders(sizeClassBytes: nat, h: nat): (stride: nat)
    requires h > 0
    ensures stride * h >= sizeClassBytes + h
    ensures stride * h < sizeClassBytes + 2 * h
    ensures stride >= 1
  {
    var x := sizeClassBytes + 2 * h - 1;
    DivModBounds(x, h);
    x / h
  }

  /** The same distance in bytes. */
  function BlockSizeInBytes(sizeClassBytes: nat, h: nat): (bytes: nat)
    requires h > 0
    ensures bytes >= sizeClassBytes + h
    ensures bytes < sizeClassBytes + 2 * h
    ensures bytes % h == 0
  {
    var stride := BlockSizeInHeaders(sizeClassBytes, h);
    MultipleMod(stride, h);
    stride * h
  }

  /**
   * How many blocks a superblock of `superblockSize` bytes is carved into: the
   * largest count of whole blocks that fit in the buffer's header units.
   */
  function BlockCount(superblockSize: nat, sizeClassBytes: nat, h: nat): (n: nat)
    requires h > 0
    ensures n * BlockSizeInHeaders(sizeClassBytes, h) <= superblockSize / h
    ensures (n + 1) * BlockSizeInHeaders(sizeClassBytes, h) > superblockSize / h
  {
    var units := superblockSize / h;
    var stride := BlockSizeInHeaders(sizeClassBytes, h);
    DivModBounds(units, stride);
    units / stride
  }

  /** The header address of block `k`: `k` strides from the start of the buffer. */
  function BlockAddr(k: nat, stride: nat): nat
  {
    k * stride
  }

  /** `a` is the header address of one of the first `n` blocks. */
  ghost predicate IsBlockAddr(a: int, stride: nat, n: nat)
  {
    exists k :: 0 <= k < n && BlockAddr(k, stride) == a
  }

  /** The pointer handed to the user for the block whose header is at `hdr`. */
  function PayloadOf(hdr: int): int
  {
    hdr + 1
  }

  /** The header of the block whose payload starts at `ptr`. */
  function HeaderForPtr(ptr: int): (hdr: int)
    ensures PayloadOf(hdr) == ptr
  {
    ptr - 1
  }

  lemma DivModBounds(x: nat, d: nat)
    requires d > 0
    ensures (x / d) * d <= x < (x / d) * d + d
  {
    assert x == (x / d) * d + x % d;
  }

  lemma MultipleMod(q: nat, d: nat)
    requires d > 0
    ensures (q * d) % d == 0 && (q * d) / d == q
  {
    var y := q * d;
    DivModBounds(y, d);
    var r := y / d;
    if r < q {
      MulMonotone(r + 1, q, d);
    } else if r > q {
      MulMonotone(q + 1, r, d);
    }
  }

  lemma MulMonotone(j: int, k: int, stride: nat)
    requires 0 <= j <= k
    ensures j * stride <= k * stride
  {
  }

  /** Headers of earlier blocks lie at least a whole stride below those of later ones. */
  lemma {:induction false} BlockAddrAscending(j: nat, k: nat, stride: nat)
    requires j < k
    ensures BlockAddr(j, stride) + stride <= BlockAddr(k, stride)
  {
    MulMonotone(j + 1, k, stride);
    assert (j + 1) * stride == j * stride + stride;
  }

  /**
   * Every block address names one block `k` of the first `n`, and that block's
   * whole stride lies below the end of block `n - 1`.
   */
  lemma BlockIndexOf(a: int, stride: nat, n: nat) returns (k: nat)
    requires IsBlockAddr(a, stride, n)
    ensures k < n && a == BlockAddr(k, stride)
    ensures a + stride <= BlockAddr(n, stride)
  {
    k :| 0 <= k < n && BlockAddr(k, stride) == a;
    BlockAddrAscending(k, n, stride);
  }

  /** The `n` carved blocks end within the buffer's header units. */
  lemma CarvedBlocksFit(superblockSize: nat, sizeClassBytes: nat, h: nat)
    requires h > 0
    ensures BlockAddr(BlockCount(superblockSize, sizeClassBytes, h), BlockSizeInHeaders(sizeClassBytes, h))
      <= superblockSize / h
  {
  }

  /**
   * Every block carved out of a superblock holds its header and its whole payload,
   * and every block ends inside the superblock's buffer.
   */
  lemma {:induction false} PayloadFitsInBlock(superblockSize: nat, sizeClassBytes: nat, h: nat, k: nat)
    requires h > 0
    requires k < BlockCount(superblockSize, sizeClassBytes, h)
    ensures var stride := BlockSizeInHeaders(sizeClassBytes, h);
      var hdr := BlockAddr(k, stride);
      hdr * h < PayloadOf(hdr) * h <= PayloadOf(hdr) * h + sizeClassBytes
      && PayloadOf(hdr) * h + sizeClassBytes <= (hdr + stride) * h
      && (hdr + stride) * h <= superblockSize
  {
    var stride := BlockSizeInHeaders(sizeClassBytes, h);
    var n := BlockCount(superblockSize, sizeClassBytes, h);
    var hdr := BlockAddr(k, stride);
    BlockAddrAscending(k, n, stride);
    CarvedBlocksFit(superblockSize, sizeClassBytes, h);
    assert PayloadOf(hdr) * h == hdr * h + h;
    assert (hdr + stride) * h == hdr * h + stride * h;
    MulMonotone(hdr + stride, superblockSize / h, h);
    DivModBounds(superblockSize, h);
  }

  /**
   * With 16-byte headers a 48-byte size class has a stride of 4 headers (64
   * bytes), so a 4096-byte superblock is carved into 64 blocks.
   */
  lemma StrideExample()
    ensures BlockSizeInHeaders(48, 16) == 4 && BlockSizeInBytes(48, 16) == 64
    ensures BlockCount(4096, 48, 16) == 64
  {
  }
}
