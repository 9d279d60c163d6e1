# Superblock engine of a Hoard-style allocator

This project models the superblock layer of a Hoard-style memory allocator (`superblock.c`). A superblock is a buffer of fixed capacity (`SUPERBLOCK_SIZE` bytes). It is carved into blocks of equal stride, all of one size class. Every block starts with a header that records:

- the superblock that owns it;
- its size class;
- while the block is free, the next free block.

Through those links the headers form an intrusive LIFO stack of the free blocks. A superblock keeps the stack's top, the number of free blocks and the total number of blocks. Blocks are popped to allocate and pushed back to free. A user pointer is the address one header past the block's header.

Three modules:

- `Layout` (`layout.dfy`) is pure arithmetic:
  - the stride formula, `(sizeClassBytes + 2h − 1) / h` headers, where `h` is the header width;
  - the block count, `(SUPERBLOCK_SIZE / h) / stride`;
  - block addresses;
  - the step between header and payload.

  `SUPERBLOCK_SIZE` and `h` are parameters. Addresses count header units from the start of the buffer: block `k`'s header is at `BlockAddr(k, stride)` (k strides in), and its payload one unit later. The null pointer is `Null` (−1).
- `FreeStack` (`free_stack.dfy`) is the abstract free-block stack: a sequence of header addresses, top first. It defines pop, push bounded by the block count, repeated pops and pushes, and the order in which a fresh superblock hands out its blocks.
- `Superblocks` (`superblock.dfy`) holds the class `Superblock` itself:
  - the metadata fields (size class, total, free count, stack top, list neighbours);
  - the buffer as an `array<BlockHeader>` of header-sized cells;
  - a ghost `stack` tying the in-place state to `FreeStack`.

  `Valid()` states what must hold between those parts:
  - the ghost stack is distinct and holds only carved blocks;
  - its length is the free count, which is at most the total;
  - the top field is its first element;
  - each listed header links to the next one;
  - every carved header names this superblock as owner and carries its size class.

  Construction, pop, push, allocate and free are methods proved against `FreeStack`, and they keep `Valid()`.

Two details of the code shape the model:

- The stride is `(sizeClassBytes + 2h − 1) / h` headers, which is `1 + ceil(sizeClassBytes / h)` and not `ceil((sizeClassBytes + 2h) / h)`. For `h = 16` and a 48-byte class it is 4 headers, so a 4096-byte superblock holds 64 blocks (`Layout.StrideExample`).
- A push onto a full superblock is reported only by a null return, which `freeBlockFromSuperBlock` prints. The model returns a flag.

With exactly one block, the carving loop (superblock.c:68) never runs, so that block's link is never written, and the constructor promises the null end link only for two or more blocks. After a pop and a push that block links to whatever the old stack top was, so the free stack is not null-terminated. Only a walk bounded by the free count, as at superblock.c:161, is sound; `FreeBlocksReachable` states that walk.

## Model

| member | source | states |
|---|---|---|
| `Layout.BlockSizeInHeaders` | superblock.c:196-200 | the stride in headers leaves room for one header plus the whole payload (`stride*h >= s + h`) and wastes less than one header (`stride*h < s + 2h`); it is at least 1 |
| `Layout.BlockSizeInBytes` | superblock.c:202-204 | the block size in bytes is a multiple of the header width and lies in `[s + h, s + 2h)` |
| `Layout.BlockCount` | superblock.c:40-47 | the block count is the largest number of whole strides that fit in the buffer's header units: `n` of them fit, `n + 1` do not |
| `Layout.BlockAddrAscending` | superblock.c:68-72 | headers of later blocks lie at least one whole stride above those of earlier blocks (the carving loop's `p += blockOffset`) |
| `Layout.BlockIndexOf` | superblock.c:68-76 | every block address is the header of one carved block, and that block's whole stride ends before the end of the last carved block |
| `Layout.PayloadFitsInBlock` | superblock.c:43-47 | every carved block holds its header and then `sizeClassBytes` payload bytes within its stride, and ends inside the `SUPERBLOCK_SIZE`-byte buffer |
| `Layout.HeaderForPtr` | superblock.c:173-176 | the header found for a payload pointer is the one whose payload (header + 1, as handed out at superblock.c:113) is that pointer |
| `Layout.StrideExample` | superblock.c:196-204 | with 16-byte headers a 48-byte class has a stride of 4 headers (64 bytes), and a 4096-byte superblock holds 64 blocks |
| `FreeStack.Pop` | superblock.c:88-105 | popping an empty stack yields the null pointer and changes nothing; otherwise it yields the top block and the stack beneath it, which stays duplicate-free and no longer holds the popped block |
| `FreeStack.Push` | superblock.c:120-135 | a push is refused, with nothing changed, exactly when the stack already holds `total` blocks; otherwise the stack grows by one and popping it returns the pushed block and the original stack; a push of a block not already on the stack keeps the stack duplicate-free and within `total` |
| `FreeStack.PopMany` | superblock.c:88-105 | `k` successive pops from a stack of at least `k` blocks return its first `k` entries in stack order and leave the rest |
| `FreeStack.PushMany` | superblock.c:120-135 | successive pushes onto a stack with room for them put the pushed blocks on top in reverse order, above the unchanged original stack |
| `FreeStack.PushManyThenPopMany` | superblock.c:88-135 | last in, first out: popping as many blocks as were pushed returns them in reverse order and restores the original stack |
| `FreeStack.CarvingAscending` | superblock.c:58-76 | the initial stack of a fresh superblock lists block headers in strictly ascending address order, with no duplicates |
| `FreeStack.FreshPopsInAddressOrder` | superblock.c:58-105 | the first `k` pops from a fresh superblock return its first `k` blocks, in ascending address order |
| `Superblocks.Chain` | superblock.c:161 | following at most `k` links from a header yields at most `k` addresses, all inside the buffer, starting with the given one |
| `Superblocks.ChainOfLinked` | superblock.c:94-97 | following the links from the top of a linked stack visits exactly the stack's blocks, in order |
| `Superblocks.UsedBytesFit` | superblock.c:168-171 | bytes in used blocks plus bytes in free blocks equal the bytes of all blocks; used bytes are zero only when every block is free, and never exceed the superblock capacity |
| `Superblocks.Superblock.constructor` | superblock.c:37-82 | after carving, free count = total = block count; both list neighbours are null; the stack top is the first block of the buffer; the stack holds every block in address order; each block links to the block one stride later and the last one (when there are two or more) to null; every header names this superblock as owner and carries the size class; `Valid()` holds |
| `Superblocks.Superblock.PopBlock` | superblock.c:88-105 | with no free block: returns null and changes nothing. Otherwise: returns the old top; the top becomes that block's link; the free count drops by exactly one; only the popped header changes, its link cleared and its owner kept. The abstract stack follows `FreeStack.Pop`, and `Valid()` is preserved |
| `Superblocks.Superblock.PushBlock` | superblock.c:120-135 | when every block is free: returns null and changes nothing. Otherwise: the block becomes the top and links to the old top; the free count rises by exactly one; the superblock is returned. The abstract stack follows `FreeStack.Push`, and `Valid()` is preserved |
| `Superblocks.Superblock.Allocate` | superblock.c:107-115 | returns the payload address one header past the popped top; the header found for it is that block, no longer free, carrying this superblock as owner and the size class; the stack loses its top; the new top is the popped block's old link; the buffer changes only in the popped header, whose link is cleared |
| `Superblocks.Superblock.FreeBlock` | superblock.c:189-194 | pushes the block back; the returned flag is false exactly when the superblock was already full, in which case nothing changes; otherwise the block is the new top, the free count rises by one, and the buffer changes only in that block's header, whose link becomes the old top |
| `Superblocks.Superblock.BytesUsed` | superblock.c:167-171 | reading only the metadata, and needing only free ≤ total = block count (part of `Valid()`): used bytes plus free-block bytes equal the bytes of all blocks; used bytes are at most `SUPERBLOCK_SIZE` and are zero exactly when every block is free |
| `Superblocks.Superblock.SuperblockForPtr` | superblock.c:178-181 | for the payload of any carved block, the owner read from its header is this superblock |
| `Superblocks.Superblock.HeaderOfBlock` | superblock.c:63-75 | every carved block's header lies in the buffer and is stamped with this superblock and its size class |
| `Superblocks.Superblock.FreeBlocksReachable` | superblock.c:161-163 | following `freeCount` links from the stack top visits exactly the free blocks, so the free count equals the number of reachable headers |
| `Superblocks.Superblock.MakeDummy` | superblock.c:183-187 | only the size-class field is overwritten, and the same superblock is returned |

## Left out

- `getCore`, the operating-system memory call, is not modelled, and the model assumes it succeeds: the code writes through its result unchecked (superblock.c:51-53), so running out of memory is a null dereference there, not an error return. The constructor allocates a fresh array whose contents the verifier treats as arbitrary, just like memory that is not zero-filled. The metadata that precedes the buffer in memory is kept as fields of the class.
- `pthread_mutex_init` and all locking are left out, because the model is sequential.
- `relocateSuperBlockBack`, the size-class list, the heaps and `_pOwnerHeap` are left out. They are defined in files that are not part of this model, so `Allocate` stops after the pop and the pointer step.
- `getFullness` is left out, because it relies on `double` division and truncation.
- `printSuperblock` and the `printf` in `freeBlockFromSuperBlock` are diagnostic output. The walk over `freeCount` links in `printSuperblock` is stated as `FreeBlocksReachable`.
- `main.c` is a demonstration harness and is not part of this model.
- All `size_t` arithmetic is on unbounded integers, so the model does not capture wrap-around. For example, `sizeClassBytes + 2h − 1` could overflow for sizes near the top of `size_t`. The decrement of the free count (superblock.c:98) cannot wrap, because `popBlock` tests for zero first (superblock.c:90). The subtraction in `getBytesUsed` (superblock.c:169) cannot wrap, because free ≤ total, which `BytesUsed` requires.
- Superblocks.Superblock.constructor: requires at least one block. With zero blocks the unsigned loop bound `numberOfBlocks - 1` wraps around and the carving loop runs past the buffer. The code does not guard this case: main.c:24 passes 20000, which gives zero blocks whenever `SUPERBLOCK_SIZE` is below about 20000 + 2h bytes.
- Superblocks.Superblock.Allocate: requires a free block. The source does not check for a null pop and would hand out the null pointer plus one header.
- Superblocks.Superblock.PushBlock: when the superblock is not full, requires a block that is one of its own and not already free. The source detects only the full case, so a double free into a non-full superblock would corrupt the stack.
- Byte arithmetic on `void *` (`ptr - sizeof(block_header_t)`) is modelled as one header unit, since a payload always starts exactly one header past its block.
- Superblocks.Superblock.SuperblockForPtr: finding the header, and through it the superblock, from a bare pointer is modelled only for pointers into this superblock's buffer, because addresses are indices relative to each buffer. The C function takes only the pointer (superblock.c:178-181).
