# skbd-fs block filesystem, modelled in Dafny

skbd-fs keeps a whole filesystem in one image file made of fixed-size
blocks. Each block has a header and a data region. The header holds a
`next` index, which chains blocks, and an attribute byte with the FREE and
METADATA bits. Block 0 holds the superblock and block 1 the root directory.

Every node (directory, file or character device) has a home block. The
home block's data region starts with the node record (`node_t`). For a
directory, an inline list of 4-byte child block indices follows the
record. For a file, the first content bytes follow the record, and the
content continues along the `next` chain. Content byte `p` of a file
therefore lies in the `(p + sizeof(node_t)) / BLOCK_DATA_SIZE`-th block of
the chain, at offset `(p + sizeof(node_t)) % BLOCK_DATA_SIZE`.

This project models all of `fs.c`:

* formatting (`new_fs`);
* the block allocator (`find_next_free_block`);
* block access (`get_block_by_index`);
* path resolution (`find_node`);
* node creation (`mknode`);
* the stream operations `_fopen`, `_fread` and `_fwrite`;
* the helpers `split_string` and `mode_calc`.

It proves properties of each.

The model has two layers.

* **Value level.** Each operation is a function on a block sequence
  `seq<Block>` and a handle value. These functions are `Format.NewFs`,
  `Allocator.FirstFree`, `Resolver.FindNode`, `NodeManager.Mknode`,
  `Streams.Fopen`, `Reader.Fread` and `Writer.Fwrite`. The lemmas about the
  source's behaviour are stated on these functions.
* **Imperative level.** Here the code is modelled as the source writes it,
  step by step:
  * the image is a class, `FileSystem.Image`, holding an `array<Block>`;
  * an open file is a class, `Handles.File`, whose cursor fields the
    operations update in place;
  * every loop of `fs.c` is a `while` loop with invariants.

  Each method is proved to leave the array and the handle exactly as the
  value-level function describes, so the lemmas carry over to the methods.

The sizes defined in `fs.h` are not part of the model. They are one symbolic
`Geometry` value (`BLOCK_SIZE`, `BLOCK_DATA_SIZE`, `sizeof(node_t)`), and
the proofs rely only on these relations:

* `0 < sizeof(node_t)`;
* `sizeof(node_t) + 4 <= BLOCK_DATA_SIZE`;
* `BLOCK_DATA_SIZE + 5 <= BLOCK_SIZE`.

The magic numbers and the mode and flag bits are likewise symbolic
constants. The node kinds are taken to be distinct flag bits.

Module layout:

* `Layout`: blocks, records, child slots, the mode byte.
* `Arith`: multiplication, division and remainder by the symbolic sizes.
* `Paths`: the path splitter.
* `Allocator`: the block scan.
* `Chains`: following `next` links, and the bytes of a chain.
* `Resolver`: path lookup.
* `NodeManager`: node creation.
* `Format`: formatting.
* `Streams`: handles and `_fopen`.
* `Reader`: `_fread`.
* `Writer`: `_fwrite`.
* `RoundTrip`: writing and then reading back.
* `FileSystem`, `Handles`, `Opening`, `Reading`, `Writing`: the imperative
  classes and methods.

Behaviour of the code worth knowing:

* **Zero child pointer.** A zero child pointer inside a directory's
  declared count makes `find_node` report "not found" (fs.c:151)
  (`Resolver.ScanZeroChild`).
* **Scan limit.** The allocator scans a hard-coded 1048576 bytes of the
  image (fs.c:97), whatever the image's size.
* **Full child list.** The source never checks whether a directory's child
  list is full (fs.c:225). That case, and the other kinds of undefined
  behaviour in `mknode`, become error results that leave the image
  unchanged. Examples are a name of 32 or more characters and a path with
  no components.
* **Home-block write-back.** `_fwrite` writes the home block back to the
  wrong block (fs.c:429-432; see Findings). The model uses the intended
  write-back and keeps the as-written one beside it.
* **Quirks kept as written.** These behaviours of the code are modelled
  exactly as the code has them:
  * the `BLOCK_SIZE` modulus of the append cursor (fs.c:303);
  * the shortfall of `ptr_local` after a read that crosses blocks
    (fs.c:359-361);
  * multi-block writes never advance the cursors (fs.c:452-509);
  * a write of an exact multiple of the data size reserves one block more
    than it fills (fs.c:481);
  * a 0 returned by the allocator is linked without a check (fs.c:456, 478);
  * the two cursors of a new handle drift apart: `ptr_global` starts at
    the start of the home block (fs.c:276) and both cursors advance by the
    bytes written (fs.c:443), so once `ptr_local` reaches the end of the
    home block's data area its offset wraps to 0 while `ptr_global` still
    names the home block (`Writer.FwriteBoundaryDesync`); the next write
    then lands on the home block's own node record (`Writer.FwriteOverRecord`).

## Model

| member | source | states |
|---|---|---|
| Paths.SplitString | fs.c:8-36 | the tokens the strtok_r scan collects are exactly `Split(path)` |
| Paths.SplitTokens | fs.c:14-31 | every component is non-empty and contains no `/` |
| Paths.SplitKeepsCharacters | fs.c:14-31 | the components, concatenated, are the path with every delimiter removed, in order |
| Paths.SplitJoin | fs.c:8-36 | splitting components joined with single `/` gives the components back |
| Paths.SplitAbsolute | fs.c:8-36 | the same holds for the absolute form `/c1/c2/...` |
| Layout.ModeCalc | fs.c:38-40 | the low three bits are the kernel triple and the bits from 3 up are the user bits or'ed with the kernel's high bits, truncated to a byte |
| Layout.ModeCalcSplits | fs.c:38-40 | for two 3-bit triples, the user triple is recovered from bits 3-5 and the kernel triple from bits 0-2 |
| Layout.EncodeU32 | fs.c:225 | a block index stored in a 4-byte child slot decodes to the same index |
| Layout.DecodeEncode | fs.c:141 | every 4-byte slot is the encoding of the index read from it, so encoding and decoding are inverse |
| Layout.WriteData | fs.c:438 | a memcpy into a data region puts the bytes at the offset, keeps all other bytes and the header, and destroys the record when it reaches the record area |
| Layout.SlotOffset | fs.c:141 | child slot j lies after the node record and inside the data region |
| Allocator.FirstFreeIsFirst | fs.c:95-120 | a non-zero result r is at least the start, free and within the 1048576-byte limit, with no such block between the start and r; 0 means none exists or the scan began on a free block 0 |
| Allocator.FirstFreeInRange | fs.c:95-120 | the result always names a block of the image that the scan reaches |
| Allocator.FirstFreeFinds | fs.c:95-120 | started above block 0, the scan returns 0 exactly when no free block lies at or after the start within the limit |
| Allocator.FirstFreeSameBits | fs.c:103-113 | the result depends only on the FREE bits of the blocks |
| Allocator.NextAllocation | fs.c:478 | scanning on from a taken block while free blocks remain hands out the first of them, and one fewer remains above it |
| Allocator.OffsetIsProduct | fs.c:96 | the byte offset the scan advances block by block is `k * BLOCK_SIZE` |
| FileSystem.Image.FindNextFreeBlock | fs.c:95-120 | the loop returns `FirstFree` of the array from the start index and changes nothing |
| FileSystem.Image.GetBlockByIndex | fs.c:122-130 | the block returned is the array's block at that index |
| FileSystem.Image.ScanDirectory | fs.c:149-174 | the inner loop of find_node returns the scan `ScanChildren` defines |
| FileSystem.Image.FindNode | fs.c:132-193 | the component loop returns `Resolver.FindNode` of the array and writes nothing |
| FileSystem.Image.Mknode | fs.c:195-250 | the outcome and the array afterwards are `NodeManager.Mknode` of the array before |
| FileSystem.Image.WriteBlank | fs.c:48-82 | the superblock, the root block and then the free blocks of the loop give `Format.Blank(size)` |
| FileSystem.Image.NewFs | fs.c:42-87 | a refused size leaves the image as it was; any other size gives a fresh array equal to `Format.NewFs(size)` |
| Resolver.ScanChildren | fs.c:149-174 | a hit names a slot inside the declared count and a block of the image other than 0 |
| Resolver.Walk | fs.c:147-180 | a walk that resolves ends on a block of the image other than 0 |
| Resolver.FindNode | fs.c:132-193 | a resolved path names a block of the image other than 0 |
| Resolver.ScanHitIsFirst | fs.c:149-174 | a hit is the first slot in list order whose child matches by name and kind; every earlier slot holds a well-formed child that does not match |
| Resolver.ScanSkips | fs.c:149-174 | slots holding well-formed, non-matching children are skipped |
| Resolver.ScanZeroChild | fs.c:151 | a zero pointer inside the declared count, reached before any match, makes the scan a miss |
| Resolver.ScanNoMatch | fs.c:149-174 | with every declared slot well-formed and none matching, the scan misses |
| Resolver.FindNodeRoot | fs.c:135-147 | with no component to consume (an empty path, or one component in parent mode) the result is block 1 and the root record |
| Resolver.WalkFound | fs.c:147-180 | a walk that consumed a component ends on a node record in its home block, named by the last consumed component and of the requested kind |
| Resolver.FindNodeFound | fs.c:132-193 | a path resolved through at least one component ends on a node whose name is the last consumed component and whose flags include the requested kind |
| Resolver.WalkStep | fs.c:147-180 | the next directory is the scan's hit; a miss gives not-found and a fault gives corrupt |
| NodeManager.ModeFor | fs.c:237-239 | the mode literals 63, 54 and 38 are mode_calc of the rwx triples their comments give |
| NodeManager.AppendChildSlots | fs.c:225-227 | the new index lands in slot `size`, and the earlier slots keep their values |
| NodeManager.Install | fs.c:223-246 | the image after a creation is still valid and has the same number of blocks |
| NodeManager.Mknode | fs.c:195-250 | the image stays valid and keeps its size; every failure leaves it unchanged |
| NodeManager.MknodeCreates | fs.c:195-250 | once the parent lookup and the block scan are known, the outcome is that block and its fresh record, installed |
| NodeManager.MknodeParentMissing | fs.c:197-201 | a parent that does not resolve gives a failure and the unchanged image; it is ParentNotFound exactly when the lookup was not-found |
| NodeManager.MknodeSucceeds | fs.c:195-250 | creation happens exactly when the parent resolves, the last component is shorter than 32 characters, a free block is found, the child list has room and the parent's first_block lies inside the image |
| NodeManager.MknodeInitialisesNode | fs.c:219-246 | the new home block is the first free block at or after the parent's; it holds a record with NODE_MAGIC, its own index, flags equal to the kind, size 0, the last component as name, and mode 63/54/38; it has METADATA set, FREE clear and next 0 |
| NodeManager.MknodeUpdatesParent | fs.c:213-228 | the parent's slot `old size` holds the new index and its count grows by one; the earlier slots, its header and every other block except the new one are unchanged |
| NodeManager.IndexFitsSlot | fs.c:220-225 | an index the allocator returns fits in a 4-byte slot |
| Format.Blank | fs.c:48-82 | the image before the mknode calls is valid and has `BlockCount(size)` blocks |
| Format.NewFs | fs.c:42-87 | a formatted image is valid and has `BlockCount(size)` blocks |
| Format.NewFsRefuses | fs.c:43-46 | a size is refused exactly when it is not a multiple of BLOCK_SIZE |
| Format.BlockCountIsQuotient | fs.c:80-82 | a formatted image has `size / BLOCK_SIZE` blocks, but never fewer than two |
| Format.LoopWritesCount | fs.c:80-82 | the loop writes one free block for each block position from 2 below the size |
| Format.BlankLayout | fs.c:48-82 | block 0 holds the superblock with FS_MAGIC, the size and BLOCK_SIZE; block 1 holds the root record (NODE_MAGIC, directory, first_block 1, size 0, "ROOT"); every further block is FREE, not METADATA, zero-filled, with next 0 |
| Format.NewFsCreatesDevices | fs.c:84-86 | given room, new_fs creates /dev in block 2, /dev/stdout in block 3 and /dev/stdin in block 4 |
| Format.NewFsResolves | fs.c:42-87 | after formatting, /dev resolves to a directory with two children, and /dev/stdout and /dev/stdin resolve to empty character devices with mode 38 |
| Format.DevListed | fs.c:84 | after /dev is created, the root lists it in slot 0 and every block from 3 on is still blank |
| Format.StdoutListed | fs.c:85 | after /dev/stdout is created, /dev lists it in slot 0 |
| Format.StdinListed | fs.c:86 | after /dev/stdin is created, /dev lists /dev/stdout and then /dev/stdin, and every block from 5 on is still blank |
| Format.MakeDev | fs.c:84 | the mknode of /dev on the blank image creates block 2 |
| Format.MakeStdout | fs.c:85 | the mknode of /dev/stdout creates block 3 |
| Format.MakeStdin | fs.c:86 | the mknode of /dev/stdin creates block 4 |
| Format.ResolveDevices | fs.c:84-86 | in the formatted image the three paths resolve to blocks 2, 3 and 4 with their records |
| Chains.Succ | fs.c:364-376 | a block reached by following `next` links lies in the image |
| Chains.LastBlock | fs.c:290-297 | the block where the walk stops lies in the image and has next 0 |
| Chains.LastBlockOnChain | fs.c:290-297 | the last block is reached by following the chain |
| Chains.ChainByteShift | fs.c:343-346 | skipping j whole blocks of a chain moves j times BLOCK_DATA_SIZE content bytes |
| Chains.SuccFrame | fs.c:452-506 | changing blocks off a chain, or only their data, leaves the chain's shape |
| Streams.CursorOffset | fs.c:333-344 | the cursor's offset in its block lies inside the data region |
| Streams.StartHandle | fs.c:272-276 | a handle opened from the start is at content byte 0, in the home block, just after the record |
| Streams.StartCursor | fs.c:312-316 | a handle opened from the start has cursors that agree |
| Streams.CursorHolds | fs.c:333-346 | the chain from the cursor block holds a run from the cursor offset exactly when the file's chain holds it from content byte ptr_local |
| Streams.CursorBytes | fs.c:343-346 | content byte ptr_local + x is byte offset + x of the chain from the cursor block |
| Streams.WriteTarget | fs.c:261-264 | the file found or created leaves a valid image of the same size |
| Streams.Fopen | fs.c:253-320 | the image stays valid and keeps its size |
| Streams.OpenForWrite | fs.c:260-304 | the image stays valid and keeps its size |
| Streams.FopenModeZero | fs.c:254 | mode 0 gives NULL and leaves the image unchanged |
| Streams.FopenRead | fs.c:305-316 | a read-only open never changes the image, gives NULL exactly when the path does not resolve to a file, and otherwise opens from the start |
| Streams.FopenWriteExisting | fs.c:260-276 | with FMODE_W, whatever else the mode holds, an existing file leaves the image unchanged and opens from the start, or gives NULL without MODE_W |
| Streams.FopenWriteCreated | fs.c:260-276 | with FMODE_W a missing file is created by mknode, and the handle holds the new node exactly when mknode succeeded and gave it MODE_W |
| Streams.FopenWriteFault | fs.c:257-287 | a lookup fault on a write or append open gives NULL and leaves the image unchanged |
| Streams.FopenCreates | fs.c:277-287 | a missing file opened for write or append is created with mknode, and the handle holds the created node |
| Streams.FopenAppend | fs.c:289-304 | an append handle has ptr_local at the content's end, and ptr_global in the last block of the chain at `size % BLOCK_SIZE`, plus the record size in the home block |
| Handles.File.constructor | fs.c:272-276 | a new handle's fields are the given handle value |
| Opening.Fopen | fs.c:253-320 | the handle (or null) and the array afterwards are `Streams.Fopen` of the array before |
| Opening.OpenForWrite | fs.c:260-304 | the write and append branch agrees with `Streams.OpenForWrite` |
| Opening.FindWriteTarget | fs.c:261-264 | the target node and the array afterwards are `WriteTarget` of the array before |
| Opening.OpenAppend | fs.c:289-304 | the chain walk gives the append cursor `AppendCursor` defines, or null exactly when that is null (home block outside the image, or no chain end within the image's block count) |
| Reader.ReadBlocks | fs.c:363-380 | the whole-block loop ends inside the image and copies at most the requested number of blocks |
| Reader.ReadBlocksFollows | fs.c:363-380 | the loop completes exactly when k links can be followed; it then ends on the block k links away, and it copies one data region per block passed |
| Reader.ReadBlocksBytes | fs.c:363-380 | the bytes the loop copies are the chain bytes after the starting block |
| Reader.Fread | fs.c:322-400 | the result code is 0 or -1 and the handle keeps its node and mode |
| Reader.SpanRead | fs.c:358-399 | a read that crosses blocks returns 0 or -1 and keeps the node and mode |
| Reader.SpanRem | fs.c:363 | the bytes taken from the last block are fewer than a block's data |
| Reader.FreadNeedsReadMode | fs.c:323-325 | without FMODE_R the read fails and the handle is unchanged |
| Reader.FreadAtEnd | fs.c:335-337 | at or past the end of the content the read fails and the handle is unchanged |
| Reader.FreadLength | fs.c:335-340 | a successful read returns `min(size, node size - ptr_local)` bytes, and needs FMODE_R and a cursor before the end |
| Reader.MultiSpanOk | fs.c:363-392 | a read that crosses blocks succeeds exactly when the chain from the cursor block holds its last byte |
| Reader.MultiSpanBytes | fs.c:358-392 | a successful read that crosses blocks returns n bytes, and they are the chain's bytes from the cursor offset on |
| Reader.SpanLength | fs.c:358-392 | the rest of the current block, the whole blocks and the tail add up to the request |
| Reader.SpanTail | fs.c:382-392 | the tail bytes follow the whole blocks on the chain |
| Reader.FreadFromCursor | fs.c:333-399 | measured from the cursor block, the read succeeds exactly when the chain holds the last byte requested, and then returns the chain's bytes from the cursor offset |
| Reader.FreadFromCursorFits | fs.c:350-356 | the same, for a request that fits in the cursor block |
| Reader.FreadFromCursorSpans | fs.c:358-399 | the same, for a request that crosses blocks |
| Reader.FreadContent | fs.c:322-400 | with agreeing cursors, the read succeeds exactly when the file's chain holds content byte `ptr_local + n - 1`, and then returns content bytes `ptr_local .. ptr_local + n`, where n is the request cut at the end of the content |
| Reader.FreadSingleBlock | fs.c:350-356 | a successful read inside the cursor block advances both cursors by the bytes copied, and those are the block's bytes at the cursor offset |
| Reader.FreadMultiBlockShortfall | fs.c:358-395 | as written, a successful read that crosses blocks advances ptr_local by `BLOCK_DATA_SIZE - offset` less than the bytes it returned |
| Reading.Fread | fs.c:322-400 | the code, the bytes and the handle's new fields are `Reader.Fread` of the array and the old handle |
| Reading.ReadFromCursor | fs.c:342-399 | once the request is cut, the copy agrees with `Reader.Fread` |
| Reading.ReadInBlock | fs.c:350-356 | the copy inside the cursor block agrees with `Reader.Fread` |
| Reading.ReadSpan | fs.c:358-399 | the copy across blocks agrees with `SpanRead` |
| Reading.ReadWholeBlocks | fs.c:363-380 | the loop gives the success flag, the bytes, the last block and the advanced ptr_local that `ReadBlocks` defines |
| Reading.SpanParts | fs.c:358-392 | a read across blocks decomposes into the rest of the cursor block, the whole-block loop, and the remainder bytes |
| Writer.Reserve | fs.c:462-465 | clearing a block's attribute byte keeps the image valid and its size |
| Writer.HomeWriteBack | fs.c:428-434 | storing the record leaves a valid image in which the home block carries the record |
| Writer.HomeWriteBackAsWritten | fs.c:429-432 | the as-written write-back never shrinks the image |
| Writer.Link | fs.c:456-465 | linking a block and reserving its successor keeps the image valid and its size |
| Writer.Spill | fs.c:472-506 | the spill into new blocks keeps the image valid and its size |
| Writer.Recorded | fs.c:424-434 | storing the grown record keeps the image valid and its size |
| Writer.RecordedFrame | fs.c:424-434 | storing the record changes only the home block's record; when the cursor is elsewhere, the home block carries the new record |
| Writer.CursorBlock | fs.c:424-426 | the cursor block as the write begins is well-formed |
| Writer.WriteAcross | fs.c:452-506 | a write across blocks keeps the image valid and its size |
| Writer.Fwrite | fs.c:402-510 | the image stays valid and keeps its size; the code is 0 or -1 |
| Writer.FwriteNeedsWriteMode | fs.c:403-405 | without FMODE_W the write fails and nothing changes |
| Writer.FwriteEmpty | fs.c:407 | a write of no bytes succeeds and changes nothing |
| Writer.FwriteSize | fs.c:417-421 | any other write succeeds, and the node's size becomes the larger of the old size and `ptr_local + len`, with nothing else in the record changed |
| Writer.FwriteFits | fs.c:436-450 | a write that fits lands at the cursor offset, leaves the rest of the block and its header unchanged, advances both cursors by len, and leaves every block except the cursor block and the home block unchanged |
| Writer.FwriteSpills | fs.c:452-509 | a write that does not fit fills the rest of the cursor block, links it to the first free block scanned from it, and leaves both cursors where they were |
| Writer.FwriteStoresRecord | fs.c:424-434 | afterwards the home block carries the handle's grown record, unless the bytes themselves land on the record |
| Writer.FwriteFrame | fs.c:402-510 | only the cursor block, the home block's record, block 0 and blocks that were free can change |
| Writer.SpillFrame | fs.c:472-506 | the spill changes only its first block, blocks that were free and block 0 |
| Writer.SpillContent | fs.c:472-506 | with enough free blocks, the chain from the spill's first block holds the bytes, byte for byte |
| Writer.SpillShape | fs.c:474-506 | every block of the spill is taken; a partial last block ends the chain with next 0, while an exact multiple of a block's data leaves the last full block linked to one more reserved (taken) block |
| Writer.SpillStep | fs.c:474-494 | each full block is filled, linked to the first free block above it, which is reserved, and the rest spills from there |
| Writer.WriteAcrossHead | fs.c:453-460 | the cursor block gets the first `BLOCK_DATA_SIZE - offset` bytes and links to the first free block scanned from it |
| Writer.WriteAcrossTail | fs.c:456-506 | with enough free blocks, the chain from the linked block holds the bytes that did not fit |
| Writer.FwriteKeepsChain | fs.c:402-510 | the chain from the home block to the cursor block is the same afterwards, so the cursors still agree |
| Writer.FwriteTail | fs.c:452-506 | the bytes that did not fit start the chain from a block other than 0 |
| Writer.FwriteStoresBytes | fs.c:402-510 | on a taken chain with enough free blocks, the write succeeds and content bytes `ptr_local .. ptr_local + len` are the bytes written |
| Writer.FwriteKeepsPrefix | fs.c:436-506 | the content before the cursor is unchanged |
| Writer.HomeWriteBackMisplaced | fs.c:429-432 | as written, the home block keeps its old record and block `first_block + 1` receives a copy of the home block with the new record |
| Writer.HomeWriteBackUpdates | fs.c:428-434 | the corrected write-back gives the home block the new record, keeps its data and header, and changes no other block |
| Writer.FwriteBoundaryDesync | fs.c:412-414 | after a fresh handle writes exactly `BLOCK_DATA_SIZE - sizeof(node_t)` bytes, ptr_global is still in the home block while ptr_local names offset 0 of the next chain block |
| Writer.FwriteOverRecord | fs.c:436-450 | a write from offset 0 of the home block lands on the node record and destroys it |
| Writer.FwriteFromStart | fs.c:402-510 | a write through a freshly opened write handle with enough free blocks succeeds, the size covers the bytes, and the chain holds them right after the record |
| Writer.StartTaken | fs.c:272-276 | a handle opened at the start of a file whose home block is taken is on a taken chain |
| Writing.Fwrite | fs.c:402-510 | the code, the array and the handle afterwards are `Writer.Fwrite` of the array and handle before |
| Writing.WriteAtCursor | fs.c:411-510 | a non-empty write with FMODE_W agrees with `Writer.Fwrite` |
| Writing.PrepareWrite | fs.c:411-434 | the cursor offset and block are computed, the handle's record grows to cover the write, and the record is stored as `Recorded` says |
| Writing.StoreRecord | fs.c:428-434 | the record goes into the home block as `HomeWriteBack` says |
| Writing.WriteAcrossBlocks | fs.c:452-506 | the head, the link and the reservation, then the spill, agree with `WriteAcross` |
| Writing.SpillBlocks | fs.c:472-506 | the loop and the last block agree with `Spill` |
| Writing.FillBlock | fs.c:474-494 | one pass fills the block, links it to the first free block scanned from it, reserves that block and returns its index |
| Writing.SpillLoopStep | fs.c:474-494 | one pass of the loop consumes one block's worth of bytes and is the first step of `Spill` |
| RoundTrip.ReadBack | fs.c:305-400 | a read from the start of a node whose chain holds the bytes after the record returns them |
| RoundTrip.WriteThenRead | fs.c:253-400 | writing bytes through a fresh write handle and reading them through a fresh read handle on the grown node returns the same bytes |

## Left out

- The `is_locked` flag (fs.c:328-330, 396, 409-410, 448, 508) is left out. `_fread` sets it (fs.c:330) and clears it only after a read that crosses blocks (fs.c:396). It stays set after a read that fits in one block (fs.c:355) and after every `-1` return (fs.c:337, 367, 385). Any later `_fread` or `_fwrite` on that handle then spins for ever at fs.c:328 or fs.c:409, even in a single thread. The model lets those later calls run as if the flag were clear.
- Integer widths are left out. The model's integers are unbounded. The source computes with 32-bit `int` and `uint32_t` (fs.c:96, 123, 333-335, 412, 419-420), whose overflow on very large offsets or sizes is not modelled.
- Format.RootNode: the root's flags are exactly the directory flag. The source ors `FS_DIR` into the uninitialised `flags` of a fresh `malloc` (fs.c:66), so any other bits there are not modelled.
- FileSystem.Image.NewFs: builds a fresh array of the new image's blocks. The source writes over the image file without truncating it, so the blocks of a longer earlier image survive past the new size and the allocator's scan of fs.c:97 still sees them.
- Reader.Fread: a call that returns `-1` gives no bytes. The source has already copied part of the request into the caller's buffer (fs.c:359, 373) before it fails.
- stdio is left out: `FILE*`, `fseek`, `fread` and `fwrite` on the image. The image is an in-memory block array. The file position matters only for the home-block write-back of fs.c:429-432, which is modelled on its own (see Findings).
- `malloc`, `free`, memory leaks and `printf` diagnostics (fs.c:44, 100) are left out. They are allocation and I/O, not filesystem behaviour.
- The internals of `strdup` and `strtok_r` are left out. Only the token sequence that `split_string` returns is modelled.
- The byte encodings of `node_t` and `fs_header_t` are left out. A block's record is an abstract value overlaying the first `sizeof(node_t)` data bytes. A content write that reaches that area replaces the record with raw bytes. Child slots are real 4-byte little-endian values.
- The values in fs.h are left out. The sizes are symbolic, related only as described above. The magic numbers and the mode and flag bits are unspecified constants.
- The uninitialised `attributes` of fs.c:50 is taken to be 0. So are the bytes of the superblock's data region that the header does not fill.
- Format.NewFs: requires a size below 2^32 when the size is a multiple of BLOCK_SIZE. Beyond that, the 32-bit counter at fs.c:80 wraps and the loop never ends.
- Format.NewFsCreatesDevices: proved only for images with room for five blocks within the allocator's reach and two child slots per directory (`Roomy`). Smaller geometries take the failure paths of mknode.
- Opening.OpenAppend: the chain walk gives up after as many steps as the image has blocks. On a cyclic chain the source loops for ever. The use-after-free at fs.c:294-296 is modelled as the intended "follow `next` until 0".
- Streams.WriteTarget: a failed mknode during a write or append open gives NULL. The source dereferences the NULL (fs.c:266, 283).
- Streams.Fopen: a non-zero mode with none of the R, W or A bits gives NULL. The source returns a handle with uninitialised fields.
- Streams.FopenRead: a lookup that meets a child block without a node record or with a wrong magic gives NULL and leaves the image unchanged. The source aborts on the failed assert of fs.c:154 or fs.c:156, and for a child index past the end of the image or a slot past the data region it reads out of bounds.
- Streams.FopenWriteFault: the same lookup faults during a write or append open give NULL. The source aborts at fs.c:154 or fs.c:156, or reads out of bounds, as above.
- Resolver.FindNode: a block 1 that holds no node record gives Corrupt. The source has no check there and reads block 1's raw data bytes as the root record (fs.c:137-140).
- Reader.Fread: requires the cursor block to lie inside the image. The source would read past the end of the image file.
- Writer.Fwrite: requires the cursor block and the home block to lie inside the image. The source would write past the end of the image file.
- NodeManager.Mknode: undefined behaviour in the source becomes an error result that leaves the image unchanged. Failed asserts do the same.
- The buffer pointer and length of `_fread` and `_fwrite` are a byte sequence.

## Findings

| source | as written | input that shows it | evidently intended | confidence | as-written member | corrected member |
|---|---|---|---|---|---|---|
| fs.c:429-432 | the home block is read, which moves the file position one block on, and the updated copy is written there with no `fseek`; the new record lands in block `first_block + 1`, and the home block keeps its old record. When the cursor block is itself `first_block + 1`, the cursor-block write of fs.c:440-441 or fs.c:459-460 then overwrites that misplaced copy, so what remains is only the stale size in the home block | a handle opened with both `FMODE_R` and `FMODE_W` that first reads across into a second block (fs.c:394 moves `ptr_global` there) and then writes; or a fresh write handle given single-block writes adding up to `BLOCK_SIZE` bytes, after which `ptr_global` names the next block. "One block on" is what common C libraries do; ISO C leaves a write directly after a read without a positioning call undefined | write the updated home block back to block `first_block` | high (not executed) | Writer.HomeWriteBackMisplaced | Writer.HomeWriteBackUpdates |
