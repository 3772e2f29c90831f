/** _fwrite on an Image: the record kept up to date, the copy into the cursor
    block and the spill into newly allocated blocks, as methods that update
    the block array and the handle in place and agree with Writer.Fwrite. */
module Writing {

  import opened Layout
  import opened Allocator
  import opened Streams
  import opened Writer
  import opened FileSystem
  import opened Handles
  import Arith

  /** _fwrite (fs.c:402-510): the bytes are passed as a sequence instead of a
      buffer pointer and a length. */
  method Fwrite(img: Image, f: File, bytes: seq<byte>) returns (code: int)
    requires ValidImage(img.blocks[..]) && CurrentBlock(f.Value()) < img.blocks.Length && f.node.firstBlock < img.blocks.Length
    modifies img.blocks, f
    ensures WriteResult(code, img.blocks[..], f.Value()) == Writer.Fwrite(old(img.blocks[..]), old(f.Value()), bytes)
  {
    ghost var h := f.Value();
    if f.mode & FMODE_W == 0 {
      FwriteNeedsWriteMode(img.blocks[..], h, bytes);
      return -1;
    }
    if |bytes| == 0 {
      FwriteEmpty(img.blocks[..], h);
      return 0;
    }
    WriteAtCursor(img, f, bytes);
    return 0;
  }

  /** A write of at least one byte with FMODE_W (fs.c:411-510). */
  method WriteAtCursor(img: Image, f: File, bytes: seq<byte>)
    requires ValidImage(img.blocks[..]) && CurrentBlock(f.Value()) < img.blocks.Length && f.node.firstBlock < img.blocks.Length
    requires f.mode & FMODE_W != 0 && |bytes| > 0
    modifies img.blocks, f
    ensures WriteResult(0, img.blocks[..], f.Value()) == Writer.Fwrite(old(img.blocks[..]), old(f.Value()), bytes)
  {
    ghost var h := f.Value();
    ghost var s := img.blocks[..];
    var off, cur, crt := PrepareWrite(img, f, |bytes|);
    if |bytes| <= DATA_SIZE - off {
      FwriteInBlock(s, h, bytes);
      crt := WriteData(crt, off, bytes);
      img.blocks[cur] := crt;
      f.ptrGlobal := f.ptrGlobal + |bytes|;
      f.ptrLocal := f.ptrLocal + |bytes|;
    } else {
      FwriteAcross(s, h, bytes);
      WriteAcrossBlocks(img, cur, crt, off, bytes);
    }
  }

  /** The first steps of a write of n bytes (fs.c:411-434): the cursor offset
      and block, the cursor block as read, the record grown to cover the write
      and stored, in the cursor block when the cursor is in the home block and
      else in the home block itself. */
  method PrepareWrite(img: Image, f: File, n: nat) returns (off: nat, cur: nat, crt: Block)
    requires ValidImage(img.blocks[..]) && CurrentBlock(f.Value()) < img.blocks.Length && f.node.firstBlock < img.blocks.Length
    modifies img.blocks, f
    ensures off == CursorOffset(old(f.Value())) && cur == CurrentBlock(old(f.Value())) && cur < img.blocks.Length
    ensures f.Value() == old(f.Value()).(node := GrownNode(old(f.Value()), n))
    ensures crt == CursorBlock(old(img.blocks[..]), old(f.Value()), GrownNode(old(f.Value()), n))
    ensures img.blocks[..] == Recorded(old(img.blocks[..]), old(f.Value()), GrownNode(old(f.Value()), n))
  {
    ghost var h := f.Value();
    GeometryFacts();
    off := Arith.Rem(f.ptrLocal + NODE_SIZE, DATA_SIZE);
    cur := Arith.Quot(f.ptrGlobal, BLOCK_SIZE);
    crt := img.GetBlockByIndex(cur);
    if f.ptrLocal + n > f.node.size {
      f.node := f.node.(size := f.ptrLocal + n);
    }
    if cur == f.node.firstBlock {
      crt := crt.(rec := NodeRecord(f.node));
    } else {
      StoreRecord(img, f.node.firstBlock, f.node);
    }
  }

  /** The corrected write-back of fs.c:429-433: the grown record goes into the
      home block fb. */
  method StoreRecord(img: Image, fb: nat, node: Node)
    requires ValidImage(img.blocks[..]) && fb < img.blocks.Length
    modifies img.blocks
    ensures img.blocks[..] == HomeWriteBack(old(img.blocks[..]), fb, node)
  {
    var first := img.GetBlockByIndex(fb);
    img.blocks[fb] := first.(rec := NodeRecord(node));
  }

  /** A write that fits in the cursor block. */
  lemma FwriteInBlock(s: seq<Block>, h: Handle, bytes: seq<byte>)
    requires ValidImage(s) && CurrentBlock(h) < |s| && h.node.firstBlock < |s|
    requires h.mode & FMODE_W != 0 && 0 < |bytes| <= DATA_SIZE - CursorOffset(h)
    ensures var node := GrownNode(h, |bytes|);
      var cur := CurrentBlock(h);
      Writer.Fwrite(s, h, bytes) ==
        WriteResult(0, Recorded(s, h, node)[cur := WriteData(CursorBlock(s, h, node), CursorOffset(h), bytes)],
                    h.(node := node, ptrLocal := h.ptrLocal + |bytes|, ptrGlobal := h.ptrGlobal + |bytes|))
  {
  }

  /** A write that crosses blocks. */
  lemma FwriteAcross(s: seq<Block>, h: Handle, bytes: seq<byte>)
    requires ValidImage(s) && CurrentBlock(h) < |s| && h.node.firstBlock < |s|
    requires h.mode & FMODE_W != 0 && |bytes| > DATA_SIZE - CursorOffset(h)
    ensures var node := GrownNode(h, |bytes|);
      Writer.Fwrite(s, h, bytes) ==
        WriteResult(0, WriteAcross(Recorded(s, h, node), CurrentBlock(h), CursorBlock(s, h, node), CursorOffset(h), bytes), h.(node := node))
  {
  }

  /** The part of _fwrite that crosses blocks (fs.c:452-506): the rest of the
      cursor block is filled and linked to the first free block found from it,
      that block is reserved, and the remaining bytes spill from there. */
  method WriteAcrossBlocks(img: Image, cur: nat, crt: Block, off: nat, bytes: seq<byte>)
    requires ValidImage(img.blocks[..]) && cur < img.blocks.Length && WellFormed(crt, img.blocks.Length)
    requires off < DATA_SIZE < off + |bytes|
    modifies img.blocks
    ensures img.blocks[..] == WriteAcross(old(img.blocks[..]), cur, crt, off, bytes)
  {
    ghost var s1 := img.blocks[..];
    var head := WriteData(crt, off, bytes[..DATA_SIZE - off]);
    var nextIdx := img.FindNextFreeBlock(cur);
    FirstFreeInRange(s1, cur);
    head := head.(next := nextIdx);
    img.blocks[cur] := head;
    img.blocks[nextIdx] := img.blocks[nextIdx].(free := false, metadata := false);
    assert img.blocks[..] == Link(s1, cur, head);
    SpillBlocks(img, nextIdx, bytes[DATA_SIZE - off..]);
  }

  /** The loop of fs.c:472-494 and the last block of fs.c:497-506: `rest`
      goes into block c and the blocks allocated one after the other from
      it; a part shorter than a block ends the chain. */
  method SpillBlocks(img: Image, c: nat, rest: seq<byte>)
    requires ValidImage(img.blocks[..]) && c < img.blocks.Length
    modifies img.blocks
    ensures img.blocks[..] == Spill(old(img.blocks[..]), c, rest)
  {
    GeometryFacts();
    ghost var goal := Spill(img.blocks[..], c, rest);
    var nextIdx: nat := c;
    var left := rest;
    var temp := Arith.Quot(|rest|, DATA_SIZE);
    var i := 0;
    while i < temp
      invariant i <= temp && Arith.Quot(|left|, DATA_SIZE) == temp - i
      invariant ValidImage(img.blocks[..]) && nextIdx < img.blocks.Length
      invariant Spill(img.blocks[..], nextIdx, left) == goal
    {
      SpillLoopStep(img.blocks[..], nextIdx, left);
      nextIdx := FillBlock(img, nextIdx, left[..DATA_SIZE]);
      left := left[DATA_SIZE..];
      i := i + 1;
    }
    if |left| > 0 {
      var crt := img.GetBlockByIndex(nextIdx);
      crt := WriteData(crt, 0, left).(free := false, metadata := false, next := 0);
      img.blocks[nextIdx] := crt;
    }
  }

  /** One pass of the loop of fs.c:473-494: block c is filled whole with
      `chunk`, marked taken and linked to the next free block found from it,
      which is reserved; that block's index is returned. */
  method FillBlock(img: Image, c: nat, chunk: seq<byte>) returns (nextIdx: nat)
    requires ValidImage(img.blocks[..]) && c < img.blocks.Length && |chunk| == DATA_SIZE
    modifies img.blocks
    ensures nextIdx == FirstFree(old(img.blocks[..]), c) && nextIdx < img.blocks.Length
    ensures img.blocks[..] == Link(old(img.blocks[..]), c, WriteData(old(img.blocks[c]), 0, chunk).(free := false, metadata := false, next := nextIdx))
  {
    ghost var s := img.blocks[..];
    var crt := img.GetBlockByIndex(c);
    nextIdx := img.FindNextFreeBlock(c);
    FirstFreeInRange(s, c);
    crt := WriteData(crt, 0, chunk).(free := false, metadata := false, next := nextIdx);
    img.blocks[c] := crt;
    img.blocks[nextIdx] := img.blocks[nextIdx].(free := false, metadata := false);
  }

  /** One pass of the spill loop: a full block of bytes fills block c whole,
      which then links to the next free block, and that block is reserved. */
  lemma SpillLoopStep(s: seq<Block>, c: nat, rest: seq<byte>)
    requires ValidImage(s) && c < |s| && Arith.Quot(|rest|, DATA_SIZE) > 0
    ensures |rest| >= DATA_SIZE && Arith.Quot(|rest[DATA_SIZE..]|, DATA_SIZE) == Arith.Quot(|rest|, DATA_SIZE) - 1
    ensures var nx := FirstFree(s, c);
      && nx < |s|
      && WriteData(s[c], 0, rest[..DATA_SIZE]).(free := false, metadata := false, next := nx) == Block(nx, false, false, Raw, rest[..DATA_SIZE])
      && Spill(s, c, rest) == Spill(Link(s, c, Block(nx, false, false, Raw, rest[..DATA_SIZE])), nx, rest[DATA_SIZE..])
  {
    GeometryFacts();
    FirstFreeInRange(s, c);
    WriteDataSlices(s[c], 0, rest[..DATA_SIZE]);
  }
}
