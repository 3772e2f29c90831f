/** _fwrite (fs.c:402-510): write bytes at the cursor. The node record held by
    the handle grows to cover the write and is stored back in the home block;
    a write that fits in the current block lands there and advances the
    cursors; a longer one fills the rest of the current block and continues in
    freshly allocated blocks linked one after the other. */
module Writer {

  import opened Layout
  import opened Allocator
  import opened Chains
  import opened Streams
  import Arith

  /** The outcome of _fwrite: 0 or -1, the image and the handle afterwards. */
  datatype WriteResult = WriteResult(code: int, image: seq<Block>, handle: Handle)

  /** The one-byte write of fs.c:462-465 and 487-488: the attribute byte of
      block k becomes 0, so the allocator no longer hands it out. */
  function Reserve(s: seq<Block>, k: nat): (t: seq<Block>)
    requires ValidImage(s) && k < |s|
    ensures ValidImage(t) && |t| == |s|
  {
    PutValid(s, k, s[k].(free := false, metadata := false));
    s[k := s[k].(free := false, metadata := false)]
  }

  /** The node record stored back into the home block fb. */
  function HomeWriteBack(s: seq<Block>, fb: nat, node: Node): (t: seq<Block>)
    requires ValidImage(s) && fb < |s|
    ensures ValidImage(t) && |t| == |s|
    ensures t[fb].rec == NodeRecord(node)
  {
    PutValid(s, fb, s[fb].(rec := NodeRecord(node)));
    s[fb := s[fb].(rec := NodeRecord(node))]
  }

  /** The write-back as fs.c:429-432 performs it: the home block is read, which
      leaves the file position one block further on, and the updated copy is
      written there without a seek, into block fb + 1 (past the end of the
      image, it adds a block). */
  function HomeWriteBackAsWritten(s: seq<Block>, fb: nat, node: Node): (t: seq<Block>)
    requires ValidImage(s) && fb < |s|
    ensures |t| >= |s|
  {
    if fb + 1 < |s| then s[fb + 1 := s[fb].(rec := NodeRecord(node))]
    else s + [s[fb].(rec := NodeRecord(node))]
  }

  /** Block c becomes b, which links to block b.next, and that block is
      reserved (fs.c:459-465 and 482-488). */
  function Link(s: seq<Block>, c: nat, b: Block): (u: seq<Block>)
    requires ValidImage(s) && c < |s| && WellFormed(b, |s|)
    ensures ValidImage(u) && |u| == |s|
  {
    PutValid(s, c, b);
    Reserve(s[c := b], b.next)
  }

  /** The write of `rest` into block c and the blocks allocated after it
      (fs.c:472-506). Each full block of bytes fills c, which then links to the
      next free block found from c; that block is reserved and receives the
      remaining bytes. A shorter remainder goes to the front of c, which ends
      the chain. */
  function Spill(s: seq<Block>, c: nat, rest: seq<byte>): (t: seq<Block>)
    requires ValidImage(s) && c < |s|
    ensures ValidImage(t) && |t| == |s|
    decreases |rest|
  {
    if |rest| >= DATA_SIZE then
      var nx := FirstFree(s, c);
      FirstFreeInRange(s, c);
      Spill(Link(s, c, Block(nx, false, false, Raw, rest[..DATA_SIZE])), nx, rest[DATA_SIZE..])
    else if |rest| > 0 then
      var last := WriteData(s[c], 0, rest).(free := false, metadata := false, next := 0);
      PutValid(s, c, last);
      s[c := last]
    else s
  }

  /** The record a handle holds after writing n bytes at its cursor
      (fs.c:417-422): the size grows to ptr_local + n when that is larger. */
  function GrownNode(h: Handle, n: nat): Node
  {
    h.node.(size := Max(h.node.size, h.ptrLocal + n))
  }

  /** The image once the grown record is stored back, when the cursor is not in
      the home block (fs.c:424-434); otherwise the record travels with the
      cursor block. */
  function Recorded(s: seq<Block>, h: Handle, node: Node): (t: seq<Block>)
    requires ValidImage(s) && h.node.firstBlock < |s|
    ensures ValidImage(t) && |t| == |s|
  {
    if CurrentBlock(h) == h.node.firstBlock then s else HomeWriteBack(s, h.node.firstBlock, node)
  }

  /** Storing the record back changes the home block's record and nothing else. */
  lemma RecordedFrame(s: seq<Block>, h: Handle, node: Node)
    requires ValidImage(s) && h.node.firstBlock < |s|
    ensures var t := Recorded(s, h, node);
      && (forall k :: 0 <= k < |s| ==>
            t[k].next == s[k].next && t[k].free == s[k].free && t[k].metadata == s[k].metadata && t[k].data == s[k].data)
      && (forall k :: 0 <= k < |s| && k != h.node.firstBlock ==> t[k] == s[k])
      && (CurrentBlock(h) != h.node.firstBlock ==> t[h.node.firstBlock].rec == NodeRecord(node))
  {
  }

  /** The cursor block as the write begins: in the home block it carries the
      grown record (fs.c:424-426, 438-441). */
  function CursorBlock(s: seq<Block>, h: Handle, node: Node): (b: Block)
    requires ValidImage(s) && CurrentBlock(h) < |s|
    ensures WellFormed(b, |s|)
  {
    var cur := CurrentBlock(h);
    if cur == h.node.firstBlock then s[cur].(rec := NodeRecord(node)) else s[cur]
  }

  /** A write that does not fit in block cur (fs.c:452-506): the rest of cur is
      filled, cur links to the first free block found from it, that block is
      reserved and Spill carries on from there. */
  function WriteAcross(s1: seq<Block>, cur: nat, crt: Block, off: nat, bytes: seq<byte>): (t: seq<Block>)
    requires ValidImage(s1) && cur < |s1| && WellFormed(crt, |s1|) && off < DATA_SIZE < off + |bytes|
    ensures ValidImage(t) && |t| == |s1|
  {
    var nxt := FirstFree(s1, cur);
    FirstFreeInRange(s1, cur);
    Spill(Link(s1, cur, WriteData(crt, off, bytes[..DATA_SIZE - off]).(next := nxt)), nxt, bytes[DATA_SIZE - off..])
  }

  /** _fwrite on image s with handle h. The cursor block must lie in the image
      and so must the home block that the record is stored back into. */
  function Fwrite(s: seq<Block>, h: Handle, bytes: seq<byte>): (r: WriteResult)
    requires ValidImage(s) && CurrentBlock(h) < |s| && h.node.firstBlock < |s|
    ensures ValidImage(r.image) && |r.image| == |s|
    ensures r.code == 0 || r.code == -1
  {
    if h.mode & FMODE_W == 0 then WriteResult(-1, s, h)
    else if |bytes| == 0 then WriteResult(0, s, h)
    else
      var off := CursorOffset(h);
      var cur := CurrentBlock(h);
      var node := GrownNode(h, |bytes|);
      var crt := CursorBlock(s, h, node);
      var s1 := Recorded(s, h, node);
      if |bytes| <= DATA_SIZE - off then
        var b := WriteData(crt, off, bytes);
        PutValid(s1, cur, b);
        WriteResult(0, s1[cur := b],
                    h.(node := node, ptrLocal := h.ptrLocal + |bytes|, ptrGlobal := h.ptrGlobal + |bytes|))
      else
        WriteResult(0, WriteAcross(s1, cur, crt, off, bytes), h.(node := node))
  }

  /** How many blocks a write of n bytes at offset off allocates. */
  function BlocksNeeded(off: nat, n: nat): nat
  {
    GeometryFacts();
    if n <= DATA_SIZE - off then 0 else 1 + Arith.Quot(n - (DATA_SIZE - off), DATA_SIZE)
  }

  // ---------------------------------------------------------------------------
  // The spill into new blocks

  /** Block c is taken and not block 0, and enough free blocks lie above it
      for every full block of `rest`. */
  predicate SpillReady(s: seq<Block>, c: nat, rest: seq<byte>)
  {
    ValidImage(s) && 0 < c < |s| && !s[c].free && FreeFrom(s, c + 1) >= Arith.Quot(|rest|, DATA_SIZE)
  }

  /** Spill changes block c and blocks that were free (or block 0, when the
      allocator ran out and returned 0); every other block is left as it was. */
  lemma {:induction false} SpillFrame(s: seq<Block>, c: nat, rest: seq<byte>)
    requires ValidImage(s) && c < |s|
    ensures var t := Spill(s, c, rest);
      forall k :: 0 < k < |s| && k != c && !s[k].free ==> t[k] == s[k]
    decreases |rest|
  {
    if |rest| >= DATA_SIZE {
      var nx := FirstFree(s, c);
      FirstFreeInRange(s, c);
      FirstFreeIsFirst(s, c);
      var filled := Block(nx, false, false, Raw, rest[..DATA_SIZE]);
      var u := Link(s, c, filled);
      SpillFrame(u, nx, rest[DATA_SIZE..]);
      forall k | 0 < k < |s| && k != c && !s[k].free
        ensures Spill(s, c, rest)[k] == s[k]
      {
        assert k != nx;
        assert u[k] == s[k];
      }
    }
  }

  /** With enough free blocks above c, the chain from c holds `rest`, byte for byte. */
  lemma {:induction false} SpillContent(s: seq<Block>, c: nat, rest: seq<byte>)
    requires SpillReady(s, c, rest)
    ensures ChainHolds(Spill(s, c, rest), c, 0, rest)
    decreases |rest|
  {
    GeometryFacts();
    if |rest| >= DATA_SIZE {
      var nx := FirstFree(s, c);
      SpillStep(s, c, rest);
      SpillContent(Link(s, c, Block(nx, false, false, Raw, rest[..DATA_SIZE])), nx, rest[DATA_SIZE..]);
      SpillContentStep(s, c, rest);
    } else if |rest| > 0 {
      ChainHoldsData(Spill(s, c, rest), c, 0, rest);
    }
  }

  /** The first block of a spill of at least DATA_SIZE bytes holds the first
      DATA_SIZE of them and links to the chain holding the rest. */
  lemma SpillContentStep(s: seq<Block>, c: nat, rest: seq<byte>)
    requires SpillReady(s, c, rest) && |rest| >= DATA_SIZE
    requires var nx := FirstFree(s, c);
      && c < nx < |s|
      && var u := Link(s, c, Block(nx, false, false, Raw, rest[..DATA_SIZE]));
      && Spill(s, c, rest) == Spill(u, nx, rest[DATA_SIZE..])
      && Spill(s, c, rest)[c] == Block(nx, false, false, Raw, rest[..DATA_SIZE])
      && ChainHolds(Spill(u, nx, rest[DATA_SIZE..]), nx, 0, rest[DATA_SIZE..])
    ensures ChainHolds(Spill(s, c, rest), c, 0, rest)
  {
    var t := Spill(s, c, rest);
    var rest' := rest[DATA_SIZE..];
    ChainHoldsLink(t, c, rest[..DATA_SIZE], rest');
    assert rest[..DATA_SIZE] + rest' == rest;
  }

  /** The shape Spill leaves for n > 0 bytes from c: c is taken; fewer than
      DATA_SIZE bytes end the chain at c; exactly DATA_SIZE bytes leave c
      linked to one more reserved block, which receives nothing
      (fs.c:478-481, 497); more continue along c's link. */
  predicate SpillShaped(t: seq<Block>, c: nat, n: nat)
    requires ValidImage(t) && c < |t| && n > 0
    decreases n
  {
    GeometryFacts();
    && !t[c].free
    && if n < DATA_SIZE then t[c].next == 0
       else t[c].next != 0 && (if n == DATA_SIZE then !t[t[c].next].free else SpillShaped(t, t[c].next, n - DATA_SIZE))
  }

  /** With enough free blocks above c, Spill leaves its bytes on a taken chain
      shaped as SpillShaped says. */
  lemma SpillShape(s: seq<Block>, c: nat, rest: seq<byte>)
    requires SpillReady(s, c, rest) && |rest| > 0
    ensures SpillShaped(Spill(s, c, rest), c, |rest|)
    decreases |rest|, 1
  {
    GeometryFacts();
    if |rest| > DATA_SIZE {
      SpillShapeStep(s, c, rest);
    } else if |rest| == DATA_SIZE {
      SpillShapeOneBlock(s, c, rest);
    } else {
      SpillShapeShort(s, c, rest);
    }
  }

  /** Fewer than DATA_SIZE bytes: they go to the front of c, which ends the chain. */
  lemma SpillShapeShort(s: seq<Block>, c: nat, rest: seq<byte>)
    requires ValidImage(s) && 0 < c < |s| && !s[c].free && 0 < |rest| < DATA_SIZE
    ensures SpillShaped(Spill(s, c, rest), c, |rest|)
  {
    GeometryFacts();
    var t := Spill(s, c, rest);
    assert t[c].next == 0 && !t[c].free;
  }

  /** Exactly one block of bytes: c is filled and links to a reserved block. */
  lemma SpillShapeOneBlock(s: seq<Block>, c: nat, rest: seq<byte>)
    requires SpillReady(s, c, rest) && |rest| == DATA_SIZE
    ensures SpillShaped(Spill(s, c, rest), c, |rest|)
  {
    GeometryFacts();
    var nx := FirstFree(s, c);
    NextAllocation(s, c);
    var filled := Block(nx, false, false, Raw, rest[..DATA_SIZE]);
    var u := Link(s, c, filled);
    assert rest[DATA_SIZE..] == [];
    var t := Spill(s, c, rest);
    assert t == Spill(u, nx, []) == u;
    assert t[c].next == nx && !t[c].free && !t[nx].free;
  }

  /** More than one block of bytes: the shape from c is one filled block
      followed by the shape Spill builds from the allocated block. */
  lemma SpillShapeStep(s: seq<Block>, c: nat, rest: seq<byte>)
    requires SpillReady(s, c, rest) && |rest| > DATA_SIZE
    ensures SpillShaped(Spill(s, c, rest), c, |rest|)
    decreases |rest|, 0
  {
    var nx := FirstFree(s, c);
    SpillStep(s, c, rest);
    var u := Link(s, c, Block(nx, false, false, Raw, rest[..DATA_SIZE]));
    SpillShape(u, nx, rest[DATA_SIZE..]);
    ShapedStep(Spill(s, c, rest), c, nx, |rest|);
  }

  /** The first block of a spill of at least DATA_SIZE bytes: c is filled and
      linked to the first free block nx above it, nx is reserved, one free
      block fewer is left above nx, and the rest spills from nx without
      touching c again. */
  lemma SpillStep(s: seq<Block>, c: nat, rest: seq<byte>)
    requires SpillReady(s, c, rest) && |rest| >= DATA_SIZE
    ensures var nx := FirstFree(s, c);
      && c < nx < |s|
      && var u := Link(s, c, Block(nx, false, false, Raw, rest[..DATA_SIZE]));
      && SpillReady(u, nx, rest[DATA_SIZE..])
      && Spill(s, c, rest) == Spill(u, nx, rest[DATA_SIZE..])
      && Spill(s, c, rest)[c] == Block(nx, false, false, Raw, rest[..DATA_SIZE])
  {
    SpillStepReady(s, c, rest);
    SpillStepUnfold(s, c, rest);
  }

  lemma SpillStepReady(s: seq<Block>, c: nat, rest: seq<byte>)
    requires SpillReady(s, c, rest) && |rest| >= DATA_SIZE
    ensures var nx := FirstFree(s, c);
      && c < nx < |s|
      && SpillReady(Link(s, c, Block(nx, false, false, Raw, rest[..DATA_SIZE])), nx, rest[DATA_SIZE..])
  {
    var rest' := rest[DATA_SIZE..];
    assert |rest'| == |rest| - DATA_SIZE && Arith.Quot(|rest|, DATA_SIZE) == 1 + Arith.Quot(|rest'|, DATA_SIZE);
    GeometryFacts();
    var nx := FirstFree(s, c);
    NextAllocation(s, c);
    var u := Link(s, c, Block(nx, false, false, Raw, rest[..DATA_SIZE]));
    FreeFromAbove(s, u, nx + 1);
  }

  lemma SpillStepUnfold(s: seq<Block>, c: nat, rest: seq<byte>)
    requires SpillReady(s, c, rest) && |rest| >= DATA_SIZE
    ensures var nx := FirstFree(s, c);
      && c < nx < |s|
      && var u := Link(s, c, Block(nx, false, false, Raw, rest[..DATA_SIZE]));
      && Spill(s, c, rest) == Spill(u, nx, rest[DATA_SIZE..])
      && Spill(s, c, rest)[c] == Block(nx, false, false, Raw, rest[..DATA_SIZE])
  {
    var nx := FirstFree(s, c);
    SpillStepReady(s, c, rest);
    var u := Link(s, c, Block(nx, false, false, Raw, rest[..DATA_SIZE]));
    SpillFrame(u, nx, rest[DATA_SIZE..]);
  }

  /** A taken block linking to the shape of n - DATA_SIZE bytes starts the
      shape of n bytes. */
  lemma ShapedStep(t: seq<Block>, c: nat, nx: nat, n: nat)
    requires ValidImage(t) && c < |t| && !t[c].free && t[c].next == nx != 0 && n > DATA_SIZE
    requires SpillShaped(t, nx, n - DATA_SIZE)
    ensures SpillShaped(t, c, n)
  {
    GeometryFacts();
  }

  // ---------------------------------------------------------------------------
  // Properties of _fwrite

  /** Without FMODE_W the call fails and nothing changes (append mode alone
      cannot write). */
  lemma FwriteNeedsWriteMode(s: seq<Block>, h: Handle, bytes: seq<byte>)
    requires ValidImage(s) && CurrentBlock(h) < |s| && h.node.firstBlock < |s| && h.mode & FMODE_W == 0
    ensures Fwrite(s, h, bytes) == WriteResult(-1, s, h)
  {
  }

  /** A write of no bytes succeeds and changes nothing. */
  lemma FwriteEmpty(s: seq<Block>, h: Handle)
    requires ValidImage(s) && CurrentBlock(h) < |s| && h.node.firstBlock < |s| && h.mode & FMODE_W != 0
    ensures Fwrite(s, h, []) == WriteResult(0, s, h)
  {
  }

  /** Any other write succeeds, and the handle's record grows to cover it: the
      size becomes the larger of the old size and ptr_local + len; nothing
      else in the record changes. */
  lemma FwriteSize(s: seq<Block>, h: Handle, bytes: seq<byte>)
    requires ValidImage(s) && CurrentBlock(h) < |s| && h.node.firstBlock < |s|
    requires h.mode & FMODE_W != 0 && |bytes| > 0
    ensures var r := Fwrite(s, h, bytes);
      && r.code == 0
      && r.handle.mode == h.mode
      && r.handle.node.size >= h.node.size && r.handle.node.size >= h.ptrLocal + |bytes|
      && (r.handle.node.size == h.node.size || r.handle.node.size == h.ptrLocal + |bytes|)
      && r.handle.node == h.node.(size := r.handle.node.size)
  {
  }

  /** WriteAcross changes block cur and blocks that were free (or block 0);
      every other block keeps its value. */
  lemma WriteAcrossFrame(s1: seq<Block>, cur: nat, crt: Block, off: nat, bytes: seq<byte>)
    requires ValidImage(s1) && cur < |s1| && WellFormed(crt, |s1|) && off < DATA_SIZE < off + |bytes|
    ensures var t := WriteAcross(s1, cur, crt, off, bytes);
      forall k :: 0 < k < |s1| && k != cur && !s1[k].free ==> t[k] == s1[k]
  {
    var nxt := FirstFree(s1, cur);
    FirstFreeInRange(s1, cur);
    FirstFreeIsFirst(s1, cur);
    var b := WriteData(crt, off, bytes[..DATA_SIZE - off]).(next := nxt);
    var s3 := Link(s1, cur, b);
    SpillFrame(s3, nxt, bytes[DATA_SIZE - off..]);
    forall k | 0 < k < |s1| && k != cur && !s1[k].free
      ensures WriteAcross(s1, cur, crt, off, bytes)[k] == s1[k]
    {
      assert k != nxt;
      assert s3[k] == s1[k];
    }
  }

  /** When cur is a taken block other than 0, WriteAcross leaves it holding the
      first DATA_SIZE - off bytes from off, linked to the first free block
      found from cur. */
  lemma WriteAcrossHead(s1: seq<Block>, cur: nat, crt: Block, off: nat, bytes: seq<byte>)
    requires ValidImage(s1) && cur < |s1| && WellFormed(crt, |s1|) && off < DATA_SIZE < off + |bytes|
    requires cur != 0 && !s1[cur].free && !crt.free
    ensures WriteAcross(s1, cur, crt, off, bytes)[cur]
      == WriteData(crt, off, bytes[..DATA_SIZE - off]).(next := FirstFree(s1, cur))
  {
    var nxt := FirstFree(s1, cur);
    FirstFreeInRange(s1, cur);
    FirstFreeIsFirst(s1, cur);
    var b := WriteData(crt, off, bytes[..DATA_SIZE - off]).(next := nxt);
    var s3 := Link(s1, cur, b);
    SpillFrame(s3, nxt, bytes[DATA_SIZE - off..]);
    assert cur != nxt;
    assert s3[cur] == b;
  }

  /** With enough free blocks above cur, the chain from the block cur now links
      to holds the bytes that did not fit in cur, byte for byte. */
  lemma WriteAcrossTail(s1: seq<Block>, cur: nat, crt: Block, off: nat, bytes: seq<byte>)
    requires ValidImage(s1) && cur < |s1| && WellFormed(crt, |s1|) && off < DATA_SIZE < off + |bytes|
    requires cur != 0 && !s1[cur].free && !crt.free
    requires FreeFrom(s1, cur + 1) >= BlocksNeeded(off, |bytes|)
    ensures var t := WriteAcross(s1, cur, crt, off, bytes);
      var nxt := FirstFree(s1, cur);
      && 0 < nxt < |t| && t[cur].next == nxt
      && ChainHolds(t, nxt, 0, bytes[DATA_SIZE - off..])
  {
    var nxt := FirstFree(s1, cur);
    var b := WriteData(crt, off, bytes[..DATA_SIZE - off]).(next := nxt);
    WriteAcrossReady(s1, cur, crt, off, bytes);
    SpillContent(Link(s1, cur, b), nxt, bytes[DATA_SIZE - off..]);
    WriteAcrossHead(s1, cur, crt, off, bytes);
  }

  /** The spill that WriteAcross starts at the block it links cur to has the
      free blocks it needs. */
  lemma WriteAcrossReady(s1: seq<Block>, cur: nat, crt: Block, off: nat, bytes: seq<byte>)
    requires ValidImage(s1) && cur < |s1| && WellFormed(crt, |s1|) && off < DATA_SIZE < off + |bytes|
    requires cur != 0 && !s1[cur].free && !crt.free
    requires FreeFrom(s1, cur + 1) >= BlocksNeeded(off, |bytes|)
    ensures var nxt := FirstFree(s1, cur);
      && cur < nxt < |s1|
      && SpillReady(Link(s1, cur, WriteData(crt, off, bytes[..DATA_SIZE - off]).(next := nxt)), nxt, bytes[DATA_SIZE - off..])
  {
    GeometryFacts();
    var nxt := FirstFree(s1, cur);
    NextAllocation(s1, cur);
    var s3 := Link(s1, cur, WriteData(crt, off, bytes[..DATA_SIZE - off]).(next := nxt));
    var rest := bytes[DATA_SIZE - off..];
    assert BlocksNeeded(off, |bytes|) == 1 + Arith.Quot(|rest|, DATA_SIZE);
    FreeFromAbove(s1, s3, nxt + 1);
    assert FreeFrom(s3, nxt + 1) >= Arith.Quot(|rest|, DATA_SIZE);
  }

  /** From s to t, every taken block other than block 0 and block cur keeps its
      link, attributes and data, and every such block other than fb is left as
      it was. */
  predicate Framed(s: seq<Block>, t: seq<Block>, cur: nat, fb: nat)
    requires |t| == |s|
  {
    forall k :: 0 < k < |s| && k != cur && !s[k].free ==>
      && t[k].next == s[k].next && t[k].free == s[k].free
      && t[k].metadata == s[k].metadata && t[k].data == s[k].data
      && (k != fb ==> t[k] == s[k])
  }

  /** Only the cursor block, the home block's record, block 0 and blocks that
      were free can change; the home block keeps its link, attributes and data. */
  lemma FwriteFrame(s: seq<Block>, h: Handle, bytes: seq<byte>)
    requires ValidImage(s) && CurrentBlock(h) < |s| && h.node.firstBlock < |s|
    ensures Framed(s, Fwrite(s, h, bytes).image, CurrentBlock(h), h.node.firstBlock)
  {
    if h.mode & FMODE_W != 0 && |bytes| > DATA_SIZE - CursorOffset(h) {
      FwriteFrameAcross(s, h, bytes);
    } else if h.mode & FMODE_W != 0 && |bytes| > 0 {
      FwriteFrameFits(s, h, bytes);
    }
  }

  lemma FwriteFrameFits(s: seq<Block>, h: Handle, bytes: seq<byte>)
    requires ValidImage(s) && CurrentBlock(h) < |s| && h.node.firstBlock < |s|
    requires h.mode & FMODE_W != 0 && 0 < |bytes| <= DATA_SIZE - CursorOffset(h)
    ensures Framed(s, Fwrite(s, h, bytes).image, CurrentBlock(h), h.node.firstBlock)
  {
    var cur := CurrentBlock(h);
    var node := GrownNode(h, |bytes|);
    var s1 := Recorded(s, h, node);
    var t := Fwrite(s, h, bytes).image;
    assert t == s1[cur := WriteData(CursorBlock(s, h, node), CursorOffset(h), bytes)];
    RecordedFrame(s, h, node);
    FramedAfterRecord(s, s1, t, cur, h.node.firstBlock);
  }

  lemma FwriteFrameAcross(s: seq<Block>, h: Handle, bytes: seq<byte>)
    requires ValidImage(s) && CurrentBlock(h) < |s| && h.node.firstBlock < |s|
    requires h.mode & FMODE_W != 0 && |bytes| > DATA_SIZE - CursorOffset(h)
    ensures Framed(s, Fwrite(s, h, bytes).image, CurrentBlock(h), h.node.firstBlock)
  {
    var off := CursorOffset(h);
    var cur := CurrentBlock(h);
    var node := GrownNode(h, |bytes|);
    var crt := CursorBlock(s, h, node);
    var s1 := Recorded(s, h, node);
    var t := Fwrite(s, h, bytes).image;
    assert t == WriteAcross(s1, cur, crt, off, bytes);
    RecordedFrame(s, h, node);
    WriteAcrossFrame(s1, cur, crt, off, bytes);
    FramedAfterRecord(s, s1, t, cur, h.node.firstBlock);
  }

  /** Storing the record and then changing only block cur, block 0 and free
      blocks keeps the frame. */
  lemma FramedAfterRecord(s: seq<Block>, s1: seq<Block>, t: seq<Block>, cur: nat, fb: nat)
    requires |s1| == |s| && |t| == |s|
    requires forall k :: 0 <= k < |s| ==>
      s1[k].next == s[k].next && s1[k].free == s[k].free && s1[k].metadata == s[k].metadata && s1[k].data == s[k].data
    requires forall k :: 0 <= k < |s| && k != fb ==> s1[k] == s[k]
    requires forall k :: 0 < k < |s1| && k != cur && !s1[k].free ==> t[k] == s1[k]
    ensures Framed(s, t, cur, fb)
  {
  }

  /** The home block's record afterwards is the handle's record (fs.c:424-434),
      provided the cursor's bytes do not themselves land on the record. */
  lemma FwriteStoresRecord(s: seq<Block>, h: Handle, bytes: seq<byte>)
    requires ValidImage(s) && CurrentBlock(h) < |s| && h.node.firstBlock < |s|
    requires h.mode & FMODE_W != 0 && |bytes| > 0
    requires h.node.firstBlock != 0 && !s[h.node.firstBlock].free
    requires CurrentBlock(h) != h.node.firstBlock || CursorOffset(h) >= NODE_SIZE
    ensures var r := Fwrite(s, h, bytes);
      r.image[h.node.firstBlock].rec == NodeRecord(r.handle.node)
  {
    var off := CursorOffset(h);
    var cur := CurrentBlock(h);
    var fb := h.node.firstBlock;
    var node := GrownNode(h, |bytes|);
    var crt := CursorBlock(s, h, node);
    var s1 := Recorded(s, h, node);
    var r := Fwrite(s, h, bytes);
    assert r.handle.node == node;
    if |bytes| > DATA_SIZE - off {
      var t := WriteAcross(s1, cur, crt, off, bytes);
      assert r.image == t;
      assert t[fb].rec == NodeRecord(node) by {
        RecordedFrame(s, h, node);
        if cur == fb {
          WriteAcrossHead(s1, cur, crt, off, bytes);
        } else {
          WriteAcrossFrame(s1, cur, crt, off, bytes);
        }
      }
    } else {
      var b := WriteData(crt, off, bytes);
      assert r.image == s1[cur := b];
      assert s1[cur := b][fb].rec == NodeRecord(node) by {
        RecordedFrame(s, h, node);
      }
    }
  }

  /** A write that fits in the current block lands at the cursor offset, both
      cursors advance by its length, and no block other than the cursor block
      and the home block changes. */
  lemma FwriteFits(s: seq<Block>, h: Handle, bytes: seq<byte>)
    requires ValidImage(s) && CurrentBlock(h) < |s| && h.node.firstBlock < |s|
    requires h.mode & FMODE_W != 0 && 0 < |bytes| <= DATA_SIZE - CursorOffset(h)
    ensures var r := Fwrite(s, h, bytes);
      var cur := CurrentBlock(h);
      var off := CursorOffset(h);
      && r.image[cur].data[off .. off + |bytes|] == bytes
      && (forall i :: 0 <= i < DATA_SIZE && !(off <= i < off + |bytes|) ==> r.image[cur].data[i] == s[cur].data[i])
      && r.image[cur].next == s[cur].next && r.image[cur].free == s[cur].free
      && r.handle.ptrLocal == h.ptrLocal + |bytes| && r.handle.ptrGlobal == h.ptrGlobal + |bytes|
      && (forall k :: 0 <= k < |s| && k != cur && k != h.node.firstBlock ==> r.image[k] == s[k])
  {
  }

  /** A write that does not fit fills the rest of the cursor block, links it to
      the first free block found from it, and (as written) leaves both cursors
      where they were (fs.c:452-509 never update them). */
  lemma FwriteSpills(s: seq<Block>, h: Handle, bytes: seq<byte>)
    requires ValidImage(s) && CurrentBlock(h) < |s| && h.node.firstBlock < |s|
    requires h.mode & FMODE_W != 0 && |bytes| > DATA_SIZE - CursorOffset(h)
    requires CurrentBlock(h) != 0 && !s[CurrentBlock(h)].free
    ensures var r := Fwrite(s, h, bytes);
      var cur := CurrentBlock(h);
      var off := CursorOffset(h);
      && r.handle.ptrLocal == h.ptrLocal && r.handle.ptrGlobal == h.ptrGlobal
      && r.image[cur].next == FirstFree(s, cur)
      && r.image[cur].data[off..] == bytes[..DATA_SIZE - off]
      && r.image[cur].data[..off] == s[cur].data[..off]
  {
    var off := CursorOffset(h);
    var cur := CurrentBlock(h);
    var node := GrownNode(h, |bytes|);
    var crt := CursorBlock(s, h, node);
    var s1 := Recorded(s, h, node);
    assert Fwrite(s, h, bytes) == WriteResult(0, WriteAcross(s1, cur, crt, off, bytes), h.(node := node));
    RecordedFrame(s, h, node);
    FirstFreeSameBits(s1, s, cur);
    WriteAcrossHead(s1, cur, crt, off, bytes);
    assert crt.data == s[cur].data;
    WriteDataSlices(crt, off, bytes[..DATA_SIZE - off]);
  }

  // ---------------------------------------------------------------------------
  // What _fwrite leaves on the chain

  /** The handle's chain is taken (FREE clear) from the home block, which is not
      block 0, as far as the cursor block, and reaches the cursor block only at
      the cursor's distance. */
  predicate ChainTaken(s: seq<Block>, h: Handle)
  {
    && Consistent(s, h)
    && h.node.firstBlock != 0
    && forall j :: 0 <= j <= CursorDistance(h) ==>
         && Succ(s, h.node.firstBlock, j).Some?
         && !s[Succ(s, h.node.firstBlock, j).value].free
         && (j < CursorDistance(h) ==> Succ(s, h.node.firstBlock, j).value != CurrentBlock(h))
  }

  /** The chain from the home block to the cursor block is the same afterwards,
      so the cursors still agree on the new image. */
  lemma FwriteKeepsChain(s: seq<Block>, h: Handle, bytes: seq<byte>)
    requires ChainTaken(s, h)
    ensures var t := Fwrite(s, h, bytes).image;
      && (forall j :: 0 <= j <= CursorDistance(h) ==> Succ(t, h.node.firstBlock, j) == Succ(s, h.node.firstBlock, j))
      && Consistent(t, h)
  {
    var t := Fwrite(s, h, bytes).image;
    var fb := h.node.firstBlock;
    var J := CursorDistance(h);
    FwriteFrame(s, h, bytes);
    forall j | 0 <= j < J
      ensures Succ(s, fb, j).Some? && t[Succ(s, fb, j).value].next == s[Succ(s, fb, j).value].next
    {
      SuccNonZero(s, fb, j);
    }
    forall j | 0 <= j <= J
      ensures Succ(t, fb, j) == Succ(s, fb, j)
    {
      SuccFrame(s, t, fb, j);
    }
  }

  /** The bytes that do not fit in the cursor block: they start the chain from
      the first free block found from it, which is not block 0 when enough
      blocks are free. */
  lemma FwriteTail(s: seq<Block>, h: Handle, bytes: seq<byte>)
    requires ChainTaken(s, h) && h.mode & FMODE_W != 0 && |bytes| > DATA_SIZE - CursorOffset(h)
    requires FreeFrom(s, CurrentBlock(h) + 1) >= BlocksNeeded(CursorOffset(h), |bytes|)
    ensures var t := Fwrite(s, h, bytes).image;
      var off := CursorOffset(h);
      var nxt := FirstFree(s, CurrentBlock(h));
      && 0 < nxt < |t|
      && ChainHolds(t, nxt, 0, bytes[DATA_SIZE - off..])
  {
    var off := CursorOffset(h);
    var cur := CurrentBlock(h);
    var node := GrownNode(h, |bytes|);
    var crt := CursorBlock(s, h, node);
    var s1 := Recorded(s, h, node);
    assert Fwrite(s, h, bytes).image == WriteAcross(s1, cur, crt, off, bytes);
    SuccNonZero(s, h.node.firstBlock, CursorDistance(h));
    RecordedFrame(s, h, node);
    FirstFreeSameBits(s1, s, cur);
    FreeFromAbove(s, s1, cur + 1);
    WriteAcrossTail(s1, cur, crt, off, bytes);
  }

  /** The main property of _fwrite: on a taken chain with enough free blocks
      above the cursor block, content bytes ptr_local .. ptr_local + len of the
      chain afterwards are the bytes written. */
  lemma FwriteStoresBytes(s: seq<Block>, h: Handle, bytes: seq<byte>)
    requires ChainTaken(s, h) && h.mode & FMODE_W != 0
    requires FreeFrom(s, CurrentBlock(h) + 1) >= BlocksNeeded(CursorOffset(h), |bytes|)
    ensures var r := Fwrite(s, h, bytes);
      r.code == 0 && ChainHolds(r.image, h.node.firstBlock, h.ptrLocal + NODE_SIZE, bytes)
  {
    if 0 < |bytes| <= DATA_SIZE - CursorOffset(h) {
      FwriteStoresBytesFits(s, h, bytes);
    } else if |bytes| > DATA_SIZE - CursorOffset(h) {
      FwriteStoresBytesSpills(s, h, bytes);
    }
  }

  lemma FwriteStoresBytesFits(s: seq<Block>, h: Handle, bytes: seq<byte>)
    requires ChainTaken(s, h) && h.mode & FMODE_W != 0
    requires 0 < |bytes| <= DATA_SIZE - CursorOffset(h)
    ensures ChainHolds(Fwrite(s, h, bytes).image, h.node.firstBlock, h.ptrLocal + NODE_SIZE, bytes)
  {
    var t := Fwrite(s, h, bytes).image;
    FwriteKeepsChain(s, h, bytes);
    FwriteFits(s, h, bytes);
    ChainHoldsData(t, CurrentBlock(h), CursorOffset(h), bytes);
    CursorHolds(t, h, bytes);
  }

  lemma FwriteStoresBytesSpills(s: seq<Block>, h: Handle, bytes: seq<byte>)
    requires ChainTaken(s, h) && h.mode & FMODE_W != 0
    requires FreeFrom(s, CurrentBlock(h) + 1) >= BlocksNeeded(CursorOffset(h), |bytes|)
    requires |bytes| > DATA_SIZE - CursorOffset(h)
    ensures ChainHolds(Fwrite(s, h, bytes).image, h.node.firstBlock, h.ptrLocal + NODE_SIZE, bytes)
  {
    FwriteKeepsChain(s, h, bytes);
    SuccNonZero(s, h.node.firstBlock, CursorDistance(h));
    FwriteSpills(s, h, bytes);
    FwriteTail(s, h, bytes);
    SplitAtCursor(Fwrite(s, h, bytes).image, h, bytes);
  }

  /** Bytes split across the cursor block, from the cursor to its end, and
      the chain its link starts are content bytes ptr_local onwards. */
  lemma SplitAtCursor(t: seq<Block>, h: Handle, bytes: seq<byte>)
    requires Consistent(t, h) && |bytes| > DATA_SIZE - CursorOffset(h)
    requires t[CurrentBlock(h)].data[CursorOffset(h)..] == bytes[..DATA_SIZE - CursorOffset(h)]
    requires t[CurrentBlock(h)].next != 0
    requires ChainHolds(t, t[CurrentBlock(h)].next, 0, bytes[DATA_SIZE - CursorOffset(h)..])
    ensures ChainHolds(t, h.node.firstBlock, h.ptrLocal + NODE_SIZE, bytes)
  {
    var off := CursorOffset(h);
    var cur := CurrentBlock(h);
    var head := bytes[..DATA_SIZE - off];
    var rest := bytes[DATA_SIZE - off..];
    ChainHoldsData(t, cur, off, head);
    ChainHoldsStep(t, cur, 0, rest);
    assert off + |head| == 0 + DATA_SIZE;
    ChainHoldsAppend(t, cur, off, head, rest);
    assert head + rest == bytes;
    CursorHolds(t, h, bytes);
  }

  /** The content before the cursor is the same afterwards. */
  lemma FwriteKeepsPrefix(s: seq<Block>, h: Handle, bytes: seq<byte>)
    requires ChainTaken(s, h)
    ensures var t := Fwrite(s, h, bytes).image;
      forall q :: 0 <= q < h.ptrLocal + NODE_SIZE ==> ChainByte(t, h.node.firstBlock, q) == ChainByte(s, h.node.firstBlock, q)
  {
    var t := Fwrite(s, h, bytes).image;
    var cur := CurrentBlock(h);
    var off := CursorOffset(h);
    if h.mode & FMODE_W != 0 && |bytes| > 0 {
      FwriteKeepsChain(s, h, bytes);
      FwriteFrame(s, h, bytes);
      if |bytes| <= DATA_SIZE - off {
        FwriteFits(s, h, bytes);
        assert t[cur].data[..off] == s[cur].data[..off];
      } else {
        SuccNonZero(s, h.node.firstBlock, CursorDistance(h));
        FwriteSpills(s, h, bytes);
      }
      forall q | 0 <= q < h.ptrLocal + NODE_SIZE
        ensures ChainByte(t, h.node.firstBlock, q) == ChainByte(s, h.node.firstBlock, q)
      {
        PrefixByte(s, t, h, q);
      }
    }
  }

  /** A byte before the cursor reads the same on an image that keeps the chain
      up to the cursor block, the data of the taken blocks on it and the
      cursor block's data before the cursor. */
  lemma PrefixByte(s: seq<Block>, t: seq<Block>, h: Handle, q: nat)
    requires ChainTaken(s, h) && ValidImage(t) && |t| == |s|
    requires forall j :: 0 <= j <= CursorDistance(h) ==> Succ(t, h.node.firstBlock, j) == Succ(s, h.node.firstBlock, j)
    requires Framed(s, t, CurrentBlock(h), h.node.firstBlock)
    requires t[CurrentBlock(h)].data[..CursorOffset(h)] == s[CurrentBlock(h)].data[..CursorOffset(h)]
    requires q < h.ptrLocal + NODE_SIZE
    ensures ChainByte(t, h.node.firstBlock, q) == ChainByte(s, h.node.firstBlock, q)
  {
    GeometryFacts();
    BeforeCursor(h, q);
    var j := Arith.Quot(q, DATA_SIZE);
    var r := Arith.Rem(q, DATA_SIZE);
    var cur := CurrentBlock(h);
    if j < CursorDistance(h) {
      SuccNonZero(s, h.node.firstBlock, j);
    } else {
      assert t[cur].data[..CursorOffset(h)][r] == t[cur].data[r];
      assert s[cur].data[..CursorOffset(h)][r] == s[cur].data[r];
    }
  }

  // ---------------------------------------------------------------------------
  // The home-block write-back as written, and the cursor desynchronisation

  /** As written, the write-back of fs.c:429-432 leaves the home block as it
      was and overwrites block fb + 1 with a copy of the home block carrying
      the new record. */
  lemma HomeWriteBackMisplaced(s: seq<Block>, fb: nat, node: Node)
    requires ValidImage(s) && fb + 1 < |s|
    ensures var t := HomeWriteBackAsWritten(s, fb, node);
      && |t| == |s|
      && t[fb] == s[fb]
      && t[fb + 1] == s[fb].(rec := NodeRecord(node))
      && (s[fb].rec != NodeRecord(node) ==> t[fb].rec != NodeRecord(node))
  {
  }

  /** The write-back the rest of the model uses: the home block's record becomes
      the handle's record and no other block changes. */
  lemma HomeWriteBackUpdates(s: seq<Block>, fb: nat, node: Node)
    requires ValidImage(s) && fb < |s|
    ensures var t := HomeWriteBack(s, fb, node);
      && t[fb].rec == NodeRecord(node)
      && t[fb].data == s[fb].data && t[fb].next == s[fb].next && t[fb].free == s[fb].free
      && forall k :: 0 <= k < |s| && k != fb ==> t[k] == s[k]
  {
  }

  /** A fresh write handle that writes exactly DATA_SIZE - NODE_SIZE bytes ends
      with ptr_global still inside the home block while ptr_local names offset 0
      of the next block along the chain (fs.c:412-414 against 443-444): the
      cursors no longer agree. */
  lemma FwriteBoundaryDesync(s: seq<Block>, node: Node, mode: bv8, bytes: seq<byte>)
    requires ValidImage(s) && node.firstBlock < |s| && mode & FMODE_W != 0
    requires |bytes| == DATA_SIZE - NODE_SIZE
    ensures var r := Fwrite(s, StartHandle(node, mode), bytes);
      && r.code == 0
      && CurrentBlock(r.handle) == node.firstBlock
      && CursorDistance(r.handle) == 1 && CursorOffset(r.handle) == 0
  {
    GeometryFacts();
    var fb := node.firstBlock;
    var h := StartHandle(node, mode);
    var r := Fwrite(s, h, bytes);
    assert r.handle.ptrLocal == DATA_SIZE - NODE_SIZE;
    assert r.handle.ptrGlobal == Arith.Times(fb, BLOCK_SIZE) + (DATA_SIZE - NODE_SIZE);
    Arith.QuotRemUnique(r.handle.ptrGlobal, BLOCK_SIZE, fb, DATA_SIZE - NODE_SIZE);
    assert r.handle.ptrLocal + NODE_SIZE == DATA_SIZE;
    Arith.QuotRemUnique(DATA_SIZE, DATA_SIZE, 1, 0);
  }

  /** A write from a cursor at offset 0 of the home block lands on the node
      record and destroys it, whatever the length. */
  lemma FwriteOverRecord(s: seq<Block>, h: Handle, more: seq<byte>)
    requires ValidImage(s) && 0 < h.node.firstBlock < |s| && !s[h.node.firstBlock].free
    requires CurrentBlock(h) == h.node.firstBlock && CursorOffset(h) == 0
    requires h.mode & FMODE_W != 0 && |more| > 0
    ensures Fwrite(s, h, more).image[h.node.firstBlock].rec == Raw
  {
    GeometryFacts();
    if |more| > DATA_SIZE {
      FwriteOverRecordSpills(s, h, more);
    }
  }

  lemma FwriteOverRecordSpills(s: seq<Block>, h: Handle, more: seq<byte>)
    requires ValidImage(s) && 0 < h.node.firstBlock < |s| && !s[h.node.firstBlock].free
    requires CurrentBlock(h) == h.node.firstBlock && CursorOffset(h) == 0
    requires h.mode & FMODE_W != 0 && |more| > DATA_SIZE
    ensures Fwrite(s, h, more).image[h.node.firstBlock].rec == Raw
  {
    var fb := h.node.firstBlock;
    var node := GrownNode(h, |more|);
    var crt := CursorBlock(s, h, node);
    var s1 := Recorded(s, h, node);
    WriteAcrossHead(s1, fb, crt, 0, more);
  }

  // ---------------------------------------------------------------------------
  // Writing from the start of a file

  /** A write through a handle opened at the start of a file (fs.c:272-276),
      with enough free blocks above the home block, succeeds; the record's size covers the bytes and the chain
      holds them right after the record. */
  lemma FwriteFromStart(s: seq<Block>, node: Node, mode: bv8, bytes: seq<byte>)
    requires ValidImage(s) && 0 < node.firstBlock < |s| && !s[node.firstBlock].free
    requires mode & FMODE_W != 0 && |bytes| > 0
    requires FreeFrom(s, node.firstBlock + 1) >= BlocksNeeded(NODE_SIZE, |bytes|)
    ensures var w := Fwrite(s, StartHandle(node, mode), bytes);
      && w.code == 0
      && w.handle.node == node.(size := Max(node.size, |bytes|))
      && w.handle.node.firstBlock < |w.image|
      && ChainHolds(w.image, w.handle.node.firstBlock, NODE_SIZE, bytes)
  {
    var h := StartHandle(node, mode);
    StartTaken(s, node, mode);
    FwriteSize(s, h, bytes);
    FwriteStoresBytes(s, h, bytes);
    var w := Fwrite(s, h, bytes);
    assert h.ptrLocal + NODE_SIZE == NODE_SIZE;
    assert w.handle.node.size == Max(node.size, |bytes|);
  }

  /** The chain of a handle opened at the start of a file whose home block is
      taken is taken up to the cursor. */
  lemma StartTaken(s: seq<Block>, node: Node, mode: bv8)
    requires ValidImage(s) && 0 < node.firstBlock < |s| && !s[node.firstBlock].free
    ensures ChainTaken(s, StartHandle(node, mode))
  {
    assert Succ(s, node.firstBlock, 0) == Some(node.firstBlock);
  }

}
