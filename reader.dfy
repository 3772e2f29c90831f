/** _fread (fs.c:322-400): copy up to `size` content bytes from the cursor. The
    request is cut to the bytes left before the end of the content; the bytes
    come from the rest of the current block, then whole blocks, then a part of
    one more block, following `next`. */
module Reader {

  import opened Layout
  import opened Chains
  import opened Streams
  import Arith

  /** The outcome of _fread: 0 or -1, the bytes copied (on success), the handle
      afterwards. */
  datatype ReadResult = ReadResult(code: int, bytes: seq<byte>, handle: Handle)

  /** The whole-block loop (fs.c:363-380): k more blocks after c; stops when a
      `next` of 0 is met. `count` is the number of blocks copied. */
  datatype Walked = Walked(ok: bool, bytes: seq<byte>, last: nat, count: nat)

  function ReadBlocks(s: seq<Block>, c: nat, k: nat): (w: Walked)
    requires ValidImage(s) && c < |s|
    ensures w.last < |s| && w.count <= k
    decreases k
  {
    if k == 0 then Walked(true, [], c, 0)
    else if s[c].next == 0 then Walked(false, [], c, 0)
    else
      var w := ReadBlocks(s, s[c].next, k - 1);
      Walked(w.ok, s[s[c].next].data + w.bytes, w.last, w.count + 1)
  }

  /** _fread on image s with handle h and request size `size`. A cursor block
      outside the image would be read from past the end of the file, which the
      source does not guard against. */
  function Fread(s: seq<Block>, h: Handle, size: nat): (r: ReadResult)
    requires ValidImage(s) && CurrentBlock(h) < |s|
    ensures r.code == 0 || r.code == -1
    ensures r.handle.node == h.node && r.handle.mode == h.mode
  {
    if h.mode & FMODE_R == 0 then ReadResult(-1, [], h)
    else if h.node.size <= h.ptrLocal then ReadResult(-1, [], h)
    else
      var n := Min(size, h.node.size - h.ptrLocal);
      var off := CursorOffset(h);
      var cur := CurrentBlock(h);
      if n <= DATA_SIZE - off then
        ReadResult(0, s[cur].data[off .. off + n], h.(ptrLocal := h.ptrLocal + n, ptrGlobal := h.ptrGlobal + n))
      else SpanRead(s, h, cur, off, n)
  }

  /** The outcome of a read of n bytes from offset off of block cur that does
      not fit in cur (fs.c:358-399). On an I/O error ptr_local keeps what the
      whole-block loop added; on success ptr_global is set from the `next` of
      the last whole block copied. */
  function SpanRead(s: seq<Block>, h: Handle, cur: nat, off: nat, n: nat): (r: ReadResult)
    requires ValidImage(s) && cur < |s| && off < DATA_SIZE < off + n
    ensures r.code == 0 || r.code == -1
    ensures r.handle.node == h.node && r.handle.mode == h.mode
  {
    var w := SpanWalk(s, cur, off, n);
    var rem := SpanRem(off, n);
    if !SpanOk(s, cur, off, n) then
      ReadResult(-1, [], h.(ptrLocal := h.ptrLocal + Arith.Times(w.count, DATA_SIZE)))
    else
      ReadResult(0, SpanBytes(s, cur, off, n),
                 h.(ptrLocal := h.ptrLocal + Arith.Times(w.count, DATA_SIZE) + rem,
                    ptrGlobal := Arith.Times(s[w.last].next, BLOCK_SIZE) + rem))
  }

  /** A read of n bytes from offset off of block cur that does not fit in cur
      (fs.c:358-399): the rest of cur, then the whole blocks of the loop of
      fs.c:363-380, then SpanRem bytes of one more block. */
  function SpanWalk(s: seq<Block>, cur: nat, off: nat, n: nat): Walked
    requires ValidImage(s) && cur < |s| && off < DATA_SIZE < off + n
  {
    ReadBlocks(s, cur, Arith.Quot(n - (DATA_SIZE - off), DATA_SIZE))
  }

  function SpanRem(off: nat, n: nat): (rem: nat)
    requires off < DATA_SIZE < off + n
    ensures rem < DATA_SIZE
  {
    GeometryFacts();
    Arith.Rem(n - (DATA_SIZE - off), DATA_SIZE)
  }

  /** The loop met no `next` of 0 and, when bytes remain, the last block copied
      links to one more (fs.c:366-368, 384-386). */
  predicate SpanOk(s: seq<Block>, cur: nat, off: nat, n: nat)
    requires ValidImage(s) && cur < |s| && off < DATA_SIZE < off + n
  {
    var w := SpanWalk(s, cur, off, n);
    w.ok && !(SpanRem(off, n) > 0 && s[w.last].next == 0)
  }

  /** The bytes a successful multi-block read returns. */
  function SpanBytes(s: seq<Block>, cur: nat, off: nat, n: nat): seq<byte>
    requires ValidImage(s) && cur < |s| && off < DATA_SIZE < off + n
  {
    var w := SpanWalk(s, cur, off, n);
    s[cur].data[off..] + w.bytes + Tail(s, w, SpanRem(off, n))
  }

  // ---------------------------------------------------------------------------
  // Properties

  /** The whole-block loop follows the chain: it completes exactly when k links
      can be followed from c, ends on the block k links away, and copies one
      block's data per block it passes. */
  lemma {:induction false} ReadBlocksFollows(s: seq<Block>, c: nat, k: nat)
    requires ValidImage(s) && c < |s|
    ensures var w := ReadBlocks(s, c, k);
      && (w.ok <==> Succ(s, c, k).Some?)
      && (w.ok ==> w.count == k && Succ(s, c, k) == Some(w.last))
      && |w.bytes| == Arith.Times(w.count, DATA_SIZE)
    decreases k
  {
    if k > 0 && s[c].next != 0 {
      ReadBlocksFollows(s, s[c].next, k - 1);
    }
  }

  /** The whole-block loop copies the chain bytes that follow block c. */
  lemma {:induction false} ReadBlocksBytes(s: seq<Block>, c: nat, k: nat)
    requires ValidImage(s) && c < |s|
    ensures ChainHolds(s, c, DATA_SIZE, ReadBlocks(s, c, k).bytes)
    decreases k
  {
    var w := ReadBlocks(s, c, k);
    if k > 0 && s[c].next != 0 {
      var nx := s[c].next;
      var w' := ReadBlocks(s, nx, k - 1);
      assert w.bytes == s[nx].data + w'.bytes;
      ReadBlocksBytes(s, nx, k - 1);
      forall i | 0 <= i < |w.bytes|
        ensures ChainByte(s, c, DATA_SIZE + i) == Some(w.bytes[i])
      {
        ByteAfterStep(s, c, nx, w'.bytes, i);
      }
    }
  }

  lemma ByteAfterStep(s: seq<Block>, c: nat, nx: nat, more: seq<byte>, i: nat)
    requires ValidImage(s) && c < |s| && s[c].next == nx != 0
    requires ChainHolds(s, nx, DATA_SIZE, more)
    requires i < DATA_SIZE + |more|
    ensures ChainByte(s, c, DATA_SIZE + i) == Some((s[nx].data + more)[i])
  {
    ChainByteStep(s, c, i);
    if i < DATA_SIZE {
      ChainByteHead(s, nx, i);
    } else {
      assert DATA_SIZE + (i - DATA_SIZE) == i;
      assert ChainByte(s, nx, DATA_SIZE + (i - DATA_SIZE)) == Some(more[i - DATA_SIZE]);
    }
  }

  /** A successful read returns the request cut at the end of the content. */
  lemma FreadLength(s: seq<Block>, h: Handle, size: nat)
    requires ValidImage(s) && CurrentBlock(h) < |s| && Fread(s, h, size).code == 0
    ensures |Fread(s, h, size).bytes| == Min(size, h.node.size - h.ptrLocal)
    ensures h.ptrLocal < h.node.size && h.mode & FMODE_R != 0
  {
    var n := Min(size, h.node.size - h.ptrLocal);
    if n > DATA_SIZE - CursorOffset(h) {
      MultiSpanBytes(s, CurrentBlock(h), CursorOffset(h), n);
    }
  }

  /** Without FMODE_R the call fails and the handle is unchanged. */
  lemma FreadNeedsReadMode(s: seq<Block>, h: Handle, size: nat)
    requires ValidImage(s) && CurrentBlock(h) < |s| && h.mode & FMODE_R == 0
    ensures Fread(s, h, size) == ReadResult(-1, [], h)
  {
  }

  /** At or past the end of the content the call fails and the handle is unchanged. */
  lemma FreadAtEnd(s: seq<Block>, h: Handle, size: nat)
    requires ValidImage(s) && CurrentBlock(h) < |s| && h.node.size <= h.ptrLocal
    ensures Fread(s, h, size) == ReadResult(-1, [], h)
  {
  }

  /** The bytes past the current block that a multi-block read takes: k whole
      blocks and, when rem > 0, the first rem bytes of one more. */
  function Tail(s: seq<Block>, w: Walked, rem: nat): seq<byte>
    requires ValidImage(s) && w.last < |s| && rem <= DATA_SIZE
  {
    if rem > 0 && s[w.last].next != 0 then s[s[w.last].next].data[..rem] else []
  }

  /** A multi-block read from offset off of block cur succeeds exactly when the
      chain from cur holds its last byte. */
  lemma MultiSpanOk(s: seq<Block>, cur: nat, off: nat, n: nat)
    requires ValidImage(s) && cur < |s| && off < DATA_SIZE < off + n
    ensures SpanOk(s, cur, off, n) <==> ChainByte(s, cur, off + (n - 1)).Some?
  {
    GeometryFacts();
    var rest := n - (DATA_SIZE - off);
    var k := Arith.Quot(rest, DATA_SIZE);
    var rem := Arith.Rem(rest, DATA_SIZE);
    var w := ReadBlocks(s, cur, k);
    ReadBlocksFollows(s, cur, k);
    ReadBlocksFollows(s, cur, k + 1);
    Arith.QuotRem(rest, DATA_SIZE);
    var lastPos := off + (n - 1);
    if rem > 0 {
      Arith.QuotRemUnique(lastPos, DATA_SIZE, k + 1, rem - 1);
      if w.ok {
        SuccExtend(s, cur, k);
      } else if Succ(s, cur, k + 1).Some? {
        SuccPrefix(s, cur, k, k + 1);
      }
    } else {
      Arith.QuotRemUnique(lastPos, DATA_SIZE, k, DATA_SIZE - 1);
    }
  }

  /** What a successful multi-block read copies is the chain from cur, from off on. */
  lemma MultiSpanBytes(s: seq<Block>, cur: nat, off: nat, n: nat)
    requires ValidImage(s) && cur < |s| && off < DATA_SIZE < off + n && SpanOk(s, cur, off, n)
    ensures var bytes := SpanBytes(s, cur, off, n);
      |bytes| == n && ChainHolds(s, cur, off, bytes)
  {
    GeometryFacts();
    var w := SpanWalk(s, cur, off, n);
    var head := s[cur].data[off..];
    ChainHoldsData(s, cur, off, head);
    ReadBlocksBytes(s, cur, Arith.Quot(n - (DATA_SIZE - off), DATA_SIZE));
    ChainHoldsAppend(s, cur, off, head, w.bytes);
    SpanLength(s, cur, off, n);
    SpanTail(s, cur, off, n);
    ChainHoldsAppend(s, cur, off, head + w.bytes, Tail(s, w, SpanRem(off, n)));
  }

  /** A multi-block read that succeeds takes exactly the count asked for. */
  lemma SpanLength(s: seq<Block>, cur: nat, off: nat, n: nat)
    requires ValidImage(s) && cur < |s| && off < DATA_SIZE < off + n && SpanOk(s, cur, off, n)
    ensures var w := SpanWalk(s, cur, off, n);
      (DATA_SIZE - off) + |w.bytes| + |Tail(s, w, SpanRem(off, n))| == n
  {
    GeometryFacts();
    Arith.QuotRem(n - (DATA_SIZE - off), DATA_SIZE);
    ReadBlocksFollows(s, cur, Arith.Quot(n - (DATA_SIZE - off), DATA_SIZE));
  }

  /** The bytes a multi-block read takes past its whole blocks sit right after
      them on the chain. */
  lemma SpanTail(s: seq<Block>, cur: nat, off: nat, n: nat)
    requires ValidImage(s) && cur < |s| && off < DATA_SIZE < off + n && SpanOk(s, cur, off, n)
    ensures var w := SpanWalk(s, cur, off, n);
      ChainHolds(s, cur, off + |s[cur].data[off..] + w.bytes|, Tail(s, w, SpanRem(off, n)))
  {
    GeometryFacts();
    var k := Arith.Quot(n - (DATA_SIZE - off), DATA_SIZE);
    var w := SpanWalk(s, cur, off, n);
    var tail := Tail(s, w, SpanRem(off, n));
    ReadBlocksFollows(s, cur, k);
    if tail != [] {
      var nx := s[w.last].next;
      SuccExtend(s, cur, k);
      ChainHoldsData(s, nx, 0, tail);
      ChainHoldsShift(s, cur, k + 1, 0, tail);
      assert off + |s[cur].data[off..] + w.bytes| == Arith.Times(k + 1, DATA_SIZE) + 0;
    }
  }

  /** _fread measured from the cursor block: success exactly when the chain from
      the cursor block holds the last byte asked for, and then the bytes of
      that chain from the cursor offset on. */
  lemma FreadFromCursor(s: seq<Block>, h: Handle, size: nat)
    requires ValidImage(s) && CurrentBlock(h) < |s| && h.mode & FMODE_R != 0 && h.ptrLocal < h.node.size
    ensures var n := Min(size, h.node.size - h.ptrLocal);
      var r := Fread(s, h, size);
      && (n > 0 ==> (r.code == 0 <==> ChainByte(s, CurrentBlock(h), CursorOffset(h) + (n - 1)).Some?))
      && (r.code == 0 ==>
            && |r.bytes| == n
            && ChainHolds(s, CurrentBlock(h), CursorOffset(h), r.bytes))
  {
    if Min(size, h.node.size - h.ptrLocal) <= DATA_SIZE - CursorOffset(h) {
      FreadFromCursorFits(s, h, size);
    } else {
      FreadFromCursorSpans(s, h, size);
    }
  }

  lemma FreadFromCursorFits(s: seq<Block>, h: Handle, size: nat)
    requires ValidImage(s) && CurrentBlock(h) < |s| && h.mode & FMODE_R != 0 && h.ptrLocal < h.node.size
    requires Min(size, h.node.size - h.ptrLocal) <= DATA_SIZE - CursorOffset(h)
    ensures var n := Min(size, h.node.size - h.ptrLocal);
      var r := Fread(s, h, size);
      && (n > 0 ==> (r.code == 0 <==> ChainByte(s, CurrentBlock(h), CursorOffset(h) + (n - 1)).Some?))
      && (r.code == 0 ==>
            && |r.bytes| == n
            && ChainHolds(s, CurrentBlock(h), CursorOffset(h), r.bytes))
  {
    var n := Min(size, h.node.size - h.ptrLocal);
    var off := CursorOffset(h);
    var cur := CurrentBlock(h);
    var r := Fread(s, h, size);
    assert r.code == 0 && r.bytes == s[cur].data[off .. off + n];
    if n > 0 {
      ChainByteHead(s, cur, off + (n - 1));
    }
    ChainHoldsData(s, cur, off, r.bytes);
  }

  lemma FreadFromCursorSpans(s: seq<Block>, h: Handle, size: nat)
    requires ValidImage(s) && CurrentBlock(h) < |s| && h.mode & FMODE_R != 0 && h.ptrLocal < h.node.size
    requires Min(size, h.node.size - h.ptrLocal) > DATA_SIZE - CursorOffset(h)
    ensures var n := Min(size, h.node.size - h.ptrLocal);
      var r := Fread(s, h, size);
      && (r.code == 0 <==> ChainByte(s, CurrentBlock(h), CursorOffset(h) + (n - 1)).Some?)
      && (r.code == 0 ==>
            && |r.bytes| == n
            && ChainHolds(s, CurrentBlock(h), CursorOffset(h), r.bytes))
  {
    var n := Min(size, h.node.size - h.ptrLocal);
    var off := CursorOffset(h);
    var cur := CurrentBlock(h);
    FreadSpan(s, h, size);
    MultiSpanOk(s, cur, off, n);
    if SpanOk(s, cur, off, n) {
      MultiSpanBytes(s, cur, off, n);
    }
  }

  /** A read that does not fit in the cursor block is the multi-block span. */
  lemma FreadSpan(s: seq<Block>, h: Handle, size: nat)
    requires ValidImage(s) && CurrentBlock(h) < |s| && h.mode & FMODE_R != 0 && h.ptrLocal < h.node.size
    requires Min(size, h.node.size - h.ptrLocal) > DATA_SIZE - CursorOffset(h)
    ensures var n := Min(size, h.node.size - h.ptrLocal);
      var r := Fread(s, h, size);
      && (r.code == 0 <==> SpanOk(s, CurrentBlock(h), CursorOffset(h), n))
      && (r.code == 0 ==> r.bytes == SpanBytes(s, CurrentBlock(h), CursorOffset(h), n))
  {
  }


  /** The main property of _fread. With consistent cursors, the call succeeds
      exactly when the chain holds the last byte asked for, and then it returns
      content bytes ptr_local .. ptr_local + n of the chain, n being the request
      cut at the end of the content. */
  lemma FreadContent(s: seq<Block>, h: Handle, size: nat)
    requires Consistent(s, h) && h.mode & FMODE_R != 0 && h.ptrLocal < h.node.size
    ensures var n := Min(size, h.node.size - h.ptrLocal);
      var r := Fread(s, h, size);
      && (n > 0 ==>
            (r.code == 0 <==> ChainByte(s, h.node.firstBlock, h.ptrLocal + NODE_SIZE + (n - 1)).Some?))
      && (r.code == 0 ==>
            && |r.bytes| == n
            && ChainHolds(s, h.node.firstBlock, h.ptrLocal + NODE_SIZE, r.bytes))
  {
    var n := Min(size, h.node.size - h.ptrLocal);
    var r := Fread(s, h, size);
    FreadFromCursor(s, h, size);
    if r.code == 0 {
      FreadLength(s, h, size);
    }
    if n > 0 {
      CursorBytes(s, h, n - 1);
    }
    CursorHolds(s, h, r.bytes);
  }

  /** A request that fits in the current block advances both cursors by the
      number of bytes copied. */
  lemma FreadSingleBlock(s: seq<Block>, h: Handle, size: nat)
    requires ValidImage(s) && CurrentBlock(h) < |s|
    requires Fread(s, h, size).code == 0 && Min(size, h.node.size - h.ptrLocal) <= DATA_SIZE - CursorOffset(h)
    ensures var n := Min(size, h.node.size - h.ptrLocal);
      var r := Fread(s, h, size);
      r.handle.ptrLocal == h.ptrLocal + n && r.handle.ptrGlobal == h.ptrGlobal + n
      && r.bytes == s[CurrentBlock(h)].data[CursorOffset(h) .. CursorOffset(h) + n]
  {
  }

  /** As written, a successful read that crosses into another block advances
      ptr_local only by the bytes taken after the current block: the first
      DATA_SIZE - offset bytes are never counted (fs.c:359-361 against 379, 395),
      and ptr_global moves to the block after the last whole block copied. */
  lemma FreadMultiBlockShortfall(s: seq<Block>, h: Handle, size: nat)
    requires ValidImage(s) && CurrentBlock(h) < |s|
    requires Fread(s, h, size).code == 0 && Min(size, h.node.size - h.ptrLocal) > DATA_SIZE - CursorOffset(h)
    ensures var n := Min(size, h.node.size - h.ptrLocal);
      var r := Fread(s, h, size);
      && r.handle.ptrLocal == h.ptrLocal + n - (DATA_SIZE - CursorOffset(h))
      && r.handle.ptrLocal < h.ptrLocal + n
  {
    GeometryFacts();
    var n := Min(size, h.node.size - h.ptrLocal);
    var rest := n - (DATA_SIZE - CursorOffset(h));
    Arith.QuotRem(rest, DATA_SIZE);
    ReadBlocksFollows(s, CurrentBlock(h), Arith.Quot(rest, DATA_SIZE));
  }
}
