/** _fread on an Image: the copy from the cursor block and the walk over whole
    blocks, as methods that agree with Reader.Fread. */
module Reading {

  import opened Layout
  import opened Chains
  import opened Streams
  import opened Reader
  import opened FileSystem
  import opened Handles
  import Arith

  /** _fread (fs.c:322-400): the copied bytes are returned instead of being
      stored through a buffer pointer. */
  method Fread(img: Image, f: File, size: nat) returns (code: int, bytes: seq<byte>)
    requires ValidImage(img.blocks[..]) && CurrentBlock(f.Value()) < img.blocks.Length
    modifies f
    ensures ReadResult(code, bytes, f.Value()) == Reader.Fread(img.blocks[..], old(f.Value()), size)
  {
    ghost var h := f.Value();
    if f.mode & FMODE_R == 0 {
      FreadNeedsReadMode(img.blocks[..], h, size);
      code, bytes := -1, [];
    } else {
      var offset := f.ptrLocal + NODE_SIZE;
      var remaining := f.node.size + NODE_SIZE - offset;
      if remaining <= 0 {
        FreadAtEnd(img.blocks[..], h, size);
        code, bytes := -1, [];
      } else {
        var n := if remaining < size then remaining else size;
        code, bytes := ReadFromCursor(img, f, size, n);
      }
    }
  }

  /** The copy of _fread once the request is cut to the bytes left (fs.c:342-399):
      from the cursor block alone when it holds them all, else across blocks. */
  method ReadFromCursor(img: Image, f: File, size: nat, n: nat) returns (code: int, bytes: seq<byte>)
    requires ValidImage(img.blocks[..]) && CurrentBlock(f.Value()) < img.blocks.Length
    requires f.mode & FMODE_R != 0 && f.ptrLocal < f.node.size && n == Min(size, f.node.size - f.ptrLocal)
    modifies f
    ensures ReadResult(code, bytes, f.Value()) == Reader.Fread(img.blocks[..], old(f.Value()), size)
  {
    GeometryFacts();
    var off := Arith.Rem(f.ptrLocal + NODE_SIZE, DATA_SIZE);
    FreadCursor(img.blocks[..], f.Value(), size);
    if n <= DATA_SIZE - off {
      code := 0;
      bytes := ReadInBlock(img, f, size, n);
    } else {
      ghost var h := f.Value();
      FreadCrosses(img.blocks[..], h, size);
      var cur := Arith.Quot(f.ptrGlobal, BLOCK_SIZE);
      code, bytes := ReadSpan(img, f, cur, off, n);
    }
  }

  /** The read that fits in the cursor block (fs.c:350-356). */
  method ReadInBlock(img: Image, f: File, size: nat, n: nat) returns (bytes: seq<byte>)
    requires ValidImage(img.blocks[..]) && CurrentBlock(f.Value()) < img.blocks.Length
    requires f.mode & FMODE_R != 0 && f.ptrLocal < f.node.size && n == Min(size, f.node.size - f.ptrLocal)
    requires n <= DATA_SIZE - CursorOffset(f.Value())
    modifies f
    ensures ReadResult(0, bytes, f.Value()) == Reader.Fread(img.blocks[..], old(f.Value()), size)
  {
    ghost var h := f.Value();
    FreadFits(img.blocks[..], h, size);
    FreadCursor(img.blocks[..], h, size);
    GeometryFacts();
    var off := Arith.Rem(f.ptrLocal + NODE_SIZE, DATA_SIZE);
    var crt := img.GetBlockByIndex(Arith.Quot(f.ptrGlobal, BLOCK_SIZE));
    bytes := crt.data[off .. off + n];
    f.ptrLocal := f.ptrLocal + n;
    f.ptrGlobal := f.ptrGlobal + n;
  }

  /** A read with bytes left, in the terms Fread computes: the cursor block
      and the offset in it. */
  lemma FreadCursor(s: seq<Block>, h: Handle, size: nat)
    requires ValidImage(s) && CurrentBlock(h) < |s| && h.mode & FMODE_R != 0 && h.ptrLocal < h.node.size
    ensures CursorOffset(h) == Arith.Rem(h.ptrLocal + NODE_SIZE, DATA_SIZE)
    ensures CurrentBlock(h) == Arith.Quot(h.ptrGlobal, BLOCK_SIZE)
  {
  }

  /** A read that fits in the cursor block. */
  lemma FreadFits(s: seq<Block>, h: Handle, size: nat)
    requires ValidImage(s) && CurrentBlock(h) < |s| && h.mode & FMODE_R != 0 && h.ptrLocal < h.node.size
    requires Min(size, h.node.size - h.ptrLocal) <= DATA_SIZE - CursorOffset(h)
    ensures var n := Min(size, h.node.size - h.ptrLocal);
      var off := CursorOffset(h);
      Reader.Fread(s, h, size) ==
        ReadResult(0, s[CurrentBlock(h)].data[off .. off + n], h.(ptrLocal := h.ptrLocal + n, ptrGlobal := h.ptrGlobal + n))
  {
  }

  /** A read that crosses blocks. */
  lemma FreadCrosses(s: seq<Block>, h: Handle, size: nat)
    requires ValidImage(s) && CurrentBlock(h) < |s| && h.mode & FMODE_R != 0 && h.ptrLocal < h.node.size
    requires Min(size, h.node.size - h.ptrLocal) > DATA_SIZE - CursorOffset(h)
    ensures Reader.Fread(s, h, size) == SpanRead(s, h, CurrentBlock(h), CursorOffset(h), Min(size, h.node.size - h.ptrLocal))
  {
  }

  /** The part of _fread that crosses blocks (fs.c:358-399): the rest of the
      current block, the whole blocks of the loop, then part of one more. */
  method ReadSpan(img: Image, f: File, cur: nat, off: nat, n: nat) returns (code: int, bytes: seq<byte>)
    requires ValidImage(img.blocks[..]) && cur < img.blocks.Length && off < DATA_SIZE < off + n
    modifies f
    ensures ReadResult(code, bytes, f.Value()) == SpanRead(img.blocks[..], old(f.Value()), cur, off, n)
  {
    ghost var s := img.blocks[..];
    var crt := img.GetBlockByIndex(cur);
    var head := crt.data[off..];
    var rest: nat := n - (DATA_SIZE - off);
    GeometryFacts();
    var temp := Arith.Quot(rest, DATA_SIZE);
    SpanParts(s, cur, off, n);
    var ok, acc, last, left := ReadWholeBlocks(img, f, cur, temp, rest);
    if !ok {
      return -1, [];
    }
    bytes := head + acc;
    crt := img.GetBlockByIndex(last);
    if left > 0 {
      if crt.next == 0 {
        return -1, [];
      }
      var tail := img.GetBlockByIndex(crt.next);
      bytes := bytes + tail.data[..left];
    }
    f.ptrGlobal := Arith.Times(crt.next, BLOCK_SIZE) + left;
    f.ptrLocal := f.ptrLocal + left;
    return 0, bytes;
  }

  /** The pieces of a multi-block read: the whole-block walk, what is left of
      the request after it, and the bytes of a successful read. */
  lemma SpanParts(s: seq<Block>, cur: nat, off: nat, n: nat)
    requires ValidImage(s) && cur < |s| && off < DATA_SIZE < off + n
    ensures var w := SpanWalk(s, cur, off, n);
      var rest := n - (DATA_SIZE - off);
      var rem := SpanRem(off, n);
      && w == ReadBlocks(s, cur, Arith.Quot(rest, DATA_SIZE))
      && (w.ok ==> rest - Arith.Times(w.count, DATA_SIZE) == rem)
      && (SpanOk(s, cur, off, n) <==> w.ok && !(rem > 0 && s[w.last].next == 0))
      && (SpanOk(s, cur, off, n) ==>
            SpanBytes(s, cur, off, n) ==
              s[cur].data[off..] + w.bytes + (if rem > 0 then s[s[w.last].next].data[..rem] else []))
  {
    GeometryFacts();
    var rest := n - (DATA_SIZE - off);
    Arith.QuotRem(rest, DATA_SIZE);
    ReadBlocksFollows(s, cur, Arith.Quot(rest, DATA_SIZE));
  }

  /** The whole-block loop of _fread (fs.c:363-380): up to k blocks along the
      chain after block c, each copied whole, ptr_local advancing by a block's
      data each time and `size` (here `rest`) dropping by as much. */
  method ReadWholeBlocks(img: Image, f: File, c: nat, k: nat, rest: int) returns (ok: bool, acc: seq<byte>, last: nat, left: int)
    requires ValidImage(img.blocks[..]) && c < img.blocks.Length
    modifies f
    ensures var w := ReadBlocks(img.blocks[..], c, k);
      && ok == w.ok && acc == w.bytes && last == w.last
      && left == rest - Arith.Times(w.count, DATA_SIZE)
      && f.node == old(f.node) && f.mode == old(f.mode) && f.ptrGlobal == old(f.ptrGlobal)
      && f.ptrLocal == old(f.ptrLocal) + Arith.Times(w.count, DATA_SIZE)
  {
    ghost var s := img.blocks[..];
    ghost var w := ReadBlocks(s, c, k);
    var crt := img.GetBlockByIndex(c);
    last, acc, left := c, [], rest;
    var i: nat := 0;
    assert w == Resume(s, c, k, [], 0);
    while i < k
      invariant i <= k && s == img.blocks[..] && last < |s| && crt == s[last]
      invariant w == Resume(s, last, k - i, acc, i)
      invariant left == rest - Arith.Times(i, DATA_SIZE)
      invariant f.node == old(f.node) && f.mode == old(f.mode) && f.ptrGlobal == old(f.ptrGlobal)
      invariant f.ptrLocal == old(f.ptrLocal) + Arith.Times(i, DATA_SIZE)
    {
      if crt.next == 0 {
        ResumeStop(s, last, k - i, acc, i);
        return false, acc, last, left;
      }
      ghost var prev, before := last, acc;
      last := crt.next;
      crt := img.GetBlockByIndex(last);
      acc := acc + crt.data;
      ResumeStep(s, prev, k - i, before, i, last, acc);
      left := left - DATA_SIZE;
      f.ptrLocal := f.ptrLocal + DATA_SIZE;
      i := i + 1;
    }
    return true, acc, last, left;
  }

  /** The walk of ReadBlocks resumed after i blocks whose bytes are acc. */
  ghost function Resume(s: seq<Block>, c: nat, k: nat, acc: seq<byte>, i: nat): Walked
    requires ValidImage(s) && c < |s|
  {
    var r := ReadBlocks(s, c, k);
    Walked(r.ok, acc + r.bytes, r.last, i + r.count)
  }

  lemma ResumeStep(s: seq<Block>, c: nat, k: nat, acc: seq<byte>, i: nat, nx: nat, more: seq<byte>)
    requires ValidImage(s) && c < |s| && k > 0 && s[c].next == nx != 0
    requires nx < |s| && more == acc + s[nx].data
    ensures Resume(s, c, k, acc, i) == Resume(s, nx, k - 1, more, i + 1)
  {
    var r := ReadBlocks(s, nx, k - 1);
    assert acc + (s[nx].data + r.bytes) == more + r.bytes;
  }

  lemma ResumeStop(s: seq<Block>, c: nat, k: nat, acc: seq<byte>, i: nat)
    requires ValidImage(s) && c < |s| && k > 0 && s[c].next == 0
    ensures Resume(s, c, k, acc, i) == Walked(false, acc, c, i)
  {
    assert acc + [] == acc;
  }
}
