/** _fopen (fs.c:253-320): open handles on file nodes. A handle carries its own
    copy of the node record, the open mode and two cursors: ptr_local, the
    number of content bytes before the cursor, and ptr_global, whose quotient
    by BLOCK_SIZE is the index of the block the cursor is in. */
module Streams {

  import opened Layout
  import opened Resolver
  import opened NodeManager
  import opened Chains
  import Arith

  /** file_t, without the is_locked flag. */
  datatype Handle = Handle(node: Node, mode: bv8, ptrLocal: nat, ptrGlobal: nat)

  datatype Opened = Null | Opened(handle: Handle)

  function Min(a: int, b: int): int { if a <= b then a else b }

  function Max(a: int, b: int): int { if a >= b then a else b }

  /** The block the cursor is in (ptr_global / BLOCK_SIZE). */
  function CurrentBlock(h: Handle): nat
  {
    GeometryFacts();
    Arith.Quot(h.ptrGlobal, BLOCK_SIZE)
  }

  /** The cursor's byte offset inside its block's data region (off_crt_block,
      fs.c:333/343-344 and 412-414). */
  function CursorOffset(h: Handle): (off: nat)
    ensures off < DATA_SIZE
  {
    GeometryFacts();
    Arith.Rem(h.ptrLocal + NODE_SIZE, DATA_SIZE)
  }

  /** How many blocks along the chain the cursor's byte lies. */
  function CursorDistance(h: Handle): nat
  {
    GeometryFacts();
    Arith.Quot(h.ptrLocal + NODE_SIZE, DATA_SIZE)
  }

  /** The handle _fopen returns for reading or writing from the start
      (fs.c:272-276, 312-316): content byte 0, in the home block just after the
      record. */
  function StartHandle(node: Node, mode: bv8): (h: Handle)
    ensures h.node == node && h.mode == mode && h.ptrLocal == 0
    ensures CurrentBlock(h) == node.firstBlock && CursorOffset(h) == NODE_SIZE && CursorDistance(h) == 0
  {
    GeometryFacts();
    Arith.QuotRemUnique(Arith.Times(node.firstBlock, BLOCK_SIZE), BLOCK_SIZE, node.firstBlock, 0);
    Handle(node, mode, 0, Arith.Times(node.firstBlock, BLOCK_SIZE))
  }

  /** The two cursors agree: the block ptr_global names is the one that holds
      content byte ptr_local on the chain from the home block. */
  predicate Consistent(s: seq<Block>, h: Handle)
  {
    && ValidImage(s)
    && h.node.firstBlock < |s|
    && Succ(s, h.node.firstBlock, CursorDistance(h)) == Some(CurrentBlock(h))
  }

  /** The node an open in write or append mode works on: the file found at the
      path, or the one mknode creates there (fs.c:261-264, 278-281), with the
      image afterwards. None stands for a lookup fault or a failed mknode; the
      source dereferences the NULL that mknode returns (fs.c:266, 283). */
  function WriteTarget(s: seq<Block>, path: string): (r: (Option<Node>, seq<Block>))
    requires ValidImage(s)
    ensures ValidImage(r.1) && |r.1| == |s|
  {
    match FindNode(s, path, File, false)
    case Found(_, node) => (Some(node), s)
    case Corrupt => (None, s)
    case NotFound =>
      var (res, t) := Mknode(s, path, File);
      if res.Created? then (Some(res.node), t) else (None, s)
  }

  /** The append cursor (fs.c:289-304): ptr_local at the end of the content;
      ptr_global in the chain's last block, at size % BLOCK_SIZE, plus the
      record size when the last block is the home block. */
  function AppendCursor(t: seq<Block>, node: Node, mode: bv8): Opened
    requires ValidImage(t)
  {
    if node.firstBlock >= |t| then Null
    else match LastBlock(t, node.firstBlock, |t|)
      case None => Null
      case Some(last) =>
        Opened(Handle(node, mode, node.size,
                      Arith.Times(last, BLOCK_SIZE) + Arith.Rem(node.size, BLOCK_SIZE) + (if last == node.firstBlock then NODE_SIZE else 0)))
  }

  /** _fopen on image s: the handle (or NULL) and the image afterwards. */
  function Fopen(s: seq<Block>, path: string, mode: bv8): (r: (Opened, seq<Block>))
    requires ValidImage(s)
    ensures ValidImage(r.1) && |r.1| == |s|
  {
    if mode == 0 then (Null, s)
    else if mode & FMODE_W != 0 || mode & FMODE_A != 0 then OpenForWrite(s, path, mode)
    else if mode & FMODE_R != 0 then (OpenForRead(s, path, mode), s)
    else (Null, s)
  }

  /** The write and append branch of _fopen (fs.c:260-304). */
  function OpenForWrite(s: seq<Block>, path: string, mode: bv8): (r: (Opened, seq<Block>))
    requires ValidImage(s)
    ensures ValidImage(r.1) && |r.1| == |s|
  {
    var (target, t) := WriteTarget(s, path);
    if target.None? || target.value.mode & MODE_W == 0 then (Null, t)
    else if mode & FMODE_W != 0 then
      (Opened(StartHandle(target.value, mode)), t)
    else (AppendCursor(t, target.value, mode), t)
  }

  /** OpenForWrite taken apart: the image is the write target's, and the
      handle depends only on the target node and the image after it. */
  lemma OpenForWriteParts(s: seq<Block>, path: string, mode: bv8)
    requires ValidImage(s)
    ensures var w := WriteTarget(s, path);
      && OpenForWrite(s, path, mode).1 == w.1
      && OpenForWrite(s, path, mode).0 ==
           if w.0.None? || w.0.value.mode & MODE_W == 0 then Null
           else if mode & FMODE_W != 0 then Opened(StartHandle(w.0.value, mode))
           else AppendCursor(w.1, w.0.value, mode)
  {
  }

  /** The read-only branch of _fopen (fs.c:305-316). */
  function OpenForRead(s: seq<Block>, path: string, mode: bv8): Opened
    requires ValidImage(s)
  {
    match FindNode(s, path, File, false)
    case Found(_, node) => Opened(StartHandle(node, mode))
    case _ => Null
  }

  // ---------------------------------------------------------------------------
  // Properties

  lemma StartCursor(s: seq<Block>, node: Node, mode: bv8)
    requires ValidImage(s) && node.firstBlock < |s|
    ensures Consistent(s, StartHandle(node, mode))
  {
    assert Succ(s, node.firstBlock, 0) == Some(node.firstBlock);
  }

  /** Content byte ptr_local + x is byte off + x of the chain from the cursor block. */
  lemma CursorBytes(s: seq<Block>, h: Handle, x: nat)
    requires Consistent(s, h)
    ensures ChainByte(s, h.node.firstBlock, h.ptrLocal + NODE_SIZE + x) == ChainByte(s, CurrentBlock(h), CursorOffset(h) + x)
  {
    GeometryFacts();
    var J := CursorDistance(h);
    Arith.QuotRem(h.ptrLocal + NODE_SIZE, DATA_SIZE);
    ChainByteShift(s, h.node.firstBlock, J, CursorOffset(h) + x);
  }

  /** A content position before the cursor lies in a block before the cursor
      block, or in the cursor block before the cursor offset. */
  lemma BeforeCursor(h: Handle, q: nat)
    requires q < h.ptrLocal + NODE_SIZE
    ensures 0 < DATA_SIZE
    ensures || Arith.Quot(q, DATA_SIZE) < CursorDistance(h)
            || (Arith.Quot(q, DATA_SIZE) == CursorDistance(h) && Arith.Rem(q, DATA_SIZE) < CursorOffset(h))
  {
    GeometryFacts();
    Arith.QuotRem(h.ptrLocal + NODE_SIZE, DATA_SIZE);
    Arith.TimesBefore(q, CursorDistance(h), CursorOffset(h), DATA_SIZE);
  }

  /** The chain from the cursor block holds a run from the cursor offset on
      exactly when the chain from the home block holds it from content byte
      ptr_local on. */
  lemma CursorHolds(s: seq<Block>, h: Handle, bytes: seq<byte>)
    requires Consistent(s, h)
    ensures ChainHolds(s, h.node.firstBlock, h.ptrLocal + NODE_SIZE, bytes)
        <==> ChainHolds(s, CurrentBlock(h), CursorOffset(h), bytes)
  {
    if ChainHolds(s, h.node.firstBlock, h.ptrLocal + NODE_SIZE, bytes) {
      forall i | 0 <= i < |bytes|
        ensures ChainByte(s, CurrentBlock(h), CursorOffset(h) + i) == Some(bytes[i])
      {
        CursorBytes(s, h, i);
      }
    }
    if ChainHolds(s, CurrentBlock(h), CursorOffset(h), bytes) {
      forall i | 0 <= i < |bytes|
        ensures ChainByte(s, h.node.firstBlock, h.ptrLocal + NODE_SIZE + i) == Some(bytes[i])
      {
        CursorBytes(s, h, i);
      }
    }
  }

  /** Mode 0 gives NULL and touches nothing. */
  lemma FopenModeZero(s: seq<Block>, path: string)
    requires ValidImage(s)
    ensures Fopen(s, path, 0) == (Null, s)
  {
  }

  /** Read-only opens never change the image; they give NULL exactly when the
      path does not resolve to a file. */
  lemma FopenRead(s: seq<Block>, path: string, mode: bv8)
    requires ValidImage(s) && mode & FMODE_W == 0 && mode & FMODE_A == 0 && mode & FMODE_R != 0
    ensures Fopen(s, path, mode).1 == s
    ensures Fopen(s, path, mode).0.Opened? <==> FindNode(s, path, File, false).Found?
    ensures var l := FindNode(s, path, File, false);
      l.Found? ==> Fopen(s, path, mode).0 == Opened(StartHandle(l.node, mode))
  {
  }

  /** An existing file opened with FMODE_W, whatever other bits the mode
      carries (write takes precedence over append), leaves the image as it was
      and gives a handle on the node found, at content byte 0 in the home
      block; a node without MODE_W gives NULL. StartCursor shows that such a
      handle's cursors agree. */
  lemma FopenWriteExisting(s: seq<Block>, path: string, mode: bv8)
    requires ValidImage(s) && mode & FMODE_W != 0 && FindNode(s, path, File, false).Found?
    ensures Fopen(s, path, mode).1 == s
    ensures Fopen(s, path, mode).0 ==
      var node := FindNode(s, path, File, false).node;
      if node.mode & MODE_W == 0 then Null else Opened(StartHandle(node, mode))
  {
    FopenWriteTarget(s, path, mode);
    WriteTargetFound(s, path);
  }

  /** An existing file is its own write target. */
  lemma WriteTargetFound(s: seq<Block>, path: string)
    requires ValidImage(s) && FindNode(s, path, File, false).Found?
    ensures WriteTarget(s, path) == (Some(FindNode(s, path, File, false).node), s)
  {
  }

  /** A missing file opened for writing is created by mknode; the handle holds
      the new node, from its start, exactly when mknode succeeded and gave it
      MODE_W. */
  lemma FopenWriteCreated(s: seq<Block>, path: string, mode: bv8)
    requires ValidImage(s) && mode & FMODE_W != 0 && FindNode(s, path, File, false).NotFound?
    ensures Fopen(s, path, mode).1 == Mknode(s, path, File).1
    ensures Fopen(s, path, mode).0 ==
      var m := Mknode(s, path, File);
      if m.0.Created? && m.0.node.mode & MODE_W != 0 then Opened(StartHandle(m.0.node, mode)) else Null
  {
    FopenWriteTarget(s, path, mode);
    WriteTargetMissing(s, path);
  }

  /** With FMODE_W the handle comes from the write target, from its start. */
  lemma FopenWriteTarget(s: seq<Block>, path: string, mode: bv8)
    requires ValidImage(s) && mode & FMODE_W != 0
    ensures var (target, t) := WriteTarget(s, path);
      Fopen(s, path, mode) ==
        (if target.None? || target.value.mode & MODE_W == 0 then Null else Opened(StartHandle(target.value, mode)), t)
  {
  }

  /** A missing file's write target is what mknode creates. */
  lemma WriteTargetMissing(s: seq<Block>, path: string)
    requires ValidImage(s) && FindNode(s, path, File, false).NotFound?
    ensures var m := Mknode(s, path, File);
      WriteTarget(s, path) == (if m.0.Created? then Some(m.0.node) else None, m.1)
  {
  }

  /** A lookup fault on a path opened for writing or appending gives NULL and
      leaves the image as it was. */
  lemma FopenWriteFault(s: seq<Block>, path: string, mode: bv8)
    requires ValidImage(s) && (mode & FMODE_W != 0 || mode & FMODE_A != 0)
    requires FindNode(s, path, File, false).Corrupt?
    ensures Fopen(s, path, mode) == (Null, s)
  {
  }

  /** A missing file opened for writing or appending is created with mknode;
      when that succeeds and the new node is writable the handle holds it. */
  lemma FopenCreates(s: seq<Block>, path: string, mode: bv8)
    requires ValidImage(s) && mode != 0 && (mode & FMODE_W != 0 || mode & FMODE_A != 0)
    requires FindNode(s, path, File, false).NotFound?
    ensures var (r, t) := Fopen(s, path, mode);
      var m := Mknode(s, path, File);
      && t == m.1
      && (r.Opened? ==> m.0.Created? && r.handle.node == m.0.node)
      && (m.0.Created? && m.0.node.mode & MODE_W != 0 && mode & FMODE_W != 0 ==> r.Opened?)
  {
  }

  /** Append mode without FMODE_W puts ptr_local at the end of the content and
      ptr_global in the last block of the chain, offset by size % BLOCK_SIZE
      (plus the record size in the home block). */
  lemma FopenAppend(s: seq<Block>, path: string, mode: bv8)
    requires ValidImage(s) && mode & FMODE_W == 0 && mode & FMODE_A != 0
    ensures var (r, t) := Fopen(s, path, mode);
      r.Opened? ==>
        var h := r.handle;
        var fb := h.node.firstBlock;
        && fb < |t|
        && LastBlock(t, fb, |t|).Some?
        && h.ptrLocal == h.node.size
        && (var last := LastBlock(t, fb, |t|).value;
            var x := Arith.Rem(h.node.size, BLOCK_SIZE) + (if last == fb then NODE_SIZE else 0);
            && h.ptrGlobal == Arith.Times(last, BLOCK_SIZE) + x
            && (x < BLOCK_SIZE ==> CurrentBlock(h) == last))
  {
    var (r, t) := Fopen(s, path, mode);
    if r.Opened? {
      var h := r.handle;
      var last := LastBlock(t, h.node.firstBlock, |t|).value;
      var x := Arith.Rem(h.node.size, BLOCK_SIZE) + (if last == h.node.firstBlock then NODE_SIZE else 0);
      GeometryFacts();
      if x < BLOCK_SIZE {
        Arith.QuotRemUnique(Arith.Times(last, BLOCK_SIZE) + x, BLOCK_SIZE, last, x);
      }
    }
  }
}
