/** mknode (fs.c:195-250): create a directory, file or character-device node.
    The parent directory is resolved in parent mode, a free block is taken for
    the new node's home block, its index is appended to the parent's child list
    and the new home block receives a fresh node record. */
module NodeManager {

  import opened Layout
  import opened Paths
  import opened Allocator
  import opened Resolver
  import Arith

  /** Why mknode produced no node. ParentNotFound is the source's NULL; the
      others stand for a failed assert (CorruptImage at fs.c:154/156, OutOfSpace
      at fs.c:221) or for undefined behaviour the source does not guard against:
      no component to name the node (temp[-1] at fs.c:206), a name overflowing the
      32-byte buffer (fs.c:205-206, 241), a child list already full (fs.c:225).
      CorruptImage also stands for a parent record whose first_block lies
      outside the image (fs.c:223), where the source would grow the image file. */
  datatype MkError = ParentNotFound | CorruptImage | InvalidName | OutOfSpace | TooManyChildren

  datatype MkResult = Created(index: nat, node: Node) | Failed(error: MkError)

  /** The rwx triples that the comments at fs.c:237-239 give for each kind:
      file rwx rwx, directory rw- rw-, character device r-- rw-. */
  function UserBits(kind: NodeType): bv8
  {
    match kind
    case File => 7
    case Dir => 6
    case CharDev => 4
  }

  function KernelBits(kind: NodeType): bv8
  {
    match kind
    case File => 7
    case Dir => 6
    case CharDev => 6
  }

  /** The mode literal mknode stores (63, 54 or 38); each is mode_calc of the
      triples its comment names. */
  function ModeFor(kind: NodeType): (m: bv8)
    ensures m == ModeCalc(UserBits(kind), KernelBits(kind))
    ensures m >> 3 == UserBits(kind) && m & 7 == KernelBits(kind)
  {
    match kind
    case File => 63
    case Dir => 54
    case CharDev => 38
  }

  /** The record written into a new home block (fs.c:232-241). */
  function NewNode(r: nat, kind: NodeType, name: string): Node
  {
    Node(NODE_MAGIC, {kind}, ModeFor(kind), 0, r, name)
  }

  /** The new home block: zeroed, METADATA only, end of chain (fs.c:231, 243-245). */
  function NewHomeBlock(node: Node): Block
  {
    Block(0, false, true, NodeRecord(node), Zeros(DATA_SIZE))
  }

  /** The parent's home block after the append: the new index in slot `size`,
      the record's count one higher (fs.c:225-227). */
  function AppendChild(pb: Block, parent: Node, r: nat): Block
    requires |pb.data| == DATA_SIZE && parent.size < CHILD_CAPACITY && r < 0x1_0000_0000
  {
    pb.(data := Splice(pb.data, SlotOffset(parent.size), EncodeU32(r)),
        rec := NodeRecord(parent.(size := parent.size + 1)))
  }

  /** The appended index sits in slot `size`; the earlier slots keep theirs. */
  lemma AppendChildSlots(pb: Block, parent: Node, r: nat)
    requires |pb.data| == DATA_SIZE && parent.size < CHILD_CAPACITY && r < 0x1_0000_0000
    ensures ChildSlot(AppendChild(pb, parent, r), parent.size) == r
    ensures forall k :: 0 <= k < parent.size ==> ChildSlot(AppendChild(pb, parent, r), k) == ChildSlot(pb, k)
  {
    var b := AppendChild(pb, parent, r);
    var lo := SlotOffset(parent.size);
    assert b.data[lo .. lo + 4] == EncodeU32(r);
    forall k | 0 <= k < parent.size
      ensures ChildSlot(b, k) == ChildSlot(pb, k)
    {
      var o := SlotOffset(k);
      assert o + 4 <= lo;
      assert b.data[o .. o + 4] == pb.data[o .. o + 4];
    }
  }

  /** The image after a creation: the parent's home block rewritten at
      first_block, the new home block at r. */
  function Install(s: seq<Block>, p: nat, parent: Node, r: nat, node: Node): (t: seq<Block>)
    requires ValidImage(s) && p < |s| && 0 < r < |s| && r < 0x1_0000_0000
    requires parent.size < CHILD_CAPACITY && parent.firstBlock < |s|
    ensures ValidImage(t) && |t| == |s|
  {
    var t := s[parent.firstBlock := AppendChild(s[p], parent, r)][r := NewHomeBlock(node)];
    assert forall i :: 0 <= i < |t| ==> t[i] == s[i] || t[i] == NewHomeBlock(node) || t[i] == AppendChild(s[p], parent, r);
    t
  }

  lemma IndexFitsSlot(s: seq<Block>, i: nat)
    requires |s| > 0
    ensures FirstFree(s, i) < 0x1_0000_0000
  {
    var r := FirstFree(s, i);
    FirstFreeInRange(s, i);
    GeometryFacts();
    OffsetIsProduct(r);
    if r > 0 {
      Arith.MulAtLeast(BLOCK_SIZE, r);
    }
  }

  /** mknode on the image s: the outcome and the image afterwards. */
  function Mknode(s: seq<Block>, path: string, kind: NodeType): (out: (MkResult, seq<Block>))
    requires ValidImage(s)
    ensures ValidImage(out.1) && |out.1| == |s|
    ensures out.0.Failed? ==> out.1 == s
  {
    match FindNode(s, path, Dir, true)
    case NotFound => (Failed(ParentNotFound), s)
    case Corrupt => (Failed(CorruptImage), s)
    case Found(p, parent) =>
      var comps := Split(path);
      if |comps| == 0 || |comps[|comps| - 1]| >= NAME_BUFFER then (Failed(InvalidName), s)
      else
        var name := comps[|comps| - 1];
        var r := FirstFree(s, p);
        if r == 0 then (Failed(OutOfSpace), s)
        else if parent.size >= CHILD_CAPACITY then (Failed(TooManyChildren), s)
        else if parent.firstBlock >= |s| then (Failed(CorruptImage), s)
        else
          FirstFreeInRange(s, p);
          IndexFitsSlot(s, p);
          var node := NewNode(r, kind, name);
          (Created(r, node), Install(s, p, parent, r, node))
  }

  function LastComponent(path: string): string
    requires |Split(path)| > 0
  {
    Split(path)[|Split(path)| - 1]
  }

  // ---------------------------------------------------------------------------
  // Properties

  /** The outcome of mknode once its parent lookup and its block scan are known. */
  lemma MknodeCreates(s: seq<Block>, path: string, kind: NodeType, p: nat, parent: Node, r: nat)
    requires ValidImage(s) && FindNode(s, path, Dir, true) == Found(p, parent)
    requires |Split(path)| > 0 && |LastComponent(path)| < NAME_BUFFER
    requires FirstFree(s, p) == r != 0
    requires parent.size < CHILD_CAPACITY && parent.firstBlock < |s|
    ensures 0 < r < |s| && r < 0x1_0000_0000 && p < |s|
    ensures Mknode(s, path, kind) == (Created(r, NewNode(r, kind, LastComponent(path))),
                                      Install(s, p, parent, r, NewNode(r, kind, LastComponent(path))))
  {
    FirstFreeInRange(s, p);
    IndexFitsSlot(s, p);
  }

  /** A parent that does not resolve gives NULL and leaves the image unchanged;
      so does every other failure. */
  lemma MknodeParentMissing(s: seq<Block>, path: string, kind: NodeType)
    requires ValidImage(s) && !FindNode(s, path, Dir, true).Found?
    ensures Mknode(s, path, kind).0.Failed? && Mknode(s, path, kind).1 == s
    ensures Mknode(s, path, kind).0.error == ParentNotFound <==> FindNode(s, path, Dir, true) == NotFound
  {
  }

  /** A creation happens exactly when the parent resolves, the path names the
      node with fewer than 32 characters, a free block is found, the parent's
      list has room and its first_block lies inside the image. */
  lemma MknodeSucceeds(s: seq<Block>, path: string, kind: NodeType)
    requires ValidImage(s)
    ensures Mknode(s, path, kind).0.Created? <==>
      var l := FindNode(s, path, Dir, true);
      && l.Found?
      && |Split(path)| > 0 && |LastComponent(path)| < NAME_BUFFER
      && FirstFree(s, l.index) != 0
      && l.node.size < CHILD_CAPACITY
      && l.node.firstBlock < |s|
  {
  }

  /** The new home block is the first free block at or after the parent's home
      block; afterwards it holds a fresh record (magic, its own index as
      first_block, flags equal to the kind, size 0, the last path component as
      name, the kind's mode), METADATA set, FREE clear and next 0. */
  lemma MknodeInitialisesNode(s: seq<Block>, path: string, kind: NodeType)
    requires ValidImage(s) && Mknode(s, path, kind).0.Created?
    ensures var (res, t) := Mknode(s, path, kind);
      var p := FindNode(s, path, Dir, true).index;
      && FindNode(s, path, Dir, true).Found?
      && p <= res.index && FreeInScan(s, res.index)
      && (forall k :: p <= k < res.index ==> !FreeInScan(s, k))
      && res.node == Node(NODE_MAGIC, {kind}, ModeFor(kind), 0, res.index, LastComponent(path))
      && t[res.index] == Block(0, false, true, NodeRecord(res.node), Zeros(DATA_SIZE))
      && res.node.mode == (match kind case File => 63 case Dir => 54 case CharDev => 38)
  {
    var l := FindNode(s, path, Dir, true);
    FirstFreeIsFirst(s, l.index);
  }

  /** In the parent's home block the new index lands in slot `old size`, the count
      grows by exactly one, the earlier slots and the block's header keep their
      values; every block other than the parent's and the new one is unchanged.
      (The source writes the parent back at its record's first_block, which is
      its home block in a consistent image.) */
  lemma MknodeUpdatesParent(s: seq<Block>, path: string, kind: NodeType)
    requires ValidImage(s) && Mknode(s, path, kind).0.Created?
    requires var l := FindNode(s, path, Dir, true); l.Found? && l.node.firstBlock == l.index && !s[l.index].free
    ensures var (res, t) := Mknode(s, path, kind);
      var l := FindNode(s, path, Dir, true);
      var p := l.index;
      && res.index != p
      && t[p].rec == NodeRecord(l.node.(size := l.node.size + 1))
      && l.node.size < CHILD_CAPACITY
      && ChildSlot(t[p], l.node.size) == res.index
      && (forall k :: 0 <= k < l.node.size ==> ChildSlot(t[p], k) == ChildSlot(s[p], k))
      && t[p].next == s[p].next && t[p].free == s[p].free && t[p].metadata == s[p].metadata
      && (forall k :: 0 <= k < |s| && k != p && k != res.index ==> t[k] == s[k])
  {
    var (res, t) := Mknode(s, path, kind);
    var l := FindNode(s, path, Dir, true);
    var p := l.index;
    FirstFreeIsFirst(s, p);
    assert t == Install(s, p, l.node, res.index, res.node);
    assert t[p] == AppendChild(s[p], l.node, res.index);
    AppendChildSlots(s[p], l.node, res.index);
  }
}
