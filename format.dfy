/** new_fs (fs.c:42-87): format an image. A size that is not a whole number of
    blocks is refused. Otherwise the superblock goes to block 0, the root
    directory to block 1 and a free, zeroed block to every further position
    the size covers; then /dev, /dev/stdout and /dev/stdin are created through
    mknode. */
module Format {

  import opened Layout
  import opened Paths
  import opened Allocator
  import opened Resolver
  import opened NodeManager
  import Arith

  /** The superblock (fs.c:49-57): magic, image size and block size, METADATA
      set. The attribute byte is taken to start at 0. */
  function SuperBlock(size: nat): Block
  {
    Block(0, false, true, SuperRecord(FS_MAGIC, size, BLOCK_SIZE), Zeros(DATA_SIZE))
  }

  /** The root record (fs.c:63-69): a directory whose first_block is 1, with no
      children, named "ROOT", mode r-- for the user and rw- for the kernel. */
  function RootNode(): Node
  {
    Node(NODE_MAGIC, {Dir}, ModeCalc(MODE_R, MODE_R | MODE_W), 0, 1, "ROOT")
  }

  /** The root's home block (fs.c:59-72): data zeroed, then the record. */
  function RootBlock(): Block
  {
    Block(0, false, true, NodeRecord(RootNode()), Zeros(DATA_SIZE))
  }

  /** What the loop of fs.c:80-82 writes: attributes exactly FREE, zeroed data. */
  function FreeBlock(): Block
  {
    Block(0, true, false, Raw, Zeros(DATA_SIZE))
  }

  /** The number of free blocks the loop of fs.c:80-82 writes when its byte
      offset starts at i. */
  function LoopWrites(i: nat, size: nat): nat
    decreases size - i
  {
    GeometryFacts();
    if i < size then 1 + LoopWrites(i + BLOCK_SIZE, size) else 0
  }

  /** Blocks written before the mknode calls: superblock, root, then the loop. */
  function BlockCount(size: nat): nat
  {
    GeometryFacts();
    2 + LoopWrites(2 * BLOCK_SIZE, size)
  }

  /** The image after the three fwrite stages and before the mknode calls. */
  function Blank(size: nat): (s: seq<Block>)
    ensures |s| == BlockCount(size) && ValidImage(s)
  {
    var s := [SuperBlock(size), RootBlock()] + seq(BlockCount(size) - 2, _ => FreeBlock());
    assert forall k :: 0 <= k < |s| ==> s[k] in {SuperBlock(size), RootBlock(), FreeBlock()};
    s
  }

  /** new_fs. None stands for the refusal of fs.c:43-46, which writes nothing.
      For a multiple of the block size of 2^32 or more, the 32-bit counter of
      the loop at fs.c:80 wraps before reaching the size and the loop never
      ends; such sizes are excluded. */
  function NewFs(size: nat): (r: Option<seq<Block>>)
    requires size % BLOCK_SIZE != 0 || size < 0x1_0000_0000
    ensures r.Some? ==> ValidImage(r.value) && |r.value| == BlockCount(size)
  {
    if size % BLOCK_SIZE != 0 then None
    else
      var s1 := Mknode(Blank(size), "/dev", Dir).1;
      var s2 := Mknode(s1, "/dev/stdout", CharDev).1;
      Some(Mknode(s2, "/dev/stdin", CharDev).1)
  }

  // ---------------------------------------------------------------------------
  // Properties

  /** A size that is not a multiple of BLOCK_SIZE is refused; any other size
      gives an image. */
  lemma NewFsRefuses(size: nat)
    requires size % BLOCK_SIZE != 0 || size < 0x1_0000_0000
    ensures NewFs(size).None? <==> size % BLOCK_SIZE != 0
  {
  }

  lemma {:induction false} LoopWritesCount(k: nat, q: nat)
    ensures LoopWrites(Arith.Times(k, BLOCK_SIZE), Arith.Times(q, BLOCK_SIZE)) == if k < q then q - k else 0
    decreases q - k
  {
    GeometryFacts();
    Arith.TimesLess(k, q, BLOCK_SIZE);
    if k < q {
      LoopWritesCount(k + 1, q);
    }
  }

  /** A formatted image holds size / BLOCK_SIZE blocks, but never fewer than
      the superblock and the root, which are written unconditionally. */
  lemma BlockCountIsQuotient(size: nat)
    requires size % BLOCK_SIZE == 0
    ensures BlockCount(size) == if size / BLOCK_SIZE < 2 then 2 else size / BLOCK_SIZE
  {
    GeometryFacts();
    var q := Arith.Quot(size, BLOCK_SIZE);
    Arith.QuotIsDiv(size, BLOCK_SIZE);
    Arith.QuotRem(size, BLOCK_SIZE);
    Arith.TimesIsMul(2, BLOCK_SIZE);
    LoopWritesCount(2, q);
  }

  /** The blocks written before the mknode calls: block 0 holds the superblock
      with the size and the block size, block 1 the root record, and every
      further block is FREE, not METADATA, zero-filled and ends its chain. */
  lemma BlankLayout(size: nat)
    ensures var s := Blank(size);
      && s[0].rec == SuperRecord(FS_MAGIC, size, BLOCK_SIZE) && s[0].metadata && !s[0].free
      && s[1].rec == NodeRecord(Node(NODE_MAGIC, {Dir}, ModeCalc(MODE_R, MODE_R | MODE_W), 0, 1, "ROOT"))
      && s[1].metadata && !s[1].free && s[1].next == 0
      && forall k :: 2 <= k < |s| ==>
           s[k].free && !s[k].metadata && s[k].next == 0 && s[k].rec == Raw && s[k].data == Zeros(DATA_SIZE)
  {
  }

  // ---------------------------------------------------------------------------
  // The three creations of fs.c:84-86

  /** Room for what new_fs creates: five blocks inside the image and within the
      allocator's 1048576-byte reach, and two child slots in a home block. */
  predicate Roomy(size: nat)
  {
    5 <= BlockCount(size) && 4 * BLOCK_SIZE < SCAN_LIMIT && 2 <= CHILD_CAPACITY
  }

  /** The /dev record when it has n children. */
  function DevNode(n: nat): Node
  {
    NewNode(2, Dir, "dev").(size := n)
  }

  function StdoutNode(): Node
  {
    NewNode(3, CharDev, "stdout")
  }

  function StdinNode(): Node
  {
    NewNode(4, CharDev, "stdin")
  }

  /** The image after each of the three creations. */
  function AfterDev(size: nat): (t: seq<Block>)
    requires Roomy(size)
    ensures ValidImage(t) && |t| == BlockCount(size)
  {
    Install(Blank(size), 1, RootNode(), 2, DevNode(0))
  }

  function AfterStdout(size: nat): (t: seq<Block>)
    requires Roomy(size)
    ensures ValidImage(t) && |t| == BlockCount(size)
  {
    Install(AfterDev(size), 2, DevNode(0), 3, StdoutNode())
  }

  function AfterStdin(size: nat): (t: seq<Block>)
    requires Roomy(size)
    ensures ValidImage(t) && |t| == BlockCount(size)
  {
    Install(AfterStdout(size), 2, DevNode(1), 4, StdinNode())
  }

  lemma SplitDevPaths()
    ensures Split("/dev") == ["dev"]
    ensures Split("/dev/stdout") == ["dev", "stdout"]
    ensures Split("/dev/stdin") == ["dev", "stdin"]
  {
    SplitAbsolute(["dev"]);
    assert "/" + Join(["dev"]) == "/dev";
    SplitAbsolute(["dev", "stdout"]);
    assert "/" + Join(["dev", "stdout"]) == "/dev/stdout";
    SplitAbsolute(["dev", "stdin"]);
    assert "/" + Join(["dev", "stdin"]) == "/dev/stdin";
  }

  /** Blocks 2, 3 and 4 are free and within the scan's reach on the blank image. */
  lemma ScanReach(size: nat)
    requires Roomy(size)
    ensures forall k :: 2 <= k <= 4 ==> FreeInScan(Blank(size), k)
    ensures !FreeInScan(Blank(size), 1)
  {
    GeometryFacts();
    OffsetIsProduct(4);
    OffsetMono(2, 4);
    OffsetMono(3, 4);
  }

  lemma MakeDev(size: nat)
    requires Roomy(size)
    ensures Mknode(Blank(size), "/dev", Dir) == (Created(2, DevNode(0)), AfterDev(size))
  {
    var s := Blank(size);
    SplitDevPaths();
    FindNodeRoot(s, "/dev", Dir, true);
    ScanReach(size);
    assert FirstFree(s, 2) == 2;
    assert FirstFree(s, 1) == 2;
    MknodeCreates(s, "/dev", Dir, 1, RootNode(), 2);
  }

  /** In the image after /dev, the root lists /dev in slot 0 and /dev's home
      block holds its record. */
  lemma DevListed(size: nat)
    requires Roomy(size)
    ensures AfterDev(size)[1].rec == NodeRecord(RootNode().(size := 1))
    ensures ChildSlot(AfterDev(size)[1], 0) == 2
    ensures AfterDev(size)[2] == NewHomeBlock(DevNode(0))
    ensures forall k :: 3 <= k < |AfterDev(size)| ==> AfterDev(size)[k] == Blank(size)[k]
  {
    var s := Blank(size);
    var t := AfterDev(size);
    assert t[1] == AppendChild(s[1], RootNode(), 2);
    AppendChildSlots(s[1], RootNode(), 2);
  }

  /** Resolving /dev from the root of an image whose root lists /dev first. */
  lemma ResolveDev(t: seq<Block>, path: string, kind: NodeType, parent: bool, n: nat)
    requires ValidImage(t) && |t| >= 3 && 1 <= CHILD_CAPACITY
    requires t[1].rec == NodeRecord(RootNode().(size := 1)) && ChildSlot(t[1], 0) == 2
    requires t[2].metadata && t[2].rec == NodeRecord(DevNode(n))
    requires |Split(path)| >= 1 && Split(path)[0] == "dev"
    requires (if Depth(path, parent) == 1 then kind else Dir) == Dir
    requires 1 <= Depth(path, parent) <= 2
    ensures FindNode(t, path, kind, parent) == Walk(t, Split(path), Depth(path, parent), kind, 1, 2, DevNode(n))
  {
    var target := if Depth(path, parent) == 1 then kind else Dir;
    assert ScanChildren(t, t[1], 1, "dev", target, 0) == Hit(0, 2, DevNode(n));
  }

  lemma MakeStdout(size: nat)
    requires Roomy(size)
    ensures Mknode(AfterDev(size), "/dev/stdout", CharDev) == (Created(3, StdoutNode()), AfterStdout(size))
  {
    SplitDevPaths();
    StdoutParent(size);
    StdoutBlock(size);
    MknodeCreates(AfterDev(size), "/dev/stdout", CharDev, 2, DevNode(0), 3);
  }

  lemma StdoutParent(size: nat)
    requires Roomy(size)
    ensures FindNode(AfterDev(size), "/dev/stdout", Dir, true) == Found(2, DevNode(0))
  {
    SplitDevPaths();
    DevListed(size);
    ResolveDev(AfterDev(size), "/dev/stdout", Dir, true, 0);
  }

  lemma StdoutBlock(size: nat)
    requires Roomy(size)
    ensures FirstFree(AfterDev(size), 2) == 3
  {
    var s := AfterDev(size);
    DevListed(size);
    ScanReach(size);
    assert FirstFree(s, 3) == 3;
  }

  /** In the image after /dev/stdout, /dev lists it in slot 0. */
  lemma StdoutListed(size: nat)
    requires Roomy(size)
    ensures AfterStdout(size)[1] == AfterDev(size)[1]
    ensures AfterStdout(size)[2].metadata && AfterStdout(size)[2].rec == NodeRecord(DevNode(1))
    ensures ChildSlot(AfterStdout(size)[2], 0) == 3
    ensures AfterStdout(size)[3] == NewHomeBlock(StdoutNode())
    ensures forall k :: 4 <= k < |AfterStdout(size)| ==> AfterStdout(size)[k] == Blank(size)[k]
  {
    var s := AfterDev(size);
    var t := AfterStdout(size);
    DevListed(size);
    assert t[2] == AppendChild(s[2], DevNode(0), 3);
    AppendChildSlots(s[2], DevNode(0), 3);
  }

  lemma MakeStdin(size: nat)
    requires Roomy(size)
    ensures Mknode(AfterStdout(size), "/dev/stdin", CharDev) == (Created(4, StdinNode()), AfterStdin(size))
  {
    SplitDevPaths();
    StdinParent(size);
    StdinBlock(size);
    MknodeCreates(AfterStdout(size), "/dev/stdin", CharDev, 2, DevNode(1), 4);
  }

  lemma StdinParent(size: nat)
    requires Roomy(size)
    ensures FindNode(AfterStdout(size), "/dev/stdin", Dir, true) == Found(2, DevNode(1))
  {
    SplitDevPaths();
    StdoutListed(size);
    DevListed(size);
    ResolveDev(AfterStdout(size), "/dev/stdin", Dir, true, 1);
  }

  lemma StdinBlock(size: nat)
    requires Roomy(size)
    ensures FirstFree(AfterStdout(size), 2) == 4
  {
    var s := AfterStdout(size);
    StdoutListed(size);
    DevListed(size);
    ScanReach(size);
    assert FirstFree(s, 4) == 4;
    assert FirstFree(s, 3) == 4;
  }

  /** In the formatted image /dev lists /dev/stdout and then /dev/stdin. */
  lemma StdinListed(size: nat)
    requires Roomy(size)
    ensures AfterStdin(size)[1] == AfterDev(size)[1]
    ensures AfterStdin(size)[2].metadata && AfterStdin(size)[2].rec == NodeRecord(DevNode(2))
    ensures ChildSlot(AfterStdin(size)[2], 0) == 3 && ChildSlot(AfterStdin(size)[2], 1) == 4
    ensures AfterStdin(size)[3] == NewHomeBlock(StdoutNode())
    ensures AfterStdin(size)[4] == NewHomeBlock(StdinNode())
    ensures forall k :: 5 <= k < |AfterStdin(size)| ==> AfterStdin(size)[k] == Blank(size)[k]
  {
    var s := AfterStdout(size);
    var t := AfterStdin(size);
    StdoutListed(size);
    assert t[2] == AppendChild(s[2], DevNode(1), 4);
    AppendChildSlots(s[2], DevNode(1), 4);
  }

  /** new_fs on a size that is a whole number of blocks, with room for its three
      creations: /dev is block 2, /dev/stdout block 3, /dev/stdin block 4. */
  lemma NewFsCreatesDevices(size: nat)
    requires size % BLOCK_SIZE == 0 && size < 0x1_0000_0000 && Roomy(size)
    ensures NewFs(size) == Some(AfterStdin(size))
  {
    MakeDev(size);
    MakeStdout(size);
    MakeStdin(size);
  }

  /** After formatting, /dev resolves to a directory and /dev/stdout and
      /dev/stdin to character devices, each with no content or children of its
      own except the two devices listed under /dev. */
  lemma NewFsResolves(size: nat)
    requires size % BLOCK_SIZE == 0 && size < 0x1_0000_0000 && Roomy(size)
    ensures NewFs(size).Some?
    ensures FindNode(NewFs(size).value, "/dev", Dir, false) == Found(2, Node(NODE_MAGIC, {Dir}, 54, 2, 2, "dev"))
    ensures FindNode(NewFs(size).value, "/dev/stdout", CharDev, false) == Found(3, Node(NODE_MAGIC, {CharDev}, 38, 0, 3, "stdout"))
    ensures FindNode(NewFs(size).value, "/dev/stdin", CharDev, false) == Found(4, Node(NODE_MAGIC, {CharDev}, 38, 0, 4, "stdin"))
  {
    NewFsCreatesDevices(size);
    ResolveDevices(size);
  }

  lemma ResolveDevices(size: nat)
    requires Roomy(size)
    ensures FindNode(AfterStdin(size), "/dev", Dir, false) == Found(2, DevNode(2))
    ensures FindNode(AfterStdin(size), "/dev/stdout", CharDev, false) == Found(3, StdoutNode())
    ensures FindNode(AfterStdin(size), "/dev/stdin", CharDev, false) == Found(4, StdinNode())
  {
    SplitDevPaths();
    StdinListed(size);
    DevListed(size);
    ResolveDev(AfterStdin(size), "/dev", Dir, false, 2);
    ResolveStdout(size);
    ResolveStdin(size);
  }

  lemma ResolveStdout(size: nat)
    requires Roomy(size)
    ensures FindNode(AfterStdin(size), "/dev/stdout", CharDev, false) == Found(3, StdoutNode())
  {
    var t := AfterStdin(size);
    SplitDevPaths();
    StdinListed(size);
    DevListed(size);
    ResolveDev(t, "/dev/stdout", CharDev, false, 2);
    assert ScanChildren(t, t[2], 2, "stdout", CharDev, 0) == Hit(0, 3, StdoutNode());
  }

  lemma ResolveStdin(size: nat)
    requires Roomy(size)
    ensures FindNode(AfterStdin(size), "/dev/stdin", CharDev, false) == Found(4, StdinNode())
  {
    var t := AfterStdin(size);
    SplitDevPaths();
    StdinListed(size);
    DevListed(size);
    ResolveDev(t, "/dev/stdin", CharDev, false, 2);
    StdinScan(size);
  }

  /** The scan of /dev for "stdin" passes /dev/stdout in slot 0. */
  lemma StdinScan(size: nat)
    requires Roomy(size)
    ensures var t := AfterStdin(size); ScanChildren(t, t[2], 2, "stdin", CharDev, 0) == Hit(1, 4, StdinNode())
  {
    var t := AfterStdin(size);
    StdinListed(size);
    assert ScanChildren(t, t[2], 2, "stdin", CharDev, 1) == Hit(1, 4, StdinNode());
  }
}
