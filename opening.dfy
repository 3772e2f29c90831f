/** _fopen on an Image: the lookup, the mknode of a write or append open, and
    the walk to the end of the chain for an append, as methods over the block
    array that agree with Streams.Fopen. */
module Opening {

  import opened Layout
  import opened Chains
  import opened Streams
  import opened FileSystem
  import opened Handles
  import Resolver
  import Arith

  /** _fopen (fs.c:253-320). A null result is the source's NULL; the image may
      change only through the mknode of a write or append open. */
  method Fopen(img: Image, path: string, mode: bv8) returns (f: File?)
    requires ValidImage(img.blocks[..])
    modifies img.blocks
    ensures img.blocks[..] == Streams.Fopen(old(img.blocks[..]), path, mode).1
    ensures f == null <==> Streams.Fopen(old(img.blocks[..]), path, mode).0.Null?
    ensures f != null ==> fresh(f) && f.Value() == Streams.Fopen(old(img.blocks[..]), path, mode).0.handle
  {
    if mode == 0 {
      return null;
    }
    ghost var s := img.blocks[..];
    var lookup := img.FindNode(path, File, false);
    if mode & FMODE_W != 0 || mode & FMODE_A != 0 {
      f := OpenForWrite(img, path, mode, lookup);
    } else if mode & FMODE_R != 0 {
      if !lookup.Found? {
        return null;
      }
      f := new File(Handle(lookup.node, mode, 0, Arith.Times(lookup.node.firstBlock, BLOCK_SIZE)));
    } else {
      return null;
    }
  }

  /** The write and append branch of _fopen (fs.c:260-304), given the result of
      its lookup. */
  method OpenForWrite(img: Image, path: string, mode: bv8, lookup: Resolver.Lookup) returns (f: File?)
    requires ValidImage(img.blocks[..]) && lookup == Resolver.FindNode(img.blocks[..], path, File, false)
    modifies img.blocks
    ensures img.blocks[..] == Streams.OpenForWrite(old(img.blocks[..]), path, mode).1
    ensures f == null <==> Streams.OpenForWrite(old(img.blocks[..]), path, mode).0.Null?
    ensures f != null ==> fresh(f) && f.Value() == Streams.OpenForWrite(old(img.blocks[..]), path, mode).0.handle
  {
    ghost var s := img.blocks[..];
    var target := FindWriteTarget(img, path, lookup);
    OpenForWriteParts(s, path, mode);
    if target.None? || target.value.mode & MODE_W == 0 {
      f := null;
    } else if mode & FMODE_W != 0 {
      f := new File(Handle(target.value, mode, 0, Arith.Times(target.value.firstBlock, BLOCK_SIZE)));
    } else {
      f := OpenAppend(img, target.value, mode);
    }
  }

  /** The node a write or append open works on (fs.c:261-264, 278-281): the
      file found, or the one mknode creates. */
  method FindWriteTarget(img: Image, path: string, lookup: Resolver.Lookup) returns (target: Option<Node>)
    requires ValidImage(img.blocks[..]) && lookup == Resolver.FindNode(img.blocks[..], path, File, false)
    modifies img.blocks
    ensures target == WriteTarget(old(img.blocks[..]), path).0
    ensures img.blocks[..] == WriteTarget(old(img.blocks[..]), path).1
    ensures ValidImage(img.blocks[..])
  {
    match lookup {
      case Found(_, found) =>
        return Some(found);
      case Corrupt =>
        return None;
      case NotFound =>
        var res := img.Mknode(path, File);
        if res.Failed? {
          return None;
        }
        return Some(res.node);
    }
  }

  /** The append branch of _fopen (fs.c:289-304): follow `next` from the home
      block to the end of the chain; the cursor goes to the end of the
      content. The walk gives up after as many steps as the image has blocks,
      where the source would loop for ever on a cycle. */
  method OpenAppend(img: Image, node: Node, mode: bv8) returns (f: File?)
    requires ValidImage(img.blocks[..])
    ensures f == null <==> AppendCursor(img.blocks[..], node, mode).Null?
    ensures f != null ==> fresh(f) && f.Value() == AppendCursor(img.blocks[..], node, mode).handle
  {
    if node.firstBlock >= img.blocks.Length {
      return null;
    }
    var next: nat := node.firstBlock;
    var fuel: nat := img.blocks.Length;
    while img.blocks[next].next != 0
      invariant next < img.blocks.Length
      invariant LastBlock(img.blocks[..], next, fuel) == LastBlock(img.blocks[..], node.firstBlock, img.blocks.Length)
      decreases fuel
    {
      if fuel == 0 {
        return null;
      }
      next := img.blocks[next].next;
      fuel := fuel - 1;
    }
    GeometryFacts();
    var global := Arith.Times(next, BLOCK_SIZE) + Arith.Rem(node.size, BLOCK_SIZE);
    if next == node.firstBlock {
      global := global + NODE_SIZE;
    }
    f := new File(Handle(node, mode, node.size, global));
  }
}
