/** The image as the source handles it: an array of blocks that the operations
    read and overwrite in place, and open-file handles whose cursors and node
    copy they update. Each method follows the step-by-step code of fs.c and is
    proved to produce exactly what the function of the same name in the
    value-level modules describes; the properties of those functions carry
    over to the methods. */
module FileSystem {

  import opened Layout
  import opened Paths
  import opened Allocator
  import opened Resolver
  import opened NodeManager
  import Format
  import Arith

  class Image {

    var blocks: array<Block>

    constructor (s: seq<Block>)
      ensures blocks[..] == s && fresh(blocks)
    {
      blocks := new Block[|s|](k requires 0 <= k < |s| => s[k]);
    }

    /** find_next_free_block (fs.c:95-120). Blocks past the end of the image
        read as zeros and are never free. */
    method FindNextFreeBlock(iblk: nat) returns (r: nat)
      ensures r == FirstFree(blocks[..], iblk)
    {
      GeometryFacts();
      OffsetIsProduct(iblk);
      var offset: int := iblk * BLOCK_SIZE;
      var k: nat := iblk;
      while offset < SCAN_LIMIT
        invariant offset == Offset(k)
        invariant FirstFree(blocks[..], k) == FirstFree(blocks[..], iblk)
        decreases SCAN_LIMIT - offset
      {
        if k < blocks.Length && blocks[k].free {
          return k;
        }
        offset := offset + BLOCK_SIZE;
        k := k + 1;
      }
      return 0;
    }

    /** get_block_by_index (fs.c:122-130). */
    method GetBlockByIndex(i: nat) returns (b: Block)
      requires i < blocks.Length
      ensures b == blocks[i]
    {
      b := blocks[i];
    }

    /** The inner loop of find_node (fs.c:149-174): the child slots of one
        directory's home block, in list order. */
    method ScanDirectory(dir: Block, count: nat, name: string, target: NodeType) returns (r: Scan)
      requires ValidImage(blocks[..]) && |dir.data| == DATA_SIZE
      ensures r == ScanChildren(blocks[..], dir, count, name, target, 0)
    {
      var j := 0;
      while j < count
        invariant ScanChildren(blocks[..], dir, count, name, target, j) == ScanChildren(blocks[..], dir, count, name, target, 0)
      {
        if j >= CHILD_CAPACITY {
          return Broken;
        }
        var c := ChildSlot(dir, j);
        if c == 0 {
          return Miss;
        }
        if c >= blocks.Length {
          return Broken;
        }
        var b := GetBlockByIndex(c);
        if !b.metadata || !HoldsNode(b) {
          return Broken;
        }
        if Matches(b.rec.node, name, target) {
          return Hit(j, c, b.rec.node);
        }
        j := j + 1;
      }
      return Miss;
    }

    /** find_node (fs.c:132-193): the outer loop over the path components. */
    method FindNode(path: string, kind: NodeType, parent: bool) returns (r: Lookup)
      requires ValidImage(blocks[..])
      ensures r == Resolver.FindNode(blocks[..], path, kind, parent)
    {
      var comps := SplitString(path);
      var n := |comps| - (if parent then 1 else 0);
      assert n == Depth(path, parent);
      var root := GetBlockByIndex(1);
      if !root.rec.NodeRecord? {
        return Corrupt;
      }
      var idx, node, dir := 1, root.rec.node, root;
      var i: nat := 0;
      while i < n
        invariant 0 < idx < blocks.Length && dir == blocks[idx] && n <= |comps|
        invariant Walk(blocks[..], comps, n, kind, i, idx, node) == Resolver.FindNode(blocks[..], path, kind, parent)
        decreases n - i
      {
        var sc := ScanDirectory(dir, node.size, comps[i], if i == n - 1 then kind else Dir);
        WalkStep(blocks[..], comps, n, kind, i, idx, node);
        match sc {
          case Miss => return NotFound;
          case Broken => return Corrupt;
          case Hit(_, c, t) =>
            idx, node := c, t;
            dir := GetBlockByIndex(c);
        }
        i := i + 1;
      }
      return Found(idx, node);
    }

    /** mknode (fs.c:195-250). */
    method Mknode(path: string, kind: NodeType) returns (res: MkResult)
      requires ValidImage(blocks[..])
      modifies blocks
      ensures (res, blocks[..]) == NodeManager.Mknode(old(blocks[..]), path, kind)
    {
      var lookup := FindNode(path, Dir, true);
      if lookup.NotFound? {
        return Failed(ParentNotFound);
      } else if lookup.Corrupt? {
        return Failed(CorruptImage);
      }
      var p, parent := lookup.index, lookup.node;
      var comps := SplitString(path);
      if |comps| == 0 || |comps[|comps| - 1]| >= NAME_BUFFER {
        return Failed(InvalidName);
      }
      var name := comps[|comps| - 1];
      var pb := GetBlockByIndex(p);
      var r := FindNextFreeBlock(p);
      if r == 0 {
        return Failed(OutOfSpace);
      } else if parent.size >= CHILD_CAPACITY {
        return Failed(TooManyChildren);
      } else if parent.firstBlock >= blocks.Length {
        return Failed(CorruptImage);
      }
      FirstFreeInRange(blocks[..], p);
      IndexFitsSlot(blocks[..], p);
      blocks[parent.firstBlock] := AppendChild(pb, parent, r);
      var node := NewNode(r, kind, name);
      blocks[r] := NewHomeBlock(node);
      return Created(r, node);
    }

    /** The fwrite calls of new_fs (fs.c:48-82): superblock, root, then one free
        block for each further BLOCK_SIZE bytes of the size. */
    static method WriteBlank(size: nat) returns (written: seq<Block>)
      ensures written == Format.Blank(size)
    {
      GeometryFacts();
      written := [Format.SuperBlock(size), Format.RootBlock()];
      var i: nat := 2 * BLOCK_SIZE;
      while i < size
        invariant |written| >= 2 && written[0] == Format.SuperBlock(size) && written[1] == Format.RootBlock()
        invariant forall k :: 2 <= k < |written| ==> written[k] == Format.FreeBlock()
        invariant |written| + Format.LoopWrites(i, size) == Format.BlockCount(size)
        decreases size - i
      {
        written := written + [Format.FreeBlock()];
        i := i + BLOCK_SIZE;
      }
    }

    /** new_fs (fs.c:42-87): the blocks are written one after the other into a
        fresh image, then the three nodes are created. A refused size leaves
        the image as it was. */
    method NewFs(size: nat)
      requires size % BLOCK_SIZE != 0 || size < 0x1_0000_0000
      modifies this
      ensures Format.NewFs(size).None? ==> blocks == old(blocks)
      ensures Format.NewFs(size).Some? ==> fresh(blocks) && blocks[..] == Format.NewFs(size).value
    {
      if size % BLOCK_SIZE != 0 {
        return;
      }
      var written := WriteBlank(size);
      blocks := new Block[|written|](k requires 0 <= k < |written| => written[k]);
      assert blocks[..] == Format.Blank(size);
      ghost var s1 := NodeManager.Mknode(blocks[..], "/dev", Dir).1;
      var _ := Mknode("/dev", Dir);
      assert blocks[..] == s1;
      ghost var s2 := NodeManager.Mknode(s1, "/dev/stdout", CharDev).1;
      var _ := Mknode("/dev/stdout", CharDev);
      assert blocks[..] == s2;
      var _ := Mknode("/dev/stdin", CharDev);
    }
  }
}
