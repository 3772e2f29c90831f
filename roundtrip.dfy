/** Writing through a fresh write handle and reading back through a fresh read
    handle on the same node gives the bytes written. */
module RoundTrip {

  import opened Layout
  import opened Allocator
  import opened Chains
  import opened Streams
  import opened Reader
  import opened Writer
  import Arith

  /** A read from the start of the node a write left, when its chain holds
      `bytes` just after the record, returns them. */
  lemma ReadBack(w: WriteResult, rmode: bv8, bytes: seq<byte>)
    requires ValidImage(w.image) && w.handle.node.firstBlock < |w.image| && rmode & FMODE_R != 0
    requires 0 < |bytes| <= w.handle.node.size
    requires ChainHolds(w.image, w.handle.node.firstBlock, NODE_SIZE, bytes)
    ensures Fread(w.image, StartHandle(w.handle.node, rmode), |bytes|).code == 0
    ensures Fread(w.image, StartHandle(w.handle.node, rmode), |bytes|).bytes == bytes
  {
    var t := w.image;
    var node := w.handle.node;
    var hr := StartHandle(node, rmode);
    var r := Fread(t, hr, |bytes|);
    StartCursor(t, node, rmode);
    FreadContent(t, hr, |bytes|);
    var k := |bytes| - 1;
    assert ChainByte(t, node.firstBlock, NODE_SIZE + k) == Some(bytes[k]);
    assert hr.ptrLocal + NODE_SIZE + (|bytes| - 1) == NODE_SIZE + k;
    assert hr.ptrLocal + NODE_SIZE == NODE_SIZE;
    ChainHoldsUnique(t, node.firstBlock, NODE_SIZE, r.bytes, bytes);
  }

  /** A write handle opened at the start of a file (fs.c:272-276) writes `bytes`;
      a read handle opened at the start of the same node afterwards (fs.c:312-316)
      reads them back, provided the home block is taken and enough blocks are
      free above it. The node record the write leaves has grown to cover them. */
  lemma WriteThenRead(s: seq<Block>, node: Node, wmode: bv8, rmode: bv8, bytes: seq<byte>)
    requires ValidImage(s) && 0 < node.firstBlock < |s| && !s[node.firstBlock].free
    requires wmode & FMODE_W != 0 && |bytes| > 0
    requires FreeFrom(s, node.firstBlock + 1) >= BlocksNeeded(NODE_SIZE, |bytes|)
    requires rmode & FMODE_R != 0
    ensures var w := Fwrite(s, StartHandle(node, wmode), bytes);
      && w.code == 0
      && w.handle.node == node.(size := Max(node.size, |bytes|))
      && Fread(w.image, StartHandle(w.handle.node, rmode), |bytes|).code == 0
      && Fread(w.image, StartHandle(w.handle.node, rmode), |bytes|).bytes == bytes
  {
    FwriteFromStart(s, node, wmode, bytes);
    ReadBack(Fwrite(s, StartHandle(node, wmode), bytes), rmode, bytes);
  }
}
