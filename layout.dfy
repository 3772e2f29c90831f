/** The on-image layout: block geometry, the block header and data region,
    node records, the superblock, child-pointer slots and the mode byte. */
module Layout {

  import Arith

  type byte = x: int | 0 <= x < 256

  datatype Option<T> = None | Some(value: T)

  /** The sizes that fs.h defines. Their values are not part of this model, only
      the relations the code relies on: a block is a 4-byte `next` index and an
      attribute byte at offset 4 followed by the data region, and a home block's
      data region holds a node record followed by at least one 4-byte slot. */
  datatype Geometry = Geometry(blockSize: int, dataSize: int, nodeSize: int)

  type ValidGeometry = g: Geometry
    | 0 < g.nodeSize && g.nodeSize + 4 <= g.dataSize && g.dataSize + 5 <= g.blockSize
    witness Geometry(4096, 4088, 64)

  const GEOMETRY: ValidGeometry

  /** BLOCK_SIZE: bytes per block on the image. */
  const BLOCK_SIZE: int := GEOMETRY.blockSize
  /** BLOCK_DATA_SIZE: bytes in a block's data region. */
  const DATA_SIZE: int := GEOMETRY.dataSize
  /** sizeof(node_t): bytes taken by a node record at the start of a home block. */
  const NODE_SIZE: int := GEOMETRY.nodeSize

  /** Number of 4-byte child slots that fit after the record in a home block. */
  const CHILD_CAPACITY: int := (DATA_SIZE - NODE_SIZE) / 4

  /** The allocator's hard-coded scan limit in bytes (fs.c:97). */
  const SCAN_LIMIT: int := 1048576

  /** mknode copies the last path component into a 32-byte buffer (fs.c:205). */
  const NAME_BUFFER: int := 32

  const NODE_MAGIC: nat
  const FS_MAGIC: string

  /** Permission bits of one rwx triple. */
  const MODE_R: bv8
  const MODE_W: bv8

  /** Open-mode bits of _fopen. */
  const FMODE_R: bv8
  const FMODE_W: bv8
  const FMODE_A: bv8

  /** FS_DIR, FS_FILE and FS_CHARDEV, taken to be distinct flag bits, so that the
      flag byte of a record is the set of kinds whose bit is set. */
  datatype NodeType = Dir | File | CharDev

  /** node_t. `size` counts children for a directory and content bytes otherwise. */
  datatype Node = Node(magic: nat, flags: set<NodeType>, mode: bv8, size: nat, firstBlock: nat, name: string)

  /** What occupies the first bytes of a block's data region: raw bytes (then
      `data` holds them), the superblock, or a node record. */
  datatype Record =
    | Raw
    | SuperRecord(magic: string, imageSize: nat, blockSize: int)
    | NodeRecord(node: Node)

  /** block_t: `next` (0 ends a chain), the FREE and METADATA attribute bits,
      and the data region. */
  datatype Block = Block(next: nat, free: bool, metadata: bool, rec: Record, data: seq<byte>)

  lemma GeometryFacts()
    ensures 0 < NODE_SIZE < DATA_SIZE < BLOCK_SIZE
    ensures NODE_SIZE + 4 <= DATA_SIZE
    ensures CHILD_CAPACITY >= 1
  {
  }

  predicate WellFormed(b: Block, n: nat)
  {
    |b.data| == DATA_SIZE && b.next < n
  }

  /** An image of at least the superblock and the root, every `next` inside it. */
  predicate ValidImage(s: seq<Block>)
  {
    |s| >= 2 && forall i :: 0 <= i < |s| ==> WellFormed(s[i], |s|)
  }

  /** Replacing one block by a well-formed one keeps the image valid. */
  lemma PutValid(s: seq<Block>, k: nat, b: Block)
    requires ValidImage(s) && k < |s| && WellFormed(b, |s|)
    ensures ValidImage(s[k := b])
  {
    var t := s[k := b];
    forall i | 0 <= i < |t|
      ensures WellFormed(t[i], |t|)
    {
      if i != k {
        assert t[i] == s[i];
      }
    }
  }

  function Zeros(n: nat): (z: seq<byte>)
    ensures |z| == n && forall i :: 0 <= i < n ==> z[i] == 0
  {
    seq(n, _ => 0)
  }

  /** A record that passes find_node's magic check (fs.c:156). */
  predicate HoldsNode(b: Block)
  {
    b.rec.NodeRecord? && b.rec.node.magic == NODE_MAGIC
  }

  // ---------------------------------------------------------------------------
  // 4-byte child pointers, stored as memcpy stores a uint32_t on a
  // little-endian machine.

  function EncodeU32(x: nat): (r: seq<byte>)
    requires x < 0x1_0000_0000
    ensures |r| == 4 && DecodeU32(r) == x
  {
    EncodeDigits(x);
    [x % 256, (x / 256) % 256, (x / 65536) % 256, x / 16777216]
  }

  /** The four base-256 digits of x, least significant first. */
  lemma EncodeDigits(x: nat)
    requires x < 0x1_0000_0000
    ensures x / 16777216 < 256
    ensures x == x % 256 + 256 * ((x / 256) % 256) + 65536 * ((x / 65536) % 256) + 16777216 * (x / 16777216)
  {
    var q1, b0 := x / 256, x % 256;
    Arith.DivBounds(x, 256);
    var q2, b1 := q1 / 256, q1 % 256;
    Arith.DivBounds(q1, 256);
    var b3, b2 := q2 / 256, q2 % 256;
    Arith.DivBounds(q2, 256);
    assert x == b0 + 256 * b1 + 65536 * b2 + 16777216 * b3;
    Arith.DivModUnique(x, 65536, b2 + 256 * b3, b0 + 256 * b1);
    Arith.DivModUnique(x, 16777216, b3, b0 + 256 * b1 + 65536 * b2);
    Arith.DivModUnique(q2, 256, b3, b2);
  }

  function DecodeU32(r: seq<byte>): (x: nat)
    requires |r| == 4
    ensures x < 0x1_0000_0000
  {
    r[0] as int + 256 * (r[1] as int) + 65536 * (r[2] as int) + 16777216 * (r[3] as int)
  }

  lemma DecodeEncode(r: seq<byte>)
    requires |r| == 4
    ensures EncodeU32(DecodeU32(r)) == r
  {
    var x := DecodeU32(r);
    var b0, b1, b2, b3: int := r[0], r[1], r[2], r[3];
    assert x == b0 + 256 * (b1 + 256 * (b2 + 256 * b3));
    Arith.DivModUnique(x, 256, b1 + 256 * (b2 + 256 * b3), b0);
    Arith.DivModUnique(b1 + 256 * (b2 + 256 * b3), 256, b2 + 256 * b3, b1);
    Arith.DivModUnique(b2 + 256 * b3, 256, b3, b2);
    assert x / 65536 == (x / 256) / 256;
    assert x / 16777216 == ((x / 256) / 256) / 256;
  }

  /** Byte offset of child slot j inside the data region. */
  function SlotOffset(j: nat): (o: int)
    requires j < CHILD_CAPACITY
    ensures NODE_SIZE <= o && o + 4 <= DATA_SIZE
  {
    NODE_SIZE + 4 * j
  }

  /** The block index stored in child slot j of a directory's home block. */
  function ChildSlot(b: Block, j: nat): nat
    requires |b.data| == DATA_SIZE && j < CHILD_CAPACITY
  {
    DecodeU32(b.data[SlotOffset(j) .. SlotOffset(j) + 4])
  }

  /** data with bytes lo .. lo+|bytes| replaced. */
  function Splice(data: seq<byte>, lo: nat, bytes: seq<byte>): (r: seq<byte>)
    requires lo + |bytes| <= |data|
    ensures |r| == |data|
    ensures r[lo .. lo + |bytes|] == bytes
    ensures forall i :: 0 <= i < |data| && !(lo <= i < lo + |bytes|) ==> r[i] == data[i]
  {
    data[..lo] + bytes + data[lo + |bytes|..]
  }

  /** memcpy of content bytes into a block's data region at offset lo. Bytes that
      land in the record area destroy the record. */
  function WriteData(b: Block, lo: nat, bytes: seq<byte>): (r: Block)
    requires lo + |bytes| <= |b.data|
    ensures r.next == b.next && r.free == b.free && r.metadata == b.metadata
    ensures |r.data| == |b.data| && r.data[lo .. lo + |bytes|] == bytes
    ensures forall i :: 0 <= i < |b.data| && !(lo <= i < lo + |bytes|) ==> r.data[i] == b.data[i]
    ensures r.rec == (if |bytes| > 0 && lo < NODE_SIZE then Raw else b.rec)
  {
    b.(data := Splice(b.data, lo, bytes),
       rec := if |bytes| > 0 && lo < NODE_SIZE then Raw else b.rec)
  }

  /** The bytes before lo are kept; a write that reaches the end of the data
      region makes up all of it from lo on. */
  lemma WriteDataSlices(b: Block, lo: nat, bytes: seq<byte>)
    requires lo + |bytes| <= |b.data|
    ensures WriteData(b, lo, bytes).data[..lo] == b.data[..lo]
    ensures lo + |bytes| == |b.data| ==> WriteData(b, lo, bytes).data[lo..] == bytes
  {
    var r := WriteData(b, lo, bytes);
    forall i | 0 <= i < lo
      ensures r.data[i] == b.data[i]
    {
      assert !(lo <= i < lo + |bytes|);
    }
    assert r.data[..lo] == b.data[..lo];
  }

  // ---------------------------------------------------------------------------
  // Mode byte

  /** mode_calc: the user triple in bits 3..5 and the kernel triple in bits 0..2,
      truncated to a byte (fs.c:38-40). */
  function ModeCalc(user: bv8, kernel: bv8): (m: bv8)
    ensures m & 7 == kernel & 7
    ensures m >> 3 == (user & 31) | (kernel >> 3)
  {
    (user << 3) | kernel
  }

  lemma ModeCalcSplits(user: bv8, kernel: bv8)
    requires user < 8 && kernel < 8
    ensures ModeCalc(user, kernel) >> 3 == user && ModeCalc(user, kernel) & 7 == kernel
  {
    var m := ModeCalc(user, kernel);
    assert m >> 3 == (user & 31) | (kernel >> 3);
    assert user & 31 == user && kernel >> 3 == 0 && kernel & 7 == kernel;
  }
}
