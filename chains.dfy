/** Block chains: a file's bytes live in its home block after the node record and
    continue through the blocks that each block's `next` names, DATA_SIZE bytes
    per block. Byte q of a chain (counting the record) is byte q % DATA_SIZE of
    the (q / DATA_SIZE)-th block along it. */
module Chains {

  import opened Layout
  import Arith

  /** The block k steps along the chain from b; None when a `next` of 0 ends the
      chain first. */
  function Succ(s: seq<Block>, b: nat, k: nat): (r: Option<nat>)
    requires ValidImage(s) && b < |s|
    ensures r.Some? ==> r.value < |s|
    decreases k
  {
    if k == 0 then Some(b)
    else if s[b].next == 0 then None
    else Succ(s, s[b].next, k - 1)
  }

  /** Byte q of the chain that starts at b. */
  function ChainByte(s: seq<Block>, b: nat, q: nat): Option<byte>
    requires ValidImage(s) && b < |s|
  {
    GeometryFacts();
    match Succ(s, b, Arith.Quot(q, DATA_SIZE))
    case None => None
    case Some(c) => Some(s[c].data[Arith.Rem(q, DATA_SIZE)])
  }

  /** The last block of the chain from b, when a `next` of 0 is met within
      `fuel` steps. */
  function LastBlock(s: seq<Block>, b: nat, fuel: nat): (r: Option<nat>)
    requires ValidImage(s) && b < |s|
    ensures r.Some? ==> r.value < |s| && s[r.value].next == 0
    decreases fuel
  {
    if s[b].next == 0 then Some(b)
    else if fuel == 0 then None
    else LastBlock(s, s[b].next, fuel - 1)
  }

  // ---------------------------------------------------------------------------

  /** The last block of a chain is reached along it. */
  lemma {:induction false} LastBlockOnChain(s: seq<Block>, b: nat, fuel: nat)
    requires ValidImage(s) && b < |s| && LastBlock(s, b, fuel).Some?
    ensures exists k :: 0 <= k <= fuel && Succ(s, b, k) == LastBlock(s, b, fuel)
    decreases fuel
  {
    if s[b].next == 0 {
      assert Succ(s, b, 0) == Some(b);
    } else {
      LastBlockOnChain(s, s[b].next, fuel - 1);
      var k :| 0 <= k <= fuel - 1 && Succ(s, s[b].next, k) == LastBlock(s, s[b].next, fuel - 1);
      assert Succ(s, b, k + 1) == Succ(s, s[b].next, k);
    }
  }

  /** Following a + k steps is following a steps and then k more. */
  lemma {:induction false} SuccAdd(s: seq<Block>, b: nat, a: nat, k: nat)
    requires ValidImage(s) && b < |s| && Succ(s, b, a).Some?
    ensures Succ(s, b, a + k) == Succ(s, Succ(s, b, a).value, k)
    decreases a
  {
    if a > 0 {
      SuccAdd(s, s[b].next, a - 1, k);
    }
  }

  /** One more step past the block k steps along. */
  lemma SuccExtend(s: seq<Block>, b: nat, k: nat)
    requires ValidImage(s) && b < |s| && Succ(s, b, k).Some?
    ensures var x := Succ(s, b, k).value;
      Succ(s, b, k + 1) == if s[x].next == 0 then None else Some(s[x].next)
  {
    SuccAdd(s, b, k, 1);
  }

  /** A chain that does not start at block 0 never reaches it: every step
      follows a non-zero `next`. */
  lemma {:induction false} SuccNonZero(s: seq<Block>, b: nat, k: nat)
    requires ValidImage(s) && 0 < b < |s| && Succ(s, b, k).Some?
    ensures Succ(s, b, k).value != 0
    decreases k
  {
    if k > 0 {
      SuccNonZero(s, s[b].next, k - 1);
    }
  }

  /** A chain that reaches k steps reaches every shorter distance. */
  lemma {:induction false} SuccPrefix(s: seq<Block>, b: nat, j: nat, k: nat)
    requires ValidImage(s) && b < |s| && j <= k && Succ(s, b, k).Some?
    ensures Succ(s, b, j).Some?
    decreases j
  {
    if j > 0 {
      SuccPrefix(s, s[b].next, j - 1, k - 1);
    }
  }

  /** Byte q + DATA_SIZE of the chain from b is byte q of the chain from b's successor. */
  lemma ChainByteStep(s: seq<Block>, b: nat, q: nat)
    requires ValidImage(s) && b < |s| && s[b].next != 0
    ensures ChainByte(s, b, q + DATA_SIZE) == ChainByte(s, s[b].next, q)
  {
    GeometryFacts();
  }

  /** Bytes inside the first block are that block's own data. */
  lemma ChainByteHead(s: seq<Block>, b: nat, q: nat)
    requires ValidImage(s) && b < |s| && q < DATA_SIZE
    ensures ChainByte(s, b, q) == Some(s[b].data[q])
  {
    GeometryFacts();
  }

  /** Skipping j whole blocks of a chain. */
  lemma {:induction false} ChainByteShift(s: seq<Block>, b: nat, j: nat, x: nat)
    requires ValidImage(s) && b < |s| && Succ(s, b, j).Some?
    ensures ChainByte(s, b, Arith.Times(j, DATA_SIZE) + x) == ChainByte(s, Succ(s, b, j).value, x)
    decreases j
  {
    if j > 0 {
      ChainByteStep(s, b, Arith.Times(j - 1, DATA_SIZE) + x);
      ChainByteShift(s, s[b].next, j - 1, x);
    }
  }

  /** Changing blocks off the chain, or only the data of chain blocks, leaves
      the chain's shape up to distance k as it was. */
  lemma {:induction false} SuccFrame(s: seq<Block>, t: seq<Block>, b: nat, k: nat)
    requires ValidImage(s) && ValidImage(t) && |s| == |t| && b < |s|
    requires forall j :: 0 <= j < k ==> Succ(s, b, j).Some? && t[Succ(s, b, j).value].next == s[Succ(s, b, j).value].next
    ensures Succ(t, b, k) == Succ(s, b, k)
    decreases k
  {
    if k > 0 {
      assert Succ(s, b, 0) == Some(b);
      if s[b].next != 0 {
        forall j | 0 <= j < k - 1
          ensures Succ(s, s[b].next, j).Some? && t[Succ(s, s[b].next, j).value].next == s[Succ(s, s[b].next, j).value].next
        {
          assert Succ(s, b, j + 1) == Succ(s, s[b].next, j);
        }
        SuccFrame(s, t, s[b].next, k - 1);
      }
    }
  }

  /** The chain from b holds `bytes` from chain byte q on. */
  predicate ChainHolds(s: seq<Block>, b: nat, q: nat, bytes: seq<byte>)
    requires ValidImage(s) && b < |s|
  {
    forall i :: 0 <= i < |bytes| ==> ChainByte(s, b, q + i) == Some(bytes[i])
  }

  /** Two runs held back to back make one run. */
  lemma ChainHoldsAppend(s: seq<Block>, b: nat, q: nat, x: seq<byte>, y: seq<byte>)
    requires ValidImage(s) && b < |s| && ChainHolds(s, b, q, x) && ChainHolds(s, b, q + |x|, y)
    ensures ChainHolds(s, b, q, x + y)
  {
    forall i | 0 <= i < |x + y|
      ensures ChainByte(s, b, q + i) == Some((x + y)[i])
    {
      if i >= |x| {
        assert q + i == (q + |x|) + (i - |x|);
      }
    }
  }

  /** Bytes off .. off + |bytes| of a block's data region are held by the chain
      that starts there. */
  lemma ChainHoldsData(s: seq<Block>, c: nat, off: nat, bytes: seq<byte>)
    requires ValidImage(s) && c < |s| && off + |bytes| <= DATA_SIZE
    requires s[c].data[off .. off + |bytes|] == bytes
    ensures ChainHolds(s, c, off, bytes)
  {
    forall i | 0 <= i < |bytes|
      ensures ChainByte(s, c, off + i) == Some(bytes[i])
    {
      ChainByteHead(s, c, off + i);
      assert s[c].data[off .. off + |bytes|][i] == s[c].data[off + i];
    }
  }

  /** A run held by the chain from b's successor is held one block further
      into the chain from b. */
  lemma ChainHoldsStep(s: seq<Block>, b: nat, q: nat, bytes: seq<byte>)
    requires ValidImage(s) && b < |s| && s[b].next != 0 && ChainHolds(s, s[b].next, q, bytes)
    ensures ChainHolds(s, b, q + DATA_SIZE, bytes)
  {
    forall i | 0 <= i < |bytes|
      ensures ChainByte(s, b, q + DATA_SIZE + i) == Some(bytes[i])
    {
      ChainByteStep(s, b, q + i);
    }
  }

  /** A run held from position q of the block j steps along is held j whole
      blocks further into the chain. */
  lemma {:induction false} ChainHoldsShift(s: seq<Block>, b: nat, j: nat, q: nat, bytes: seq<byte>)
    requires ValidImage(s) && b < |s| && Succ(s, b, j).Some?
    requires ChainHolds(s, Succ(s, b, j).value, q, bytes)
    ensures ChainHolds(s, b, Arith.Times(j, DATA_SIZE) + q, bytes)
    decreases j
  {
    if j > 0 {
      ChainHoldsShift(s, s[b].next, j - 1, q, bytes);
      ChainHoldsStep(s, b, Arith.Times(j - 1, DATA_SIZE) + q, bytes);
      assert Arith.Times(j - 1, DATA_SIZE) + q + DATA_SIZE == Arith.Times(j, DATA_SIZE) + q;
    }
  }

  /** A block whose data is `head` and whose link starts a chain holding `rest`
      starts a chain holding head + rest. */
  lemma ChainHoldsLink(s: seq<Block>, c: nat, head: seq<byte>, rest: seq<byte>)
    requires ValidImage(s) && c < |s| && s[c].next != 0 && s[c].data == head
    requires ChainHolds(s, s[c].next, 0, rest)
    ensures ChainHolds(s, c, 0, head + rest)
  {
    ChainHoldsStep(s, c, 0, rest);
    ChainHoldsData(s, c, 0, head);
    ChainHoldsAppend(s, c, 0, head, rest);
  }

  /** A chain holds one run of each length from each position. */
  lemma ChainHoldsUnique(s: seq<Block>, b: nat, q: nat, x: seq<byte>, y: seq<byte>)
    requires ValidImage(s) && b < |s| && |x| == |y| && ChainHolds(s, b, q, x) && ChainHolds(s, b, q, y)
    ensures x == y
  {
    forall i | 0 <= i < |x|
      ensures x[i] == y[i]
    {
      assert ChainByte(s, b, q + i) == Some(x[i]);
    }
  }
}
