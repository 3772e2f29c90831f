/** find_next_free_block (fs.c:95-120): a linear scan for a block whose FREE
    attribute is set, from a given index up to the hard-coded limit of 1048576
    bytes. Blocks past the end of the image read as zeros, so they are never
    free. */
module Allocator {

  import opened Layout

  /** The byte offset of block k, k * BLOCK_SIZE, built up one block at a time
      as the scan advances it (fs.c:95, 117). */
  function Offset(k: nat): nat
  {
    if k == 0 then 0 else Offset(k - 1) + BLOCK_SIZE
  }

  lemma {:induction false} OffsetIsProduct(k: nat)
    ensures Offset(k) == k * BLOCK_SIZE
  {
    if k > 0 {
      OffsetIsProduct(k - 1);
    }
  }

  lemma {:induction false} OffsetMono(i: nat, k: nat)
    requires i <= k
    ensures Offset(i) <= Offset(k)
    decreases k - i
  {
    GeometryFacts();
    if i < k {
      OffsetMono(i, k - 1);
    }
  }

  /** Block k is free and the scan can reach it. */
  predicate FreeInScan(s: seq<Block>, k: nat)
  {
    k < |s| && Offset(k) < SCAN_LIMIT && s[k].free
  }

  /** The index the scan returns when started at block i: the first free block
      at or after i, or 0 when the scan reaches the limit. */
  function FirstFree(s: seq<Block>, i: nat): nat
    decreases SCAN_LIMIT - Offset(i)
  {
    GeometryFacts();
    if Offset(i) >= SCAN_LIMIT then 0
    else if i < |s| && s[i].free then i
    else FirstFree(s, i + 1)
  }

  /** A non-zero result is the first block at or after i that is free within the
      limit; 0 means that no such block exists, or that the scan started at a
      free block 0. */
  lemma {:induction false} FirstFreeIsFirst(s: seq<Block>, i: nat)
    ensures FirstFree(s, i) != 0 ==>
              i <= FirstFree(s, i) && FreeInScan(s, FirstFree(s, i)) &&
              forall k :: i <= k < FirstFree(s, i) ==> !FreeInScan(s, k)
    ensures FirstFree(s, i) == 0 ==>
              (i == 0 && FreeInScan(s, 0)) || forall k :: i <= k ==> !FreeInScan(s, k)
    decreases SCAN_LIMIT - Offset(i)
  {
    GeometryFacts();
    var r := FirstFree(s, i);
    if Offset(i) >= SCAN_LIMIT {
      forall k | i <= k ensures !FreeInScan(s, k) {
        OffsetMono(i, k);
      }
    } else if i < |s| && s[i].free {
    } else {
      FirstFreeIsFirst(s, i + 1);
      if r != 0 {
        forall k | i <= k < r ensures !FreeInScan(s, k) {
          if k > i {
            assert i + 1 <= k < r;
          }
        }
      } else {
        forall k | i <= k ensures !FreeInScan(s, k) {
          if k > i {
            assert i + 1 <= k;
          }
        }
      }
    }
  }

  /** The result always names a block of the image that the scan can reach. */
  lemma FirstFreeInRange(s: seq<Block>, i: nat)
    requires |s| > 0
    ensures FirstFree(s, i) < |s| && Offset(FirstFree(s, i)) < SCAN_LIMIT
  {
    FirstFreeIsFirst(s, i);
  }

  /** When some block at or after i is free within the limit and i > 0, the scan
      finds the first of them; so 0 comes back exactly when none exists. */
  lemma FirstFreeFinds(s: seq<Block>, i: nat)
    requires i > 0
    ensures FirstFree(s, i) == 0 <==> forall k :: i <= k ==> !FreeInScan(s, k)
  {
    FirstFreeIsFirst(s, i);
  }

  /** The result depends only on the FREE bits of the blocks. */
  lemma {:induction false} FirstFreeSameBits(s: seq<Block>, t: seq<Block>, i: nat)
    requires |s| == |t| && forall k :: 0 <= k < |s| ==> s[k].free == t[k].free
    ensures FirstFree(s, i) == FirstFree(t, i)
    decreases SCAN_LIMIT - Offset(i)
  {
    GeometryFacts();
    if Offset(i) < SCAN_LIMIT && !(i < |s| && s[i].free) {
      FirstFreeSameBits(s, t, i + 1);
    }
  }

  /** Number of blocks at or after i that the scan can hand out. */
  function FreeFrom(s: seq<Block>, i: nat): nat
    decreases |s| - i
  {
    if i >= |s| then 0
    else (if FreeInScan(s, i) then 1 else 0) + FreeFrom(s, i + 1)
  }

  lemma {:induction false} FreeFromEmpty(s: seq<Block>, i: nat)
    requires FreeFrom(s, i) == 0
    ensures forall k :: i <= k ==> !FreeInScan(s, k)
    decreases |s| - i
  {
    if i < |s| {
      FreeFromEmpty(s, i + 1);
    }
  }

  lemma {:induction false} FreeFromNone(s: seq<Block>, i: nat)
    requires forall k :: i <= k ==> !FreeInScan(s, k)
    ensures FreeFrom(s, i) == 0
    decreases |s| - i
  {
    if i < |s| {
      FreeFromNone(s, i + 1);
    }
  }

  /** FreeFrom(s, i) counts across the first free block r: one for r, the rest above it. */
  lemma {:induction false} FreeFromSplit(s: seq<Block>, i: nat, r: nat)
    requires i <= r && FreeInScan(s, r)
    requires forall k :: i <= k < r ==> !FreeInScan(s, k)
    ensures FreeFrom(s, i) == 1 + FreeFrom(s, r + 1)
    decreases r - i
  {
    if i < r {
      FreeFromSplit(s, i + 1, r);
    }
  }

  /** Scanning from a block that is not free, while free blocks remain above it,
      hands out the first of them, and one fewer remains above that one. */
  lemma NextAllocation(s: seq<Block>, c: nat)
    requires 0 < c < |s| && !s[c].free && FreeFrom(s, c + 1) > 0
    ensures var r := FirstFree(s, c);
      && c < r && FreeInScan(s, r)
      && (forall k :: c <= k < r ==> !FreeInScan(s, k))
      && FreeFrom(s, c + 1) == 1 + FreeFrom(s, r + 1)
  {
    var r := FirstFree(s, c);
    FirstFreeIsFirst(s, c);
    if r == 0 {
      FreeFromNone(s, c + 1);
    }
    FreeFromSplit(s, c + 1, r);
  }

  /** Clearing the FREE bit of block r and changing blocks below r leaves the
      count above r as it was. */
  lemma {:induction false} FreeFromAbove(s: seq<Block>, t: seq<Block>, i: nat)
    requires |s| == |t| && forall k :: i <= k < |s| ==> s[k].free == t[k].free
    ensures FreeFrom(s, i) == FreeFrom(t, i)
    decreases |s| - i
  {
    if i < |s| {
      FreeFromAbove(s, t, i + 1);
    }
  }
}
