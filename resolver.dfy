/** find_node (fs.c:132-193): resolve a path from the root directory in block 1,
    one component at a time, through each directory's child-pointer list. */
module Resolver {

  import opened Layout
  import opened Paths

  /** A resolved node (its home block and its record), an unresolved path
      (find_node's 0), or a structural fault that find_node meets with a failed
      assert or a read outside the image. */
  datatype Lookup = Found(index: nat, node: Node) | NotFound | Corrupt

  /** The outcome of scanning one directory's child list: the slot that matched,
      the child's block index and record; or no match; or a fault. */
  datatype Scan = Hit(slot: nat, index: nat, node: Node) | Miss | Broken

  /** The test of fs.c:158-160: the flags include the wanted kind and the names agree. */
  predicate Matches(node: Node, name: string, target: NodeType)
  {
    target in node.flags && node.name == name
  }

  /** Slot k holds a well-formed child that does not match, so the scan moves on. */
  predicate Passed(s: seq<Block>, dir: Block, k: nat, name: string, target: NodeType)
    requires ValidImage(s) && |dir.data| == DATA_SIZE
  {
    && k < CHILD_CAPACITY
    && ChildSlot(dir, k) != 0
    && ChildSlot(dir, k) < |s|
    && s[ChildSlot(dir, k)].metadata
    && HoldsNode(s[ChildSlot(dir, k)])
    && !Matches(s[ChildSlot(dir, k)].rec.node, name, target)
  }

  /** The inner loop of find_node from slot j on (fs.c:149-174). */
  function ScanChildren(s: seq<Block>, dir: Block, count: nat, name: string, target: NodeType, j: nat): (r: Scan)
    requires ValidImage(s) && |dir.data| == DATA_SIZE
    ensures r.Hit? ==> 0 < r.index < |s| && j <= r.slot < count
    decreases count - j
  {
    if j >= count then Miss
    else if j >= CHILD_CAPACITY then Broken
    else
      var c := ChildSlot(dir, j);
      if c == 0 then Miss
      else if c >= |s| then Broken
      else if !s[c].metadata then Broken
      else if !HoldsNode(s[c]) then Broken
      else if Matches(s[c].rec.node, name, target) then Hit(j, c, s[c].rec.node)
      else ScanChildren(s, dir, count, name, target, j + 1)
  }

  /** The outer loop of find_node from component i on, standing in the directory
      whose home block is idx and whose record is node (fs.c:147-180). The last
      component consumed must carry the requested kind, the others FS_DIR. */
  function Walk(s: seq<Block>, comps: seq<string>, n: int, kind: NodeType, i: nat, idx: nat, node: Node): (r: Lookup)
    requires ValidImage(s) && 0 < idx < |s| && n <= |comps|
    ensures r.Found? ==> 0 < r.index < |s|
    decreases n - i
  {
    if i >= n then Found(idx, node)
    else
      match ScanChildren(s, s[idx], node.size, comps[i], if i == n - 1 then kind else Dir, 0)
      case Hit(_, c, t) => Walk(s, comps, n, kind, i + 1, c, t)
      case Miss => NotFound
      case Broken => Corrupt
  }

  /** Number of components find_node consumes: all of them, or all but the last
      in parent mode. */
  function Depth(path: string, parent: bool): int
  {
    |Split(path)| - (if parent then 1 else 0)
  }

  /** find_node. The root record in block 1 is used without a magic check, as
      the source does; a block 1 without any node record counts as corrupt. */
  function FindNode(s: seq<Block>, path: string, kind: NodeType, parent: bool): (r: Lookup)
    requires ValidImage(s)
    ensures r.Found? ==> 0 < r.index < |s|
  {
    if !s[1].rec.NodeRecord? then Corrupt
    else Walk(s, Split(path), Depth(path, parent), kind, 0, 1, s[1].rec.node)
  }

  // ---------------------------------------------------------------------------
  // Properties of the scan of one directory

  /** Slots that hold well-formed, non-matching children are skipped. */
  lemma {:induction false} ScanSkips(s: seq<Block>, dir: Block, count: nat, name: string, target: NodeType, j: nat, m: nat)
    requires ValidImage(s) && |dir.data| == DATA_SIZE
    requires j <= m <= count
    requires forall k :: j <= k < m ==> Passed(s, dir, k, name, target)
    ensures ScanChildren(s, dir, count, name, target, j) == ScanChildren(s, dir, count, name, target, m)
    decreases m - j
  {
    if j < m {
      assert Passed(s, dir, j, name, target);
      ScanSkips(s, dir, count, name, target, j + 1, m);
    }
  }

  /** A hit is the first slot in list order whose child matches; every slot
      before it held a well-formed child that did not match. */
  lemma {:induction false} ScanHitIsFirst(s: seq<Block>, dir: Block, count: nat, name: string, target: NodeType, j: nat)
    requires ValidImage(s) && |dir.data| == DATA_SIZE
    ensures var r := ScanChildren(s, dir, count, name, target, j);
      r.Hit? ==>
        && j <= r.slot < count && r.slot < CHILD_CAPACITY
        && r.index == ChildSlot(dir, r.slot) && 0 < r.index < |s|
        && s[r.index].metadata && HoldsNode(s[r.index])
        && r.node == s[r.index].rec.node && Matches(r.node, name, target)
        && forall k :: j <= k < r.slot ==> Passed(s, dir, k, name, target)
    decreases count - j
  {
    if j < count && j < CHILD_CAPACITY {
      var c := ChildSlot(dir, j);
      if c != 0 && c < |s| && s[c].metadata && HoldsNode(s[c]) && !Matches(s[c].rec.node, name, target) {
        ScanHitIsFirst(s, dir, count, name, target, j + 1);
      }
    }
  }

  /** A zero pointer inside the declared count, reached before any match, ends
      the lookup as unresolved (fs.c:151). */
  lemma ScanZeroChild(s: seq<Block>, dir: Block, count: nat, name: string, target: NodeType, m: nat)
    requires ValidImage(s) && |dir.data| == DATA_SIZE
    requires m < count && m < CHILD_CAPACITY && ChildSlot(dir, m) == 0
    requires forall k :: 0 <= k < m ==> Passed(s, dir, k, name, target)
    ensures ScanChildren(s, dir, count, name, target, 0) == Miss
  {
    ScanSkips(s, dir, count, name, target, 0, m);
  }

  /** With every declared slot well-formed and none matching, the scan misses. */
  lemma ScanNoMatch(s: seq<Block>, dir: Block, count: nat, name: string, target: NodeType)
    requires ValidImage(s) && |dir.data| == DATA_SIZE
    requires forall k :: 0 <= k < count ==> Passed(s, dir, k, name, target)
    ensures ScanChildren(s, dir, count, name, target, 0) == Miss
  {
    ScanSkips(s, dir, count, name, target, 0, count);
  }

  // ---------------------------------------------------------------------------
  // Properties of the whole lookup

  /** With no component to consume (an empty path, or a single component in
      parent mode) the result is block 1 and the root record. */
  lemma FindNodeRoot(s: seq<Block>, path: string, kind: NodeType, parent: bool)
    requires ValidImage(s) && s[1].rec.NodeRecord?
    requires Depth(path, parent) <= 0
    ensures FindNode(s, path, kind, parent) == Found(1, s[1].rec.node)
  {
  }

  /** What a successful walk from component i ends on: when it consumed at least
      one component, a well-formed node record in its home block, named by the
      last consumed component and carrying the requested kind. */
  lemma {:induction false} WalkFound(s: seq<Block>, comps: seq<string>, n: int, kind: NodeType, i: nat, idx: nat, node: Node)
    requires ValidImage(s) && 0 < idx < |s| && n <= |comps|
    ensures var r := Walk(s, comps, n, kind, i, idx, node);
      r.Found? && i < n ==>
        && 0 < r.index < |s| && s[r.index].metadata && HoldsNode(s[r.index])
        && r.node == s[r.index].rec.node
        && r.node.name == comps[n - 1] && kind in r.node.flags
    decreases n - i
  {
    if i < n {
      var target := if i == n - 1 then kind else Dir;
      var sc := ScanChildren(s, s[idx], node.size, comps[i], target, 0);
      ScanHitIsFirst(s, s[idx], node.size, comps[i], target, 0);
      if sc.Hit? {
        WalkFound(s, comps, n, kind, i + 1, sc.index, sc.node);
      }
    }
  }

  /** A path resolved through at least one component ends on a node whose name
      is the last consumed component and whose flags include the requested kind. */
  lemma FindNodeFound(s: seq<Block>, path: string, kind: NodeType, parent: bool)
    requires ValidImage(s)
    requires FindNode(s, path, kind, parent).Found? && Depth(path, parent) > 0
    ensures var r := FindNode(s, path, kind, parent);
      && 0 < r.index < |s| && s[r.index].metadata && HoldsNode(s[r.index])
      && r.node == s[r.index].rec.node
      && r.node.name == Split(path)[Depth(path, parent) - 1] && kind in r.node.flags
  {
    WalkFound(s, Split(path), Depth(path, parent), kind, 0, 1, s[1].rec.node);
  }

  /** One step of the walk: the next directory is the one the scan of the current
      directory hits; a miss or a fault ends the walk with the same verdict. */
  lemma WalkStep(s: seq<Block>, comps: seq<string>, n: int, kind: NodeType, i: nat, idx: nat, node: Node)
    requires ValidImage(s) && 0 < idx < |s| && n <= |comps| && i < n
    ensures var sc := ScanChildren(s, s[idx], node.size, comps[i], if i == n - 1 then kind else Dir, 0);
      && (sc.Miss? ==> Walk(s, comps, n, kind, i, idx, node) == NotFound)
      && (sc.Broken? ==> Walk(s, comps, n, kind, i, idx, node) == Corrupt)
      && (sc.Hit? ==>
            sc.index < |s| &&
            Walk(s, comps, n, kind, i, idx, node) == Walk(s, comps, n, kind, i + 1, sc.index, sc.node))
  {
    ScanHitIsFirst(s, s[idx], node.size, comps[i], if i == n - 1 then kind else Dir, 0);
  }
}
