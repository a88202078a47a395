/** Rebuilding a binary tree from its in-order traversal together with its
    pre-order or post-order traversal. The rebuilt tree is written into an
    array in heap layout: the node at index t has its left child at 2t+1 and
    its right child at 2t+2; nodes whose index falls outside the array are
    not written. */
module TreeReconstruction {
  import opened Wrappers

  // ---------------------------------------------------------------------
  // Trees and traversals
  // ---------------------------------------------------------------------

  datatype Tree = Nil | Node(left: Tree, value: int32, right: Tree)

  function Size(t: Tree): nat {
    match t
    case Nil => 0
    case Node(l, _, r) => Size(l) + 1 + Size(r)
  }

  /** Left subtree, root, right subtree. */
  function InOrder(t: Tree): (s: seq<int32>)
    ensures |s| == Size(t)
  {
    match t
    case Nil => []
    case Node(l, v, r) => InOrder(l) + [v] + InOrder(r)
  }

  /** Root, left subtree, right subtree. */
  function PreOrder(t: Tree): (s: seq<int32>)
    ensures |s| == Size(t)
  {
    match t
    case Nil => []
    case Node(l, v, r) => [v] + PreOrder(l) + PreOrder(r)
  }

  /** Left subtree, right subtree, root. */
  function PostOrder(t: Tree): (s: seq<int32>)
    ensures |s| == Size(t)
  {
    match t
    case Nil => []
    case Node(l, v, r) => PostOrder(l) + PostOrder(r) + [v]
  }

  ghost predicate Distinct(s: seq<int32>) {
    forall i, j :: 0 <= i < j < |s| ==> s[i] != s[j]
  }

  // ---------------------------------------------------------------------
  // The value-to-index map of the in-order traversal
  // ---------------------------------------------------------------------

  /** The map the construction loop builds: each value to the index of its
      last occurrence (a later `put` of the same value overwrites). */
  ghost function LastIndexMap(s: seq<int32>): map<int32, int>
    decreases |s|
  {
    if s == [] then map[] else LastIndexMap(s[..|s| - 1])[s[|s| - 1] := |s| - 1]
  }

  /** The map holds exactly the values of s, each with the index of its last
      occurrence; with distinct values that is its only index. */
  lemma {:induction false} LastIndexMapSpec(s: seq<int32>)
    ensures LastIndexMap(s).Keys == set i | 0 <= i < |s| :: s[i]
    ensures forall v :: v in LastIndexMap(s) ==>
      0 <= LastIndexMap(s)[v] < |s| && s[LastIndexMap(s)[v]] == v &&
      forall k :: LastIndexMap(s)[v] < k < |s| ==> s[k] != v
    ensures Distinct(s) ==> forall i :: 0 <= i < |s| ==> s[i] in LastIndexMap(s) && LastIndexMap(s)[s[i]] == i
    decreases |s|
  {
    if s != [] {
      var n := |s| - 1;
      var prefix := s[..n];
      LastIndexMapSpec(prefix);
      var m := LastIndexMap(s);
      assert m == LastIndexMap(prefix)[s[n] := n];
      forall v | v in m
        ensures 0 <= m[v] < |s| && s[m[v]] == v && forall k :: m[v] < k < |s| ==> s[k] != v
      {
        if v != s[n] {
          assert v in LastIndexMap(prefix);
          assert prefix[LastIndexMap(prefix)[v]] == v;
        }
      }
      assert m.Keys == set i | 0 <= i < |s| :: s[i] by {
        forall v | v in set i | 0 <= i < |s| :: s[i]
          ensures v in m
        {
          var i :| 0 <= i < |s| && s[i] == v;
          if i < n {
            assert prefix[i] == v;
          }
        }
        forall v | v in m
          ensures v in set i | 0 <= i < |s| :: s[i]
        {
          assert s[m[v]] == v;
        }
      }
      if Distinct(s) {
        forall i | 0 <= i < |s|
          ensures s[i] in m && m[s[i]] == i
        {
          assert s[i] in set i' | 0 <= i' < |s| :: s[i'];
          var p := m[s[i]];
          assert s[p] == s[i];
        }
      }
    }
  }

  /** The construction loop shared by both entry points. */
  method BuildInOrderMap(inOrder: seq<int32>) returns (inMap: map<int32, int>)
    ensures inMap == LastIndexMap(inOrder)
  {
    inMap := map[];
    for i := 0 to |inOrder|
      invariant inMap == LastIndexMap(inOrder[..i])
    {
      assert inOrder[..i + 1][..i] == inOrder[..i];
      inMap := inMap[inOrder[i] := i];
    }
    assert inOrder[..|inOrder|] == inOrder;
  }

  // ---------------------------------------------------------------------
  // Heap layout
  // ---------------------------------------------------------------------

  /** Writes v at index t when t lies inside the array. */
  function WriteCell(cells: seq<int32>, t: nat, v: int32): (r: seq<int32>)
    ensures |r| == |cells|
  {
    if t < |cells| then cells[t := v] else cells
  }

  /** The array after writing tree t in heap layout with its root at index
      t0: root first, then the left subtree from 2t0+1, then the right
      subtree from 2t0+2. */
  function Layout(t: Tree, t0: nat, cells: seq<int32>): (r: seq<int32>)
    ensures |r| == |cells|
  {
    match t
    case Nil => cells
    case Node(l, v, rt) => Layout(rt, 2 * t0 + 2, Layout(l, 2 * t0 + 1, WriteCell(cells, t0, v)))
  }

  /** The heap indices of the nodes of t when its root sits at t0. */
  ghost function Positions(t: Tree, t0: nat): set<nat> {
    match t
    case Nil => {}
    case Node(l, _, r) => {t0} + Positions(l, 2 * t0 + 1) + Positions(r, 2 * t0 + 2)
  }

  /** Index p lies in the heap subtree rooted at q: following parents
      (p - 1) / 2 from p reaches q. */
  ghost predicate InSubtree(p: nat, q: nat)
    decreases p
  {
    p == q || (p > q && InSubtree((p - 1) / 2, q))
  }

  /** The subtree of a child lies inside the subtree of its parent. */
  lemma {:induction false} InSubtreeOfParent(p: nat, c: nat)
    requires c > 0 && InSubtree(p, c)
    ensures InSubtree(p, (c - 1) / 2)
    decreases p
  {
    if p != c {
      InSubtreeOfParent((p - 1) / 2, c);
    }
  }

  /** The subtrees of the two children of a node do not overlap. */
  lemma {:induction false} SiblingSubtreesDisjoint(p: nat, q: nat)
    ensures !(InSubtree(p, 2 * q + 1) && InSubtree(p, 2 * q + 2))
    decreases p
  {
    if p > 2 * q + 2 {
      SiblingSubtreesDisjoint((p - 1) / 2, q);
    }
  }

  /** Every node of t is at index t0 or below it. */
  lemma {:induction false} PositionsInSubtree(t: Tree, t0: nat)
    ensures forall p :: p in Positions(t, t0) ==> p >= t0 && InSubtree(p, t0)
  {
    if t.Node? {
      PositionsInSubtree(t.left, 2 * t0 + 1);
      PositionsInSubtree(t.right, 2 * t0 + 2);
      forall p | p in Positions(t.left, 2 * t0 + 1)
        ensures InSubtree(p, t0)
      {
        InSubtreeOfParent(p, 2 * t0 + 1);
      }
      forall p | p in Positions(t.right, 2 * t0 + 2)
        ensures InSubtree(p, t0)
      {
        InSubtreeOfParent(p, 2 * t0 + 2);
      }
    }
  }

  /** Laying out t changes no cell outside its node positions. */
  lemma {:induction false} LayoutUnvisited(t: Tree, t0: nat, cells: seq<int32>, p: nat)
    requires p < |cells| && p !in Positions(t, t0)
    ensures Layout(t, t0, cells)[p] == cells[p]
  {
    if t.Node? {
      var c1 := WriteCell(cells, t0, t.value);
      LayoutUnvisited(t.left, 2 * t0 + 1, c1, p);
      LayoutUnvisited(t.right, 2 * t0 + 2, Layout(t.left, 2 * t0 + 1, c1), p);
    }
  }

  /** Every node of t that fits in the array holds its value at its heap
      index. */
  ghost predicate Holds(cells: seq<int32>, t: Tree, t0: nat) {
    match t
    case Nil => true
    case Node(l, v, r) => (t0 < |cells| ==> cells[t0] == v) && Holds(cells, l, 2 * t0 + 1) && Holds(cells, r, 2 * t0 + 2)
  }

  /** `Holds` depends only on the cells at the tree's positions. */
  lemma {:induction false} HoldsFrame(cells: seq<int32>, cells': seq<int32>, t: Tree, t0: nat)
    requires |cells| == |cells'| && Holds(cells, t, t0)
    requires forall p :: p in Positions(t, t0) && p < |cells| ==> cells'[p] == cells[p]
    ensures Holds(cells', t, t0)
  {
    if t.Node? {
      HoldsFrame(cells, cells', t.left, 2 * t0 + 1);
      HoldsFrame(cells, cells', t.right, 2 * t0 + 2);
    }
  }

  /** After laying out t, every node of t that fits is in place. */
  lemma {:induction false} LayoutHolds(t: Tree, t0: nat, cells: seq<int32>)
    ensures Holds(Layout(t, t0, cells), t, t0)
  {
    if t.Node? {
      var c1 := WriteCell(cells, t0, t.value);
      var c2 := Layout(t.left, 2 * t0 + 1, c1);
      var c3 := Layout(t.right, 2 * t0 + 2, c2);
      PositionsInSubtree(t.left, 2 * t0 + 1);
      PositionsInSubtree(t.right, 2 * t0 + 2);
      if t0 < |cells| {
        LayoutUnvisited(t.left, 2 * t0 + 1, c1, t0);
        LayoutUnvisited(t.right, 2 * t0 + 2, c2, t0);
      }
      LayoutHolds(t.left, 2 * t0 + 1, c1);
      LayoutHolds(t.right, 2 * t0 + 2, c2);
      forall p | p in Positions(t.left, 2 * t0 + 1) && p < |c2|
        ensures c3[p] == c2[p]
      {
        SiblingSubtreesDisjoint(p, t0);
        LayoutUnvisited(t.right, 2 * t0 + 2, c2, p);
      }
      HoldsFrame(c2, c3, t.left, 2 * t0 + 1);
    }
  }

  /** Laying out t from index 0 puts every node that fits at its heap index
      and leaves every other cell as it was. */
  lemma LayoutPlacesTree(t: Tree, cells: seq<int32>)
    ensures Holds(Layout(t, 0, cells), t, 0)
    ensures forall p :: 0 <= p < |cells| && p !in Positions(t, 0) ==> Layout(t, 0, cells)[p] == cells[p]
  {
    LayoutHolds(t, 0, cells);
    forall p | 0 <= p < |cells| && p !in Positions(t, 0)
      ensures Layout(t, 0, cells)[p] == cells[p]
    {
      LayoutUnvisited(t, 0, cells, p);
    }
  }

  // ---------------------------------------------------------------------
  // Heap indices in 32 bits
  // ---------------------------------------------------------------------

  function Pow2(n: nat): (r: nat)
    ensures r >= 1
  {
    if n == 0 then 1 else 2 * Pow2(n - 1)
  }

  lemma {:induction false} Pow2Monotone(m: nat, n: nat)
    requires m <= n
    ensures Pow2(m) <= Pow2(n)
    decreases n
  {
    if m < n {
      Pow2Monotone(m, n - 1);
    }
  }

  /** The heap index of the node d steps down the right spine, with the
      child index 2 treeIndex + 2 computed in Java's 32-bit `int`, as the
      helpers compute it. */
  function RightSpineIndex32(d: nat): int32 {
    if d == 0 then 0 else Wrap32(2 * RightSpineIndex32(d - 1) as int + 2)
  }

  /** The same index with unbounded integers, as `Layout` computes it. */
  function RightSpineIndex(d: nat): nat {
    if d == 0 then 0 else 2 * RightSpineIndex(d - 1) + 2
  }

  /** The index d steps down the right spine is 2^(d+1) - 2. */
  lemma {:induction false} RightSpineIndexValue(d: nat)
    ensures RightSpineIndex(d) == Pow2(d + 1) - 2
  {
    if d > 0 {
      RightSpineIndexValue(d - 1);
    }
  }

  lemma {:induction false} Pow2Add(m: nat, n: nat)
    ensures Pow2(m + n) == Pow2(m) * Pow2(n)
    decreases n
  {
    if n > 0 {
      Pow2Add(m, n - 1);
    }
  }

  lemma Pow2Bounds()
    ensures Pow2(31) == 0x8000_0000 && Pow2(32) == 0x1_0000_0000
  {
    assert Pow2(4) == 16;
    Pow2Add(4, 4);
    Pow2Add(8, 8);
    Pow2Add(16, 16);
    assert Pow2(32) == 0x1_0000_0000;
  }

  /** Down to depth 30 the 32-bit index is the true one. */
  lemma {:induction false} RightSpineIndex32Exact(d: nat)
    requires d <= 30
    ensures RightSpineIndex32(d) as int == RightSpineIndex(d)
  {
    if d > 0 {
      RightSpineIndex32Exact(d - 1);
      RightSpineIndexValue(d);
      Pow2Monotone(d + 1, 31);
      Pow2Bounds();
      assert INT_MIN <= 2 * RightSpineIndex32(d - 1) as int + 2 <= INT_MAX;
    }
  }

  /** The write guard as the helpers state it: only an index at or past the
      end of the array is skipped. */
  predicate WriteGuard32(treeIndex: int32, length: nat) {
    treeIndex as int < length
  }

  /** From depth 31 on (a right-leaning chain of 32 nodes or more) the 32-bit
      index has wrapped to -2, where it stays: the guard lets it through for
      every array, yet it is no index of any array, so the write fails
      instead of being skipped. */
  lemma {:induction false} RightSpineIndexWraps(d: nat, length: nat)
    requires d >= 31
    ensures RightSpineIndex32(d) == -2
    ensures WriteGuard32(RightSpineIndex32(d), length) && !(0 <= RightSpineIndex32(d) as int < length)
  {
    if d == 31 {
      RightSpineIndex32Exact(30);
      RightSpineIndexValue(30);
      Pow2Bounds();
      assert RightSpineIndex32(d) == Wrap32(0x1_0000_0000 - 2);
    } else {
      RightSpineIndexWraps(d - 1, length);
    }
  }

  /** With unbounded indices the same node lies past the end of every Java
      array, so `Layout` skips it and leaves the cells as they were. */
  lemma RightSpineIndexSkipped(cells: seq<int32>, v: int32)
    requires |cells| <= INT_MAX
    ensures RightSpineIndex(31) > INT_MAX
    ensures WriteCell(cells, RightSpineIndex(31), v) == cells
  {
    RightSpineIndexValue(31);
    Pow2Bounds();
  }

  /** The heap index of the node d steps down the left spine, with the
      child index 2 treeIndex + 1 computed in 32 bits. */
  function LeftSpineIndex32(d: nat): int32 {
    if d == 0 then 0 else Wrap32(2 * LeftSpineIndex32(d - 1) as int + 1)
  }

  /** Down to depth 31 the 32-bit left-spine index is 2^d - 1, exact. */
  lemma {:induction false} LeftSpineIndex32Exact(d: nat)
    requires d <= 31
    ensures LeftSpineIndex32(d) as int == Pow2(d) - 1
  {
    if d > 0 {
      LeftSpineIndex32Exact(d - 1);
      Pow2Monotone(d, 31);
      Pow2Bounds();
      assert 2 * LeftSpineIndex32(d - 1) as int + 1 == Pow2(d) - 1;
    }
  }

  /** The node 31 steps down the left spine sits at `Integer.MAX_VALUE`, past
      every array, and is skipped; but the 32-bit index of its right child
      wraps to 0, which the guard lets through for every non-empty array, so
      that child overwrites the root's cell. */
  lemma LeftSpineRightChildWraps(length: nat)
    requires 0 < length <= INT_MAX
    ensures LeftSpineIndex32(31) as int == INT_MAX && !WriteGuard32(LeftSpineIndex32(31), length)
    ensures Wrap32(2 * LeftSpineIndex32(31) as int + 2) == 0
    ensures WriteGuard32(Wrap32(2 * LeftSpineIndex32(31) as int + 2), length)
  {
    LeftSpineIndex32Exact(31);
    Pow2Bounds();
    assert Wrap32(0x1_0000_0000) == 0;
  }

  /** With exact indices that right child sits at 2^32, past every Java
      array, so its write is skipped and the root's cell is kept. */
  lemma LeftSpineRightChildSkipped(cells: seq<int32>, v: int32)
    requires |cells| <= INT_MAX
    ensures 2 * (Pow2(31) - 1) + 2 > INT_MAX
    ensures WriteCell(cells, 2 * (Pow2(31) - 1) + 2, v) == cells
  {
    Pow2Bounds();
  }

  // ---------------------------------------------------------------------
  // Rebuilding from in-order and pre-order
  // ---------------------------------------------------------------------

  /** The pre-order recursion never fails on these ranges: at every
      non-empty range the root index is inside the pre-order array, the
      root value is in the map, and its in-order index lies inside the
      current in-order range. */
  ghost predicate PreSplitDefined(preOrder: seq<int32>, inMap: map<int32, int>, inStart: int, inEnd: int, preStart: int, preEnd: int)
    decreases inEnd - inStart
  {
    inStart > inEnd || preStart > preEnd ||
    (0 <= preStart < |preOrder| && preOrder[preStart] in inMap &&
     var root := inMap[preOrder[preStart]];
     var leftSize := root - inStart;
     inStart <= root <= inEnd &&
     PreSplitDefined(preOrder, inMap, inStart, root - 1, preStart + 1, preStart + leftSize) &&
     PreSplitDefined(preOrder, inMap, root + 1, inEnd, preStart + leftSize + 1, preEnd))
  }

  /** The tree the pre-order recursion rebuilds from these ranges. */
  ghost function DecodePre(preOrder: seq<int32>, inMap: map<int32, int>, inStart: int, inEnd: int, preStart: int, preEnd: int): Tree
    requires PreSplitDefined(preOrder, inMap, inStart, inEnd, preStart, preEnd)
    decreases inEnd - inStart
  {
    if inStart > inEnd || preStart > preEnd then Nil
    else
      var rootValue := preOrder[preStart];
      var root := inMap[rootValue];
      var leftSize := root - inStart;
      Node(DecodePre(preOrder, inMap, inStart, root - 1, preStart + 1, preStart + leftSize),
           rootValue,
           DecodePre(preOrder, inMap, root + 1, inEnd, preStart + leftSize + 1, preEnd))
  }

  /** The recursive helper: writes the root of the current ranges at
      treeIndex when that is inside the array, then rebuilds the left part
      at 2 treeIndex + 1 and the right part at 2 treeIndex + 2. (The
      in-order array itself is never read here, only the map, so it is not a
      parameter.) */
  method BuildPreHelper(preOrder: seq<int32>, tree: array<int32>, inStart: int, inEnd: int, preStart: int, preEnd: int,
                        treeIndex: nat, inMap: map<int32, int>)
    requires PreSplitDefined(preOrder, inMap, inStart, inEnd, preStart, preEnd)
    modifies tree
    ensures tree[..] == Layout(DecodePre(preOrder, inMap, inStart, inEnd, preStart, preEnd), treeIndex, old(tree[..]))
    decreases inEnd - inStart
  {
    if inStart > inEnd || preStart > preEnd {
      return;
    }
    var rootValue := preOrder[preStart];
    if treeIndex < tree.Length {
      tree[treeIndex] := rootValue;
    }
    assert tree[..] == WriteCell(old(tree[..]), treeIndex, rootValue);
    var rootIndexInInOrder := inMap[rootValue];
    var leftSubtreeSize := rootIndexInInOrder - inStart;
    BuildPreHelper(preOrder, tree, inStart, rootIndexInInOrder - 1, preStart + 1, preStart + leftSubtreeSize,
                   2 * treeIndex + 1, inMap);
    BuildPreHelper(preOrder, tree, rootIndexInInOrder + 1, inEnd, preStart + leftSubtreeSize + 1, preEnd,
                   2 * treeIndex + 2, inMap);
  }

  /** Builds the value-to-index map, then rebuilds from the full ranges with
      the root at index 0. */
  method BuildFromPreOrder(inOrderTraversal: seq<int32>, preOrderTraversal: seq<int32>, reconstructedTree: array<int32>)
    requires PreSplitDefined(preOrderTraversal, LastIndexMap(inOrderTraversal),
                             0, |inOrderTraversal| - 1, 0, |preOrderTraversal| - 1)
    modifies reconstructedTree
    ensures reconstructedTree[..] ==
      Layout(DecodePre(preOrderTraversal, LastIndexMap(inOrderTraversal), 0, |inOrderTraversal| - 1, 0, |preOrderTraversal| - 1),
             0, old(reconstructedTree[..]))
  {
    var inOrderMap := BuildInOrderMap(inOrderTraversal);
    BuildPreHelper(preOrderTraversal, reconstructedTree, 0, |inOrderTraversal| - 1, 0, |preOrderTraversal| - 1,
                   0, inOrderMap);
  }

  /** u occurs in s starting at index off. */
  ghost predicate Occurs(s: seq<int32>, off: int, u: seq<int32>) {
    0 <= off && off + |u| <= |s| && forall k :: 0 <= k < |u| ==> s[off + k] == u[k]
  }

  lemma OccursSelf(s: seq<int32>)
    ensures Occurs(s, 0, s)
  {
  }

  /** An occurrence of u gives each of its elements. */
  lemma OccursAt(s: seq<int32>, off: int, u: seq<int32>, k: int)
    requires Occurs(s, off, u) && 0 <= k < |u|
    ensures s[off + k] == u[k]
  {
  }

  /** An occurrence of u + w is an occurrence of u followed, at mid, by one
      of w. */
  lemma OccursConcat(s: seq<int32>, off: int, u: seq<int32>, w: seq<int32>, mid: int)
    requires Occurs(s, off, u + w) && mid == off + |u|
    ensures Occurs(s, off, u) && Occurs(s, mid, w)
  {
    forall k | 0 <= k < |u|
      ensures s[off + k] == u[k]
    {
      assert (u + w)[k] == u[k];
    }
    forall k | 0 <= k < |w|
      ensures s[mid + k] == w[k]
    {
      assert (u + w)[|u| + k] == w[k];
    }
  }

  /** The map sends every in-order value to its own index. */
  ghost predicate IndexesInOrder(inOrder: seq<int32>, inMap: map<int32, int>) {
    forall i :: 0 <= i < |inOrder| ==> inOrder[i] in inMap && inMap[inOrder[i]] == i
  }

  /** With distinct values the built map sends each value to its index. */
  lemma DistinctIndexes(inOrder: seq<int32>)
    requires Distinct(inOrder)
    ensures IndexesInOrder(inOrder, LastIndexMap(inOrder))
  {
    LastIndexMapSpec(inOrder);
  }

  /** The three traversals of a node, grouped the way the split lemmas
      take them apart. */
  lemma PreOrderNode(t: Tree)
    requires t.Node?
    ensures PreOrder(t) == ([t.value] + PreOrder(t.left)) + PreOrder(t.right)
  {
  }

  lemma InOrderNode(t: Tree)
    requires t.Node?
    ensures InOrder(t) == InOrder(t.left) + ([t.value] + InOrder(t.right))
  {
  }

  lemma PostOrderNode(t: Tree)
    requires t.Node?
    ensures PostOrder(t) == (PostOrder(t.left) + PostOrder(t.right)) + [t.value]
  {
  }

  /** Where the root and the two subtrees of t sit inside its pre-order
      traversal: root first, then the left subtree, then the right one. */
  lemma PreOrderRoot(t: Tree, preOrder: seq<int32>, preStart: int)
    requires t.Node? && Occurs(preOrder, preStart, PreOrder(t))
    ensures preOrder[preStart] == t.value
  {
    OccursAt(preOrder, preStart, PreOrder(t), 0);
  }

  lemma PreOrderLeft(t: Tree, preOrder: seq<int32>, preStart: int)
    requires t.Node? && Occurs(preOrder, preStart, PreOrder(t))
    ensures Occurs(preOrder, preStart + 1, PreOrder(t.left))
  {
    var mid := preStart + 1 + Size(t.left);
    PreOrderNode(t);
    OccursConcat(preOrder, preStart, [t.value] + PreOrder(t.left), PreOrder(t.right), mid);
    OccursConcat(preOrder, preStart, [t.value], PreOrder(t.left), preStart + 1);
  }

  lemma PreOrderRight(t: Tree, preOrder: seq<int32>, preStart: int)
    requires t.Node? && Occurs(preOrder, preStart, PreOrder(t))
    ensures Occurs(preOrder, preStart + 1 + Size(t.left), PreOrder(t.right))
  {
    PreOrderNode(t);
    OccursConcat(preOrder, preStart, [t.value] + PreOrder(t.left), PreOrder(t.right), preStart + 1 + Size(t.left));
  }

  /** Where the root and the two subtrees of t sit inside its in-order
      traversal: the left subtree, then the root, then the right one. */
  lemma InOrderRoot(t: Tree, inOrder: seq<int32>, inStart: int)
    requires t.Node? && Occurs(inOrder, inStart, InOrder(t))
    ensures inOrder[inStart + Size(t.left)] == t.value
  {
    OccursAt(inOrder, inStart, InOrder(t), Size(t.left));
    assert InOrder(t)[Size(t.left)] == t.value;
  }

  lemma InOrderLeft(t: Tree, inOrder: seq<int32>, inStart: int)
    requires t.Node? && Occurs(inOrder, inStart, InOrder(t))
    ensures Occurs(inOrder, inStart, InOrder(t.left))
  {
    InOrderNode(t);
    OccursConcat(inOrder, inStart, InOrder(t.left), [t.value] + InOrder(t.right), inStart + Size(t.left));
  }

  lemma InOrderRight(t: Tree, inOrder: seq<int32>, inStart: int)
    requires t.Node? && Occurs(inOrder, inStart, InOrder(t))
    ensures Occurs(inOrder, inStart + Size(t.left) + 1, InOrder(t.right))
  {
    var mid := inStart + Size(t.left);
    InOrderNode(t);
    OccursConcat(inOrder, inStart, InOrder(t.left), [t.value] + InOrder(t.right), mid);
    OccursConcat(inOrder, mid, [t.value], InOrder(t.right), mid + 1);
  }

  /** At a node: the root's position in both traversals, its in-order index
      in the map, and where the two subtrees' traversals sit. */
  lemma PreNodeFacts(t: Tree, inOrder: seq<int32>, preOrder: seq<int32>, inMap: map<int32, int>, inStart: int, preStart: int)
    requires t.Node? && IndexesInOrder(inOrder, inMap)
    requires Occurs(inOrder, inStart, InOrder(t)) && Occurs(preOrder, preStart, PreOrder(t))
    ensures preOrder[preStart] == t.value && t.value in inMap && inMap[t.value] == inStart + Size(t.left)
    ensures Occurs(inOrder, inStart, InOrder(t.left)) && Occurs(preOrder, preStart + 1, PreOrder(t.left))
    ensures Occurs(inOrder, inStart + Size(t.left) + 1, InOrder(t.right))
    ensures Occurs(preOrder, preStart + 1 + Size(t.left), PreOrder(t.right))
  {
    InOrderRoot(t, inOrder, inStart);
    InOrderLeft(t, inOrder, inStart);
    InOrderRight(t, inOrder, inStart);
    PreOrderRoot(t, preOrder, preStart);
    PreOrderLeft(t, preOrder, preStart);
    PreOrderRight(t, preOrder, preStart);
  }

  /** One level of the pre-order recursion: defined subranges around a root
      inside the in-order range make the whole range defined, and the
      rebuilt tree is the root over the two rebuilt subtrees. */
  lemma PreSplitStep(preOrder: seq<int32>, inMap: map<int32, int>, inStart: int, inEnd: int, preStart: int, preEnd: int, root: int)
    requires inStart <= inEnd && 0 <= preStart <= preEnd && preStart < |preOrder|
    requires preOrder[preStart] in inMap && inMap[preOrder[preStart]] == root && inStart <= root <= inEnd
    requires PreSplitDefined(preOrder, inMap, inStart, root - 1, preStart + 1, preStart + root - inStart)
    requires PreSplitDefined(preOrder, inMap, root + 1, inEnd, preStart + root - inStart + 1, preEnd)
    ensures PreSplitDefined(preOrder, inMap, inStart, inEnd, preStart, preEnd)
    ensures DecodePre(preOrder, inMap, inStart, inEnd, preStart, preEnd) ==
      Node(DecodePre(preOrder, inMap, inStart, root - 1, preStart + 1, preStart + root - inStart),
           preOrder[preStart],
           DecodePre(preOrder, inMap, root + 1, inEnd, preStart + root - inStart + 1, preEnd))
  {
  }

  /** Every node of t sits where the pre-order recursion looks for it: its
      value at the start of its pre-order range, and the map sending it to
      the index just after its left subtree's in-order range. */
  ghost predicate PrePlaced(t: Tree, preOrder: seq<int32>, inMap: map<int32, int>, inStart: int, preStart: int) {
    match t
    case Nil => true
    case Node(l, v, r) =>
      0 <= preStart < |preOrder| && preOrder[preStart] == v && v in inMap && inMap[v] == inStart + Size(l) &&
      PrePlaced(l, preOrder, inMap, inStart, preStart + 1) &&
      PrePlaced(r, preOrder, inMap, inStart + Size(l) + 1, preStart + 1 + Size(l))
  }

  /** The traversals of t at these offsets place t for the recursion. */
  lemma {:induction false} TraversalsPlacePre(t: Tree, inOrder: seq<int32>, preOrder: seq<int32>, inMap: map<int32, int>,
                                              inStart: int, preStart: int)
    requires IndexesInOrder(inOrder, inMap)
    requires Occurs(inOrder, inStart, InOrder(t)) && Occurs(preOrder, preStart, PreOrder(t))
    ensures PrePlaced(t, preOrder, inMap, inStart, preStart)
  {
    if t.Node? {
      PreNodeFacts(t, inOrder, preOrder, inMap, inStart, preStart);
      TraversalsPlacePre(t.left, inOrder, preOrder, inMap, inStart, preStart + 1);
      TraversalsPlacePre(t.right, inOrder, preOrder, inMap, inStart + Size(t.left) + 1, preStart + 1 + Size(t.left));
    }
  }

  /** On the ranges of a placed tree, the pre-order recursion is defined and
      rebuilds that tree. */
  lemma {:induction false} DecodePrePlaced(t: Tree, preOrder: seq<int32>, inMap: map<int32, int>,
                                           inStart: int, inEnd: int, preStart: int, preEnd: int)
    requires PrePlaced(t, preOrder, inMap, inStart, preStart)
    requires inEnd == inStart + Size(t) - 1 && preEnd == preStart + Size(t) - 1
    ensures PreSplitDefined(preOrder, inMap, inStart, inEnd, preStart, preEnd)
    ensures DecodePre(preOrder, inMap, inStart, inEnd, preStart, preEnd) == t
    decreases t
  {
    if t.Node? {
      var root := inStart + Size(t.left);
      DecodePrePlaced(t.left, preOrder, inMap, inStart, root - 1, preStart + 1, preStart + root - inStart);
      DecodePrePlaced(t.right, preOrder, inMap, root + 1, inEnd, preStart + root - inStart + 1, preEnd);
      PreSplitStep(preOrder, inMap, inStart, inEnd, preStart, preEnd, root);
    } else {
      assert inStart > inEnd;
    }
  }

  /** A tree with distinct values is placed by its own traversals. */
  lemma PrePlacedByTraversals(t: Tree)
    requires Distinct(InOrder(t))
    ensures PrePlaced(t, PreOrder(t), LastIndexMap(InOrder(t)), 0, 0)
  {
    DistinctIndexes(InOrder(t));
    OccursSelf(InOrder(t));
    OccursSelf(PreOrder(t));
    TraversalsPlacePre(t, InOrder(t), PreOrder(t), LastIndexMap(InOrder(t)), 0, 0);
  }

  /** Round trip: for a tree with distinct values, the recursion on its
      in-order and pre-order traversals is defined and rebuilds that tree,
      which `BuildFromPreOrder` then lays out (see `LayoutPlacesTree`). */
  lemma PreOrderRoundTrip(t: Tree)
    requires Distinct(InOrder(t))
    ensures PreSplitDefined(PreOrder(t), LastIndexMap(InOrder(t)), 0, Size(t) - 1, 0, Size(t) - 1)
    ensures DecodePre(PreOrder(t), LastIndexMap(InOrder(t)), 0, Size(t) - 1, 0, Size(t) - 1) == t
  {
    var preOrder, inMap, last := PreOrder(t), LastIndexMap(InOrder(t)), Size(t) - 1;
    PrePlacedByTraversals(t);
    DecodePrePlaced(t, preOrder, inMap, 0, last, 0, last);
  }


  // ---------------------------------------------------------------------
  // Rebuilding from in-order and post-order
  // ---------------------------------------------------------------------

  /** The post-order recursion never fails on these ranges (the root is the
      last element of the post-order range). */
  ghost predicate PostSplitDefined(postOrder: seq<int32>, inMap: map<int32, int>, inStart: int, inEnd: int, postStart: int, postEnd: int)
    decreases inEnd - inStart
  {
    inStart > inEnd || postStart > postEnd ||
    (0 <= postEnd < |postOrder| && postOrder[postEnd] in inMap &&
     var root := inMap[postOrder[postEnd]];
     var leftSize := root - inStart;
     inStart <= root <= inEnd &&
     PostSplitDefined(postOrder, inMap, inStart, root - 1, postStart, postStart + leftSize - 1) &&
     PostSplitDefined(postOrder, inMap, root + 1, inEnd, postStart + leftSize, postEnd - 1))
  }

  /** The tree the post-order recursion rebuilds from these ranges. */
  ghost function DecodePost(postOrder: seq<int32>, inMap: map<int32, int>, inStart: int, inEnd: int, postStart: int, postEnd: int): Tree
    requires PostSplitDefined(postOrder, inMap, inStart, inEnd, postStart, postEnd)
    decreases inEnd - inStart
  {
    if inStart > inEnd || postStart > postEnd then Nil
    else
      var rootValue := postOrder[postEnd];
      var root := inMap[rootValue];
      var leftSize := root - inStart;
      Node(DecodePost(postOrder, inMap, inStart, root - 1, postStart, postStart + leftSize - 1),
           rootValue,
           DecodePost(postOrder, inMap, root + 1, inEnd, postStart + leftSize, postEnd - 1))
  }

  /** The post-order helper, with the same layout as the pre-order one. */
  method BuildPostHelper(postOrder: seq<int32>, tree: array<int32>, inStart: int, inEnd: int, postStart: int, postEnd: int,
                         treeIndex: nat, inMap: map<int32, int>)
    requires PostSplitDefined(postOrder, inMap, inStart, inEnd, postStart, postEnd)
    modifies tree
    ensures tree[..] == Layout(DecodePost(postOrder, inMap, inStart, inEnd, postStart, postEnd), treeIndex, old(tree[..]))
    decreases inEnd - inStart
  {
    if inStart > inEnd || postStart > postEnd {
      return;
    }
    var rootValue := postOrder[postEnd];
    if treeIndex < tree.Length {
      tree[treeIndex] := rootValue;
    }
    assert tree[..] == WriteCell(old(tree[..]), treeIndex, rootValue);
    var rootIndexInInOrder := inMap[rootValue];
    var leftSubtreeSize := rootIndexInInOrder - inStart;
    BuildPostHelper(postOrder, tree, inStart, rootIndexInInOrder - 1, postStart, postStart + leftSubtreeSize - 1,
                    2 * treeIndex + 1, inMap);
    BuildPostHelper(postOrder, tree, rootIndexInInOrder + 1, inEnd, postStart + leftSubtreeSize, postEnd - 1,
                    2 * treeIndex + 2, inMap);
  }

  method BuildFromPostOrder(inOrderTraversal: seq<int32>, postOrderTraversal: seq<int32>, reconstructedTree: array<int32>)
    requires PostSplitDefined(postOrderTraversal, LastIndexMap(inOrderTraversal),
                              0, |inOrderTraversal| - 1, 0, |postOrderTraversal| - 1)
    modifies reconstructedTree
    ensures reconstructedTree[..] ==
      Layout(DecodePost(postOrderTraversal, LastIndexMap(inOrderTraversal), 0, |inOrderTraversal| - 1, 0, |postOrderTraversal| - 1),
             0, old(reconstructedTree[..]))
  {
    var inOrderMap := BuildInOrderMap(inOrderTraversal);
    BuildPostHelper(postOrderTraversal, reconstructedTree, 0, |inOrderTraversal| - 1, 0, |postOrderTraversal| - 1,
                    0, inOrderMap);
  }

  /** Where the root and the two subtrees of t sit inside its post-order
      traversal: the left subtree, then the right one, then the root. */
  lemma PostOrderRoot(t: Tree, postOrder: seq<int32>, postStart: int)
    requires t.Node? && Occurs(postOrder, postStart, PostOrder(t))
    ensures postOrder[postStart + Size(t) - 1] == t.value
  {
    OccursAt(postOrder, postStart, PostOrder(t), Size(t) - 1);
    assert PostOrder(t)[Size(t) - 1] == t.value;
  }

  lemma PostOrderLeft(t: Tree, postOrder: seq<int32>, postStart: int)
    requires t.Node? && Occurs(postOrder, postStart, PostOrder(t))
    ensures Occurs(postOrder, postStart, PostOrder(t.left))
  {
    var mid := postStart + Size(t.left) + Size(t.right);
    PostOrderNode(t);
    OccursConcat(postOrder, postStart, PostOrder(t.left) + PostOrder(t.right), [t.value], mid);
    OccursConcat(postOrder, postStart, PostOrder(t.left), PostOrder(t.right), postStart + Size(t.left));
  }

  lemma PostOrderRight(t: Tree, postOrder: seq<int32>, postStart: int)
    requires t.Node? && Occurs(postOrder, postStart, PostOrder(t))
    ensures Occurs(postOrder, postStart + Size(t.left), PostOrder(t.right))
  {
    var mid := postStart + Size(t.left) + Size(t.right);
    PostOrderNode(t);
    OccursConcat(postOrder, postStart, PostOrder(t.left) + PostOrder(t.right), [t.value], mid);
    OccursConcat(postOrder, postStart, PostOrder(t.left), PostOrder(t.right), postStart + Size(t.left));
  }

  /** At a node, as `PreNodeFacts`, for the post-order traversal. */
  lemma PostNodeFacts(t: Tree, inOrder: seq<int32>, postOrder: seq<int32>, inMap: map<int32, int>, inStart: int, postStart: int)
    requires t.Node? && IndexesInOrder(inOrder, inMap)
    requires Occurs(inOrder, inStart, InOrder(t)) && Occurs(postOrder, postStart, PostOrder(t))
    ensures postOrder[postStart + Size(t) - 1] == t.value && t.value in inMap && inMap[t.value] == inStart + Size(t.left)
    ensures Occurs(inOrder, inStart, InOrder(t.left)) && Occurs(postOrder, postStart, PostOrder(t.left))
    ensures Occurs(inOrder, inStart + Size(t.left) + 1, InOrder(t.right))
    ensures Occurs(postOrder, postStart + Size(t.left), PostOrder(t.right))
  {
    InOrderRoot(t, inOrder, inStart);
    InOrderLeft(t, inOrder, inStart);
    InOrderRight(t, inOrder, inStart);
    PostOrderRoot(t, postOrder, postStart);
    PostOrderLeft(t, postOrder, postStart);
    PostOrderRight(t, postOrder, postStart);
  }

  /** One level of the post-order recursion, as `PreSplitStep`. */
  lemma PostSplitStep(postOrder: seq<int32>, inMap: map<int32, int>, inStart: int, inEnd: int, postStart: int, postEnd: int, root: int)
    requires inStart <= inEnd && postStart <= postEnd && 0 <= postEnd < |postOrder|
    requires postOrder[postEnd] in inMap && inMap[postOrder[postEnd]] == root && inStart <= root <= inEnd
    requires PostSplitDefined(postOrder, inMap, inStart, root - 1, postStart, postStart + root - inStart - 1)
    requires PostSplitDefined(postOrder, inMap, root + 1, inEnd, postStart + root - inStart, postEnd - 1)
    ensures PostSplitDefined(postOrder, inMap, inStart, inEnd, postStart, postEnd)
    ensures DecodePost(postOrder, inMap, inStart, inEnd, postStart, postEnd) ==
      Node(DecodePost(postOrder, inMap, inStart, root - 1, postStart, postStart + root - inStart - 1),
           postOrder[postEnd],
           DecodePost(postOrder, inMap, root + 1, inEnd, postStart + root - inStart, postEnd - 1))
  {
  }

  /** Every node of t sits where the post-order recursion looks for it: its
      value at the end of its post-order range. */
  ghost predicate PostPlaced(t: Tree, postOrder: seq<int32>, inMap: map<int32, int>, inStart: int, postStart: int) {
    match t
    case Nil => true
    case Node(l, v, r) =>
      0 <= postStart + Size(t) - 1 < |postOrder| && postOrder[postStart + Size(t) - 1] == v &&
      v in inMap && inMap[v] == inStart + Size(l) &&
      PostPlaced(l, postOrder, inMap, inStart, postStart) &&
      PostPlaced(r, postOrder, inMap, inStart + Size(l) + 1, postStart + Size(l))
  }

  /** The traversals of t at these offsets place t for the recursion. */
  lemma {:induction false} TraversalsPlacePost(t: Tree, inOrder: seq<int32>, postOrder: seq<int32>, inMap: map<int32, int>,
                                               inStart: int, postStart: int)
    requires IndexesInOrder(inOrder, inMap)
    requires Occurs(inOrder, inStart, InOrder(t)) && Occurs(postOrder, postStart, PostOrder(t))
    ensures PostPlaced(t, postOrder, inMap, inStart, postStart)
  {
    if t.Node? {
      PostNodeFacts(t, inOrder, postOrder, inMap, inStart, postStart);
      TraversalsPlacePost(t.left, inOrder, postOrder, inMap, inStart, postStart);
      TraversalsPlacePost(t.right, inOrder, postOrder, inMap, inStart + Size(t.left) + 1, postStart + Size(t.left));
    }
  }

  /** On the ranges of a placed tree, the post-order recursion is defined
      and rebuilds that tree. */
  lemma {:induction false} DecodePostPlaced(t: Tree, postOrder: seq<int32>, inMap: map<int32, int>,
                                            inStart: int, inEnd: int, postStart: int, postEnd: int)
    requires PostPlaced(t, postOrder, inMap, inStart, postStart)
    requires inEnd == inStart + Size(t) - 1 && postEnd == postStart + Size(t) - 1
    ensures PostSplitDefined(postOrder, inMap, inStart, inEnd, postStart, postEnd)
    ensures DecodePost(postOrder, inMap, inStart, inEnd, postStart, postEnd) == t
    decreases t
  {
    if t.Node? {
      var root := inStart + Size(t.left);
      DecodePostPlaced(t.left, postOrder, inMap, inStart, root - 1, postStart, postStart + root - inStart - 1);
      DecodePostPlaced(t.right, postOrder, inMap, root + 1, inEnd, postStart + root - inStart, postEnd - 1);
      PostSplitStep(postOrder, inMap, inStart, inEnd, postStart, postEnd, root);
    } else {
      assert inStart > inEnd;
    }
  }

  /** A tree with distinct values is placed by its own traversals. */
  lemma PostPlacedByTraversals(t: Tree)
    requires Distinct(InOrder(t))
    ensures PostPlaced(t, PostOrder(t), LastIndexMap(InOrder(t)), 0, 0)
  {
    DistinctIndexes(InOrder(t));
    OccursSelf(InOrder(t));
    OccursSelf(PostOrder(t));
    TraversalsPlacePost(t, InOrder(t), PostOrder(t), LastIndexMap(InOrder(t)), 0, 0);
  }

  /** Round trip for in-order plus post-order, as for pre-order. */
  lemma PostOrderRoundTrip(t: Tree)
    requires Distinct(InOrder(t))
    ensures PostSplitDefined(PostOrder(t), LastIndexMap(InOrder(t)), 0, Size(t) - 1, 0, Size(t) - 1)
    ensures DecodePost(PostOrder(t), LastIndexMap(InOrder(t)), 0, Size(t) - 1, 0, Size(t) - 1) == t
  {
    var postOrder, inMap, last := PostOrder(t), LastIndexMap(InOrder(t)), Size(t) - 1;
    PostPlacedByTraversals(t);
    DecodePostPlaced(t, postOrder, inMap, 0, last, 0, last);
  }
}
