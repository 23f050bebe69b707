/** Example trees: the two places where the increments as written leave the
    recursive traversal orders, and small trees decoded from token streams
    and walked by the iterators. */
module Examples {
  import opened Trees
  import opened Paths
  import opened Successors
  import opened Walks
  import opened Decoder
  import opened BiTree

  function Leaf(v: int): Tree<int> {
    Node(v, Nil, Nil)
  }

  /** A root with a left child and no right child. */
  function LeftOnly(): Tree<int> {
    Node(1, Leaf(2), Nil)
  }

  /** Inorder is 2, 1: from the root, the last node, the increment as written
      stays at the root instead of reaching the null iterator, so
      `find<inorder>` of an absent value never returns; the successor rule
      ends the walk. */
  lemma InorderRootFixedPoint(fuel: nat)
    ensures Positions(LeftOnly(), Inorder) == [[L], []]
    ensures InNext(LeftOnly(), []) == At([])
    ensures InNextFixed(LeftOnly(), []) == End
    ensures Find(LeftOnly(), Inorder, 3, fuel) == Diverges
  {
    var t := LeftOnly();
    assert Sub(t, []) == t;
    assert Sub(t, [R]) == Sub(Nil, []);
    assert Sub(t, [L]) == Sub(Leaf(2), []);
    assert Sub(t, [L, L]) == Sub(Nil, []);
    assert [] + [R] == [R] && [L] + [] == [L];
    assert Positions(Leaf(2), Inorder) == [] + [[]] + [];
    assert Lift(L, [[]])[0] == [L];
    assert Lift(L, [[]]) == [[L]];
    assert Positions(t, Inorder) == [[L]] + [[]] + [];
    assert Traversal(t, Inorder) == [2, 1];
    InorderFindDiverges(t, 3, fuel);
  }

  /** Root 1 with leaf 2 on the left and 3 on the right, 3 having only a right
      child 4.  Postorder is 2, 4, 3, 1; the increment as written goes from 2
      straight to 3, so node 4 is never visited and `find<postorder>(4)`
      returns the null iterator although 4 is in the tree. */
  function RightSpine(): Tree<int> {
    Node(1, Leaf(2), Node(3, Nil, Leaf(4)))
  }

  lemma RightSpineLinks()
    ensures Sub(RightSpine(), []) == RightSpine()
    ensures Valid(RightSpine(), [L]) && Valid(RightSpine(), [R]) && Valid(RightSpine(), [R, R])
    ensures !Valid(RightSpine(), [L, L]) && !Valid(RightSpine(), [L, R]) && !Valid(RightSpine(), [R, L])
    ensures !Valid(RightSpine(), [R, R, L]) && !Valid(RightSpine(), [R, R, R])
    ensures Sub(RightSpine(), [L]).value == 2 && Sub(RightSpine(), [R]).value == 3
    ensures Sub(RightSpine(), [R, R]).value == 4
  {
    var t := RightSpine();
    assert Sub(t, []) == t;
    assert Sub(t, [L]) == Sub(Leaf(2), []);
    assert Sub(t, [L, L]) == Sub(Nil, []);
    assert Sub(t, [L, R]) == Sub(Nil, []);
    assert Sub(t, [R]) == Sub(t.right, []);
    assert Sub(t, [R, L]) == Sub(Nil, []);
    assert Sub(t, [R, R]) == Sub(Leaf(4), []);
    assert Sub(t, [R, R, L]) == Sub(Nil, []);
    assert Sub(t, [R, R, R]) == Sub(Nil, []);
  }

  lemma RightSubtreePostorder()
    ensures Positions(RightSpine().right, Postorder) == [[R], []]
    ensures Traversal(RightSpine().right, Postorder) == [4, 3]
  {
    assert [R] + [] == [R];
    assert Positions(Leaf(4), Postorder) == [] + [] + [[]];
    assert Lift(R, [[]]) == [[R]];
    assert Positions(RightSpine().right, Postorder) == [] + [[R]] + [[]];
    assert Traversal(Leaf(4), Postorder) == [4];
  }

  lemma RightSpinePostorder()
    ensures Traversal(RightSpine(), Postorder) == [2, 4, 3, 1]
    ensures Positions(RightSpine(), Postorder) == [[L], [R, R], [R], []]
  {
    var t := RightSpine();
    RightSubtreePostorder();
    assert Traversal(Leaf(2), Postorder) == [2];
    assert Traversal(t, Postorder) == [2] + [4, 3] + [1];
    RightSpinePositions();
  }

  lemma RightSpinePositions()
    requires Positions(RightSpine().right, Postorder) == [[R], []]
    ensures Positions(RightSpine(), Postorder) == [[L], [R, R], [R], []]
  {
    var t := RightSpine();
    var a := Positions(Leaf(2), Postorder);
    assert a == [] + [] + [[]];
    var la, lb := Lift(L, a), Lift(R, [[R], []]);
    assert Positions(t, Postorder) == la + lb + [[]];
    assert [L] + [] == [L] && [R] + [R] == [R, R] && [R] + [] == [R];
    assert la == [[L]];
    assert lb[0] == [R, R] && lb[1] == [R];
    assert lb == [[R, R], [R]];
  }

  lemma RightSpineSteps()
    ensures PostNext(RightSpine(), [L]) == At([R])
    ensures PostNextFixed(RightSpine(), [L]) == At([R, R])
    ensures PostNext(RightSpine(), [R]) == At([])
    ensures PostNext(RightSpine(), []) == End
    ensures Begin(RightSpine(), Postorder) == At([L])
  {
    var t := RightSpine();
    RightSpineLinks();
    RightSpinePostorder();
    assert [] + [L] == [L] && [] + [R] == [R];
    assert [L] + [L] == [L, L] && [L] + [R] == [L, R];
    assert [R] + [L] == [R, L] && [R] + [R] == [R, R];
    assert [R, R] + [L] == [R, R, L] && [R, R] + [R] == [R, R, R];
    assert Up([L]) == [] && Up([R]) == [] && Up([R, R]) == [R];
    assert Leftmost(t, [R]) == [R];
    assert PostFirst(t, [R, R]) == [R, R];
    assert PostFirst(t, [R]) == [R, R];
  }

  lemma PostorderSkipsNode(fuel: nat)
    requires fuel >= 3
    ensures Positions(RightSpine(), Postorder) == [[L], [R, R], [R], []]
    ensures PostNext(RightSpine(), [L]) == At([R])
    ensures PostNextFixed(RightSpine(), [L]) == At([R, R])
    ensures Find(RightSpine(), Postorder, 4, fuel) == Returns(End)
    ensures FirstMatch(RightSpine(), Postorder, 4) == At([R, R])
  {
    var t := RightSpine();
    RightSpineLinks();
    RightSpinePostorder();
    RightSpineSteps();
    var f := fuel;
    assert Find(t, Postorder, 4, f) == SearchFrom(t, Postorder, At([L]), 4, f);
    assert SearchFrom(t, Postorder, At([L]), 4, f) == SearchFrom(t, Postorder, At([R]), 4, f - 1);
    assert SearchFrom(t, Postorder, At([R]), 4, f - 1) == SearchFrom(t, Postorder, At([]), 4, f - 2);
    assert SearchFrom(t, Postorder, At([]), 4, f - 2) == SearchFrom(t, Postorder, End, 4, f - 3);
    assert [2, 4, 3, 1][1..][0] == 4;
    assert FirstIndex([2, 4, 3, 1], 4) == 1;
  }

  // ---------------------------------------------------------------------------
  // Small trees decoded from token streams

  /** Root 1 with leaves 2 and 3. */
  function Small(): Tree<int> {
    Node(1, Leaf(2), Leaf(3))
  }

  lemma SmallEncodes()
    ensures Encode(Small(), 0) == [1, 2, 0, 0, 3, 0, 0]
    ensures Markerless(Small(), 0)
  {
    assert Encode(Leaf(2), 0) == [2, 0, 0];
    assert Encode(Leaf(3), 0) == [3, 0, 0];
    assert Traversal(Leaf(2), Preorder) == [2];
    assert Traversal(Leaf(3), Preorder) == [3];
    assert Traversal(Small(), Preorder) == [1] + [2] + [3];
  }

  lemma SmallLinks()
    ensures Sub(Small(), []) == Small()
    ensures Valid(Small(), []) && Valid(Small(), [L]) && Valid(Small(), [R])
    ensures !Valid(Small(), [L, L]) && !Valid(Small(), [L, R])
    ensures !Valid(Small(), [R, L]) && !Valid(Small(), [R, R])
  {
    var t := Small();
    assert Sub(t, []) == t;
    assert Sub(t, [L]) == Sub(Leaf(2), []);
    assert Sub(t, [R]) == Sub(Leaf(3), []);
    assert Sub(t, [L, L]) == Sub(Nil, []);
    assert Sub(t, [L, R]) == Sub(Nil, []);
    assert Sub(t, [R, L]) == Sub(Nil, []);
    assert Sub(t, [R, R]) == Sub(Nil, []);
  }

  /** The iterators of the three orders on the small tree, as written. */
  lemma SmallSteps()
    ensures Valid(Small(), []) && Valid(Small(), [L]) && Valid(Small(), [R])
    ensures Begin(Small(), Preorder) == At([])
    ensures PreNext(Small(), []) == At([L]) && PreNext(Small(), [L]) == At([R])
    ensures PreNext(Small(), [R]) == End
    ensures Begin(Small(), Inorder) == At([L])
    ensures InNext(Small(), [L]) == At([]) && InNext(Small(), []) == At([R])
    ensures InNext(Small(), [R]) == End
    ensures Begin(Small(), Postorder) == At([L])
    ensures PostNext(Small(), [L]) == At([R]) && PostNext(Small(), [R]) == At([])
    ensures PostNext(Small(), []) == End
  {
    var t := Small();
    SmallLinks();
    assert [] + [L] == [L] && [] + [R] == [R];
    assert [L] + [L] == [L, L] && [L] + [R] == [L, R];
    assert [R] + [L] == [R, L] && [R] + [R] == [R, R];
    assert Up([L]) == [] && Up([R]) == [] && Last([L]) == L && Last([R]) == R;
    assert Leftmost(t, [L]) == [L] && Leftmost(t, []) == [L];
    assert Leftmost(t, [R]) == [R];
    assert PostFirst(t, [L]) == [L] && PostFirst(t, []) == [L];
    assert ClimbRight([L]) == [L] && ClimbRight([R]) == [];
    assert PreAscend(t, []) == End;
    assert PreAscend(t, [R]) == End;
  }

  /** 1 2 # # 3 # # decodes to root 1 with leaves 2 and 3.  Its recursive
      traversals are 1 2 3, 2 1 3 and 2 3 1, and each iterator, from `begin`,
      visits the positions of its order one after the other and then reaches
      the null iterator. */
  lemma SmallFixture()
    ensures WellFormed([1, 2, 0, 0, 3, 0, 0], 0)
    ensures Decode([1, 2, 0, 0, 3, 0, 0], 0) == Small()
    ensures Traversal(Small(), Preorder) == [1, 2, 3]
    ensures Traversal(Small(), Inorder) == [2, 1, 3]
    ensures Traversal(Small(), Postorder) == [2, 3, 1]
    ensures Valid(Small(), []) && Valid(Small(), [L]) && Valid(Small(), [R])
    ensures Begin(Small(), Preorder) == At([])
    ensures PreNext(Small(), []) == At([L]) && PreNext(Small(), [L]) == At([R])
    ensures PreNext(Small(), [R]) == End
    ensures Begin(Small(), Inorder) == At([L])
    ensures InNext(Small(), [L]) == At([]) && InNext(Small(), []) == At([R])
    ensures InNext(Small(), [R]) == End
    ensures Begin(Small(), Postorder) == At([L])
    ensures PostNext(Small(), [L]) == At([R]) && PostNext(Small(), [R]) == At([])
    ensures PostNext(Small(), []) == End
  {
    SmallEncodes();
    DecodeEncode(Small(), 0);
    SmallTraversals();
    SmallSteps();
  }

  /** The small tree is walked as 1 2 3, 2 1 3 and 2 3 1. */
  lemma SmallTraversals()
    ensures Traversal(Small(), Preorder) == [1, 2, 3]
    ensures Traversal(Small(), Inorder) == [2, 1, 3]
    ensures Traversal(Small(), Postorder) == [2, 3, 1]
  {
    assert Traversal(Leaf(2), Inorder) == [2] && Traversal(Leaf(3), Inorder) == [3];
    assert Traversal(Leaf(2), Postorder) == [2] && Traversal(Leaf(3), Postorder) == [3];
    assert Traversal(Leaf(2), Preorder) == [2] && Traversal(Leaf(3), Preorder) == [3];
  }

  /** The left-skewed chain 1, 2, 3. */
  function Skewed(): Tree<int> {
    Node(1, Node(2, Leaf(3), Nil), Nil)
  }

  lemma SkewedEncodes()
    ensures Encode(Skewed(), 0) == [1, 2, 3, 0, 0, 0, 0]
    ensures Markerless(Skewed(), 0)
  {
    var t := Skewed();
    assert Encode(Leaf(3), 0) == [3, 0, 0];
    assert Encode(t.left, 0) == [2] + [3, 0, 0] + [0];
    assert Encode(t, 0) == [1] + [2, 3, 0, 0, 0] + [0];
    assert Traversal(Leaf(3), Preorder) == [3];
    assert Traversal(t.left, Preorder) == [2] + [3] + [];
    assert Traversal(t, Preorder) == [1] + [2, 3] + [];
  }

  /** The chain decodes from 1 2 3 # # # #. */
  lemma SkewedDecodes()
    ensures WellFormed([1, 2, 3, 0, 0, 0, 0], 0)
    ensures Decode([1, 2, 3, 0, 0, 0, 0], 0) == Skewed()
  {
    SkewedEncodes();
    DecodeEncode(Skewed(), 0);
  }

  /** The chain has depth 3. */
  lemma SkewedDepth()
    ensures TreeDepth(Skewed()) == 3
  {
    assert Depth(Leaf(3)) == 1;
    assert Depth(Skewed().left) == 2;
  }

  /** The chain is walked as 3 2 1 both in inorder and in postorder. */
  lemma SkewedTraversals()
    ensures Traversal(Skewed(), Inorder) == [3, 2, 1]
    ensures Traversal(Skewed(), Postorder) == [3, 2, 1]
  {
    var t := Skewed();
    assert Traversal(Leaf(3), Inorder) == [3] && Traversal(Leaf(3), Postorder) == [3];
    assert Traversal(t.left, Inorder) == [3] + [2] + [];
    assert Traversal(t.left, Postorder) == [3] + [] + [2];
    assert Traversal(t, Inorder) == [3, 2] + [1] + [];
    assert Traversal(t, Postorder) == [3, 2] + [] + [1];
  }

  /** The chain's root has no right child, so the inorder walk as written
      reaches the root and stays there. */
  lemma SkewedInorderStalls()
    ensures InNext(Skewed(), []) == At([])
  {
    var t := Skewed();
    assert Sub(t, []) == t;
    assert [] + [R] == [R];
    assert Sub(t, [R]) == Sub(Nil, []);
    InNextQuirk(t, []);
  }
}
