/** Iteration from `begin` to `end`: the first-node rule of each order and the
    walk its increment produces, compared with the recursive traversals. */
module Walks {
  import opened Trees
  import opened Paths
  import opened Successors

  /** The position after index `i` of a traversal list, or the null iterator. */
  function NextIn(ps: seq<Path>, i: nat): Cursor {
    if i + 1 < |ps| then At(ps[i + 1]) else End
  }

  /** `begin` for each order: the root, the leftmost node, or the node reached
      by descending left-else-right to a leaf.  An empty tree gives the null
      iterator. */
  function Begin<T>(t: Tree<T>, o: Order): (c: Cursor)
    ensures t.Nil? ==> c == End
    ensures t.Node? ==> c == At(Positions(t, o)[0])
  {
    if t.Nil? then End
    else
      assert Sub(t, []) == t;
      FirstPositions(t);
      match o
      case Preorder => At([])
      case Inorder => At(Leftmost(t, []))
      case Postorder => At(PostFirst(t, []))
  }

  /** `end` for each order is the null iterator. */
  function EndOf(o: Order): Cursor {
    End
  }

  /** The increment of the iterator for order `o`, as written. */
  function Next<T>(t: Tree<T>, o: Order, p: Path): (c: Cursor)
    requires Valid(t, p)
    ensures c.At? ==> Valid(t, c.path)
  {
    match o
    case Preorder => PreNext(t, p)
    case Inorder => InNext(t, p)
    case Postorder => PostNext(t, p)
  }

  /** The preorder walk from the root visits the positions of the recursive
      preorder one after the other and then reaches the null iterator. */
  lemma {:induction false} PreorderWalk<T>(t: Tree<T>)
    ensures PreorderWalks(t)
  {
    match t
    case Nil =>
    case Node(v, l, r) =>
      PreorderWalk(l);
      PreorderWalk(r);
      assert PreorderWalks(l) && PreorderWalks(r);
      forall i | 0 <= i < |Positions(t, Preorder)|
        ensures PreNext(t, Positions(t, Preorder)[i]) == NextIn(Positions(t, Preorder), i)
      {
        PreorderStep(t, i);
      }
  }

  predicate PreorderWalks<T>(t: Tree<T>) {
    forall k | 0 <= k < |Positions(t, Preorder)| ::
      PreNext(t, Positions(t, Preorder)[k]) == NextIn(Positions(t, Preorder), k)
  }

  /** One step of the preorder walk, given the walks of both subtrees. */
  lemma PreorderStep<T>(t: Tree<T>, i: nat)
    requires t.Node? && i < |Positions(t, Preorder)|
    requires PreorderWalks(t.left) && PreorderWalks(t.right)
    ensures PreNext(t, Positions(t, Preorder)[i]) == NextIn(Positions(t, Preorder), i)
  {
    var a := Positions(t.left, Preorder);
    if i == 0 {
      PreorderRootStep(t);
    } else if i <= |a| {
      PreorderLeftStep(t, i);
    } else {
      PreorderRightStep(t, i);
    }
  }

  lemma PreorderRootStep<T>(t: Tree<T>)
    requires t.Node?
    ensures PreNext(t, Positions(t, Preorder)[0]) == NextIn(Positions(t, Preorder), 0)
  {
    var l, r := t.left, t.right;
    var a, b := Positions(l, Preorder), Positions(r, Preorder);
    PreorderIndex(t, 0);
    RootSteps(t);
    if l.Node? {
      FirstPositions(l);
      PreorderIndex(t, 1);
    } else if r.Node? {
      FirstPositions(r);
      PreorderIndex(t, 1);
    }
  }

  lemma PreorderIndex<T>(t: Tree<T>, i: nat)
    requires t.Node? && i < |Positions(t, Preorder)|
    ensures |Positions(t, Preorder)| == 1 + |Positions(t.left, Preorder)| + |Positions(t.right, Preorder)|
    ensures i == 0 ==> Positions(t, Preorder)[i] == []
    ensures 1 <= i <= |Positions(t.left, Preorder)| ==>
              Positions(t, Preorder)[i] == [L] + Positions(t.left, Preorder)[i - 1]
    ensures |Positions(t.left, Preorder)| < i ==>
              Positions(t, Preorder)[i] == [R] + Positions(t.right, Preorder)[i - 1 - |Positions(t.left, Preorder)|]
  {
    var a, b := Positions(t.left, Preorder), Positions(t.right, Preorder);
    var la, lb := Lift(L, a), Lift(R, b);
    var root: seq<Path> := [[]];
    assert Positions(t, Preorder) == root + la + lb;
    ConcatIndex(root, la, lb, i);
  }

  lemma PreorderLeftStep<T>(t: Tree<T>, i: nat)
    requires t.Node? && 1 <= i <= |Positions(t.left, Preorder)|
    requires PreorderWalks(t.left)
    ensures i < |Positions(t, Preorder)|
    ensures PreNext(t, Positions(t, Preorder)[i]) == NextIn(Positions(t, Preorder), i)
  {
    var l, r := t.left, t.right;
    var a, b := Positions(l, Preorder), Positions(r, Preorder);
    var ps := Positions(t, Preorder);
    PreorderIndex(t, i);
    var q := a[i - 1];
    PreNextCons(t, L, q);
    var inner := PreNext(l, q);
    assert inner == NextIn(a, i - 1);
    if i < |a| {
      PreorderIndex(t, i + 1);
      assert inner == At(a[i]);
      assert ps[i + 1] == [L] + a[i];
    } else {
      assert inner == End;
      if r.Node? {
        PreorderIndex(t, i + 1);
        FirstPositions(r);
        RootSteps(t);
        assert ps[i + 1] == [R] + b[0];
      }
    }
  }

  lemma PreorderRightStep<T>(t: Tree<T>, i: nat)
    requires t.Node? && |Positions(t.left, Preorder)| < i < |Positions(t, Preorder)|
    requires PreorderWalks(t.right)
    ensures PreNext(t, Positions(t, Preorder)[i]) == NextIn(Positions(t, Preorder), i)
  {
    var l, r := t.left, t.right;
    var a, b := Positions(l, Preorder), Positions(r, Preorder);
    var ps := Positions(t, Preorder);
    PreorderIndex(t, i);
    var j := i - 1 - |a|;
    var q := b[j];
    assert ps[i] == [R] + q;
    PreNextCons(t, R, q);
    var inner := PreNext(r, q);
    assert inner == NextIn(b, j);
    if j + 1 < |b| {
      PreorderIndex(t, i + 1);
      assert inner == At(b[j + 1]);
      assert PreNext(t, ps[i]) == At([R] + b[j + 1]);
    } else {
      assert inner == End;
      assert PreNext(t, ps[i]) == End;
    }
  }

  /** Under the inorder successor rule the walk from the leftmost node visits
      the positions of the recursive inorder and then ends. */
  lemma {:induction false} InorderFixedWalk<T>(t: Tree<T>)
    ensures forall i | 0 <= i < |Positions(t, Inorder)| ::
              InNextFixed(t, Positions(t, Inorder)[i]) == NextIn(Positions(t, Inorder), i)
  {
    match t
    case Nil =>
    case Node(v, l, r) =>
      var a, b := Positions(l, Inorder), Positions(r, Inorder);
      var ps := Positions(t, Inorder);
      assert ps == Lift(L, a) + [[]] + Lift(R, b);
      InorderFixedWalk(l);
      InorderFixedWalk(r);
      RootSteps(t);
      forall i | 0 <= i < |ps|
        ensures InNextFixed(t, ps[i]) == NextIn(ps, i)
      {
        if i < |a| {
          var q := a[i];
          assert ps[i] == [L] + q;
          InNextFixedCons(t, L, q);
          if i + 1 < |a| {
            assert ps[i + 1] == [L] + a[i + 1];
          }
        } else if i == |a| {
          assert ps[i] == [];
          if r.Node? {
            FirstPositions(r);
            LeftmostCons(t, R, []);
            assert ps[i + 1] == [R] + b[0];
          }
        } else {
          var j := i - 1 - |a|;
          var q := b[j];
          assert ps[i] == [R] + q;
          InNextFixedCons(t, R, q);
          if j + 1 < |b| {
            assert ps[i + 1] == [R] + b[j + 1];
          }
        }
      }
  }

  /** Where the inorder increment as written leads from the `i`-th node of
      the recursive inorder: to the next one, and from the last one to the
      null iterator -- unless the root has no right child, in which case the
      last node is the root and the increment leaves it where it is. */
  function InorderAsWritten<T>(t: Tree<T>, i: nat): Cursor
    requires i < |Positions(t, Inorder)|
  {
    var ps := Positions(t, Inorder);
    if i + 1 < |ps| then At(ps[i + 1])
    else if t.Node? && t.right.Nil? then At(ps[i])
    else End
  }

  /** The inorder walk as written follows the recursive inorder, but at its
      last node -- the root, when the root has no right child -- it stays put
      instead of reaching the null iterator. */
  lemma {:induction false} InorderWalk<T>(t: Tree<T>)
    ensures forall i | 0 <= i < |Positions(t, Inorder)| ::
              InNext(t, Positions(t, Inorder)[i]) == InorderAsWritten(t, i)
    ensures t.Node? && t.right.Nil? ==> Positions(t, Inorder)[Count(t) - 1] == []
  {
    InorderFixedWalk(t);
    if t.Node? {
      var a, b := Positions(t.left, Inorder), Positions(t.right, Inorder);
      var ps := Positions(t, Inorder);
      assert ps == Lift(L, a) + [[]] + Lift(R, b);
      forall i | 0 <= i < |ps|
        ensures InNext(t, ps[i]) == InorderAsWritten(t, i)
      {
        InorderStep(t, i);
      }
      if t.right.Nil? {
        assert |b| == 0;
        assert ps[|a|] == [];
      }
    }
  }

  lemma InorderStep<T>(t: Tree<T>, i: nat)
    requires t.Node? && i < |Positions(t, Inorder)|
    requires InNextFixed(t, Positions(t, Inorder)[i]) == NextIn(Positions(t, Inorder), i)
    ensures InNext(t, Positions(t, Inorder)[i]) == InorderAsWritten(t, i)
  {
    var a, b := Positions(t.left, Inorder), Positions(t.right, Inorder);
    var ps := Positions(t, Inorder);
    assert ps == Lift(L, a) + [[]] + Lift(R, b);
    RootSteps(t);
    InNextQuirk(t, ps[i]);
    if i < |a| {
      assert ps[i] == [L] + a[i];
    } else if i > |a| {
      assert ps[i] == [R] + b[i - |a| - 1];
    } else {
      assert ps[i] == [];
      assert t.right.Nil? ==> |b| == 0;
    }
  }

  /** Under the postorder successor rule the walk from the first postorder
      node visits the positions of the recursive postorder and then ends. */
  lemma {:induction false} PostorderFixedWalk<T>(t: Tree<T>)
    ensures forall i | 0 <= i < |Positions(t, Postorder)| ::
              PostNextFixed(t, Positions(t, Postorder)[i]) == NextIn(Positions(t, Postorder), i)
  {
    match t
    case Nil =>
    case Node(v, l, r) =>
      var a, b := Positions(l, Postorder), Positions(r, Postorder);
      var ps := Positions(t, Postorder);
      assert ps == Lift(L, a) + Lift(R, b) + [[]];
      PostorderFixedWalk(l);
      PostorderFixedWalk(r);
      RootSteps(t);
      forall i | 0 <= i < |ps|
        ensures PostNextFixed(t, ps[i]) == NextIn(ps, i)
      {
        if i < |a| {
          var q := a[i];
          assert ps[i] == [L] + q;
          PostNextFixedCons(t, L, q);
          if i + 1 < |a| {
            assert ps[i + 1] == [L] + a[i + 1];
          } else if r.Node? {
            FirstPositions(r);
            assert ps[i + 1] == [R] + b[0];
          }
        } else if i < |a| + |b| {
          var j := i - |a|;
          var q := b[j];
          assert ps[i] == [R] + q;
          PostNextFixedCons(t, R, q);
          if j + 1 < |b| {
            assert ps[i + 1] == [R] + b[j + 1];
          }
        }
      }
  }

  /** At `p`, the postorder increment either does not enter a right sibling
      subtree, or its left-only descent into that subtree stops at a leaf. */
  predicate DescentStopsAtLeaf<T>(t: Tree<T>, p: Path)
    requires Valid(t, p)
  {
    |p| == 0 || Last(p) == R || !Valid(t, Up(p) + [R]) || !Valid(t, Leftmost(t, Up(p) + [R]) + [R])
  }

  /** Every sibling descent of the postorder walk stops at a leaf: the shape
      on which the postorder increment as written is correct. */
  predicate SiblingDescentsEndAtLeaves<T>(t: Tree<T>) {
    forall i | 0 <= i < |Positions(t, Postorder)| :: DescentStopsAtLeaf(t, Positions(t, Postorder)[i])
  }

  /** The postorder walk as written takes the step of the recursive postorder
      at exactly those nodes whose sibling descent stops at a leaf; so it
      follows the recursive postorder exactly on the trees where all do. */
  lemma {:induction false} PostorderWalk<T>(t: Tree<T>)
    ensures forall i | 0 <= i < |Positions(t, Postorder)| ::
              PostNext(t, Positions(t, Postorder)[i]) == NextIn(Positions(t, Postorder), i) <==>
                DescentStopsAtLeaf(t, Positions(t, Postorder)[i])
    ensures SiblingDescentsEndAtLeaves(t) <==>
              forall i | 0 <= i < |Positions(t, Postorder)| ::
                PostNext(t, Positions(t, Postorder)[i]) == NextIn(Positions(t, Postorder), i)
  {
    PostorderFixedWalk(t);
    var ps := Positions(t, Postorder);
    forall i | 0 <= i < |ps|
      ensures PostNext(t, ps[i]) == NextIn(ps, i) <==> DescentStopsAtLeaf(t, ps[i])
    {
      PostNextAgreement(t, ps[i]);
    }
  }
}
