/** The three `increment` algorithms of the iterator family.  Each walks from
    the current node using only its parent, left and right links.  PreNext,
    InNext and PostNext are the code as written; InNextFixed and PostNextFixed
    are the rules the traversal orders call for (see README, Findings). */
module Successors {
  import opened Trees
  import opened Paths

  // ---------------------------------------------------------------------------
  // Preorder

  /** The ascent loop of the preorder increment: climb until the current node
      is a left child whose parent has a right child, and step to that right
      child; falling off the root gives the null iterator. */
  function PreAscend<T>(t: Tree<T>, p: Path): (c: Cursor)
    requires Valid(t, p)
    ensures c.At? ==> Valid(t, c.path) && 0 < |c.path| <= |p| && Last(c.path) == R
    decreases |p|
  {
    if |p| == 0 then End
    else
      ValidUp(t, p);
      if Last(p) == L && Valid(t, Up(p) + [R]) then At(Up(p) + [R])
      else PreAscend(t, Up(p))
  }

  /** Preorder increment: the left child, else the right child, else the
      ascent. */
  function PreNext<T>(t: Tree<T>, p: Path): (c: Cursor)
    requires Valid(t, p)
    ensures c.At? ==> Valid(t, c.path)
  {
    if Valid(t, p + [L]) then At(p + [L])
    else if Valid(t, p + [R]) then At(p + [R])
    else PreAscend(t, p)
  }

  // ---------------------------------------------------------------------------
  // Inorder

  /** Climbs while the current node is the right child of its parent. */
  function ClimbRight(p: Path): (top: Path)
    ensures |top| <= |p| && top == p[..|top|]
    ensures |top| > 0 ==> Last(top) == L
    ensures forall k | |top| <= k < |p| :: p[k] == R
    decreases |p|
  {
    if |p| == 0 || Last(p) == L then p else ClimbRight(Up(p))
  }

  /** Inorder increment as written: after the climb, the parent of the node
      reached is taken unless the right link of that node equals it; both are
      null exactly when the climb ends at a root without a right child, and
      then the iterator stays where it is. */
  function InNext<T>(t: Tree<T>, p: Path): (c: Cursor)
    requires Valid(t, p)
    ensures c.At? ==> Valid(t, c.path)
  {
    if Valid(t, p + [R]) then At(Leftmost(t, p + [R]))
    else
      var top := ClimbRight(p);
      assert top + p[|top|..] == p;
      ValidPrefix(t, top, p[|top|..]);
      var tnode := if |top| == 0 then End else At(Up(top));
      if |top| > 0 then ValidUp(t, top); (if Link(t, top + [R]) != tnode then tnode else At(top))
      else (if Link(t, top + [R]) != tnode then tnode else At(top))
  }

  /** The inorder successor rule: the leftmost node of the right subtree, else
      the nearest ancestor holding the node in its left subtree, else none. */
  function InNextFixed<T>(t: Tree<T>, p: Path): (c: Cursor)
    requires Valid(t, p)
    ensures c.At? ==> Valid(t, c.path)
  {
    if Valid(t, p + [R]) then At(Leftmost(t, p + [R]))
    else
      var top := ClimbRight(p);
      assert top + p[|top|..] == p;
      ValidPrefix(t, top, p[|top|..]);
      if |top| == 0 then End else ValidUp(t, top); At(Up(top))
  }

  // ---------------------------------------------------------------------------
  // Postorder

  /** Postorder increment as written: a left child whose parent has a right
      child moves into that right subtree following left links only;
      otherwise the parent; the root gives the null iterator. */
  function PostNext<T>(t: Tree<T>, p: Path): (c: Cursor)
    requires Valid(t, p)
    ensures c.At? ==> Valid(t, c.path)
  {
    if |p| == 0 then End
    else
      ValidUp(t, p);
      if Last(p) == L && Valid(t, Up(p) + [R]) then At(Leftmost(t, Up(p) + [R]))
      else At(Up(p))
  }

  /** The postorder successor rule: entering the right sibling subtree uses the
      same descent as the "first node" rule (left if possible, else right). */
  function PostNextFixed<T>(t: Tree<T>, p: Path): (c: Cursor)
    requires Valid(t, p)
    ensures c.At? ==> Valid(t, c.path)
  {
    if |p| == 0 then End
    else
      ValidUp(t, p);
      if Last(p) == L && Valid(t, Up(p) + [R]) then At(PostFirst(t, Up(p) + [R]))
      else At(Up(p))
  }

  // ---------------------------------------------------------------------------
  // How each successor of a node inside a subtree relates to the successor
  // computed within that subtree alone.

  lemma ValidCons<T>(t: Tree<T>, d: Dir, q: Path)
    ensures Valid(t, [d] + q) <==> Valid(Child(t, d), q)
    ensures Valid(t, [d] + q + [L]) <==> Valid(Child(t, d), q + [L])
    ensures Valid(t, [d] + q + [R]) <==> Valid(Child(t, d), q + [R])
  {
    SubCons(t, d, q);
    assert [d] + q + [L] == [d] + (q + [L]);
    assert [d] + q + [R] == [d] + (q + [R]);
    SubCons(t, d, q + [L]);
    SubCons(t, d, q + [R]);
  }

  lemma {:induction false} PreAscendCons<T>(t: Tree<T>, d: Dir, q: Path)
    requires t.Node? && Valid(Child(t, d), q)
    ensures Valid(t, [d] + q)
    ensures PreAscend(t, [d] + q) ==
              if PreAscend(Child(t, d), q).At? then LiftCursor(d, PreAscend(Child(t, d), q))
              else if d == L && t.right.Node? then At([R])
              else End
    decreases |q|
  {
    ValidCons(t, d, q);
    if |q| == 0 {
      assert [d] + q == [d];
      assert Up([d]) == [] && Last([d]) == d && Up([d]) + [R] == [R];
      RootSteps(t);
      assert PreAscend(Child(t, d), q) == End;
      assert PreAscend(t, [d]) == if d == L && Valid(t, [R]) then At([R]) else PreAscend(t, []);
    } else {
      UpCons(d, q);
      ValidUp(Child(t, d), q);
      ValidCons(t, d, Up(q));
      assert [d] + Up(q) + [R] == [d] + (Up(q) + [R]);
      PreAscendCons(t, d, Up(q));
    }
  }

  /** The preorder successor of a node in child subtree `d` is its successor
      within that subtree, lifted; when the subtree is exhausted it is the
      right child of the root if the walk was in the left subtree, else the
      null iterator. */
  lemma {:induction false} PreNextCons<T>(t: Tree<T>, d: Dir, q: Path)
    requires t.Node? && Valid(Child(t, d), q)
    ensures Valid(t, [d] + q)
    ensures PreNext(t, [d] + q) ==
              if PreNext(Child(t, d), q).At? then LiftCursor(d, PreNext(Child(t, d), q))
              else if d == L && t.right.Node? then At([R])
              else End
  {
    ValidCons(t, d, q);
    assert [d] + q + [L] == [d] + (q + [L]);
    assert [d] + q + [R] == [d] + (q + [R]);
    if !Valid(Child(t, d), q + [L]) && !Valid(Child(t, d), q + [R]) {
      PreAscendCons(t, d, q);
    }
  }

  lemma {:induction false} ClimbRightCons(d: Dir, q: Path)
    ensures ClimbRight([d] + q) ==
              if |ClimbRight(q)| == 0 && d == R then [] else [d] + ClimbRight(q)
    decreases |q|
  {
    if |q| == 0 {
      assert [d] + q == [d];
      assert Up([d]) == [];
    } else {
      UpCons(d, q);
      ClimbRightCons(d, Up(q));
    }
  }

  lemma {:induction false} InNextFixedCons<T>(t: Tree<T>, d: Dir, q: Path)
    requires t.Node? && Valid(Child(t, d), q)
    ensures Valid(t, [d] + q)
    ensures InNextFixed(t, [d] + q) ==
              if InNextFixed(Child(t, d), q).At? then LiftCursor(d, InNextFixed(Child(t, d), q))
              else if d == L then At([])
              else End
  {
    ValidCons(t, d, q);
    assert [d] + q + [R] == [d] + (q + [R]);
    if Valid(Child(t, d), q + [R]) {
      LeftmostCons(t, d, q + [R]);
    } else {
      ClimbRightCons(d, q);
      var top := ClimbRight(q);
      if |top| == 0 {
        assert ClimbRight([d] + q) == (if d == R then [] else [d]);
        if d == L {
          assert Up([L]) == [];
        }
      } else {
        UpCons(d, top);
      }
    }
  }

  lemma {:induction false} PostNextFixedCons<T>(t: Tree<T>, d: Dir, q: Path)
    requires t.Node? && Valid(Child(t, d), q)
    ensures Valid(t, [d] + q)
    ensures PostNextFixed(t, [d] + q) ==
              if PostNextFixed(Child(t, d), q).At? then LiftCursor(d, PostNextFixed(Child(t, d), q))
              else if d == L && t.right.Node? then At([R] + PostFirst(t.right, []))
              else At([])
  {
    ValidCons(t, d, q);
    if |q| == 0 {
      assert [d] + q == [d];
      assert Up([d]) == [] && Last([d]) == d;
      assert Up([d]) + [R] == [R];
      SubCons(t, R, []);
      assert [R] + [] == [R];
      assert Sub(t.right, []) == t.right;
      if d == L && t.right.Node? {
        PostFirstCons(t, R, []);
      }
    } else {
      UpCons(d, q);
      ValidUp(Child(t, d), q);
      ValidCons(t, d, Up(q));
      assert [d] + Up(q) + [R] == [d] + (Up(q) + [R]);
      if Last(q) == L && Valid(Child(t, d), Up(q) + [R]) {
        PostFirstCons(t, d, Up(q) + [R]);
      }
    }
  }

  // ---------------------------------------------------------------------------
  // The code as written against the successor rules

  /** The inorder increment agrees with the successor rule everywhere except
      at a root without a right child, which it maps to itself. */
  lemma {:induction false} InNextQuirk<T>(t: Tree<T>, p: Path)
    requires Valid(t, p)
    ensures InNext(t, p) == if p == [] && !Valid(t, [R]) then At([]) else InNextFixed(t, p)
  {
    if !Valid(t, p + [R]) {
      var top := ClimbRight(p);
      if |top| == 0 && !Valid(t, [R]) && p != [] {
        assert p[0] == R;
        assert p == [R] + p[1..];
        ValidPrefix(t, [R], p[1..]);
      }
      if |top| == 0 {
        assert top + [R] == [R];
      }
    } else if p == [] {
      assert p + [R] == [R];
    }
  }

  /** The postorder increment agrees with the successor rule exactly where it
      does not enter a right sibling subtree, or where its left-only descent
      into that subtree stops at a leaf. */
  lemma {:induction false} PostNextAgreement<T>(t: Tree<T>, p: Path)
    requires Valid(t, p)
    ensures PostNext(t, p) == PostNextFixed(t, p) <==>
              (|p| == 0 || Last(p) == R || !Valid(t, Up(p) + [R]) ||
               !Valid(t, Leftmost(t, Up(p) + [R]) + [R]))
  {
    if |p| > 0 && Last(p) == L && Valid(t, Up(p) + [R]) {
      LeftmostIsPostFirstIffLeaf(t, Up(p) + [R]);
    }
  }
}
