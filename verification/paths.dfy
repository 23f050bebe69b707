/** Positions in a tree.  A node is identified by the sequence of child links
    followed from the root to reach it, so the parent link of a node is its
    path without the last step and "is the left child of its parent" is "the
    last step is L".  Two iterators over the same node hold the same path, so
    pointer equality of nodes is equality of paths. */
module Paths {
  import opened Trees

  datatype Dir = L | R

  type Path = seq<Dir>

  /** An iterator position: `End` is the null iterator. */
  datatype Cursor = End | At(path: Path)

  function Child<T>(t: Tree<T>, d: Dir): Tree<T> {
    match t
    case Nil => Nil
    case Node(_, l, r) => if d == L then l else r
  }

  /** The subtree reached by following `p` from `t`; `Nil` once a null link is met. */
  function Sub<T>(t: Tree<T>, p: Path): Tree<T>
    decreases |p|
  {
    if |p| == 0 then t else Sub(Child(t, p[0]), p[1..])
  }

  /** `p` leads to a node of `t`. */
  predicate Valid<T>(t: Tree<T>, p: Path) {
    Sub(t, p).Node?
  }

  /** The raw link stored at position `p`, read as an iterator. */
  function Link<T>(t: Tree<T>, p: Path): Cursor {
    if Valid(t, p) then At(p) else End
  }

  function Up(p: Path): Path
    requires |p| > 0
  {
    p[..|p| - 1]
  }

  function Last(p: Path): Dir
    requires |p| > 0
  {
    p[|p| - 1]
  }

  /** Replaces the subtree at `p` by `x`; a path that leaves the tree through
      a null link before its last step changes nothing. */
  function Graft<T>(t: Tree<T>, p: Path, x: Tree<T>): Tree<T>
    decreases |p|
  {
    if |p| == 0 then x
    else match t
      case Nil => Nil
      case Node(v, l, r) =>
        if p[0] == L then Node(v, Graft(l, p[1..], x), r) else Node(v, l, Graft(r, p[1..], x))
  }

  // ---------------------------------------------------------------------------
  // Algebra of paths

  lemma SubNil<T>(p: Path)
    ensures Sub<T>(Nil, p) == Nil
    decreases |p|
  {
    if |p| > 0 {
      SubNil<T>(p[1..]);
    }
  }

  lemma {:induction false} SubAppend<T>(t: Tree<T>, p: Path, q: Path)
    ensures Sub(t, p + q) == Sub(Sub(t, p), q)
    decreases |p|
  {
    if |p| == 0 {
      assert p + q == q;
    } else {
      assert (p + q)[0] == p[0];
      assert (p + q)[1..] == p[1..] + q;
      SubAppend(Child(t, p[0]), p[1..], q);
    }
  }

  lemma SubSnoc<T>(t: Tree<T>, p: Path, d: Dir)
    ensures Sub(t, p + [d]) == Child(Sub(t, p), d)
  {
    SubAppend(t, p, [d]);
    assert [d][1..] == [];
  }

  lemma SubCons<T>(t: Tree<T>, d: Dir, q: Path)
    ensures Sub(t, [d] + q) == Sub(Child(t, d), q)
  {
    assert ([d] + q)[0] == d;
    assert ([d] + q)[1..] == q;
  }

  /** Every prefix of the path of a node leads to a node: its ancestors. */
  lemma ValidPrefix<T>(t: Tree<T>, p: Path, q: Path)
    requires Valid(t, p + q)
    ensures Valid(t, p)
  {
    SubAppend(t, p, q);
    if Sub(t, p) == Nil {
      SubNil<T>(q);
    }
  }

  lemma ValidUp<T>(t: Tree<T>, p: Path)
    requires |p| > 0 && Valid(t, p)
    ensures Valid(t, Up(p))
  {
    assert p == Up(p) + [Last(p)];
    ValidPrefix(t, Up(p), [Last(p)]);
  }

  lemma UpCons(d: Dir, q: Path)
    requires |q| > 0
    ensures Up([d] + q) == [d] + Up(q) && Last([d] + q) == Last(q)
  {
  }

  /** Grafting at `p` and then below it is one graft at `p`. */
  lemma {:induction false} GraftGraft<T>(t: Tree<T>, p: Path, y: Tree<T>, q: Path, x: Tree<T>)
    ensures Graft(Graft(t, p, y), p + q, x) == Graft(t, p, Graft(y, q, x))
    decreases |p|
  {
    if |p| == 0 {
      assert p + q == q;
    } else {
      assert (p + q)[0] == p[0];
      assert (p + q)[1..] == p[1..] + q;
      match t
      case Nil =>
      case Node(v, l, r) =>
        if p[0] == L {
          GraftGraft(l, p[1..], y, q, x);
        } else {
          GraftGraft(r, p[1..], y, q, x);
        }
    }
  }

  /** Grafting into child slot `d` of the node at `q` changes exactly that
      child of that node. */
  lemma {:induction false} SubGraftSlot<T>(t: Tree<T>, q: Path, d: Dir, x: Tree<T>)
    requires Valid(t, q)
    ensures Sub(Graft(t, q + [d], x), q) == Graft(Sub(t, q), [d], x)
    decreases |q|
  {
    if |q| == 0 {
      assert q + [d] == [d];
    } else {
      assert (q + [d])[0] == q[0];
      assert (q + [d])[1..] == q[1..] + [d];
      if t.Nil? {
        SubNil<T>(q);
        assert false;
      }
      SubGraftSlot(Child(t, q[0]), q[1..], d, x);
    }
  }

  // ---------------------------------------------------------------------------
  // Iterator navigation (the `_Iterator` base class)

  /** The iterator refers to a node of `t` (it is not the null iterator). */
  predicate OnNode<T>(t: Tree<T>, c: Cursor) {
    c.At? && Valid(t, c.path)
  }

  function ParentLink(c: Cursor): Cursor
    requires c.At?
  {
    if |c.path| == 0 then End else At(Up(c.path))
  }

  function ChildLink<T>(t: Tree<T>, c: Cursor, d: Dir): Cursor
    requires c.At?
  {
    Link(t, c.path + [d])
  }

  function LeftLink<T>(t: Tree<T>, c: Cursor): Cursor
    requires c.At?
  {
    ChildLink(t, c, L)
  }

  function RightLink<T>(t: Tree<T>, c: Cursor): Cursor
    requires c.At?
  {
    ChildLink(t, c, R)
  }

  function Value<T>(t: Tree<T>, c: Cursor): T
    requires OnNode(t, c)
  {
    Sub(t, c.path).value
  }

  /** The parent and child links agree: a child's parent is the node it hangs
      from, the root has no parent, and every other node hangs from its
      parent on the side its last step names. */
  lemma {:induction false} LinksConsistent<T>(t: Tree<T>, c: Cursor, d: Dir)
    requires OnNode(t, c)
    ensures ChildLink(t, c, d) != End ==> ParentLink(ChildLink(t, c, d)) == c
    ensures ParentLink(c) == End <==> c.path == []
    ensures ParentLink(c) != End ==>
              OnNode(t, ParentLink(c)) && ChildLink(t, ParentLink(c), Last(c.path)) == c
  {
    SubSnoc(t, c.path, d);
    if |c.path| > 0 {
      ValidUp(t, c.path);
      assert Up(c.path) + [Last(c.path)] == c.path;
    }
  }

  // ---------------------------------------------------------------------------
  // Descents used by the "first node" rules

  /** Follows left links from `p` while there is a left child. */
  function Leftmost<T>(t: Tree<T>, p: Path): (r: Path)
    requires Valid(t, p)
    ensures Valid(t, r) && !Valid(t, r + [L])
    ensures |p| <= |r| && r[..|p|] == p
    ensures forall k | |p| <= k < |r| :: r[k] == L
    decreases Sub(t, p)
  {
    SubSnoc(t, p, L);
    if Valid(t, p + [L]) then Leftmost(t, p + [L]) else p
  }

  /** Descends from `p` preferring the left child, else the right child, until
      a node with no children. */
  function PostFirst<T>(t: Tree<T>, p: Path): (r: Path)
    requires Valid(t, p)
    ensures Valid(t, r) && !Valid(t, r + [L]) && !Valid(t, r + [R])
    ensures |p| <= |r| && r[..|p|] == p
    decreases Sub(t, p)
  {
    SubSnoc(t, p, L);
    SubSnoc(t, p, R);
    if Valid(t, p + [L]) then PostFirst(t, p + [L])
    else if Valid(t, p + [R]) then PostFirst(t, p + [R])
    else p
  }

  lemma {:induction false} LeftmostCons<T>(t: Tree<T>, d: Dir, q: Path)
    requires Valid(Child(t, d), q)
    ensures Valid(t, [d] + q)
    ensures Leftmost(t, [d] + q) == [d] + Leftmost(Child(t, d), q)
    decreases Sub(Child(t, d), q)
  {
    SubCons(t, d, q);
    SubCons(t, d, q + [L]);
    assert [d] + q + [L] == [d] + (q + [L]);
    if Valid(Child(t, d), q + [L]) {
      SubSnoc(Child(t, d), q, L);
      LeftmostCons(t, d, q + [L]);
    }
  }

  lemma {:induction false} PostFirstCons<T>(t: Tree<T>, d: Dir, q: Path)
    requires Valid(Child(t, d), q)
    ensures Valid(t, [d] + q)
    ensures PostFirst(t, [d] + q) == [d] + PostFirst(Child(t, d), q)
    decreases Sub(Child(t, d), q)
  {
    SubCons(t, d, q);
    SubCons(t, d, q + [L]);
    SubCons(t, d, q + [R]);
    assert [d] + q + [L] == [d] + (q + [L]);
    assert [d] + q + [R] == [d] + (q + [R]);
    SubSnoc(Child(t, d), q, L);
    SubSnoc(Child(t, d), q, R);
    if Valid(Child(t, d), q + [L]) {
      PostFirstCons(t, d, q + [L]);
    } else if Valid(Child(t, d), q + [R]) {
      PostFirstCons(t, d, q + [R]);
    }
  }

  /** The left-only descent reaches the postorder-first node exactly when it
      stops at a leaf. */
  lemma {:induction false} LeftmostIsPostFirstIffLeaf<T>(t: Tree<T>, p: Path)
    requires Valid(t, p)
    ensures Leftmost(t, p) == PostFirst(t, p) <==> !Valid(t, Leftmost(t, p) + [R])
    decreases Sub(t, p)
  {
    SubSnoc(t, p, L);
    if Valid(t, p + [L]) {
      LeftmostIsPostFirstIffLeaf(t, p + [L]);
    } else if Valid(t, p + [R]) {
      var f := PostFirst(t, p + [R]);
      assert |f| > |p|;
    }
  }

  // ---------------------------------------------------------------------------
  // The recursive traversals, as lists of node positions

  /** Prefixes every position with the step into child `d`. */
  function Lift(d: Dir, ps: seq<Path>): (r: seq<Path>)
    ensures |r| == |ps|
    ensures forall i | 0 <= i < |ps| :: r[i] == [d] + ps[i]
  {
    seq(|ps|, i requires 0 <= i < |ps| => [d] + ps[i])
  }

  function LiftCursor(d: Dir, c: Cursor): Cursor {
    match c
    case End => End
    case At(p) => At([d] + p)
  }

  lemma LiftValid<T>(t: Tree<T>, d: Dir, ps: seq<Path>)
    requires forall i | 0 <= i < |ps| :: Valid(Child(t, d), ps[i])
    ensures forall i | 0 <= i < |ps| :: Valid(t, Lift(d, ps)[i])
  {
    forall i | 0 <= i < |ps|
      ensures Valid(t, Lift(d, ps)[i])
    {
      SubCons(t, d, ps[i]);
    }
  }

  lemma ArrangeValid<T>(t: Tree<T>, o: Order, a: seq<Path>, b: seq<Path>)
    requires Valid(t, [])
    requires forall i | 0 <= i < |a| :: Valid(t, a[i])
    requires forall i | 0 <= i < |b| :: Valid(t, b[i])
    ensures |Arrange(o, [], a, b)| == |a| + |b| + 1
    ensures forall i | 0 <= i < |Arrange(o, [], a, b)| :: Valid(t, Arrange(o, [], a, b)[i])
  {
    var s := Arrange(o, [], a, b);
    var k := match o case Preorder => 0 case Inorder => |a| case Postorder => |a| + |b|;
    assert s == (a + b)[..k] + [[]] + (a + b)[k..];
    forall i | 0 <= i < |s|
      ensures Valid(t, s[i])
    {
      if i < k {
        assert s[i] == (a + b)[i];
      } else if k < i {
        assert s[i] == (a + b)[i - 1];
      }
    }
  }

  /** The positions of the nodes of `t` in the recursive traversal order `o`. */
  function Positions<T>(t: Tree<T>, o: Order): (ps: seq<Path>)
    ensures |ps| == Count(t)
    ensures forall i | 0 <= i < |ps| :: Valid(t, ps[i])
  {
    match t
    case Nil => []
    case Node(v, l, r) =>
      var a := Positions(l, o);
      var b := Positions(r, o);
      LiftValid(t, L, a);
      LiftValid(t, R, b);
      assert Valid(t, []);
      ArrangeValid(t, o, Lift(L, a), Lift(R, b));
      Arrange(o, [], Lift(L, a), Lift(R, b))
  }

  /** The values stored at a list of positions. */
  function ValuesAt<T>(t: Tree<T>, ps: seq<Path>): seq<T>
    requires forall i | 0 <= i < |ps| :: Valid(t, ps[i])
  {
    seq(|ps|, i requires 0 <= i < |ps| && Valid(t, ps[i]) => Sub(t, ps[i]).value)
  }

  predicate Distinct<X(==)>(s: seq<X>) {
    forall i, j | 0 <= i < j < |s| :: s[i] != s[j]
  }

  lemma LiftMember(d: Dir, ps: seq<Path>, p: Path)
    ensures p in Lift(d, ps) <==> |p| > 0 && p[0] == d && p[1..] in ps
  {
    if |p| > 0 && p[0] == d && p[1..] in ps {
      var i :| 0 <= i < |ps| && ps[i] == p[1..];
      assert Lift(d, ps)[i] == p;
    }
  }

  lemma LiftDistinct(d: Dir, ps: seq<Path>)
    requires Distinct(ps)
    ensures Distinct(Lift(d, ps))
  {
    forall i, j | 0 <= i < j < |ps|
      ensures Lift(d, ps)[i] != Lift(d, ps)[j]
    {
      assert Lift(d, ps)[i][1..] == ps[i];
      assert Lift(d, ps)[j][1..] == ps[j];
    }
  }

  lemma DistinctAppend<X>(a: seq<X>, b: seq<X>)
    requires Distinct(a) && Distinct(b)
    requires forall x | x in a :: x !in b
    ensures Distinct(a + b)
  {
    forall i, j | 0 <= i < j < |a + b|
      ensures (a + b)[i] != (a + b)[j]
    {
      if j >= |a| && i < |a| {
        assert (a + b)[i] in a;
        assert (a + b)[j] in b;
      }
    }
  }

  /** The traversal lists every node exactly once: its positions are
      pairwise distinct and are exactly the positions of nodes of `t`. */
  lemma {:induction false} PositionsEnumerateNodes<T>(t: Tree<T>, o: Order)
    ensures Distinct(Positions(t, o))
    ensures forall p :: p in Positions(t, o) <==> Valid(t, p)
  {
    match t
    case Nil =>
      forall p ensures !Valid(t, p) {
        SubNil<T>(p);
      }
    case Node(v, l, r) =>
      var a := Positions(l, o);
      var b := Positions(r, o);
      PositionsEnumerateNodes(l, o);
      PositionsEnumerateNodes(r, o);
      var la, lb := Lift(L, a), Lift(R, b);
      LiftDistinct(L, a);
      LiftDistinct(R, b);
      forall p | p in la ensures p !in lb && p != [] {
        LiftMember(L, a, p);
        LiftMember(R, b, p);
      }
      forall p | p in lb ensures p != [] {
        LiftMember(R, b, p);
      }
      var root: seq<Path> := [[]];
      DistinctAppend(la, lb);
      DistinctAppend(root, la);
      DistinctAppend(root + la, lb);
      DistinctAppend(la, root);
      DistinctAppend(la + root, lb);
      DistinctAppend(la + lb, root);
      forall p
        ensures p in Positions(t, o) <==> Valid(t, p)
      {
        LiftMember(L, a, p);
        LiftMember(R, b, p);
        if |p| > 0 {
          assert p == [p[0]] + p[1..];
          SubCons(t, p[0], p[1..]);
        }
      }
  }

  lemma ValuesAtLift<T>(t: Tree<T>, d: Dir, ps: seq<Path>)
    requires t.Node?
    requires forall i | 0 <= i < |ps| :: Valid(Child(t, d), ps[i])
    ensures forall i | 0 <= i < |ps| :: Valid(t, Lift(d, ps)[i])
    ensures ValuesAt(t, Lift(d, ps)) == ValuesAt(Child(t, d), ps)
  {
    LiftValid(t, d, ps);
    forall i | 0 <= i < |ps|
      ensures ValuesAt(t, Lift(d, ps))[i] == ValuesAt(Child(t, d), ps)[i]
    {
      SubCons(t, d, ps[i]);
    }
  }

  lemma ValuesAtArrange<T>(t: Tree<T>, o: Order, a: seq<Path>, b: seq<Path>)
    requires t.Node?
    requires forall i | 0 <= i < |a| :: Valid(t, a[i])
    requires forall i | 0 <= i < |b| :: Valid(t, b[i])
    ensures forall i | 0 <= i < |Arrange(o, [], a, b)| :: Valid(t, Arrange(o, [], a, b)[i])
    ensures ValuesAt(t, Arrange(o, [], a, b)) == Arrange(o, t.value, ValuesAt(t, a), ValuesAt(t, b))
  {
    var s := Arrange(o, [], a, b);
    var e: Path := [];
    assert Valid(t, e);
    assert forall i | 0 <= i < |s| :: s[i] == e || s[i] in a || s[i] in b;
    var w := Arrange(o, t.value, ValuesAt(t, a), ValuesAt(t, b));
    assert |ValuesAt(t, s)| == |w|;
    forall i | 0 <= i < |s|
      ensures ValuesAt(t, s)[i] == w[i]
    {
      match o
      case Preorder =>
      case Inorder =>
      case Postorder =>
    }
  }

  /** Reading the values at the traversal positions gives the recursive
      traversal of values. */
  lemma {:induction false} PositionsMatchTraversal<T>(t: Tree<T>, o: Order)
    ensures ValuesAt(t, Positions(t, o)) == Traversal(t, o)
  {
    match t
    case Nil =>
    case Node(v, l, r) =>
      var a := Positions(l, o);
      var b := Positions(r, o);
      PositionsMatchTraversal(l, o);
      PositionsMatchTraversal(r, o);
      ValuesAtLift(t, L, a);
      ValuesAtLift(t, R, b);
      ValuesAtArrange(t, o, Lift(L, a), Lift(R, b));
  }

  /** The root and its two child links, as paths of length at most one. */
  lemma RootSteps<T>(t: Tree<T>)
    requires t.Node?
    ensures Valid(t, []) && Up([L]) == [] && Up([R]) == []
    ensures Sub(t, []) == t && Sub(t, [L]) == t.left && Sub(t, [R]) == t.right
    ensures [L] + [] == [L] && [R] + [] == [R] && [] + [L] == [L] && [] + [R] == [R]
    ensures Valid(t, [L]) <==> t.left.Node?
    ensures Valid(t, [R]) <==> t.right.Node?
  {
    assert [L][0] == L && [R][0] == R && [L][1..] == [] && [R][1..] == [];
    assert Sub(t, [L]) == Sub(t.left, []);
    assert Sub(t, [R]) == Sub(t.right, []);
  }

  lemma {:induction false} FirstInorder<T>(t: Tree<T>)
    requires t.Node?
    ensures Positions(t, Inorder)[0] == Leftmost(t, [])
  {
    RootSteps(t);
    if t.left.Node? {
      FirstInorder(t.left);
      LeftmostCons(t, L, []);
      RootSteps(t.left);
    }
  }

  lemma {:induction false} FirstPostorder<T>(t: Tree<T>)
    requires t.Node?
    ensures Positions(t, Postorder)[0] == PostFirst(t, [])
  {
    RootSteps(t);
    if t.left.Node? {
      FirstPostorder(t.left);
      PostFirstCons(t, L, []);
      RootSteps(t.left);
    } else if t.right.Node? {
      FirstPostorder(t.right);
      PostFirstCons(t, R, []);
      RootSteps(t.right);
    }
  }

  /** The head of each traversal is the node its "first node" rule picks. */
  lemma FirstPositions<T>(t: Tree<T>)
    requires t.Node?
    ensures Positions(t, Preorder)[0] == []
    ensures Positions(t, Inorder)[0] == Leftmost(t, [])
    ensures Positions(t, Postorder)[0] == PostFirst(t, [])
  {
    FirstInorder(t);
    FirstPostorder(t);
  }
}
