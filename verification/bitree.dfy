/** The container's public operations over iterators: counting and measuring
    through the iterator's child links, emptiness, copying, and `find`. */
module BiTree {
  import opened Trees
  import opened Paths
  import opened Successors
  import opened Walks

  /** An iterator value that makes sense for `t`: the null iterator or one on
      a node of `t`. */
  predicate Placed<T>(t: Tree<T>, c: Cursor) {
    c.End? || Valid(t, c.path)
  }

  /** The subtree an iterator stands for; the null iterator stands for none. */
  function Below<T>(t: Tree<T>, c: Cursor): Tree<T> {
    if c.At? then Sub(t, c.path) else Nil
  }

  /** The measure of the recursions over child links. */
  function Size<T>(t: Tree<T>, c: Cursor): nat {
    if c.At? then Count(Sub(t, c.path)) + 1 else 0
  }

  lemma ChildBelow<T>(t: Tree<T>, c: Cursor, d: Dir)
    requires OnNode(t, c)
    ensures Placed(t, ChildLink(t, c, d))
    ensures Below(t, ChildLink(t, c, d)) == Child(Sub(t, c.path), d)
    ensures Size(t, ChildLink(t, c, d)) < Size(t, c)
  {
    SubSnoc(t, c.path, d);
  }

  // ---------------------------------------------------------------------------
  // Node construction

  /** The node constructor links both children to the new node: each non-null
      child hangs from it on its own side and has it as parent, and the new
      node, a root, has no parent. */
  lemma NodeLinks<T>(v: T, l: Tree<T>, r: Tree<T>)
    ensures var n := Node(v, l, r);
            && OnNode(n, At([])) && Value(n, At([])) == v
            && ParentLink(At([])) == End
            && (LeftLink(n, At([])) == End <==> l.Nil?)
            && (RightLink(n, At([])) == End <==> r.Nil?)
            && (l.Node? ==> ParentLink(LeftLink(n, At([]))) == At([]) && Below(n, LeftLink(n, At([]))) == l)
            && (r.Node? ==> ParentLink(RightLink(n, At([]))) == At([]) && Below(n, RightLink(n, At([]))) == r)
  {
    var n := Node(v, l, r);
    assert Sub(n, []) == n;
    ChildBelow(n, At([]), L);
    ChildBelow(n, At([]), R);
    assert [] + [L] == [L] && [] + [R] == [R];
  }

  // ---------------------------------------------------------------------------
  // Counting and depth through iterators

  /** `count(iter)`: the nodes below the iterator, counted through its child
      links. */
  function CountAt<T>(t: Tree<T>, c: Cursor): (n: nat)
    requires Placed(t, c)
    ensures n == Count(Below(t, c))
    decreases Size(t, c)
  {
    if c.End? then 0
    else
      ChildBelow(t, c, L);
      ChildBelow(t, c, R);
      CountAt(t, LeftLink(t, c)) + CountAt(t, RightLink(t, c)) + 1
  }

  /** `depth(iter)`: the longest chain of nodes below the iterator. */
  function DepthAt<T>(t: Tree<T>, c: Cursor): (d: nat)
    requires Placed(t, c)
    ensures d == Depth(Below(t, c))
    decreases Size(t, c)
  {
    if c.End? then 0
    else
      ChildBelow(t, c, L);
      ChildBelow(t, c, R);
      Max(DepthAt(t, LeftLink(t, c)), DepthAt(t, RightLink(t, c))) + 1
  }

  /** `count()`: counting from the preorder `begin`, the root. */
  function TreeCount<T>(t: Tree<T>): (n: nat)
    ensures n == Count(t)
    ensures forall o: Order :: n == |Traversal(t, o)|
  {
    assert Sub(t, []) == t;
    CountAt(t, Begin(t, Preorder))
  }

  /** `depth()`: the depth from the root. */
  function TreeDepth<T>(t: Tree<T>): (d: nat)
    ensures d == Depth(t)
    ensures d <= TreeCount(t) < Pow2(d)
  {
    assert Sub(t, []) == t;
    CountBoundedByDepth(t);
    DepthAt(t, Begin(t, Preorder))
  }

  /** `empty()`: `begin` equals `end`. */
  function Empty<T>(t: Tree<T>): (e: bool)
    ensures e <==> t.Nil?
    ensures e <==> TreeCount(t) == 0
  {
    Begin(t, Preorder) == EndOf(Preorder)
  }

  // ---------------------------------------------------------------------------
  // Copying

  /** `deep_copy` from an iterator: a node with the iterator's value whose
      children are copies from the iterator's child links; nothing for the
      null iterator. */
  function DeepCopy<T>(t: Tree<T>, c: Cursor): (copy: Tree<T>)
    requires Placed(t, c)
    ensures copy == Below(t, c)
    decreases Size(t, c)
  {
    if c.End? then Nil
    else
      ChildBelow(t, c, L);
      ChildBelow(t, c, R);
      Node(Value(t, c), DeepCopy(t, LeftLink(t, c)), DeepCopy(t, RightLink(t, c)))
  }

  /** The copy constructor: a deep copy from the preorder `begin`. */
  function CopyTree<T>(t: Tree<T>): (copy: Tree<T>)
    requires t.Node?
    ensures copy == t
    ensures forall o: Order :: Traversal(copy, o) == Traversal(t, o)
  {
    assert Sub(t, []) == t;
    DeepCopy(t, Begin(t, Preorder))
  }

  /** `subtree(iter)`: a new tree copied from the node at `c`. */
  function Subtree<T>(t: Tree<T>, c: Cursor): (copy: Tree<T>)
    requires OnNode(t, c)
    ensures copy == Sub(t, c.path) && copy.Node?
    ensures TreeCount(copy) == CountAt(t, c)
  {
    DeepCopy(t, c)
  }

  // ---------------------------------------------------------------------------
  // find

  /** The outcome of a search: the iterator it returns, or no return at all
      (the walk cycles). */
  datatype Outcome = Returns(at: Cursor) | Diverges

  /** The loop of `find` from iterator `c`: stop at the null iterator or at a
      node holding `v`, else increment.  The loop has no bound of its own;
      `fuel` counts the increments allowed before the search is declared
      divergent. */
  function SearchFrom<T(==)>(t: Tree<T>, o: Order, c: Cursor, v: T, fuel: nat): (r: Outcome)
    requires Placed(t, c)
    ensures r.Returns? && r.at.At? ==> OnNode(t, r.at) && Value(t, r.at) == v
    decreases fuel
  {
    if c.End? then Returns(End)
    else if Value(t, c) == v then Returns(c)
    else if fuel == 0 then Diverges
    else SearchFrom(t, o, Next(t, o, c.path), v, fuel - 1)
  }

  /** `find<order>(v)`: the search from `begin`. */
  function Find<T(==)>(t: Tree<T>, o: Order, v: T, fuel: nat): (r: Outcome)
    ensures r.Returns? && r.at.At? ==> OnNode(t, r.at) && Value(t, r.at) == v
  {
    if t.Node? then assert Valid(t, Positions(t, o)[0]); SearchFrom(t, o, Begin(t, o), v, fuel)
    else SearchFrom(t, o, Begin(t, o), v, fuel)
  }

  /** The index of the first occurrence of `x` in `s`. */
  function FirstIndex<X(==)>(s: seq<X>, x: X): (i: nat)
    requires x in s
    ensures i < |s| && s[i] == x && x !in s[..i]
  {
    if s[0] == x then 0
    else
      var i := FirstIndex(s[1..], x);
      assert s[1..][..i] == s[1..i + 1];
      1 + i
  }

  /** `p` is the position of the `i`-th node in order `o` for some `i`, and
      that node is the first to hold `v`. */
  predicate FirstIn<T(==)>(t: Tree<T>, o: Order, v: T, p: Path) {
    exists i | 0 <= i < Count(t) ::
      p == Positions(t, o)[i] && Traversal(t, o)[i] == v && v !in Traversal(t, o)[..i]
  }

  /** The node `find` is meant to return: the first node in order `o` whose
      value is `v`, or the null iterator when no node holds `v`. */
  function FirstMatch<T(==)>(t: Tree<T>, o: Order, v: T): (c: Cursor)
    ensures c == End <==> v !in Traversal(t, o)
    ensures c.At? ==> OnNode(t, c) && Value(t, c) == v
    ensures c.At? ==> FirstIn(t, o, v, c.path)
  {
    var s := Traversal(t, o);
    if v in s then
      PositionsMatchTraversal(t, o);
      At(Positions(t, o)[FirstIndex(s, v)])
    else End
  }

  /** The walk follows `ps` from index `i` to index `j`. */
  predicate StepsAlong<T>(t: Tree<T>, o: Order, ps: seq<Path>, i: nat, j: nat)
    requires i <= j < |ps|
    requires forall k | 0 <= k < |ps| :: Valid(t, ps[k])
  {
    forall k | i <= k < j :: Next(t, o, ps[k]) == At(ps[k + 1])
  }

  /** A search along the walk passes the nodes not holding `v`, spending one
      unit of fuel on each. */
  lemma {:induction false} SearchPasses<T>(t: Tree<T>, o: Order, ps: seq<Path>, i: nat, j: nat, v: T, fuel: nat)
    requires i <= j < |ps|
    requires forall k | 0 <= k < |ps| :: Valid(t, ps[k])
    requires StepsAlong(t, o, ps, i, j)
    requires forall k | i <= k < j :: Sub(t, ps[k]).value != v
    ensures SearchFrom(t, o, At(ps[i]), v, fuel) ==
              if fuel < j - i then Diverges else SearchFrom(t, o, At(ps[j]), v, fuel - (j - i))
    decreases j - i
  {
    if i < j && fuel > 0 {
      assert Next(t, o, ps[i]) == At(ps[i + 1]);
      SearchPasses(t, o, ps, i + 1, j, v, fuel - 1);
    }
  }

  /** Along a walk that follows the positions of order `o`, a search from the
      first position stops at the first node holding `v`. */
  lemma SearchHits<T>(t: Tree<T>, o: Order, v: T, fuel: nat)
    requires t.Node? && fuel >= Count(t)
    requires StepsAlong(t, o, Positions(t, o), 0, Count(t) - 1)
    requires v in Traversal(t, o)
    ensures SearchFrom(t, o, At(Positions(t, o)[0]), v, fuel) == Returns(FirstMatch(t, o, v))
  {
    var ps, s := Positions(t, o), Traversal(t, o);
    ValuesAlong(t, o);
    var j := FirstIndex(s, v);
    assert forall k | 0 <= k < j :: s[k] == s[..j][k];
    SearchPasses(t, o, ps, 0, j, v, fuel);
    assert SearchFrom(t, o, At(ps[j]), v, fuel - j) == Returns(At(ps[j]));
  }

  /** Along a walk that follows the positions of order `o` and then reaches
      the null iterator, a search for an absent value returns the null
      iterator. */
  lemma SearchMisses<T>(t: Tree<T>, o: Order, v: T, fuel: nat)
    requires t.Node? && fuel >= Count(t)
    requires StepsAlong(t, o, Positions(t, o), 0, Count(t) - 1)
    requires v !in Traversal(t, o) && Next(t, o, Positions(t, o)[Count(t) - 1]) == End
    ensures SearchFrom(t, o, At(Positions(t, o)[0]), v, fuel) == Returns(End)
  {
    var ps, s := Positions(t, o), Traversal(t, o);
    ValuesAlong(t, o);
    var j := Count(t) - 1;
    SearchPasses(t, o, ps, 0, j, v, fuel);
    assert SearchFrom(t, o, At(ps[j]), v, fuel - j) == SearchFrom(t, o, End, v, fuel - j - 1);
  }

  /** With a walk that follows the positions of order `o` and then reaches the
      null iterator, `find` returns the first match. */
  lemma SearchFollowsWalk<T>(t: Tree<T>, o: Order, v: T, fuel: nat)
    requires t.Node? && fuel >= Count(t)
    requires StepsAlong(t, o, Positions(t, o), 0, Count(t) - 1)
    requires v in Traversal(t, o) || Next(t, o, Positions(t, o)[Count(t) - 1]) == End
    ensures Find(t, o, v, fuel) == Returns(FirstMatch(t, o, v))
  {
    assert Find(t, o, v, fuel) == SearchFrom(t, o, At(Positions(t, o)[0]), v, fuel);
    if v in Traversal(t, o) {
      SearchHits(t, o, v, fuel);
    } else {
      SearchMisses(t, o, v, fuel);
    }
  }

  /** The node at the `k`-th position of order `o` holds the `k`-th value of
      the traversal. */
  lemma ValuesAlong<T>(t: Tree<T>, o: Order)
    ensures forall k | 0 <= k < Count(t) :: Sub(t, Positions(t, o)[k]).value == Traversal(t, o)[k]
  {
    PositionsMatchTraversal(t, o);
    var ps := Positions(t, o);
    forall k | 0 <= k < Count(t)
      ensures Sub(t, ps[k]).value == Traversal(t, o)[k]
    {
      assert ValuesAt(t, ps)[k] == Sub(t, ps[k]).value;
    }
  }

  lemma PreorderSteps<T>(t: Tree<T>)
    requires t.Node?
    ensures StepsAlong(t, Preorder, Positions(t, Preorder), 0, Count(t) - 1)
    ensures Next(t, Preorder, Positions(t, Preorder)[Count(t) - 1]) == End
  {
    PreorderWalk(t);
    var ps := Positions(t, Preorder);
    forall k | 0 <= k < Count(t)
      ensures Next(t, Preorder, ps[k]) == NextIn(ps, k)
    {
      assert PreNext(t, ps[k]) == NextIn(ps, k);
    }
  }

  /** `find<preorder>` returns the first node in preorder holding `v`, or the
      null iterator when there is none. */
  lemma FindPreorder<T>(t: Tree<T>, v: T, fuel: nat)
    requires fuel >= Count(t)
    ensures Find(t, Preorder, v, fuel) == Returns(FirstMatch(t, Preorder, v))
  {
    if t.Node? {
      PreorderSteps(t);
      SearchFollowsWalk(t, Preorder, v, fuel);
    }
  }

  lemma PostorderSteps<T>(t: Tree<T>)
    requires t.Node? && SiblingDescentsEndAtLeaves(t)
    ensures StepsAlong(t, Postorder, Positions(t, Postorder), 0, Count(t) - 1)
    ensures Next(t, Postorder, Positions(t, Postorder)[Count(t) - 1]) == End
  {
    PostorderWalk(t);
    var ps := Positions(t, Postorder);
    forall k | 0 <= k < Count(t)
      ensures Next(t, Postorder, ps[k]) == NextIn(ps, k)
    {
      assert PostNext(t, ps[k]) == NextIn(ps, k);
    }
  }

  /** `find<postorder>` returns the first node in postorder holding `v` on the
      trees where the postorder increment follows the recursive postorder. */
  lemma FindPostorder<T>(t: Tree<T>, v: T, fuel: nat)
    requires fuel >= Count(t)
    requires SiblingDescentsEndAtLeaves(t)
    ensures Find(t, Postorder, v, fuel) == Returns(FirstMatch(t, Postorder, v))
  {
    if t.Node? {
      PostorderSteps(t);
      SearchFollowsWalk(t, Postorder, v, fuel);
    }
  }

  /** The inorder walk follows the recursive inorder up to its last node,
      which it leaves for the null iterator unless the root has no right
      child; then the last node is the root and the walk stays there. */
  lemma InorderSteps<T>(t: Tree<T>)
    requires t.Node?
    ensures StepsAlong(t, Inorder, Positions(t, Inorder), 0, Count(t) - 1)
    ensures t.right.Node? ==> Next(t, Inorder, Positions(t, Inorder)[Count(t) - 1]) == End
    ensures t.right.Nil? ==> Positions(t, Inorder)[Count(t) - 1] == [] && Next(t, Inorder, []) == At([])
  {
    InorderWalk(t);
    var ps := Positions(t, Inorder);
    forall k | 0 <= k < Count(t)
      ensures InNext(t, ps[k]) == InorderAsWritten(t, k)
    {
    }
  }

  /** `find<inorder>` returns the first node in inorder holding `v` when the
      root has a right child or some node holds `v`. */
  lemma FindInorder<T>(t: Tree<T>, v: T, fuel: nat)
    requires fuel >= Count(t)
    requires t.Nil? || t.right.Node? || v in Traversal(t, Inorder)
    ensures Find(t, Inorder, v, fuel) == Returns(FirstMatch(t, Inorder, v))
  {
    if t.Node? {
      InorderSteps(t);
      SearchFollowsWalk(t, Inorder, v, fuel);
    }
  }

  /** A node that is its own inorder successor traps a search that does not
      find `v` there. */
  lemma {:induction false} SearchStuck<T>(t: Tree<T>, p: Path, v: T, fuel: nat)
    requires Valid(t, p) && InNext(t, p) == At(p) && Sub(t, p).value != v
    ensures SearchFrom(t, Inorder, At(p), v, fuel) == Diverges
  {
    if fuel > 0 {
      SearchStuck(t, p, v, fuel - 1);
    }
  }

  /** When the root has no right child and no node holds `v`, `find<inorder>`
      never returns, whatever the bound on its increments. */
  lemma InorderFindDiverges<T>(t: Tree<T>, v: T, fuel: nat)
    requires t.Node? && t.right.Nil? && v !in Traversal(t, Inorder)
    ensures Find(t, Inorder, v, fuel) == Diverges
  {
    InorderSteps(t);
    var ps, s := Positions(t, Inorder), Traversal(t, Inorder);
    ValuesAlong(t, Inorder);
    assert Find(t, Inorder, v, fuel) == SearchFrom(t, Inorder, At(ps[0]), v, fuel);
    var j := Count(t) - 1;
    SearchPasses(t, Inorder, ps, 0, j, v, fuel);
    assert InNext(t, ps[j]) == At(ps[j]);
    if fuel >= j {
      SearchStuck(t, ps[j], v, fuel - j);
    }
  }
}
