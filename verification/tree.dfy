/** The node structure of the container: every node carries a value and owns
    its left and right subtree.  A null child link is `Nil`; parent links are
    not stored, they are recovered from the position of a node (see Paths). */
module Trees {

  datatype Tree<T> = Nil | Node(value: T, left: Tree<T>, right: Tree<T>)

  /** The three traversal orders an iterator can be parameterised with. */
  datatype Order = Preorder | Inorder | Postorder

  function Max(a: nat, b: nat): nat {
    if a < b then b else a
  }

  /** Number of nodes below a (possibly null) link. */
  function Count<T>(t: Tree<T>): (n: nat)
    ensures n == 0 <==> t == Nil
  {
    match t
    case Nil => 0
    case Node(_, l, r) => Count(l) + Count(r) + 1
  }

  /** Length of the longest root-to-leaf chain of nodes; zero for a null link. */
  function Depth<T>(t: Tree<T>): (d: nat)
    ensures d == 0 <==> t == Nil
    ensures d <= Count(t)
  {
    match t
    case Nil => 0
    case Node(_, l, r) => Max(Depth(l), Depth(r)) + 1
  }

  function Pow2(n: nat): nat {
    if n == 0 then 1 else 2 * Pow2(n - 1)
  }

  /** Places the root item before, between or after the two subtree
      sequences, according to the traversal order. */
  function Arrange<X>(o: Order, root: X, a: seq<X>, b: seq<X>): seq<X> {
    match o
    case Preorder => [root] + a + b
    case Inorder => a + [root] + b
    case Postorder => a + b + [root]
  }

  /** The recursive traversal: the values of the nodes in the given order. */
  function Traversal<T>(t: Tree<T>, o: Order): (s: seq<T>)
    ensures |s| == Count(t)
  {
    match t
    case Nil => []
    case Node(v, l, r) => Arrange(o, v, Traversal(l, o), Traversal(r, o))
  }

  /** Indexing into a concatenation of three sequences. */
  lemma ConcatIndex<X>(x: seq<X>, y: seq<X>, z: seq<X>, i: nat)
    requires i < |x| + |y| + |z|
    ensures i < |x| ==> (x + y + z)[i] == x[i]
    ensures |x| <= i < |x| + |y| ==> (x + y + z)[i] == y[i - |x|]
    ensures |x| + |y| <= i ==> (x + y + z)[i] == z[i - |x| - |y|]
  {
  }

  lemma ArrangeMultiset<X>(o: Order, x: X, a: seq<X>, b: seq<X>)
    ensures multiset(Arrange(o, x, a, b)) == multiset{x} + multiset(a) + multiset(b)
  {
  }

  /** The three traversals list the same values, each as often: they are
      permutations of one another. */
  lemma {:induction false} TraversalsArePermutations<T>(t: Tree<T>, o: Order)
    ensures multiset(Traversal(t, o)) == multiset(Traversal(t, Preorder))
  {
    match t
    case Nil =>
    case Node(v, l, r) =>
      TraversalsArePermutations(l, o);
      TraversalsArePermutations(r, o);
      ArrangeMultiset(o, v, Traversal(l, o), Traversal(r, o));
      ArrangeMultiset(Preorder, v, Traversal(l, Preorder), Traversal(r, Preorder));
  }

  lemma Pow2Monotone(a: nat, b: nat)
    requires a <= b
    ensures Pow2(a) <= Pow2(b)
    decreases b
  {
    if a < b {
      Pow2Monotone(a, b - 1);
    }
  }

  /** A tree of depth d holds at most 2^d - 1 nodes. */
  lemma {:induction false} CountBoundedByDepth<T>(t: Tree<T>)
    ensures Count(t) < Pow2(Depth(t))
  {
    match t
    case Nil =>
    case Node(_, l, r) =>
      CountBoundedByDepth(l);
      CountBoundedByDepth(r);
      var m := Depth(t) - 1;
      Pow2Monotone(Depth(l), m);
      Pow2Monotone(Depth(r), m);
      assert Count(l) < Pow2(m) && Count(r) < Pow2(m);
      assert Pow2(Depth(t)) == Pow2(m) + Pow2(m);
  }
}
