/** The decoder (`_Binary_Tree::construct`): a single forward pass over a
    preorder token stream
        Subtree ::= MARKER | VALUE Subtree Subtree
    that keeps only the current node and the pending child slot, and climbs
    parent links instead of keeping a stack. */
module Decoder {
  import opened Trees
  import opened Paths

  // ---------------------------------------------------------------------------
  // The encoding and the recursive reference parser

  /** The preorder encoding of a tree, with `marker` for every null link. */
  function Encode<T>(t: Tree<T>, marker: T): seq<T> {
    match t
    case Nil => [marker]
    case Node(v, l, r) => [v] + Encode(l, marker) + Encode(r, marker)
  }

  /** No node value equals the marker (the marker is the only signal of an
      absent child). */
  predicate Markerless<T(==)>(t: Tree<T>, marker: T) {
    marker !in Traversal(t, Preorder)
  }

  datatype Parse<T> = Parsed(tree: Tree<T>, rest: seq<T>) | Malformed

  /** A recursive-descent parser of the grammar: one `Subtree` from the front
      of `toks`, and the tokens after it. */
  function ParseSubtree<T(==)>(toks: seq<T>, marker: T): (res: Parse<T>)
    ensures res.Parsed? ==> |res.rest| < |toks|
    decreases |toks|
  {
    if |toks| == 0 then Malformed
    else if toks[0] == marker then Parsed(Nil, toks[1..])
    else match ParseSubtree(toks[1..], marker)
      case Malformed => Malformed
      case Parsed(l, rest1) =>
        match ParseSubtree(rest1, marker)
        case Malformed => Malformed
        case Parsed(r, rest2) => Parsed(Node(toks[0], l, r), rest2)
  }

  /** The inputs the decoder is defined on: exactly one `Subtree`, with no
      tokens after it, whose first token is a value. */
  predicate WellFormed<T(==)>(toks: seq<T>, marker: T) {
    var res := ParseSubtree(toks, marker);
    res.Parsed? && res.rest == [] && res.tree.Node?
  }

  lemma EncodeNode<T>(v: T, l: Tree<T>, r: Tree<T>, marker: T, rest: seq<T>)
    ensures Encode(Node(v, l, r), marker) + rest == [v] + (Encode(l, marker) + (Encode(r, marker) + rest))
    ensures Markerless(Node(v, l, r), marker) <==> v != marker && Markerless(l, marker) && Markerless(r, marker)
  {
    assert Traversal(Node(v, l, r), Preorder) == [v] + Traversal(l, Preorder) + Traversal(r, Preorder);
  }

  /** The parser only accepts encodings of trees. */
  lemma {:induction false} ParseSound<T>(toks: seq<T>, marker: T)
    requires ParseSubtree(toks, marker).Parsed?
    ensures var res := ParseSubtree(toks, marker);
            toks == Encode(res.tree, marker) + res.rest && Markerless(res.tree, marker)
    decreases |toks|
  {
    var res := ParseSubtree(toks, marker);
    assert toks == [toks[0]] + toks[1..];
    if toks[0] != marker {
      var res1 := ParseSubtree(toks[1..], marker);
      var res2 := ParseSubtree(res1.rest, marker);
      assert res == Parsed(Node(toks[0], res1.tree, res2.tree), res2.rest);
      ParseSound(toks[1..], marker);
      ParseSound(res1.rest, marker);
      EncodeNode(toks[0], res1.tree, res2.tree, marker, res2.rest);
    }
  }

  /** The parser reads back every encoding, leaving what follows it. */
  lemma {:induction false} ParseComplete<T>(t: Tree<T>, marker: T, rest: seq<T>)
    requires Markerless(t, marker)
    ensures ParseSubtree(Encode(t, marker) + rest, marker) == Parsed(t, rest)
  {
    match t
    case Nil =>
      assert ([marker] + rest)[1..] == rest;
    case Node(v, l, r) =>
      var el, er := Encode(l, marker), Encode(r, marker);
      var toks := Encode(t, marker) + rest;
      assert toks == [v] + (el + (er + rest));
      assert toks[1..] == el + (er + rest);
      ParseComplete(l, marker, er + rest);
      ParseComplete(r, marker, rest);
  }

  // ---------------------------------------------------------------------------
  // The decoding loop

  /** The loop state: the tree built so far (the dummy head's left subtree),
      the current node `pnode` as a position in it, the side of `pnode` whose
      slot `tnode` points at, and whether the current iteration has already
      taken the left-marker branch (which consumes a token and then tests the
      next one against the right-slot branch). */
  datatype Builder<T> = Builder(tree: Tree<T>, node: Path, side: Dir, midStep: bool)

  /** The ascent of the right-marker branch: climbs from `p` to the nearest
      proper ancestor whose right link is null; the climb stops at the root,
      whose parent is the dummy head. */
  function Ascend<T>(b: Tree<T>, p: Path): (r: Path)
    ensures |r| <= |p| && r == p[..|r|]
    ensures |p| > 0 ==> |r| < |p|
    ensures |r| > 0 ==> !Valid(b, r + [R])
    ensures forall k | |r| < k < |p| :: Valid(b, p[..k] + [R])
    decreases |p|
  {
    if |p| == 0 then p
    else if !Valid(b, Up(p) + [R]) then Up(p)
    else
      var r := Ascend(b, Up(p));
      assert forall k | |r| < k < |Up(p)| :: Up(p)[..k] == p[..k];
      assert p[..|Up(p)|] == Up(p);
      r
  }

  /** One token of the loop.  The two branch tests compare the pointer stored
      in the pending slot with the left and the right link of `pnode`, as the
      code does; the left-marker test is skipped on the token that follows a
      left marker within the same iteration. */
  function Step<T(==)>(s: Builder<T>, tok: T, marker: T): Builder<T> {
    var slot := s.node + [s.side];
    if !s.midStep && Link(s.tree, slot) == Link(s.tree, s.node + [L]) && tok == marker then
      Builder(s.tree, s.node, R, true)
    else if Link(s.tree, slot) == Link(s.tree, s.node + [R]) && tok == marker then
      Builder(s.tree, Ascend(s.tree, s.node), R, false)
    else
      Builder(Graft(s.tree, slot, Node(tok, Nil, Nil)), slot, L, false)
  }

  function Run<T(==)>(s: Builder<T>, toks: seq<T>, marker: T): Builder<T>
    decreases |toks|
  {
    if |toks| == 0 then s else Run(Step(s, toks[0], marker), toks[1..], marker)
  }

  /** The state after the first token, a value linked below the dummy head. */
  function Start<T>(v: T): Builder<T> {
    Builder(Node(v, Nil, Nil), [], L, false)
  }

  /** `construct` on a well-formed stream: the tree it decodes is the one the
      stream encodes. */
  function Decode<T(==)>(toks: seq<T>, marker: T): (t: Tree<T>)
    requires WellFormed(toks, marker)
    ensures t.Node? && Markerless(t, marker)
    ensures Encode(t, marker) == toks
  {
    DecodeMatchesParser(toks, marker);
    Run(Start(toks[0]), toks[1..], marker).tree
  }

  // ---------------------------------------------------------------------------
  // Correctness of the loop

  /** A state in which the pending slot is empty and the branch tests behave
      as tests of the pending side: after a left marker the left-marker test
      is skipped, and otherwise a pending right slot sits beside a non-null
      left link. */
  predicate Ready<T>(s: Builder<T>) {
    && Valid(s.tree, s.node)
    && !Valid(s.tree, s.node + [s.side])
    && (s.side == L ==> !s.midStep && !Valid(s.tree, s.node + [R]))
    && (s.side == R && !s.midStep ==> Valid(s.tree, s.node + [L]))
  }

  /** The state once a whole `Subtree` has been read into the pending slot. */
  function After<T>(s: Builder<T>, sub: Tree<T>): Builder<T> {
    var g := Graft(s.tree, s.node + [s.side], sub);
    if s.side == L then Builder(g, s.node, R, sub.Nil?)
    else Builder(g, Ascend(g, s.node), R, false)
  }

  function Other(d: Dir): Dir {
    if d == L then R else L
  }

  lemma GraftSlot<T>(t: Tree<T>, q: Path, d: Dir, x: Tree<T>)
    requires Valid(t, q)
    ensures Valid(Graft(t, q + [d], x), q)
    ensures Sub(Graft(t, q + [d], x), q + [d]) == x
    ensures Sub(Graft(t, q + [d], x), q + [Other(d)]) == Sub(t, q + [Other(d)])
  {
    var g := Graft(t, q + [d], x);
    SubGraftSlot(t, q, d, x);
    SubSnoc(g, q, d);
    SubSnoc(g, q, Other(d));
    SubSnoc(t, q, Other(d));
    assert [d][1..] == [];
  }

  /** On a ready state the pointer tests select the branch the pending side
      calls for: a marker for a pending left slot switches to the right slot
      without creating a node; a marker for a pending right slot climbs to
      the nearest ancestor with a null right link; a value becomes a new leaf
      in the pending slot and its left slot becomes pending. */
  lemma StepOnReady<T>(s: Builder<T>, tok: T, marker: T)
    requires Ready(s)
    ensures tok == marker && s.side == L ==> Step(s, tok, marker) == Builder(s.tree, s.node, R, true)
    ensures tok == marker && s.side == R ==>
              Step(s, tok, marker) == Builder(s.tree, Ascend(s.tree, s.node), R, false)
    ensures tok != marker ==>
              var s' := Step(s, tok, marker);
              s'.node == s.node + [s.side] && s'.side == L && !s'.midStep &&
              Sub(s'.tree, s'.node) == Node(tok, Nil, Nil) &&
              Sub(s'.tree, s.node + [Other(s.side)]) == Sub(s.tree, s.node + [Other(s.side)])
  {
    if tok != marker {
      GraftSlot(s.tree, s.node, s.side, Node(tok, Nil, Nil));
    }
  }

  lemma RunCons<T>(s: Builder<T>, x: T, rest: seq<T>, marker: T)
    ensures Run(s, [x] + rest, marker) == Run(Step(s, x, marker), rest, marker)
  {
    assert ([x] + rest)[0] == x;
    assert ([x] + rest)[1..] == rest;
  }

  /** Reading the encoding of `sub` from a ready state fills the pending slot
      with `sub` and leaves the loop where the grammar's caller resumes. */
  lemma {:induction false} RunSubtree<T>(s: Builder<T>, sub: Tree<T>, marker: T, rest: seq<T>)
    requires Ready(s) && Markerless(sub, marker)
    ensures Run(s, Encode(sub, marker) + rest, marker) == Run(After(s, sub), rest, marker)
    decreases sub
  {
    var slot := s.node + [s.side];
    match sub
    case Nil =>
      RunCons(s, marker, rest, marker);
      StepOnReady(s, marker, marker);
      GraftSelf(s.tree, slot);
    case Node(v, l, r) =>
      var el, er := Encode(l, marker), Encode(r, marker);
      assert Encode(sub, marker) + rest == [v] + (el + (er + rest));
      RunCons(s, v, el + (er + rest), marker);
      var n0 := Node(v, Nil, Nil);
      var s1 := Step(s, v, marker);
      GraftSlot(s.tree, s.node, s.side, n0);
      assert s1 == Builder(Graft(s.tree, slot, n0), slot, L, false);
      SubSnoc(s1.tree, slot, L);
      SubSnoc(s1.tree, slot, R);
      assert Ready(s1);
      RunSubtree(s1, l, marker, er + rest);
      var s2 := After(s1, l);
      GraftGraft(s.tree, slot, n0, [L], l);
      assert [L][1..] == [] && [R][1..] == [];
      var n1 := Node(v, l, Nil);
      assert Graft(n0, [L], l) == n1;
      assert s2.tree == Graft(s.tree, slot, n1);
      GraftSlot(s.tree, s.node, s.side, n1);
      SubSnoc(s2.tree, slot, L);
      SubSnoc(s2.tree, slot, R);
      assert Ready(s2);
      RunSubtree(s2, r, marker, rest);
      GraftGraft(s.tree, slot, n1, [R], r);
      assert Graft(n1, [R], r) == sub;
      var g := Graft(s.tree, slot, sub);
      assert After(s2, r) == Builder(g, Ascend(g, slot), R, false);
      GraftSlot(s.tree, s.node, s.side, sub);
      assert Up(slot) == s.node;
      if s.side == L {
        assert Other(s.side) == R;
        assert !Valid(g, s.node + [R]);
      }
  }

  lemma {:induction false} GraftSelf<T>(t: Tree<T>, p: Path)
    ensures Graft(t, p, Sub(t, p)) == t
    decreases |p|
  {
    if |p| > 0 {
      match t
      case Nil =>
      case Node(v, l, r) =>
        GraftSelf(Child(t, p[0]), p[1..]);
    }
  }

  /** After the first token the loop reads the two child subtrees of the root
      and ends at the root with its right slot pending. */
  lemma RunFromStart<T>(t: Tree<T>, marker: T, rest: seq<T>)
    requires t.Node? && Markerless(t, marker)
    ensures Encode(t, marker)[0] == t.value
    ensures Run(Start(t.value), Encode(t, marker)[1..] + rest, marker) ==
              Run(Builder(t, [], R, false), rest, marker)
  {
    var el, er := Encode(t.left, marker), Encode(t.right, marker);
    assert Encode(t, marker)[1..] + rest == el + (er + rest);
    var s1 := Start(t.value);
    assert Sub(s1.tree, []) == s1.tree;
    SubCons(s1.tree, L, []);
    SubCons(s1.tree, R, []);
    assert [] + [L] == [L] && [] + [R] == [R] && [L] + [] == [L] && [R] + [] == [R];
    assert Ready(s1);
    RunSubtree(s1, t.left, marker, er + rest);
    var s2 := After(s1, t.left);
    assert [L][1..] == [] && [R][1..] == [];
    assert s2.tree == Node(t.value, t.left, Nil);
    SubCons(s2.tree, L, []);
    SubCons(s2.tree, R, []);
    assert Sub(t.left, []) == t.left;
    assert Ready(s2);
    RunSubtree(s2, t.right, marker, rest);
    assert After(s2, t.right).tree == t;
  }

  /** The single forward pass builds the tree the recursive parser reads. */
  lemma DecodeMatchesParser<T>(toks: seq<T>, marker: T)
    requires WellFormed(toks, marker)
    ensures Run(Start(toks[0]), toks[1..], marker).tree == ParseSubtree(toks, marker).tree
    ensures var t := ParseSubtree(toks, marker).tree;
            Encode(t, marker) == toks && Markerless(t, marker)
  {
    var t := ParseSubtree(toks, marker).tree;
    ParseSound(toks, marker);
    assert toks == Encode(t, marker);
    RunFromStart(t, marker, []);
    assert toks[1..] + [] == toks[1..];
  }

  /** Round trip: encoding a tree and decoding the encoding gives the tree back. */
  lemma DecodeEncode<T>(t: Tree<T>, marker: T)
    requires t.Node? && Markerless(t, marker)
    ensures WellFormed(Encode(t, marker), marker)
    ensures Decode(Encode(t, marker), marker) == t
  {
    ParseComplete(t, marker, []);
    assert Encode(t, marker) + [] == Encode(t, marker);
    var d := Decode(Encode(t, marker), marker);
    ParseComplete(d, marker, []);
    assert Encode(d, marker) + [] == Encode(d, marker);
  }

  /** Number of value tokens in a stream. */
  function ValueTokens<T(==)>(toks: seq<T>, marker: T): nat {
    if |toks| == 0 then 0
    else (if toks[0] == marker then 0 else 1) + ValueTokens(toks[1..], marker)
  }

  lemma {:induction false} ValueTokensAppend<T>(a: seq<T>, b: seq<T>, marker: T)
    ensures ValueTokens(a + b, marker) == ValueTokens(a, marker) + ValueTokens(b, marker)
    decreases |a|
  {
    if |a| > 0 {
      assert (a + b)[1..] == a[1..] + b;
      ValueTokensAppend(a[1..], b, marker);
    } else {
      assert a + b == b;
    }
  }

  /** The decoder creates one node per value token. */
  lemma {:induction false} EncodeCounts<T>(t: Tree<T>, marker: T)
    requires Markerless(t, marker)
    ensures ValueTokens(Encode(t, marker), marker) == Count(t)
    ensures |Encode(t, marker)| == 2 * Count(t) + 1
  {
    match t
    case Nil =>
      assert [marker][1..] == [];
    case Node(v, l, r) =>
      var el, er := Encode(l, marker), Encode(r, marker);
      EncodeNode(v, l, r, marker, []);
      EncodeCounts(l, marker);
      EncodeCounts(r, marker);
      assert el + (er + []) == el + er;
      assert Encode(t, marker) + [] == Encode(t, marker);
      assert Encode(t, marker) == [v] + (el + er);
      assert [v][1..] == [];
      assert ValueTokens([v], marker) == 1;
      ValueTokensAppend([v], el + er, marker);
      ValueTokensAppend(el, er, marker);
  }

  /** Once the stream is complete the loop sits at the root with its right
      slot pending, so a further value token replaces the root's right
      subtree by a new leaf. */
  lemma TrailingValueReplacesRightSubtree<T>(t: Tree<T>, marker: T, v: T)
    requires t.Node? && Markerless(t, marker) && v != marker
    ensures Run(Start(t.value), Encode(t, marker)[1..] + [v], marker).tree ==
              Node(t.value, t.left, Node(v, Nil, Nil))
  {
    RunFromStart(t, marker, [v]);
    RunCons(Builder(t, [], R, false), v, [], marker);
    assert [v] == [v] + [];
    assert [] + [R] == [R];
    assert [R][1..] == [];
  }
}
