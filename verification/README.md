# Binary tree container with stackless traversal, in Dafny

This project models the core of `BinaryTree.hpp`, a generic binary-tree
container. Its nodes carry parent links. The container has three iterator
kinds (preorder, inorder, postorder), and each one advances using only the
parent, left and right links of the current node. A decoder rebuilds a tree
from a preorder token stream in one forward pass, in which a marker stands
for every null link. The container also offers `count`, `depth`, `empty`,
`find`, a deep copy and `subtree`.

The model is functional:

- A tree is an immutable `Tree<T>` (`Nil` | `Node(value, left, right)`).
- An iterator is a `Cursor`: either `End` (the null iterator) or `At(path)`, where `path` is the root-to-node path of the node.
- Parent links are not stored. The parent of `At(p)` is `At(p` without its last step`)`, and "is the left child" means the last step is `L`.
- Two iterators compare equal exactly when their paths are equal. `Paths.PositionsEnumerateNodes` shows that paths and nodes correspond one to one.

Each increment is modelled as written. It is then compared with the
recursive traversal of the same order (`Trees.Traversal`) through
`Paths.Positions`, which lists the node positions in that order.

The decoder is modelled token by token. Its state holds:

- the tree built so far;
- the current node (`pnode`);
- the pending side (`tnode` points into the left or the right slot of `pnode`);
- a flag for the moment inside one loop iteration after the left-marker branch has consumed a token.

The decoder is proved against a recursive encoder and a recursive-descent
parser of `Subtree ::= MARKER | VALUE Subtree Subtree`.

Modules, one per file:

- `Trees` (tree.dfy): the tree, `count`, `depth` and the recursive traversals.
- `Paths` (paths.dfy): positions, iterator navigation and the two "first node" descents.
- `Successors` (successors.dfy): the three increments.
- `Walks` (walks.dfy): `begin`, `end`, and what each walk visits.
- `Decoder` (decoder.dfy): `construct`.
- `BiTree` (bitree.dfy): the public operations.
- `Examples` (example_trees.dfy): example trees for the two discrepancies below, and small trees decoded from token streams and walked by the iterators.

Two increments leave the recursive traversal order. The model keeps the code
as written, and the proofs locate each discrepancy:

- Postorder. `begin` (BinaryTree.hpp:273-280) reaches the first node of a tree by descending left, else right. The increment entering a right sibling subtree (BinaryTree.hpp:186-187) follows left links only. `Walks.PostorderWalk` shows that the increment takes the recursive postorder step exactly at the nodes where that left-only descent stops at a leaf.
- Inorder. When the root has no right child, the root is the last inorder node. Once the inorder walk reaches the root it stays there (BinaryTree.hpp:157-163) and never reaches the null iterator. `Walks.InorderWalk` proves this for every tree whose root has no right child, the single-node tree and the left-skewed chain included.

Both points are under Findings, each with a corrected increment.

## Model

| member | source | states |
|---|---|---|
| Trees.Count | BinaryTree.hpp:24-26 | the count is zero exactly for a null link |
| Trees.Depth | BinaryTree.hpp:28-30 | the depth is zero exactly for a null link and never exceeds the node count |
| Trees.CountBoundedByDepth | BinaryTree.hpp:24-30 | a tree of depth d has fewer than 2^d nodes |
| Paths.LinksConsistent | BinaryTree.hpp:85-95 | `left()`/`right()` lead to a node whose `parent()` is the start; `parent()` is null exactly at the root; every other node is the child of its parent on the side it hangs from |
| Paths.Leftmost | BinaryTree.hpp:153-154 | following left links ends at a node without a left child, below the start, reached by left steps only |
| Paths.PostFirst | BinaryTree.hpp:273-280 | the left-else-right descent ends at a leaf below the start |
| Paths.PositionsEnumerateNodes | BinaryTree.hpp:77-79 | the positions of an order list every node once and nothing else, so iterator equality is node identity |
| Paths.FirstPositions | BinaryTree.hpp:264-280 | the preorder first node is the root, the inorder one is the leftmost node, and the postorder one is the end of the left-else-right descent |
| Successors.PreAscend | BinaryTree.hpp:126-132 | the ascent ends at a right child no deeper than the start, or at the null iterator |
| Successors.ClimbRight | BinaryTree.hpp:157-161 | the climb passes only right steps and stops at the root or at a left child |
| Successors.InNextQuirk | BinaryTree.hpp:150-165 | the inorder increment equals the successor rule everywhere except at a root without a right child, which it maps to itself |
| Successors.PostNextAgreement | BinaryTree.hpp:182-194 | the postorder increment equals the successor rule exactly when it does not enter a right sibling subtree or its left-only descent stops at a leaf |
| Walks.Begin | BinaryTree.hpp:264-284 | `begin` of an empty tree is the null iterator; otherwise it is the first node of the recursive traversal of that order |
| Walks.PreorderWalk | BinaryTree.hpp:120-133 | from each node the preorder increment `Successors.PreNext` reaches the next node of the recursive preorder, and from the last node the null iterator |
| Walks.InorderWalk | BinaryTree.hpp:150-165 | the inorder increment as written, `Successors.InNext`, follows the recursive inorder, but at the last node it stays put when the root has no right child; that last node is the root |
| Walks.InorderFixedWalk | BinaryTree.hpp:150-165 | under the inorder successor rule `Successors.InNextFixed`, the walk follows the recursive inorder and then ends |
| Walks.PostorderWalk | BinaryTree.hpp:182-194 | the postorder increment as written, `Successors.PostNext`, takes the step of the recursive postorder exactly at the nodes whose sibling descent stops at a leaf; the walk is the recursive postorder exactly when all of them do |
| Walks.PostorderFixedWalk | BinaryTree.hpp:182-194 | with the left-else-right sibling descent of `Successors.PostNextFixed`, the walk follows the recursive postorder and then ends |
| Decoder.Ascend | BinaryTree.hpp:241-247 | the climb reaches the nearest proper ancestor with a null right link, and otherwise stops at the root |
| Decoder.StepOnReady | BinaryTree.hpp:236-252 | a marker with the left slot pending switches to the right slot without a new node; a marker with the right slot pending climbs to the nearest ancestor whose right link is null; a value fills the pending slot with a new leaf, changes no other child, and makes that leaf's left slot pending |
| Decoder.RunSubtree | BinaryTree.hpp:236-253 | reading the encoding of a subtree fills the pending slot with exactly that subtree, and the loop resumes where the grammar's caller would |
| Decoder.DecodeMatchesParser | BinaryTree.hpp:232-257 | the single pass builds the tree the recursive-descent parser reads, and that tree re-encodes to the input |
| Decoder.Decode | BinaryTree.hpp:232-257 | on a well-formed stream the decoded tree is non-empty, holds no marker value, and encodes back to the input |
| Decoder.DecodeEncode | BinaryTree.hpp:232-257 | decoding the encoding of any non-empty tree without marker values gives that tree back |
| Decoder.EncodeCounts | BinaryTree.hpp:250-252 | the decoded tree has one node per value token, and the stream has one more marker than values |
| Decoder.TrailingValueReplacesRightSubtree | BinaryTree.hpp:247-252 | one value token after a complete stream replaces the root's right subtree by a new leaf |
| BiTree.NodeLinks | BinaryTree.hpp:17-22 | a new node holds its value and has no parent, and each non-null child hangs from it on its own side with the new node as parent |
| BiTree.CountAt | BinaryTree.hpp:361-364 | counting through an iterator's child links gives the number of nodes in its subtree, and zero for the null iterator |
| BiTree.DepthAt | BinaryTree.hpp:380-383 | measuring through the child links gives the depth of the iterator's subtree |
| BiTree.TreeCount | BinaryTree.hpp:376-378 | `count()` is the number of nodes and the length of every traversal |
| BiTree.TreeDepth | BinaryTree.hpp:385-387 | `depth()` is the depth of the tree, at most the node count, and the tree has fewer than 2^depth nodes |
| BiTree.Empty | BinaryTree.hpp:389-391 | `empty()` holds exactly for the tree without nodes, that is, for count zero |
| BiTree.DeepCopy | BinaryTree.hpp:294-302 | the copy from an iterator equals the subtree at its node, and is empty for the null iterator |
| BiTree.CopyTree | BinaryTree.hpp:218-220 | the copy of a non-empty tree equals it and has the same traversals |
| BiTree.Subtree | BinaryTree.hpp:259-262 | `subtree(iter)` is a non-empty copy of the subtree at the iterator, with the same count |
| BiTree.Find | BinaryTree.hpp:398-408 | whenever `find` returns a node, that node holds the value sought |
| BiTree.FindPreorder | BinaryTree.hpp:398-408 | `find<preorder>` returns the first node in preorder holding the value, and the null iterator when no node holds it |
| BiTree.FindInorder | BinaryTree.hpp:398-408 | `find<inorder>` returns the first node in inorder holding the value when the root has a right child or the value is present |
| BiTree.InorderFindDiverges | BinaryTree.hpp:398-408 | `find<inorder>` never returns when the root has no right child and the value is absent |
| BiTree.FindPostorder | BinaryTree.hpp:398-408 | `find<postorder>` returns the first node in postorder holding the value on every tree whose sibling descents stop at leaves |
| Examples.InorderRootFixedPoint | BinaryTree.hpp:157-163 | in the tree 1 with left leaf 2, the inorder increment maps the root to itself where the successor rule gives the null iterator, and `find<inorder>(3)` never returns |
| Examples.PostorderSkipsNode | BinaryTree.hpp:184-187 | in the tree 1(2, 3(-, 4)), the postorder increment goes from 2 to 3 where postorder goes to 4, so `find<postorder>(4)` returns the null iterator although 4 is the second node in postorder |
| Examples.SmallFixture | BinaryTree.hpp:120-284 | 1 2 # # 3 # # decodes to root 1 with leaves 2 and 3, whose traversals are 1 2 3, 2 1 3 and 2 3 1; from `begin`, the preorder, inorder and postorder increments as written visit the nodes in exactly those orders and then give the null iterator |
| Examples.SkewedDecodes | BinaryTree.hpp:232-257 | 1 2 3 # # # # decodes to the left chain 1, 2, 3 |
| Examples.SkewedInorderStalls | BinaryTree.hpp:157-163 | the inorder increment at the root of the left chain stays at the root |

## Findings

| source | as written | input that shows it | evidently intended | confidence | as-written member | corrected member |
|---|---|---|---|---|---|---|
| BinaryTree.hpp:157-163 | when the climb ends at the root and the root has no right child, `tnode` and `_ptr->right` are both null, so the increment leaves `_ptr` at the root | tree 1 with left leaf 2: inorder reaches the root and stays, and `find<inorder>(3)` loops forever | the increment moves to `tnode` (null) after the climb, so the walk ends after its last node | high, not executed | Examples.InorderRootFixedPoint | Walks.InorderFixedWalk |
| BinaryTree.hpp:184-187 | entering a right sibling subtree follows left links only, while the postorder first node of that subtree is reached by going left, else right | tree 1(2, 3(-, 4)): the increment from 2 gives 3, skipping 4, so `find<postorder>(4)` returns the null iterator | the same left-else-right descent as `begin` (BinaryTree.hpp:273-280) | high, not executed | Examples.PostorderSkipsNode | Walks.PostorderFixedWalk |

The as-written increments are `Successors.PreNext`, `Successors.InNext` and
`Successors.PostNext`; the preorder one agrees with the recursive preorder
(`Walks.PreorderWalk`).
The corrected ones are `Successors.InNextFixed` and `Successors.PostNextFixed`.
`Walks.InorderFixedWalk` and `Walks.PostorderFixedWalk` prove that the
corrected increments walk exactly the recursive traversal orders. `BiTree`
models the container as written, so its `find` uses the as-written
increments.

## Left out

- Memory management is not modelled: `new`, `delete`, `destruct`, and deleting the dummy head. Construction is pure.
- The `typeid` dispatch in `begin`, and the traversal-order tag and traits types, are replaced by the three-case `Order` enum.
- The `std::iterator` base, `operator->`, post-increment, assignment and the iterator constructors are left out. They do nothing beyond holding or copying the node pointer.
- Iterator `operator==` and `operator!=` have no member of their own. They are equality of cursors, and `Paths.PositionsEnumerateNodes` shows that this is node identity.
- `BiTree::parent` is `Paths.ParentLink`, and its properties are in `Paths.LinksConsistent`.
- `begin` on an empty tree binds a reference to `*nullptr`. The model reads it as the null iterator, so that `empty()` has its evident meaning.
- Decoder.Decode requires a non-empty, well-formed stream whose first token is a value. The code validates nothing, and it reads uninitialised links of the dummy head on empty input. It also reads past the end when a left marker is the last token.
- Decoder.Decode does not report decoding errors. The code does not detect any.
- Decoder.TrailingValueReplacesRightSubtree covers only a single value token after a complete stream. `Decoder.Run` models any longer trailing input but no lemma characterises it.
- BiTree.CopyTree requires a non-empty tree. Copying an empty tree leaves `_root` uninitialised in the code.
- BiTree.Subtree requires an iterator on a node. For the null iterator, the iterator constructor (BinaryTree.hpp:222-225) returns from `deep_copy` at once and leaves `_root` uninitialised, as the copy constructor does for an empty tree.
- Successors.PreNext, Successors.InNext and Successors.PostNext (and the corrected increments) require the iterator to be on a node. Incrementing the null iterator dereferences a null pointer in the code.
- BiTree.Find takes a `fuel` bound on the number of increments and reports `Diverges` when the bound runs out. The code has no bound: the fuel makes the endless inorder loop expressible. The `Find*` lemmas state the result for every fuel of at least the node count.
- BiTree.FindPostorder covers only the trees where every sibling descent stops at a leaf. On other trees the as-written walk skips nodes: `Examples.PostorderSkipsNode` shows one. No general statement about what it returns there is proved.
- Integer widths are not modelled. `size_type` counts are unbounded naturals, and counts beyond the range of `std::size_t` cannot arise from trees that fit in memory.
