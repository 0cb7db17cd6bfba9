# Rope model

A rope is a binary tree of text chunks. Every node holds its own text, its
cached length (`size`) and optional `left` and `right` children. The string a
node stands for is the in-order concatenation: left subtree, own text, right
subtree. `rope.py` implements:

- the read-only queries `to_string`, `total_size`, `depth`, `left_depth`,
  `right_depth`, `is_balanced` and `to_dictionary`;
- `create_rope_from_map`;
- the in-place edge growth `prepend` and `append`;
- the pointer rotations `rotate_left` and `rotate_right`.

`split_at`, `insert`, `delete_range` and `rebalance` are stubs in `rope.py`:
`insert`, `delete_range` and `rebalance` return the rope unchanged, and
`split_at` returns an empty list. The model implements their intended
behaviour instead, held to the results that `rope_test.py` asserts:

- `insert` and `delete_range` are each a node walk. Each node is handled as
  three spans: left subtree, own text, right subtree.
  - `insert` goes left when the location is at or before the end of the left
    subtree, and right when it is at or after the end of the own text.
  - Otherwise `insert` splits the node with `split_at` and makes the new
    text the node's own text.
  - `delete_range` edits each span that the range intersects, by a
    touching-inclusive `Intersects` test.
  - Offsets for the right subtree are shifted into its own frame.
- For `rebalance`, the model builds a rope that is balanced and has the
  same text.

The project has five modules:

- `TextEdits` (`text_edits.dfy`) holds the string-level meaning of insert and
  delete. `Spliced(s, t, loc)` puts `t` at `loc`. `Cut(s, start, end)`
  removes `[start, end)`. Out-of-range offsets are clamped into the text by
  `Clamp`:
  - A negative offset becomes 0, by an explicit `max(x, 0)` applied before
    slicing. (A negative Python slice bound would count from the end.)
  - An offset past the end becomes the length. That half matches what a
    Python slice bound does by itself.

  The module also holds the touching-inclusive `Intersects` test, which
  `delete_range` applies to each of a node's three spans to decide which to
  visit, and the splitting facts that the per-node proofs are built from.
- `RopeTree` (`rope_tree.dfy`) is the value-level tree, `Tree = Nil |
  Node(left, text, right)`.
  - `Flatten` stands for `to_string`; `Depth` and `Balanced` for the depth
    and balance queries.
  - `Dict` is the structural dump, with `FromDict` and `ToDict`.
  - There is one pure function per operation: `Prepended`, `Appended`,
    `RotatedLeft`, `RotatedRight`, `SplitNode`, `Inserted` and
    `RangeDeleted`.
  - Lemmas state what each operation does to the text.
- `Ropes` (`rope.dfy`) is the heap model.
  - `class Rope` has the source's fields `text`, `size`, `left` and `right`.
  - A ghost footprint `Repr` makes every node own its subtree exclusively.
  - A ghost `Model` is the `Tree` the node stands for.
  - The query functions are proved equal to their `RopeTree` counterparts.
  - Every mutating method is proved to turn `Model` into the matching pure
    function of the old `Model`.
  - The `modifies` frames name only the fields each operation writes:
    `prepend` touches only `left` links and `append` only `right` links.
    Neither changes any node's `text` or `size`.
- `RopeRebalance` (`rope_rebalance.dfy`) holds `rebalance`. The chunks are
  collected in order and rebuilt into a tree with the middle chunk at every
  root.
- `RopeScenarios` (`rope_scenarios.dfy`) replays the unit tests.
  - The prepend, append, insert, delete and rotation tests are replayed as
    methods on the heap model. The verifier proves their asserts of the
    strings and dumps the tests expect.
  - The commented-out rebalancing cases are value-level lemmas about
    `Rebalanced`.

## Model

| member | source | states |
|---|---|---|
| Ropes.Rope.constructor | rope.py:5-9 | a fresh single node with the given text, `size` equal to its length and no children; it stands for exactly that text |
| Ropes.Rope.ToString | rope.py:25-28 | the text of the rope is the in-order text of its model tree, and its length is `total_size()` |
| Ropes.Rope.TotalSize | rope.py:30-35 | the sum of the cached sizes is the length of the text the rope stands for |
| Ropes.Rope.Depth | rope.py:37-39 | the depth is the tree depth of the model, and at least 1 for a node |
| Ropes.Rope.LeftDepth | rope.py:49-52 | the depth of the left subtree, 0 when there is none |
| Ropes.Rope.RightDepth | rope.py:54-57 | the depth of the right subtree, 0 when there is none |
| Ropes.Rope.IsBalanced | rope.py:41-47 | true exactly when every node in the tree has children whose depths differ by less than two |
| Ropes.Rope.ToDictionary | rope.py:59-70 | the dump is the value-level dump of the model, and rebuilding from it restores the model exactly |
| Ropes.CreateRopeFromMap | rope.py:72-78 | a rope of fresh, exclusively owned nodes whose shape and texts are those of the dump |
| Ropes.Prepend | rope.py:80-86 | returns the same root; the model becomes `Prepended` of the old model; only `left` links change, so no existing node's text or size changes |
| Ropes.Append | rope.py:88-94 | returns the same root; the model becomes `Appended` of the old model; only `right` links change |
| Ropes.RotateLeft | rope.py:129-135 | needs a right child; returns the old right child with the old root as its left child, and moves the pivot's former left child to the old root's right |
| Ropes.RotateRight | rope.py:153-159 | the mirror image of RotateLeft, pivoting on the left child |
| Ropes.SplitAt | rope.py:96-100 | with `0 <= position <= size`, the model becomes `SplitNode` of the old model: the part of the own text before `position` ends the left subtree, the rest starts the right subtree, and the node's text becomes empty |
| Ropes.Insert | rope.py:106-108 | the model becomes `Inserted` of the old model; a location exactly at the start of a node's own text goes to the left subtree |
| Ropes.DeleteRange | rope.py:102-104 | the model becomes `RangeDeleted` of the old model; no node is added, removed or re-linked |
| RopeTree.Flatten | rope.py:25-28 | the text a tree stands for: left subtree, own text, right subtree; FlattenIsConcatOfTexts relates it to the nodes' own texts |
| RopeTree.Depth | rope.py:37-57 | the number of nodes on the longest downward path, 0 exactly for an absent child |
| RopeTree.Balanced | rope.py:41-47 | the recursive balance test; BalancedEverywhere states what it means |
| RopeTree.FromDict | rope.py:72-78 | a node per dump entry; the root is a node carrying the dump's text |
| RopeTree.ToDict | rope.py:62-70 | the dump of a tree carries the root's text, and has a left or right entry exactly when the tree has that child |
| RopeTree.SplitNode | rope.py:96-100 | a split node is an empty junction with a left and a right child; SplitNodeText states that the text is kept |
| RopeTree.Inserted | rope.py:106-108 | the insert walk always yields a node; InsertedText states the resulting text |
| RopeTree.RangeDeleted | rope.py:102-104 | the delete walk always yields a node; RangeDeletedText states the resulting text |
| RopeTree.DeletedChild | rope.py:102-104 | a child is visited only when it exists and the range intersects its span; the result is present exactly when the child was |
| TextEdits.DeletedText | rope.py:102-104 | the own-text step of delete_range, changed only when the range intersects the text's span; for an ordered range it never grows |
| RopeTree.RangeDeletedKeepsChunks | rope.py:102-104 | delete_range never adds or removes a node: the number of chunks stays the same |
| RopeTree.Prepended | rope.py:80-86 | the text becomes `t` followed by the old text, and the chunk list gains `t` at the front |
| RopeTree.Appended | rope.py:88-94 | the text becomes the old text followed by `t`, and the chunk list gains `t` at the end |
| RopeTree.PrependedShape | rope.py:80-86 | the root keeps its own text and right subtree, and the leftmost chain now ends in a new leaf holding `t` |
| RopeTree.AppendedShape | rope.py:88-94 | the root keeps its own text and left subtree, and the rightmost chain now ends in a new leaf holding `t` |
| RopeTree.RotatedLeft | rope.py:114-135 | a left rotation keeps the text and the order of the chunks |
| RopeTree.RotatedRight | rope.py:137-159 | a right rotation keeps the text and the order of the chunks |
| RopeTree.RotationsInverse | rope.py:129-159 | a right rotation undoes a left rotation on the same pivot pair, and the other way round |
| RopeTree.BalancedEverywhere | rope.py:41-47 | the recursive balance test holds exactly when every node is locally balanced |
| RopeTree.FlattenIsConcatOfTexts | rope.py:25-28 | the text of a tree is the concatenation of its nodes' own texts in order |
| RopeTree.SplitNodeText | rope.py:96-100 | splitting a node keeps the text of its subtree |
| RopeTree.InsertedText | rope_test.py:44-56 | after insert the text is the old text with `t` spliced in at `location`; a location past the end appends |
| RopeTree.RangeDeletedText | rope_test.py:24-42 | when `start <= end`, delete_range removes exactly the characters in `[start, end)`, with both offsets clamped to the text, so an end past the end deletes to the end |
| RopeTree.InsertThenDelete | rope.py:102-108 | inserting `t` and then deleting the range it occupies gives back the original text |
| RopeTree.FromDictToDict | rope.py:62-78 | rebuilding a tree from its dump gives back the same tree |
| RopeTree.ToDictFromDict | rope.py:62-78 | dumping a tree rebuilt from a dump gives back the same dump |
| TextEdits.IntersectsMeansSharedPoint | rope.py:102-104 | the range test delete_range uses for visiting a node: two ranges intersect exactly when their closed hulls share a point, so ranges that merely touch count |
| TextEdits.CutUndoesSplice | rope.py:102-108 | on strings, cutting out the range a splice inserted gives back the original text |
| TextEdits.CutAppend | rope.py:102-104 | deleting a range from a concatenation deletes from each part, in that part's own frame |
| RopeRebalance.Rebalanced | rope.py:110-112 | the result has the same chunks in the same order and the same text, every node is locally balanced, and it is no deeper than the input |
| RopeRebalance.BuildBalanced | rope.py:110-112 | the middle-chunk tree over `n` chunks is balanced, and its depth is `Height(n)`, about log2 of `n` |
| RopeRebalance.HeightIsMinimal | rope.py:110-112 | no tree over `n` chunks is shallower than `Height(n)`, the depth of the middle-chunk tree |
| RopeRebalance.CollectChunks | rope.py:110-112 | returns the nodes' own texts in order |
| RopeRebalance.Rebalance | rope.py:110-112 | returns a rope of fresh nodes whose model is `Rebalanced` of the old model |
| RopeScenarios.MakeDeepRope | rope_test.py:6-13 | builds the deep test rope: "345" with "012" on the left and "7" with "6", "8", "9" on the right, standing for "0123456789" |
| RopeScenarios.OnLeafPrepend | rope_test.py:20 | prepend on a single node gives `t` followed by the node's text |
| RopeScenarios.OnLeafAppend | rope_test.py:21-22 | append on a single node gives the text followed by `t`, and the total size is the sum of both lengths |
| RopeScenarios.OnLeafDeletion | rope_test.py:24-27 | delete_range on a single node gives the text with the range cut out |
| RopeScenarios.OnLeafInsertion | rope_test.py:44-47 | insert on a single node gives the text with `t` spliced in |
| RopeScenarios.DeepDeletion | rope_test.py:29-42 | delete_range on the deep rope gives "0123456789" with the range cut out; the test cases follow from it |
| RopeScenarios.DeepInsertion | rope_test.py:49-56 | insert on the deep rope gives "0123456789" with `t` spliced in; the test cases follow from it |
| RopeScenarios.RebalancedOverABC | rope_test.py:94-98 | any tree over the chunks "a", "b", "c" is rebalanced into "b" over the leaves "a" and "c" |
| RopeScenarios.RebalanceLeftRightChain | rope_test.py:100-103 | rebalancing "c" over "a" with right child "b" gives the balanced tree |
| RopeScenarios.RebalanceLeftChain | rope_test.py:104-107 | rebalancing the left chain "c", "b", "a" gives the balanced tree |
| RopeScenarios.RebalanceRightChain | rope_test.py:108-111 | rebalancing the right chain "a", "b", "c" gives the balanced tree |
| RopeScenarios.RebalanceRightLeftChain | rope_test.py:112-115 | rebalancing "a" over "c" with left child "b" gives the balanced tree |
| RopeScenarios.InsertAtBoundaryGoesLeft | rope.py:106-108 | an insertion exactly at the start of a node's own text goes to the end of its left subtree |

The scenario methods `RopeScenarios.RopeBasics`, `Deletion`,
`DeletionDeeper`, `Insertion`, `InsertionDeeper` and `Rotations` replay
`rope_test.py:18-92`. They assert each expected string and dump as a
statement in their bodies.

## Left out

- `to_string_debug` (rope.py:19-22) is a debugging pretty-printer with no
  contract, so it is not modelled.
- The dump is a recursive datatype rather than a `Dict[str, Any]`. A map
  without a `text` entry, or with entries of the wrong type, cannot be
  written down, so `create_rope_from_map` has no error path.
- `split_at`, `insert`, `delete_range` and `rebalance` are stubs in
  `rope.py`: `insert`, `delete_range` and `rebalance` return the rope
  unchanged, and `split_at` returns an empty list. The model gives the
  behaviour that `rope_test.py` asserts, not that of the stubs.
- Ropes.SplitAt: returns nothing rather than a `[newLeft, right]` list. It
  changes the node in place; that freedom is one the stub's own comment
  allows.
- RopeTree.RangeDeletedText: requires `start <= end`. For a reversed range
  the string-level `Cut` would repeat characters rather than delete any.
  Neither the source nor its tests say what a reversed range should do.
  The node walk `RangeDeleted` itself accepts any pair of offsets.
- RopeRebalance.Rebalance: returns a new tree built from fresh nodes over
  the same chunks, rather than rotating nodes in place. Its contract is
  that every node is balanced, the text is unchanged and the depth does not
  grow. The exact shape an in-place rotation pass would leave behind is not
  modelled.
  - The model does not use a rotate-then-descend heuristic, one that
    rotates at a node whose children's depths differ by two or more and
    then rebalances the children. Such a heuristic does not always reach
    balance.
  - Example: a node whose left subtree is a chain of depth 3 and whose
    right subtree is balanced with depth 4. The node itself passes the
    test, so only its subtrees are fixed. The left subtree then has depth 2
    against 4, and the node is not looked at again.
- RopeScenarios.MakeDeepRope: attaches the right child after growing it
  with prepend and append, instead of growing it in place under the root.
  The resulting tree is the same.
- Offsets and sizes are unbounded integers. Python integers do not
  overflow, so nothing is lost.
- Text is a sequence of characters, with no Unicode or grapheme handling.
- Running time is not modelled; only functional contracts are stated.
- The source has no concurrency, so none is modelled.
