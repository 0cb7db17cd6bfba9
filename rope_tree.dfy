/** The value-level view of a rope: the shape of the node tree, the text it
    stands for, its depth and balance, the structural dump, and the
    tree-level effect of every pointer-rewiring operation. The heap model in
    module Ropes is proved against these definitions. */
module RopeTree {
  import opened TextEdits

  datatype Option<T> = None | Some(value: T)

  /** A rope node with optional children; `Nil` is an absent child. Every
      node carries its own text chunk, not only the leaves. */
  datatype Tree = Nil | Node(left: Tree, text: string, right: Tree)

  /** The structural dump: a node's text and, when present, the dumps of its
      children. A dump without a text field cannot be written down. */
  datatype Dict = Dict(text: string, left: Option<Dict>, right: Option<Dict>)

  function Max(a: int, b: int): int { if a < b then b else a }

  /** The text a tree stands for: left subtree, own text, right subtree. */
  ghost function Flatten(t: Tree): string
  {
    match t
    case Nil => ""
    case Node(l, s, r) => Flatten(l) + s + Flatten(r)
  }

  /** The own texts of all nodes, in order. */
  ghost function Texts(t: Tree): seq<string>
  {
    match t
    case Nil => []
    case Node(l, s, r) => Texts(l) + [s] + Texts(r)
  }

  /** Concatenation of a list of chunks. */
  ghost function Concat(chunks: seq<string>): string
  {
    if chunks == [] then "" else chunks[0] + Concat(chunks[1..])
  }

  /** Number of nodes on the longest downward path; 0 for an absent child. */
  ghost function Depth(t: Tree): (d: nat)
    ensures d == 0 <==> t.Nil?
  {
    match t
    case Nil => 0
    case Node(l, _, r) => 1 + Max(Depth(l), Depth(r))
  }

  /** The two children of this one node differ in depth by less than two. */
  ghost predicate LocallyBalanced(t: Tree)
  {
    t.Nil? || -2 < Depth(t.left) - Depth(t.right) < 2
  }

  /** The recursive balance test: both children balanced and this node too. */
  ghost predicate Balanced(t: Tree)
  {
    match t
    case Nil => true
    case Node(l, _, r) => Balanced(l) && Balanced(r) && LocallyBalanced(t)
  }

  /** `u` is `t` itself or a subtree hanging somewhere below it. */
  ghost predicate Subtree(u: Tree, t: Tree)
  {
    u == t || (t.Node? && (Subtree(u, t.left) || Subtree(u, t.right)))
  }

  lemma {:induction false} SubtreeOfChild(u: Tree, t: Tree)
    requires t.Node?
    requires Subtree(u, t.left) || Subtree(u, t.right)
    ensures Subtree(u, t)
  {
  }

  /** The recursive balance test means: every node in the tree is locally
      balanced. */
  lemma {:induction false} BalancedEverywhere(t: Tree)
    ensures Balanced(t) <==> forall u :: Subtree(u, t) ==> LocallyBalanced(u)
  {
    match t
    case Nil =>
      forall u | Subtree(u, t) ensures LocallyBalanced(u) {
        assert u == Nil;
      }
    case Node(l, _, r) =>
      BalancedEverywhere(l);
      BalancedEverywhere(r);
      if Balanced(t) {
        forall u | Subtree(u, t) ensures LocallyBalanced(u) {
          if u != t {
            assert Subtree(u, l) || Subtree(u, r);
          }
        }
      }
      if forall u :: Subtree(u, t) ==> LocallyBalanced(u) {
        forall u | Subtree(u, l) ensures LocallyBalanced(u) {
          SubtreeOfChild(u, t);
        }
        forall u | Subtree(u, r) ensures LocallyBalanced(u) {
          SubtreeOfChild(u, t);
        }
        assert Subtree(t, t);
      }
  }

  /** The text is the concatenation of the nodes' own texts in order. */
  lemma {:induction false} FlattenIsConcatOfTexts(t: Tree)
    ensures Flatten(t) == Concat(Texts(t))
  {
    match t
    case Nil =>
    case Node(l, s, r) =>
      FlattenIsConcatOfTexts(l);
      FlattenIsConcatOfTexts(r);
      ConcatAppend(Texts(l), [s] + Texts(r));
      ConcatAppend([s], Texts(r));
      assert Texts(t) == Texts(l) + ([s] + Texts(r));
      assert Concat([s]) == s by {
        assert [s][1..] == [];
      }
  }

  lemma {:induction false} ConcatAppend(a: seq<string>, b: seq<string>)
    ensures Concat(a + b) == Concat(a) + Concat(b)
  {
    if a == [] {
      assert a + b == b;
    } else {
      assert (a + b)[1..] == a[1..] + b;
      ConcatAppend(a[1..], b);
    }
  }

  lemma FlattenNode(t: Tree)
    requires t.Node?
    ensures Flatten(t) == Flatten(t.left) + t.text + Flatten(t.right)
  {
  }

  /** prepend: a new leaf hung in the first empty slot of the leftmost
      chain. */
  ghost function Prepended(t: Tree, s: string): (r: Tree)
    ensures r.Node?
    ensures Flatten(r) == s + Flatten(t)
    ensures Texts(r) == [s] + Texts(t)
  {
    match t
    case Nil => Node(Nil, s, Nil)
    case Node(l, x, rt) => Node(Prepended(l, s), x, rt)
  }

  /** append: a new leaf hung in the first empty slot of the rightmost
      chain. */
  ghost function Appended(t: Tree, s: string): (r: Tree)
    ensures r.Node?
    ensures Flatten(r) == Flatten(t) + s
    ensures Texts(r) == Texts(t) + [s]
  {
    match t
    case Nil => Node(Nil, s, Nil)
    case Node(l, x, rt) => Node(l, x, Appended(rt, s))
  }

  /** The root keeps its text and its right subtree, and the leftmost chain
      now ends in a leaf holding `s`. */
  lemma {:induction false} PrependedShape(t: Tree, s: string)
    requires t.Node?
    ensures Prepended(t, s).text == t.text && Prepended(t, s).right == t.right
    ensures LeftmostNode(Prepended(t, s)) == Node(Nil, s, Nil)
  {
    if t.left.Node? {
      PrependedShape(t.left, s);
    }
  }

  /** The root keeps its text and its left subtree, and the rightmost chain
      now ends in a leaf holding `s`. */
  lemma {:induction false} AppendedShape(t: Tree, s: string)
    requires t.Node?
    ensures Appended(t, s).text == t.text && Appended(t, s).left == t.left
    ensures RightmostNode(Appended(t, s)) == Node(Nil, s, Nil)
  {
    if t.right.Node? {
      AppendedShape(t.right, s);
    }
  }

  ghost function LeftmostNode(t: Tree): Tree
    requires t.Node?
  {
    if t.left.Nil? then t else LeftmostNode(t.left)
  }

  ghost function RightmostNode(t: Tree): Tree
    requires t.Node?
  {
    if t.right.Nil? then t else RightmostNode(t.right)
  }

  /** rotate_left: the right child becomes the root, the old root its left
      child, and the pivot's former left child the old root's right child. */
  ghost function RotatedLeft(t: Tree): (r: Tree)
    requires t.Node? && t.right.Node?
    ensures r.Node? && r.left.Node?
    ensures Flatten(r) == Flatten(t)
    ensures Texts(r) == Texts(t)
  {
    Node(Node(t.left, t.text, t.right.left), t.right.text, t.right.right)
  }

  /** rotate_right: the mirror image of RotatedLeft. */
  ghost function RotatedRight(t: Tree): (r: Tree)
    requires t.Node? && t.left.Node?
    ensures r.Node? && r.right.Node?
    ensures Flatten(r) == Flatten(t)
    ensures Texts(r) == Texts(t)
  {
    Node(t.left.left, t.left.text, Node(t.left.right, t.text, t.right))
  }

  /** The two rotations undo each other on the same pivot pair. */
  lemma RotationsInverse(t: Tree)
    ensures t.Node? && t.right.Node? ==> RotatedRight(RotatedLeft(t)) == t
    ensures t.Node? && t.left.Node? ==> RotatedLeft(RotatedRight(t)) == t
  {
  }

  /** split_at: the own text before `position` is appended to the left
      subtree, the rest prepended to the right subtree, and the node keeps
      an empty text. */
  ghost function SplitNode(t: Tree, position: nat): (r: Tree)
    requires t.Node? && position <= |t.text|
    ensures r.Node? && r.text == "" && r.left.Node? && r.right.Node?
  {
    Node(Appended(t.left, t.text[..position]), "", Prepended(t.right, t.text[position..]))
  }

  /** An empty junction over `before` appended to `l` and `after`
      prepended to `r` stands for l, before, after, r in that order. */
  lemma JunctionText(l: Tree, before: string, after: string, r: Tree)
    ensures Flatten(Node(Appended(l, before), "", Prepended(r, after)))
         == Flatten(l) + (before + after) + Flatten(r)
  {
    Regroup(Flatten(l), before, after, Flatten(r));
  }

  /** A junction over any two pieces that make up the own text stands for
      the text of the node. */
  lemma JunctionKeepsText(t: Tree, before: string, after: string)
    requires t.Node? && before + after == t.text
    ensures Flatten(Node(Appended(t.left, before), "", Prepended(t.right, after))) == Flatten(t)
  {
    JunctionText(t.left, before, after, t.right);
    FlattenNode(t);
  }

  /** split_at keeps the text: the two halves of the own text sit at the
      end of the left subtree and the front of the right one. */
  lemma SplitNodeText(t: Tree, position: nat)
    requires t.Node? && position <= |t.text|
    ensures Flatten(SplitNode(t, position)) == Flatten(t)
  {
    var before, after := t.text[..position], t.text[position..];
    assert before + after == t.text;
    JunctionKeepsText(t, before, after);
  }

  /** insert, as a walk from the root: a location up to the end of the left
      subtree goes left (a new leaf when there is no left child), one
      strictly inside the own text splits the node and makes `s` its text,
      and any other goes right with the location shifted (a new leaf when
      there is no right child). */
  ghost function Inserted(t: Tree, s: string, location: nat): (r: Tree)
    requires t.Node?
    ensures r.Node?
  {
    var leftSize := |Flatten(t.left)|;
    var midEnd := leftSize + |t.text|;
    if location <= leftSize then
      Node(if t.left.Node? then Inserted(t.left, s, location) else Node(Nil, s, Nil),
           t.text, t.right)
    else if location < midEnd then
      SplitNode(t, location - leftSize).(text := s)
    else
      Node(t.left, t.text,
           if t.right.Node? then Inserted(t.right, s, location - midEnd) else Node(Nil, s, Nil))
  }

  /** insert puts `s` at `location` of the subtree's text; a location past
      the end appends. */
  lemma {:induction false} InsertedText(t: Tree, s: string, location: nat)
    requires t.Node?
    ensures Flatten(Inserted(t, s, location)) == Spliced(Flatten(t), s, location)
  {
    var a, b, c := Flatten(t.left), t.text, Flatten(t.right);
    var r := Inserted(t, s, location);
    FlattenNode(t);
    FlattenNode(r);
    if location <= |a| {
      SplicedInFirst(a, b, c, s, location);
      if t.left.Node? {
        InsertedText(t.left, s, location);
      }
    } else if location < |a| + |b| {
      SplicedInMiddle(a, b, c, s, location);
      SplitNodeText(t, location - |a|);
    } else {
      SplicedInLast(a, b, c, s, location);
      if t.right.Node? {
        InsertedText(t.right, s, location - |a| - |b|);
      }
    }
  }

  /** delete_range, as a walk from the root: each of the left subtree, the
      own text and the right subtree is edited only when the range
      intersects its span, with offsets shifted into the right subtree's
      frame and clamped to the own text. No node is ever removed. */
  ghost function RangeDeleted(t: Tree, start: int, end: int): (r: Tree)
    requires t.Node?
    ensures r.Node?
    decreases t, 0
  {
    var leftSize := |Flatten(t.left)|;
    var midEnd := leftSize + |t.text|;
    Node(DeletedChild(t.left, 0, start, end),
         DeletedText(t.text, leftSize, start, end),
         DeletedChild(t.right, midEnd, start, end))
  }

  /** A child spanning `[lo, lo + its length]` of its parent's text: visited
      only when it exists and the range intersects that span. */
  ghost function DeletedChild(p: Tree, lo: int, start: int, end: int): (r: Tree)
    ensures r.Node? <==> p.Node?
    decreases p, 1
  {
    if p.Node? && Intersects(start, end, lo, lo + |Flatten(p)|)
    then RangeDeleted(p, start - lo, end - lo)
    else p
  }

  /** delete_range removes exactly the characters in `[start, end)` of the
      subtree's text, with offsets clamped to it. */
  lemma {:induction false} RangeDeletedText(t: Tree, start: int, end: int)
    requires t.Node? && start <= end
    ensures Flatten(RangeDeleted(t, start, end)) == Cut(Flatten(t), start, end)
    decreases t, 2
  {
    var r := RangeDeleted(t, start, end);
    LeftPartText(t, start, end);
    OwnPartText(t, start, end);
    RightPartText(t, start, end);
    FlattenNode(r);
    FlattenNode(t);
    JoinCuts(Flatten(r.left), r.text, Flatten(r.right), Flatten(t.left), t.text, Flatten(t.right), start, end);
  }

  lemma {:induction false} LeftPartText(t: Tree, start: int, end: int)
    requires t.Node? && start <= end
    ensures Flatten(RangeDeleted(t, start, end).left) == Cut(Flatten(t.left), start, end)
    decreases t, 1
  {
    DeletedChildText(t.left, 0, start, end);
  }

  lemma OwnPartText(t: Tree, start: int, end: int)
    requires t.Node? && start <= end
    ensures RangeDeleted(t, start, end).text ==
            Cut(t.text, start - |Flatten(t.left)|, end - |Flatten(t.left)|)
  {
    var lo := |Flatten(t.left)|;
    if !Intersects(start, end, lo, lo + |t.text|) {
      SkippedPart(t.text, lo, start, end);
    }
  }

  lemma {:induction false} RightPartText(t: Tree, start: int, end: int)
    requires t.Node? && start <= end
    ensures Flatten(RangeDeleted(t, start, end).right) ==
            Cut(Flatten(t.right), start - |Flatten(t.left)| - |t.text|, end - |Flatten(t.left)| - |t.text|)
    decreases t, 1
  {
    DeletedChildText(t.right, |Flatten(t.left)| + |t.text|, start, end);
  }

  /** Visited or skipped, a child's text is its text cut in its own frame. */
  lemma {:induction false} DeletedChildText(p: Tree, lo: int, start: int, end: int)
    requires start <= end
    ensures Flatten(DeletedChild(p, lo, start, end)) == Cut(Flatten(p), start - lo, end - lo)
    decreases p, 3
  {
    if p.Node? && Intersects(start, end, lo, lo + |Flatten(p)|) {
      RangeDeletedText(p, start - lo, end - lo);
    } else if p.Node? {
      SkippedPart(Flatten(p), lo, start, end);
    }
  }

  /** delete_range never adds or removes a node: the tree keeps as many
      chunks as it had, some of them possibly emptied. */
  lemma {:induction false} RangeDeletedKeepsChunks(t: Tree, start: int, end: int)
    requires t.Node?
    ensures |Texts(RangeDeleted(t, start, end))| == |Texts(t)|
    decreases t, 1
  {
    DeletedChildKeepsChunks(t.left, 0, start, end);
    DeletedChildKeepsChunks(t.right, |Flatten(t.left)| + |t.text|, start, end);
  }

  lemma {:induction false} DeletedChildKeepsChunks(p: Tree, lo: int, start: int, end: int)
    ensures |Texts(DeletedChild(p, lo, start, end))| == |Texts(p)|
    decreases p, 2
  {
    if p.Node? && Intersects(start, end, lo, lo + |Flatten(p)|) {
      RangeDeletedKeepsChunks(p, start - lo, end - lo);
    }
  }

  /** Inserting `s` at `location` and then deleting the range it occupies
      gives back the text of the tree. */
  lemma InsertThenDelete(t: Tree, s: string, location: nat)
    requires t.Node? && location <= |Flatten(t)|
    ensures Flatten(RangeDeleted(Inserted(t, s, location), location, location + |s|)) == Flatten(t)
  {
    InsertedText(t, s, location);
    RangeDeletedText(Inserted(t, s, location), location, location + |s|);
    CutUndoesSplice(Flatten(t), s, location);
  }

  /** create_rope_from_map on the value level: a node per dump entry. */
  ghost function FromDict(d: Dict): (t: Tree)
    ensures t.Node? && t.text == d.text
  {
    Node(if d.left.Some? then FromDict(d.left.value) else Nil,
         d.text,
         if d.right.Some? then FromDict(d.right.value) else Nil)
  }

  /** to_dictionary on the value level. */
  ghost function ToDict(t: Tree): (d: Dict)
    requires t.Node?
    ensures d.text == t.text
    ensures d.left.Some? <==> t.left.Node?
    ensures d.right.Some? <==> t.right.Node?
  {
    Dict(t.text,
         if t.left.Node? then Some(ToDict(t.left)) else None,
         if t.right.Node? then Some(ToDict(t.right)) else None)
  }

  /** Rebuilding from the dump gives back the same tree. */
  lemma {:induction false} FromDictToDict(t: Tree)
    requires t.Node?
    ensures FromDict(ToDict(t)) == t
  {
    if t.left.Node? { FromDictToDict(t.left); }
    if t.right.Node? { FromDictToDict(t.right); }
  }

  /** Dumping a rebuilt tree gives back the same dump. */
  lemma {:induction false} ToDictFromDict(d: Dict)
    ensures ToDict(FromDict(d)) == d
  {
    if d.left.Some? { ToDictFromDict(d.left.value); }
    if d.right.Some? { ToDictFromDict(d.right.value); }
  }
}
