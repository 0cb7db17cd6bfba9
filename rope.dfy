/** The rope as the program keeps it: heap nodes whose `left` and `right`
    fields the operations rewire in place. Each node owns the nodes below it
    exclusively (`Repr`), and `Model` is the value-level tree it stands for. */
module Ropes {
  import opened RopeTree
  import opened TextEdits

  class Rope {
    var text: string
    var size: int
    var left: Rope?
    var right: Rope?

    ghost var Model: Tree
    ghost var Repr: set<Rope>

    /** The object invariant: the cached size is the text length, the
        children own disjoint footprints that do not contain this node, and
        Model is this node over its children's models. */
    ghost predicate Valid()
      reads this, Repr
      ensures Valid() ==> this in Repr && Model.Node?
      decreases Repr
    {
      this in Repr &&
      size == |text| &&
      (left != null ==>
        left in Repr && left.Repr <= Repr && this !in left.Repr && left.Valid()) &&
      (right != null ==>
        right in Repr && right.Repr <= Repr && this !in right.Repr && right.Valid()) &&
      (left != null && right != null ==> left.Repr !! right.Repr) &&
      Model == Node(if left == null then Nil else left.Model, text, if right == null then Nil else right.Model)
    }

    /** A leaf holding `t`. */
    constructor (t: string)
      ensures Valid() && fresh(Repr)
      ensures text == t && size == |t| && left == null && right == null
      ensures Model == Node(Nil, t, Nil)
    {
      text := t;
      size := |t|;
      left := null;
      right := null;
      Model := Node(Nil, t, Nil);
      Repr := {this};
    }

    /** Recomputes the footprint and the model from the children after one
        of them or the own text changed. */
    ghost method Repair()
      requires size == |text|
      requires left != null ==> left.Valid() && this !in left.Repr
      requires right != null ==> right.Valid() && this !in right.Repr
      requires left != null && right != null ==> left.Repr !! right.Repr
      modifies this`Repr, this`Model
      ensures Valid()
      ensures Repr == {this} + (if left == null then {} else left.Repr) + (if right == null then {} else right.Repr)
      ensures Model == Node(if left == null then Nil else left.Model, text, if right == null then Nil else right.Model)
    {
      Repr := {this} + (if left == null then {} else left.Repr) + (if right == null then {} else right.Repr);
      Model := Node(if left == null then Nil else left.Model, text, if right == null then Nil else right.Model);
    }

    /** to_string: the in-order concatenation of the whole subtree. */
    function ToString(): (s: string)
      reads this, Repr
      requires Valid()
      ensures s == Flatten(Model)
      ensures |s| == TotalSize()
      decreases Repr
    {
      (if left == null then "" else left.ToString())
      + text +
      (if right == null then "" else right.ToString())
    }

    /** total_size: sums the cached sizes, and that is the length of the
        text the subtree stands for. */
    function TotalSize(): (n: int)
      reads this, Repr
      requires Valid()
      ensures n == |Flatten(Model)|
      decreases Repr
    {
      (if left == null then 0 else left.TotalSize())
      + size +
      (if right == null then 0 else right.TotalSize())
    }

    /** depth: one more than the deeper child. */
    function Depth(): (d: int)
      reads this, Repr
      requires Valid()
      ensures d == RopeTree.Depth(Model) && d >= 1
      decreases Repr, 1
    {
      1 + Max(LeftDepth(), RightDepth())
    }

    /** left_depth: 0 without a left child. */
    function LeftDepth(): (d: int)
      reads this, Repr
      requires Valid()
      ensures d == RopeTree.Depth(Model.left)
      decreases Repr, 0
    {
      if left == null then 0 else left.Depth()
    }

    /** right_depth: 0 without a right child. */
    function RightDepth(): (d: int)
      reads this, Repr
      requires Valid()
      ensures d == RopeTree.Depth(Model.right)
      decreases Repr, 0
    {
      if right == null then 0 else right.Depth()
    }

    /** is_balanced: no node below differs in its children's depths by two
        or more. */
    function IsBalanced(): (b: bool)
      reads this, Repr
      requires Valid()
      ensures b <==> forall u :: Subtree(u, Model) ==> LocallyBalanced(u)
      decreases Repr
    {
      var leftBalanced := if left == null then true else left.IsBalanced();
      var rightBalanced := if right == null then true else right.IsBalanced();
      var diff := LeftDepth() - RightDepth();
      BalancedEverywhere(Model);
      BalancedEverywhere(Model.left);
      BalancedEverywhere(Model.right);
      leftBalanced && rightBalanced && -2 < diff < 2
    }

    /** to_dictionary: the structural dump, from which create_rope_from_map
        rebuilds this very tree shape. */
    function ToDictionary(): (d: Dict)
      reads this, Repr
      requires Valid()
      ensures d == ToDict(Model)
      ensures FromDict(d) == Model
      decreases Repr
    {
      FromDictToDict(Model);
      Dict(text,
           if left == null then None else Some(left.ToDictionary()),
           if right == null then None else Some(right.ToDictionary()))
    }
  }

  /** create_rope_from_map: a fresh node per dump entry. */
  method CreateRopeFromMap(m: Dict) returns (rope: Rope)
    ensures rope.Valid() && fresh(rope.Repr)
    ensures rope.Model == FromDict(m)
    decreases m
  {
    rope := new Rope(m.text);
    if m.left.Some? {
      var l := CreateRopeFromMap(m.left.value);
      rope.left := l;
    }
    if m.right.Some? {
      var r := CreateRopeFromMap(m.right.value);
      rope.right := r;
    }
    rope.Repair();
  }

  /** prepend: hangs a new leaf holding `t` at the end of the leftmost chain
      and returns the same root. */
  method Prepend(rope: Rope, t: string) returns (r: Rope)
    requires rope.Valid()
    modifies rope.Repr`left, rope.Repr`Repr, rope.Repr`Model
    ensures r == rope && rope.Valid()
    ensures rope.Model == Prepended(old(rope.Model), t)
    ensures fresh(rope.Repr - old(rope.Repr))
    decreases rope.Repr
  {
    if rope.left != null {
      var _ := Prepend(rope.left, t);
    } else {
      var leaf := new Rope(t);
      rope.left := leaf;
    }
    rope.Repair();
    r := rope;
  }

  /** append: hangs a new leaf holding `t` at the end of the rightmost chain
      and returns the same root. */
  method Append(rope: Rope, t: string) returns (r: Rope)
    requires rope.Valid()
    modifies rope.Repr`right, rope.Repr`Repr, rope.Repr`Model
    ensures r == rope && rope.Valid()
    ensures rope.Model == Appended(old(rope.Model), t)
    ensures fresh(rope.Repr - old(rope.Repr))
    decreases rope.Repr
  {
    if rope.right != null {
      var _ := Append(rope.right, t);
    } else {
      var leaf := new Rope(t);
      rope.right := leaf;
    }
    rope.Repair();
    r := rope;
  }

  /** rotate_left: the right child becomes the root of this subtree. */
  method RotateLeft(rope: Rope) returns (r: Rope)
    requires rope.Valid() && rope.right != null
    modifies rope`right, rope`Repr, rope`Model, rope.right`left, rope.right`Repr, rope.right`Model
    ensures r == old(rope.right) && r.left == rope
    ensures rope.left == old(rope.left) && rope.right == old(r.left)
    ensures r.right == old(r.right)
    ensures rope.text == old(rope.text) && r.text == old(r.text)
    ensures r.Valid() && r.Repr <= old(rope.Repr)
    ensures r.Model == RotatedLeft(old(rope.Model))
  {
    var newParent := rope.right;
    var newLeft := rope;
    newLeft.right := newParent.left;
    newParent.left := newLeft;
    newLeft.Repair();
    newParent.Repair();
    r := newParent;
  }

  /** rotate_right: the left child becomes the root of this subtree. */
  method RotateRight(rope: Rope) returns (r: Rope)
    requires rope.Valid() && rope.left != null
    modifies rope`left, rope`Repr, rope`Model, rope.left`right, rope.left`Repr, rope.left`Model
    ensures r == old(rope.left) && r.right == rope
    ensures rope.right == old(rope.right) && rope.left == old(r.right)
    ensures r.left == old(r.left)
    ensures rope.text == old(rope.text) && r.text == old(r.text)
    ensures r.Valid() && r.Repr <= old(rope.Repr)
    ensures r.Model == RotatedRight(old(rope.Model))
  {
    var newParent := rope.left;
    var newRight := rope;
    newRight.left := newParent.right;
    newParent.right := newRight;
    newRight.Repair();
    newParent.Repair();
    r := newParent;
  }

  /** The part of append that split_at applies to the left subtree: a new
      leaf holding `t` at the end of it, or as the left child when there is
      none. */
  method AppendToLeft(rope: Rope, t: string)
    requires rope.Valid()
    modifies rope.Repr
    ensures rope.Valid() && fresh(rope.Repr - old(rope.Repr))
    ensures rope.Model == old(rope.Model).(left := Appended(old(rope.Model.left), t))
  {
    if rope.left != null {
      var _ := Append(rope.left, t);
    } else {
      var leaf := new Rope(t);
      rope.left := leaf;
    }
    rope.Repair();
  }

  /** The part of prepend that split_at applies to the right subtree. */
  method PrependToRight(rope: Rope, t: string)
    requires rope.Valid()
    modifies rope.Repr
    ensures rope.Valid() && fresh(rope.Repr - old(rope.Repr))
    ensures rope.Model == old(rope.Model).(right := Prepended(old(rope.Model.right), t))
  {
    if rope.right != null {
      var _ := Prepend(rope.right, t);
    } else {
      var leaf := new Rope(t);
      rope.right := leaf;
    }
    rope.Repair();
  }

  /** Replaces the own text of a node, keeping its children. */
  method SetText(rope: Rope, t: string)
    requires rope.Valid()
    modifies rope`text, rope`size, rope`Model
    ensures rope.Valid() && rope.Repr == old(rope.Repr)
    ensures rope.Model == old(rope.Model).(text := t)
  {
    rope.text := t;
    rope.size := |t|;
    rope.Model := rope.Model.(text := t);
  }

  /** split_at: the own text before `position` goes to the end of the left
      subtree and the rest to the front of the right subtree, leaving this
      node an empty junction. */
  method SplitAt(rope: Rope, position: int)
    requires rope.Valid() && 0 <= position <= rope.size
    modifies rope.Repr
    ensures rope.Valid() && fresh(rope.Repr - old(rope.Repr))
    ensures rope.Model == SplitNode(old(rope.Model), position)
  {
    var before, after := rope.text[..position], rope.text[position..];
    AppendToLeft(rope, before);
    PrependToRight(rope, after);
    SetText(rope, "");
  }

  /** insert: walks from the root to the place of `location`, going left on
      a tie with the start of a node's own text, splitting a node whose own
      text the location falls strictly inside. */
  method Insert(rope: Rope, t: string, location: nat) returns (r: Rope)
    requires rope.Valid()
    modifies rope.Repr
    ensures r == rope && rope.Valid() && fresh(rope.Repr - old(rope.Repr))
    ensures rope.Model == Inserted(old(rope.Model), t, location)
    decreases rope.Repr, 1
  {
    var leftSize := if rope.left == null then 0 else rope.left.TotalSize();
    var midEnd := leftSize + rope.size;
    if location <= leftSize {
      InsertIntoLeft(rope, t, location);
    } else if location < midEnd {
      SplitAt(rope, location - leftSize);
      SetText(rope, t);
    } else {
      InsertIntoRight(rope, t, location - midEnd);
    }
    r := rope;
  }

  /** insert into the left subtree, or a new leaf as the left child. */
  method InsertIntoLeft(rope: Rope, t: string, location: nat)
    requires rope.Valid()
    modifies rope.Repr
    ensures rope.Valid() && fresh(rope.Repr - old(rope.Repr))
    ensures rope.Model == old(rope.Model).(left :=
      if old(rope.Model.left).Node? then Inserted(old(rope.Model.left), t, location)
      else Node(Nil, t, Nil))
    decreases rope.Repr, 0
  {
    if rope.left != null {
      var _ := Insert(rope.left, t, location);
    } else {
      var leaf := new Rope(t);
      rope.left := leaf;
    }
    rope.Repair();
  }

  /** insert into the right subtree, or a new leaf as the right child. */
  method InsertIntoRight(rope: Rope, t: string, location: nat)
    requires rope.Valid()
    modifies rope.Repr
    ensures rope.Valid() && fresh(rope.Repr - old(rope.Repr))
    ensures rope.Model == old(rope.Model).(right :=
      if old(rope.Model.right).Node? then Inserted(old(rope.Model.right), t, location)
      else Node(Nil, t, Nil))
    decreases rope.Repr, 0
  {
    if rope.right != null {
      var _ := Insert(rope.right, t, location);
    } else {
      var leaf := new Rope(t);
      rope.right := leaf;
    }
    rope.Repair();
  }

  /** delete_range: edits the left subtree, the own text and the right
      subtree wherever the range intersects their spans, which are measured
      once before any of them changes; offsets are shifted into the right
      subtree's frame. */
  method DeleteRange(rope: Rope, start: int, end: int) returns (r: Rope)
    requires rope.Valid()
    modifies rope.Repr`text, rope.Repr`size, rope.Repr`Repr, rope.Repr`Model
    ensures r == rope && rope.Valid() && rope.Repr <= old(rope.Repr)
    ensures rope.Model == RangeDeleted(old(rope.Model), start, end)
    decreases rope.Repr, 2
  {
    ghost var m := rope.Model;
    var leftSize := if rope.left == null then 0 else rope.left.TotalSize();
    var midEnd := leftSize + rope.size;
    assert leftSize == |Flatten(m.left)| && midEnd == leftSize + |m.text|;
    DeleteFromLeft(rope, start, end);
    ghost var l := DeletedChild(m.left, 0, start, end);
    assert rope.Model == Node(l, m.text, m.right);
    DeleteFromText(rope, leftSize, start, end);
    ghost var x := DeletedText(m.text, leftSize, start, end);
    assert rope.Model == Node(l, x, m.right);
    DeleteFromRight(rope, midEnd, start, end);
    assert rope.Model == Node(l, x, DeletedChild(m.right, midEnd, start, end));
    r := rope;
  }

  /** The left-subtree step of delete_range: the left child, which spans
      from offset 0, is visited when it exists and the range intersects its
      span. */
  method DeleteFromLeft(rope: Rope, start: int, end: int)
    requires rope.Valid()
    modifies rope.Repr`text, rope.Repr`size, rope.Repr`Repr, rope.Repr`Model
    ensures rope.Valid() && rope.Repr <= old(rope.Repr)
    ensures rope.Model == Node(DeletedChild(old(rope.Model.left), 0, start, end), old(rope.Model.text), old(rope.Model.right))
    decreases rope.Repr, 1
  {
    if rope.left != null && Intersects(start, end, 0, 0 + rope.left.TotalSize()) {
      var _ := DeleteRange(rope.left, start - 0, end - 0);
      rope.Repair();
    }
  }

  /** The own-text step of delete_range for a node whose text starts at
      offset `lo`: the overlap is cut out, with both cut points clamped to
      the text. */
  method DeleteFromText(rope: Rope, lo: int, start: int, end: int)
    requires rope.Valid()
    modifies rope`text, rope`size, rope`Model
    ensures rope.Valid() && rope.Repr == old(rope.Repr)
    ensures rope.Model == Node(old(rope.Model.left), DeletedText(old(rope.Model.text), lo, start, end), old(rope.Model.right))
  {
    if Intersects(start, end, lo, lo + rope.size) {
      SetText(rope, rope.text[..Clamp(start - lo, rope.size)] + rope.text[Clamp(end - lo, rope.size)..]);
    }
  }

  /** The right-subtree step of delete_range for a right child spanning from
      offset `lo`: visited when it exists and the range intersects its span,
      with the offsets shifted into its frame. */
  method DeleteFromRight(rope: Rope, lo: int, start: int, end: int)
    requires rope.Valid()
    modifies rope.Repr`text, rope.Repr`size, rope.Repr`Repr, rope.Repr`Model
    ensures rope.Valid() && rope.Repr <= old(rope.Repr)
    ensures rope.Model == Node(old(rope.Model.left), old(rope.Model.text), DeletedChild(old(rope.Model.right), lo, start, end))
    decreases rope.Repr, 1
  {
    if rope.right != null && Intersects(start, end, lo, lo + rope.right.TotalSize()) {
      var _ := DeleteRange(rope.right, start - lo, end - lo);
      rope.Repair();
    }
  }
}
