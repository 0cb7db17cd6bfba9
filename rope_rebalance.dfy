/** rebalance: the rope is rebuilt over the same sequence of node texts with
    the middle chunk at every root, which makes it balanced, keeps its text,
    and never makes it deeper. */
module RopeRebalance {
  import opened RopeTree
  import opened Ropes

  /** The depth of the tree Build makes over `n` chunks. */
  ghost function Height(n: nat): nat
  {
    if n == 0 then 0 else 1 + Height(n / 2)
  }

  lemma {:induction false} HeightMonotone(a: nat, b: nat)
    requires a <= b
    ensures Height(a) <= Height(b)
    decreases b
  {
    if a != 0 {
      HeightMonotone(a / 2, b / 2);
    }
  }

  /** One more chunk adds at most one level. */
  lemma {:induction false} HeightStep(m: nat)
    ensures Height(m + 1) <= Height(m) + 1
    decreases m
  {
    if m != 0 {
      var half := m / 2;
      assert (m + 1) / 2 <= half + 1 && half < m;
      HeightStep(half);
      HeightMonotone((m + 1) / 2, half + 1);
    }
  }

  /** Splitting `n` chunks around the middle one leaves halves whose
      heights differ by at most one, the left one the taller. */
  lemma MiddleSplit(n: nat)
    requires n != 0
    ensures Height(n) == 1 + Height(n / 2)
    ensures Height(n - n / 2 - 1) <= Height(n / 2) <= Height(n - n / 2 - 1) + 1
  {
    var mid, rightCount := n / 2, n - n / 2 - 1;
    assert rightCount <= mid <= rightCount + 1;
    HeightMonotone(rightCount, mid);
    HeightMonotone(mid, rightCount + 1);
    HeightStep(rightCount);
  }

  /** The chunks in order, the middle one at the root and each half built
      the same way below it. */
  ghost function Build(chunks: seq<string>): Tree
    decreases |chunks|
  {
    if chunks == [] then Nil
    else
      var mid := |chunks| / 2;
      Node(Build(chunks[..mid]), chunks[mid], Build(chunks[mid + 1..]))
  }

  /** Build keeps the chunks in order. */
  lemma {:induction false} BuildTexts(chunks: seq<string>)
    ensures Texts(Build(chunks)) == chunks
    decreases |chunks|
  {
    if chunks != [] {
      var mid := |chunks| / 2;
      BuildTexts(chunks[..mid]);
      BuildTexts(chunks[mid + 1..]);
      assert chunks == chunks[..mid] + [chunks[mid]] + chunks[mid + 1..];
    }
  }

  /** Build is as deep as Height says and balances every node. */
  lemma {:induction false} BuildBalanced(chunks: seq<string>)
    ensures Depth(Build(chunks)) == Height(|chunks|)
    ensures Balanced(Build(chunks))
    decreases |chunks|
  {
    if chunks != [] {
      var mid := |chunks| / 2;
      var rightCount := |chunks| - mid - 1;
      var l, r := Build(chunks[..mid]), Build(chunks[mid + 1..]);
      assert Build(chunks) == Node(l, chunks[mid], r);
      BuildBalanced(chunks[..mid]);
      BuildBalanced(chunks[mid + 1..]);
      assert |chunks[..mid]| == mid && |chunks[mid + 1..]| == rightCount;
      MiddleSplit(|chunks|);
    }
  }

  /** A tree over `n` chunks is at least Height(n) deep. */
  lemma {:induction false} HeightIsMinimal(t: Tree)
    ensures Height(|Texts(t)|) <= Depth(t)
  {
    match t
    case Nil =>
    case Node(l, _, r) =>
      HeightIsMinimal(l);
      HeightIsMinimal(r);
      var larger := Max(|Texts(l)|, |Texts(r)|);
      HeightMonotone(|Texts(t)| / 2, larger);
      HeightMonotone(|Texts(l)|, larger);
      HeightMonotone(|Texts(r)|, larger);
  }

  /** rebalance on the value level: the same chunks, the same text, every
      node locally balanced, and no deeper than before. */
  ghost function Rebalanced(t: Tree): (r: Tree)
    ensures Texts(r) == Texts(t)
    ensures Flatten(r) == Flatten(t)
    ensures forall u :: Subtree(u, r) ==> LocallyBalanced(u)
    ensures Depth(r) <= Depth(t)
  {
    var r := Build(Texts(t));
    BuildTexts(Texts(t));
    BuildBalanced(Texts(t));
    FlattenIsConcatOfTexts(t);
    FlattenIsConcatOfTexts(r);
    BalancedEverywhere(r);
    HeightIsMinimal(t);
    r
  }

  /** The own texts of a rope's nodes, in order. */
  method CollectChunks(rope: Rope) returns (chunks: seq<string>)
    requires rope.Valid()
    ensures chunks == Texts(rope.Model)
    decreases rope.Repr
  {
    var before: seq<string> := [];
    var after: seq<string> := [];
    if rope.left != null {
      before := CollectChunks(rope.left);
    }
    if rope.right != null {
      after := CollectChunks(rope.right);
    }
    chunks := before + [rope.text] + after;
  }

  /** Fresh nodes in the shape Build gives the chunks. */
  method BuildRope(chunks: seq<string>) returns (rope: Rope)
    requires chunks != []
    ensures rope.Valid() && fresh(rope.Repr)
    ensures rope.Model == Build(chunks)
    decreases |chunks|
  {
    var mid := |chunks| / 2;
    ghost var before, after := chunks[..mid], chunks[mid + 1..];
    assert Build(chunks) == Node(Build(before), chunks[mid], Build(after));
    rope := new Rope(chunks[mid]);
    if 0 < mid {
      var l := BuildRope(chunks[..mid]);
      rope.left := l;
    } else {
      assert before == [];
    }
    if mid + 1 < |chunks| {
      var r := BuildRope(chunks[mid + 1..]);
      rope.right := r;
    } else {
      assert after == [];
    }
    rope.Repair();
  }

  /** rebalance: a balanced rope over the same chunks, built from fresh
      nodes. */
  method Rebalance(rope: Rope) returns (r: Rope)
    requires rope.Valid()
    ensures r.Valid() && fresh(r.Repr)
    ensures r.Model == Rebalanced(rope.Model)
  {
    var chunks := CollectChunks(rope);
    assert chunks != [] by {
      assert rope.text in chunks;
    }
    var built := BuildRope(chunks);
    r := built;
  }
}
