/** The unit-test scenarios of the rope, replayed on the heap model: each
    method builds its ropes the way the tests do and asserts the strings the
    tests expect. */
module RopeScenarios {
  import opened RopeTree
  import opened TextEdits
  import opened Ropes
  import opened RopeRebalance

  /** make_deep_rope: a root "345" with "012" prepended, and a right child
      "7" with "6" prepended and "8" and "9" appended, standing for
      "0123456789". */
  method MakeDeepRope() returns (rope: Rope)
    ensures rope.Valid() && fresh(rope.Repr)
    ensures rope.Model == DeepTree()
  {
    rope := new Rope("345");
    var _ := Prepend(rope, "012");
    var seven := MakeRightChain();
    rope.right := seven;
    rope.Repair();
  }

  /** The right child of make_deep_rope, grown before it is attached. */
  method MakeRightChain() returns (seven: Rope)
    ensures seven.Valid() && fresh(seven.Repr)
    ensures seven.Model == DeepTree().right
  {
    seven := new Rope("7");
    var _ := Prepend(seven, "6");
    var _ := Append(seven, "8");
    var _ := Append(seven, "9");
  }

  /** The shape make_deep_rope builds. */
  ghost function DeepTree(): Tree
  {
    Node(Node(Nil, "012", Nil), "345",
         Node(Node(Nil, "6", Nil), "7", Node(Nil, "8", Node(Nil, "9", Nil))))
  }

  lemma DeepTreeText()
    ensures Flatten(DeepTree()) == "0123456789"
  {
    assert Flatten(DeepTree().right) == "6789";
  }

  /** delete_range on a fresh deep rope. */
  method DeepDeletion(start: int, end: int) returns (s: string)
    requires start <= end
    ensures s == Cut("0123456789", start, end)
  {
    var rope := MakeDeepRope();
    DeepTreeText();
    var _ := DeleteRange(rope, start, end);
    RangeDeletedText(DeepTree(), start, end);
    s := rope.ToString();
  }

  /** insert on a fresh deep rope. */
  method DeepInsertion(t: string, location: nat) returns (s: string)
    ensures s == Spliced("0123456789", t, location)
  {
    var rope := MakeDeepRope();
    DeepTreeText();
    var _ := Insert(rope, t, location);
    InsertedText(DeepTree(), t, location);
    s := rope.ToString();
  }

  /** prepend on a single-node rope. */
  method OnLeafPrepend(text: string, t: string) returns (s: string)
    ensures s == t + text
  {
    var rope := new Rope(text);
    ghost var m := rope.Model;
    assert Flatten(m) == text;
    var _ := Prepend(rope, t);
    s := rope.ToString();
  }

  /** append on a single-node rope, with the total size afterwards. */
  method OnLeafAppend(text: string, t: string) returns (s: string, n: int)
    ensures s == text + t && n == |text| + |t|
  {
    var rope := new Rope(text);
    ghost var m := rope.Model;
    assert Flatten(m) == text;
    var _ := Append(rope, t);
    s := rope.ToString();
    n := rope.TotalSize();
  }

  /** delete_range on a single-node rope. */
  method OnLeafDeletion(text: string, start: int, end: int) returns (s: string)
    requires start <= end
    ensures s == Cut(text, start, end)
  {
    var rope := new Rope(text);
    var _ := DeleteRange(rope, start, end);
    RangeDeletedText(Node(Nil, text, Nil), start, end);
    s := rope.ToString();
  }

  /** insert on a single-node rope. */
  method OnLeafInsertion(text: string, t: string, location: nat) returns (s: string)
    ensures s == Spliced(text, t, location)
  {
    var rope := new Rope(text);
    ghost var m := rope.Model;
    assert Flatten(m) == text;
    var _ := Insert(rope, t, location);
    InsertedText(m, t, location);
    s := rope.ToString();
  }

  /** test_rope_basics. */
  method RopeBasics()
  {
    var rope := new Rope("test");
    assert rope.ToString() == "test";
    var s := OnLeafPrepend("test", "abc");
    assert s == "abctest";
    var n;
    s, n := OnLeafAppend("test", "abc");
    assert s == "testabc" && n == 7;
  }

  /** test_deletion. */
  method Deletion()
  {
    var s := OnLeafDeletion("test", 1, 2);
    assert s == "tst";
    s := OnLeafDeletion("test", 2, 4);
    assert s == "te";
    s := OnLeafDeletion("test", 0, 2);
    assert s == "st";
  }

  /** test_deletion_deeper. */
  method DeletionDeeper()
  {
    var s := DeepDeletion(0, 2);
    assert s == "23456789";
    s := DeepDeletion(0, 4);
    assert s == "456789";
    s := DeepDeletion(0, 9);
    assert s == "9";
    s := DeepDeletion(0, 100);
    assert s == "";
    s := DeepDeletion(4, 7);
    assert s == "0123789";
    s := DeepDeletion(2, 8);
    assert s == "0189";
  }

  /** test_insertion. */
  method Insertion()
  {
    var s := OnLeafInsertion("test", "123", 2);
    assert s == "te123st";
    s := OnLeafInsertion("test", "123", 4);
    assert s == "test123";
    s := OnLeafInsertion("test", "123", 0);
    assert s == "123test";
  }

  /** test_insertion_deeper. */
  method InsertionDeeper()
  {
    var s := DeepInsertion("XYZ", 0);
    assert s == "XYZ0123456789";
    s := DeepInsertion("XYZ", 2);
    assert s == "01XYZ23456789";
    s := DeepInsertion("XYZ", 4);
    assert s == "0123XYZ456789";
    s := DeepInsertion("XYZ", 7);
    assert s == "0123456XYZ789";
    s := DeepInsertion("XYZ", 9);
    assert s == "012345678XYZ9";
    s := DeepInsertion("XYZ", 10);
    assert s == "0123456789XYZ";
    s := DeepInsertion("XYZ", 100);
    assert s == "0123456789XYZ";
  }

  function Leaf(t: string): Dict { Dict(t, None, None) }

  /** The rotation examples of the rebalancing tests: a rope built from a
      dump, rotated, and dumped again. */
  method Rotations()
  {
    var rope := CreateRopeFromMap(
      Dict("3", Some(Leaf("a")),
           Some(Dict("5", Some(Leaf("b")), Some(Dict("7", Some(Leaf("c")), Some(Leaf("d"))))))));
    var r := RotateLeft(rope);
    var d := r.ToDictionary();
    assert d == Dict("5", Some(Dict("3", Some(Leaf("a")), Some(Leaf("b")))),
                          Some(Dict("7", Some(Leaf("c")), Some(Leaf("d")))));
    rope := CreateRopeFromMap(
      Dict("5", Some(Dict("3", Some(Dict("2", Some(Leaf("d")), Some(Leaf("c")))), Some(Leaf("b")))),
           Some(Leaf("a"))));
    r := RotateRight(rope);
    d := r.ToDictionary();
    assert d == Dict("3", Some(Dict("2", Some(Leaf("d")), Some(Leaf("c")))),
                          Some(Dict("5", Some(Leaf("b")), Some(Leaf("a")))));
  }

  /** The balanced tree of the rebalancing examples: "b" over the leaves
      "a" and "c". */
  ghost function BalancedABC(): Tree
  {
    Node(Node(Nil, "a", Nil), "b", Node(Nil, "c", Nil))
  }

  /** Any tree over the chunks "a", "b", "c" is rebalanced into BalancedABC,
      which is the tree of the dump with "b" over the leaves "a" and "c". */
  lemma RebalancedOverABC(t: Tree)
    requires Texts(t) == ["a", "b", "c"]
    ensures Rebalanced(t) == BalancedABC() == FromDict(Dict("b", Some(Leaf("a")), Some(Leaf("c"))))
  {
    var chunks: seq<string> := ["a", "b", "c"];
    assert chunks[..1] == ["a"] && chunks[2..] == ["c"];
    assert Build(["a"]) == Node(Nil, "a", Nil) by {
      assert ["a"][..0] == [] && ["a"][1..] == [];
    }
    assert Build(["c"]) == Node(Nil, "c", Nil) by {
      assert ["c"][..0] == [] && ["c"][1..] == [];
    }
  }

  /** The rebalancing examples: each three-node chain over "a", "b", "c"
      becomes "b" over the leaves "a" and "c". */
  lemma RebalanceLeftRightChain()
    ensures Rebalanced(FromDict(Dict("c", Some(Dict("a", None, Some(Leaf("b")))), None)))
         == FromDict(Dict("b", Some(Leaf("a")), Some(Leaf("c"))))
  {
    var t := Node(Node(Nil, "a", Node(Nil, "b", Nil)), "c", Nil);
    assert FromDict(Dict("c", Some(Dict("a", None, Some(Leaf("b")))), None)) == t;
    assert Texts(t) == ["a", "b", "c"];
    RebalancedOverABC(t);
  }

  lemma RebalanceLeftChain()
    ensures Rebalanced(FromDict(Dict("c", Some(Dict("b", Some(Leaf("a")), None)), None)))
         == FromDict(Dict("b", Some(Leaf("a")), Some(Leaf("c"))))
  {
    var t := Node(Node(Node(Nil, "a", Nil), "b", Nil), "c", Nil);
    assert FromDict(Dict("c", Some(Dict("b", Some(Leaf("a")), None)), None)) == t;
    assert Texts(t) == ["a", "b", "c"];
    RebalancedOverABC(t);
  }

  lemma RebalanceRightChain()
    ensures Rebalanced(FromDict(Dict("a", None, Some(Dict("b", None, Some(Leaf("c")))))))
         == FromDict(Dict("b", Some(Leaf("a")), Some(Leaf("c"))))
  {
    var t := Node(Nil, "a", Node(Nil, "b", Node(Nil, "c", Nil)));
    assert FromDict(Dict("a", None, Some(Dict("b", None, Some(Leaf("c")))))) == t;
    assert Texts(t) == ["a", "b", "c"];
    RebalancedOverABC(t);
  }

  lemma RebalanceRightLeftChain()
    ensures Rebalanced(FromDict(Dict("a", None, Some(Dict("c", Some(Leaf("b")), None)))))
         == FromDict(Dict("b", Some(Leaf("a")), Some(Leaf("c"))))
  {
    var t := Node(Nil, "a", Node(Node(Nil, "b", Nil), "c", Nil));
    assert FromDict(Dict("a", None, Some(Dict("c", Some(Leaf("b")), None)))) == t;
    assert Texts(t) == ["a", "b", "c"];
    RebalancedOverABC(t);
  }

  /** The boundary tie-break: an insertion exactly where a node's own text
      starts lands at the end of its left subtree, not in front of the own
      text, and the text is the same either way. */
  lemma InsertAtBoundaryGoesLeft()
    ensures Inserted(Node(Node(Nil, "ab", Nil), "cd", Nil), "X", 2)
         == Node(Node(Nil, "ab", Node(Nil, "X", Nil)), "cd", Nil)
    ensures Flatten(Inserted(Node(Node(Nil, "ab", Nil), "cd", Nil), "X", 2)) == "abXcd"
  {
    assert Flatten(Node(Node(Nil, "ab", Node(Nil, "X", Nil)), "cd", Nil)) == "abXcd";
  }
}
