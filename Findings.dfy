/** The cached heights after a rotation.

    leftRotate(x) ends with `x.height++; y.height--; x.height = getHeight(x)`:
    x is recomputed, but the promoted y only loses one.  In the usual case,
    where y's right subtree is the taller, y's height does not change at all,
    so y ends one too low.  Module AvlModel models the code as written; this
    module shows the discrepancy on the smallest inputs, and module Fixed
    proves what recomputing y after x restores. */
module Findings {
  import opened JavaStrings
  import opened Shapes
  import opened AvlModel

  /** avlInsert of "a", "b", "c" into an empty tree: the third insertion makes
      leftRotate(a) promote b, whose cached height ends at 0 although b is the
      root of a tree of height 1. */
  lemma AbcCachedHeightTooLow()
    ensures var r1 := AvlInsert(Nil, [], [], "a");
      var r2 := AvlInsert(r1.tree, r1.hs, r1.ws, "b");
      var r3 := AvlInsert(r2.tree, r2.hs, r2.ws, "c");
      r3.ok && r3.tree == Node(1, Node(0, Nil, Nil), Node(2, Nil, Nil)) && r3.ws == ["a", "b", "c"] &&
      r3.hs == [0, 0, 0] && Height(r3.tree) == 1 && !Exact(r3.tree, r3.hs)
  {
    InsertA();
    InsertB();
    InsertC();
  }

  /** The first word becomes the root, with height 0. */
  lemma InsertA()
    ensures AvlInsert(Nil, [], [], "a") == Ins(true, Node(0, Nil, Nil), [0], ["a"], true)
  {
  }

  /** "b" goes right of "a"; a's height becomes 1 and no rotation happens. */
  lemma InsertB()
    ensures AvlInsert(Node(0, Nil, Nil), [0], ["a"], "b")
         == Ins(true, Node(0, Nil, Node(1, Nil, Nil)), [1, 0], ["a", "b"], true)
  {
    var t2 := Node(0, Nil, Node(1, Nil, Nil));
    assert CompareTo("a", "b") < 0;
    assert CachedHeight(t2, [0, 0]) == 1;
    assert Rebalanced(t2, [1, 0]) == Step(true, t2, [1, 0]);
  }

  /** "c" goes right of "b", and rebalance(a) then rotates left at a. */
  lemma InsertC()
    ensures AvlInsert(Node(0, Nil, Node(1, Nil, Nil)), [1, 0], ["a", "b"], "c")
         == Ins(true, Node(1, Node(0, Nil, Nil), Node(2, Nil, Nil)), [0, 0, 0], ["a", "b", "c"], true)
  {
    var u := Node(1, Nil, Node(2, Nil, Nil));
    var t3 := Node(0, Nil, u);
    InsertCBelowB();
    assert CompareTo("a", "c") < 0;
    RebalanceAtA();
    assert Descend(Node(0, Nil, Node(1, Nil, Nil)), [1, 0], ["a", "b"], "c", false)
        == Climb(t3, [1, 1, 0], ["a", "b", "c"], true, true);
  }

  /** The recursive call avlInsert(b, "c"): c is attached right of b, whose
      height becomes 1. */
  lemma InsertCBelowB()
    ensures Insert(Node(1, Nil, Nil), [1, 0], ["a", "b"], "c")
         == Ins(true, Node(1, Nil, Node(2, Nil, Nil)), [1, 1, 0], ["a", "b", "c"], true)
  {
    var u := Node(1, Nil, Node(2, Nil, Nil));
    assert CompareTo("b", "c") < 0;
    assert CachedHeight(u, [1, 0, 0]) == 1;
    assert Rebalanced(u, [1, 1, 0]) == Step(true, u, [1, 1, 0]);
  }

  /** rebalance(a) with balance 2 and a right child of balance 1: leftRotate(a),
      after which b holds 1 - 1 = 0 and a holds getHeight(a) = 0. */
  lemma RebalanceAtA()
    ensures Rebalanced(Node(0, Nil, Node(1, Nil, Node(2, Nil, Nil))), [1, 1, 0])
         == Step(true, Node(1, Node(0, Nil, Nil), Node(2, Nil, Nil)), [0, 0, 0])
  {
    var u := Node(1, Nil, Node(2, Nil, Nil));
    var t3 := Node(0, Nil, u);
    assert Below(Node(2, Nil, Nil), 3) && Below(u, 3) && Below(t3, 3);
    assert Bal(t3, [1, 1, 0]) == 2 && Bal(u, [1, 1, 0]) == 1;
    assert RotLHeights(t3, [1, 1, 0]) == [0, 0, 0];
  }

  /** Inserting "a" again into that tree attaches nothing, but rebalance(b)
      on the way back up rewrites b's height to getHeight(b) = 1: a duplicate
      avlInsert keeps the keys, the shape and the size, not the heights. */
  lemma AbcDuplicateChangesHeight()
    ensures Below(Node(1, Node(0, Nil, Nil), Node(2, Nil, Nil)), 3)
    ensures var r := AvlInsert(Node(1, Node(0, Nil, Nil), Node(2, Nil, Nil)), [0, 0, 0], ["a", "b", "c"], "a");
      r.ok && !r.added && r.tree == Node(1, Node(0, Nil, Nil), Node(2, Nil, Nil)) && r.hs == [0, 1, 0]
  {
    var t := Node(1, Node(0, Nil, Nil), Node(2, Nil, Nil));
    var ws := ["a", "b", "c"];
    assert CompareTo("b", "a") > 0 && CompareTo("a", "a") == 0;
    assert Insert(Node(0, Nil, Nil), [0, 0, 0], ws, "a") == Ins(true, Node(0, Nil, Nil), [0, 0, 0], ws, false);
    assert Below(t, 3) && Bal(t, [0, 0, 0]) == 0;
    assert Rebalanced(t, [0, 0, 0]) == Step(true, t, [0, 1, 0]);
  }

  /** avlInsert of "c", "a", "b": the double rotation at c gives the expected
      shape, but the new root b ends with cached height -2, below the -1 of an
      absent node. */
  lemma CabCachedHeightNegative()
    ensures var r1 := AvlInsert(Nil, [], [], "c");
      var r2 := AvlInsert(r1.tree, r1.hs, r1.ws, "a");
      var r3 := AvlInsert(r2.tree, r2.hs, r2.ws, "b");
      r3.ok && r3.tree == Node(2, Node(1, Nil, Nil), Node(0, Nil, Nil)) && r3.ws == ["c", "a", "b"] &&
      r3.hs == [0, 0, -2] && !CachedAtLeastMinusOne(r3.tree, r3.hs)
  {
    assert AvlInsert(Nil, [], [], "c") == Ins(true, Node(0, Nil, Nil), [0], ["c"], true);
    InsertCA();
    InsertCAB();
  }

  /** "a" goes left of "c"; c's height becomes 1. */
  lemma InsertCA()
    ensures AvlInsert(Node(0, Nil, Nil), [0], ["c"], "a")
         == Ins(true, Node(0, Node(1, Nil, Nil), Nil), [1, 0], ["c", "a"], true)
  {
    var t2 := Node(0, Node(1, Nil, Nil), Nil);
    assert CompareTo("c", "a") > 0;
    assert CachedHeight(t2, [0, 0]) == 1;
    assert Rebalanced(t2, [1, 0]) == Step(true, t2, [1, 0]);
  }

  /** "b" goes right of "a", and rebalance(c) rotates left at a, then right
      at c. */
  lemma InsertCAB()
    ensures AvlInsert(Node(0, Node(1, Nil, Nil), Nil), [1, 0], ["c", "a"], "b")
         == Ins(true, Node(2, Node(1, Nil, Nil), Node(0, Nil, Nil)), [0, 0, -2], ["c", "a", "b"], true)
  {
    var u := Node(1, Nil, Node(2, Nil, Nil));
    var t3 := Node(0, u, Nil);
    var ws := ["c", "a", "b"];
    assert CompareTo("c", "b") > 0 && CompareTo("a", "b") < 0;
    assert CachedHeight(u, [1, 0, 0]) == 1;
    assert Below(u, 3) && Bal(u, [1, 1, 0]) == 1;
    assert Rebalanced(u, [1, 1, 0]) == Step(true, u, [1, 1, 0]);
    assert Insert(Node(1, Nil, Nil), [1, 0], ["c", "a"], "b") == Ins(true, u, [1, 1, 0], ws, true);
    RebalanceAtC();
  }

  /** rebalance(c) with balance -2 and a left child of balance 1: leftRotate(a)
      leaves b at 0 - 1 = -1, and rightRotate(c) then brings it to -2. */
  lemma RebalanceAtC()
    ensures Rebalanced(Node(0, Node(1, Nil, Node(2, Nil, Nil)), Nil), [1, 1, 0])
         == Step(true, Node(2, Node(1, Nil, Nil), Node(0, Nil, Nil)), [0, 0, -2])
  {
    var u := Node(1, Nil, Node(2, Nil, Nil));
    var t3 := Node(0, u, Nil);
    assert Below(Node(2, Nil, Nil), 3) && Below(u, 3) && Below(t3, 3);
    assert Bal(t3, [1, 1, 0]) == -2 && Bal(u, [1, 1, 0]) == 1;
    assert RotL(u) == Node(2, Node(1, Nil, Nil), Nil);
    assert RotLHeights(u, [1, 1, 0]) == [1, 0, -1];
    var t0 := Node(0, RotL(u), Nil);
    assert RotR(t0) == Node(2, Node(1, Nil, Nil), Node(0, Nil, Nil));
    assert RotRHeights(t0, [1, 0, -1]) == [0, 0, -2];
  }
}
