/** Ten insertions after which avlInsert, as written, leaves a tree that is
    not AVL balanced.

    The rotations leave stale cached heights behind (module Findings), and
    rebalance reads only cached heights.  On the ten words below, the stale
    heights make rebalance see a balance of 0 at two nodes whose subtrees
    differ in height by three.  A corrected avlInsert cannot end this way
    (Fixed.FixedBuildAvl).  The step lemmas follow the recursion of the
    private avlInsert one call at a time. */
module TenKeys {
  import opened JavaStrings
  import opened Shapes
  import opened AvlModel

  /** The ten words, in the order avlUnique would read them. */
  const Words: seq<string> := ["b", "d", "c", "g", "h", "a", "j", "i", "f", "e"]

  /** avlInsert of the ten words into an empty tree, one by one: none throws,
      each attaches a node, and the tree and its cached heights end as given. */
  lemma TenKeysBuilt()
    ensures Build(Words) == Ins(true, Node(0, Node(5, Nil, Nil), Node(2, Nil, Node(3, Node(9, Node(1, Nil, Nil), Node(8, Nil, Nil)), Node(7, Node(4, Nil, Nil), Node(6, Nil, Nil))))),
                                [0, 0, 0, -1, 0, 0, 0, -2, 0, -2], Words, true)
  {
    BuildStep([], "b");
    assert Build(["b"]) == Ins(true, Node(0, Nil, Nil), [0], ["b"], true);
    BuildStep(["b"], "d");
    InsertD();
    assert Build(["b", "d"]) == Ins(true, Node(0, Nil, Node(1, Nil, Nil)), [1, 0], ["b", "d"], true);
    BuildStep(["b", "d"], "c");
    InsertC();
    assert Build(["b", "d", "c"]) == Ins(true, Node(2, Node(0, Nil, Nil), Node(1, Nil, Nil)), [0, 0, -2], ["b", "d", "c"], true);
    BuildStep(["b", "d", "c"], "g");
    InsertG();
    assert Build(["b", "d", "c", "g"]) == Ins(true, Node(2, Node(0, Nil, Nil), Node(1, Nil, Node(3, Nil, Nil))), [0, 1, 2, 0], ["b", "d", "c", "g"], true);
    BuildStep(["b", "d", "c", "g"], "h");
    InsertH();
    assert Build(["b", "d", "c", "g", "h"]) == Ins(true, Node(2, Node(0, Nil, Nil), Node(3, Node(1, Nil, Nil), Node(4, Nil, Nil))), [0, 0, 1, 0, 0], ["b", "d", "c", "g", "h"], true);
    BuildStep(["b", "d", "c", "g", "h"], "a");
    InsertA();
    assert Build(["b", "d", "c", "g", "h", "a"]) == Ins(true, Node(2, Node(0, Node(5, Nil, Nil), Nil), Node(3, Node(1, Nil, Nil), Node(4, Nil, Nil))), [1, 0, 2, 0, 0, 0], ["b", "d", "c", "g", "h", "a"], true);
    BuildStep(["b", "d", "c", "g", "h", "a"], "j");
    InsertJ();
    assert Build(["b", "d", "c", "g", "h", "a", "j"]) == Ins(true, Node(2, Node(0, Node(5, Nil, Nil), Nil), Node(3, Node(1, Nil, Nil), Node(4, Nil, Node(6, Nil, Nil)))), [1, 0, 3, 2, 1, 0, 0], ["b", "d", "c", "g", "h", "a", "j"], true);
    BuildStep(["b", "d", "c", "g", "h", "a", "j"], "i");
    InsertI();
    assert Build(["b", "d", "c", "g", "h", "a", "j", "i"]) == Ins(true, Node(2, Node(0, Node(5, Nil, Nil), Nil), Node(3, Node(1, Nil, Nil), Node(7, Node(4, Nil, Nil), Node(6, Nil, Nil)))), [1, 0, 2, 1, 0, 0, 0, -2], ["b", "d", "c", "g", "h", "a", "j", "i"], true);
    BuildStep(["b", "d", "c", "g", "h", "a", "j", "i"], "f");
    InsertF();
    assert Build(["b", "d", "c", "g", "h", "a", "j", "i", "f"]) == Ins(true, Node(2, Node(0, Node(5, Nil, Nil), Nil), Node(3, Node(1, Nil, Node(8, Nil, Nil)), Node(7, Node(4, Nil, Nil), Node(6, Nil, Nil)))), [1, 1, 3, 2, 0, 0, 0, -2, 0], ["b", "d", "c", "g", "h", "a", "j", "i", "f"], true);
    BuildStep(["b", "d", "c", "g", "h", "a", "j", "i", "f"], "e");
    InsertE();
    assert Build(["b", "d", "c", "g", "h", "a", "j", "i", "f", "e"]) == Ins(true, Node(0, Node(5, Nil, Nil), Node(2, Nil, Node(3, Node(9, Node(1, Nil, Nil), Node(8, Nil, Nil)), Node(7, Node(4, Nil, Nil), Node(6, Nil, Nil))))), [0, 0, 0, -1, 0, 0, 0, -2, 0, -2], ["b", "d", "c", "g", "h", "a", "j", "i", "f", "e"], true);
  }

  /** After those insertions the words are in search-tree order, but the tree
      is not AVL balanced: the root "b" has a left subtree of height 0 and a
      right one of height 3, while the cached heights make balance("b") 0. */
  lemma TenKeysUnbalanced()
    ensures var r := Build(Words);
      r.ok && r.ws == Words && Ordered(r.tree, r.ws) && Count(r.tree) == 10 &&
      r.tree.Node? && Height(r.tree.left) == 0 && Height(r.tree.right) == 3 &&
      Bal(r.tree, r.hs) == 0 && !Balanced(r.tree)
  {
    TenKeysBuilt();
    BuildFacts(Words);
    TenKeysTree();
    TenKeysCount();
  }

  /** The shape of that tree, read off the literal: the true heights of the
      root's subtrees, and the balance getHeight reports at the root. */
  lemma TenKeysTree()
    ensures Below(Node(0, Node(5, Nil, Nil), Node(2, Nil, Node(3, Node(9, Node(1, Nil, Nil), Node(8, Nil, Nil)), Node(7, Node(4, Nil, Nil), Node(6, Nil, Nil))))), 10)
    ensures Height(Node(0, Node(5, Nil, Nil), Node(2, Nil, Node(3, Node(9, Node(1, Nil, Nil), Node(8, Nil, Nil)), Node(7, Node(4, Nil, Nil), Node(6, Nil, Nil))))).left) == 0 && Height(Node(0, Node(5, Nil, Nil), Node(2, Nil, Node(3, Node(9, Node(1, Nil, Nil), Node(8, Nil, Nil)), Node(7, Node(4, Nil, Nil), Node(6, Nil, Nil))))).right) == 3
    ensures Bal(Node(0, Node(5, Nil, Nil), Node(2, Nil, Node(3, Node(9, Node(1, Nil, Nil), Node(8, Nil, Nil)), Node(7, Node(4, Nil, Nil), Node(6, Nil, Nil))))), [0, 0, 0, -1, 0, 0, 0, -2, 0, -2]) == 0
    ensures !Balanced(Node(0, Node(5, Nil, Nil), Node(2, Nil, Node(3, Node(9, Node(1, Nil, Nil), Node(8, Nil, Nil)), Node(7, Node(4, Nil, Nil), Node(6, Nil, Nil))))))
  {
  }

  /** The tree holds ten nodes. */
  lemma TenKeysCount()
    ensures Count(Node(0, Node(5, Nil, Nil), Node(2, Nil, Node(3, Node(9, Node(1, Nil, Nil), Node(8, Nil, Nil)), Node(7, Node(4, Nil, Nil), Node(6, Nil, Nil)))))) == 10
  {
  }

  /** Inserting "d" a second time into that tree attaches nothing and keeps
      the keys and the node count, but the rebalance calls on the way back up
      rotate at "c" and at "b": a duplicate avlInsert can change the shape. */
  lemma DuplicateRotates()
    ensures var b := Build(Words);
      var r := AvlInsert(b.tree, b.hs, b.ws, "d");
      r.ok && !r.added && r.ws == b.ws && Keys(r.tree, r.ws) == Keys(b.tree, b.ws) &&
      Count(r.tree) == Count(b.tree) && r.tree != b.tree
  {
    var b := Build(Words);
    TenKeysBuilt();
    BuildFacts(Words);
    DuplicateD();
    DuplicateKeeps(b.tree, b.hs, b.ws, "d");
  }

  /** The public avlInsert("d") on the tree TenKeysBuilt describes: the
      recursion of InsertDAgain, reached through the non-empty root. */
  lemma DuplicateD()
    ensures Below(Node(0, Node(5, Nil, Nil), Node(2, Nil, Node(3, Node(9, Node(1, Nil, Nil), Node(8, Nil, Nil)), Node(7, Node(4, Nil, Nil), Node(6, Nil, Nil))))), 10) && AvlInsert(Node(0, Node(5, Nil, Nil), Node(2, Nil, Node(3, Node(9, Node(1, Nil, Nil), Node(8, Nil, Nil)), Node(7, Node(4, Nil, Nil), Node(6, Nil, Nil))))), [0, 0, 0, -1, 0, 0, 0, -2, 0, -2], Words, "d")
         == Ins(true, Node(2, Node(0, Node(5, Nil, Nil), Nil), Node(3, Node(9, Node(1, Nil, Nil), Node(8, Nil, Nil)), Node(7, Node(4, Nil, Nil), Node(6, Nil, Nil)))), [1, 0, 0, 2, 0, 0, 0, -2, 0, 1], Words, false)
  {
    InsertDAgain();
  }

  /** rebalance("b") while inserting "d": balance 1; no rotation, only
      "b".height = getHeight("b"). */
  lemma RebalanceDAtB()
    ensures Below(Node(0, Nil, Node(1, Nil, Nil)), 2) && Rebalanced(Node(0, Nil, Node(1, Nil, Nil)), [1, 0])
         == Step(true, Node(0, Nil, Node(1, Nil, Nil)), [1, 0])
  {
    assert Below(Node(1, Nil, Nil), 2);
    assert Below(Node(0, Nil, Node(1, Nil, Nil)), 2);
    assert Bal(Node(0, Nil, Node(1, Nil, Nil)), [1, 0]) == 1;
    assert CachedHeight(Node(0, Nil, Node(1, Nil, Nil)), [1, 0]) == 1;
  }

  /** The private avlInsert("b", "d"): a new leaf on the right, "b".height =
      getHeight("b"), then rebalance("b"). */
  lemma InsertD()
    ensures Below(Node(0, Nil, Nil), 1) && Insert(Node(0, Nil, Nil), [0], ["b"], "d")
         == Ins(true, Node(0, Nil, Node(1, Nil, Nil)), [1, 0], ["b", "d"], true)
  {
    assert Below(Node(0, Nil, Nil), 1);
    assert CompareTo("b", "d") < 0;
    assert Below(Node(1, Nil, Nil), 2);
    assert Below(Node(0, Nil, Node(1, Nil, Nil)), 2);
    assert CachedHeight(Node(0, Nil, Node(1, Nil, Nil)), [0, 0]) == 1;
    RebalanceDAtB();
    assert Descend(Node(0, Nil, Nil), [0], ["b"], "d", false) == Climb(Node(0, Nil, Node(1, Nil, Nil)), [1, 0], ["b", "d"], true, true);
  }

  /** rebalance("d") while inserting "c": balance -1; no rotation, only
      "d".height = getHeight("d"). */
  lemma RebalanceCAtD()
    ensures Below(Node(1, Node(2, Nil, Nil), Nil), 3) && Rebalanced(Node(1, Node(2, Nil, Nil), Nil), [1, 1, 0])
         == Step(true, Node(1, Node(2, Nil, Nil), Nil), [1, 1, 0])
  {
    assert Below(Node(2, Nil, Nil), 3);
    assert Below(Node(1, Node(2, Nil, Nil), Nil), 3);
    assert Bal(Node(1, Node(2, Nil, Nil), Nil), [1, 1, 0]) == -1;
    assert CachedHeight(Node(1, Node(2, Nil, Nil), Nil), [1, 1, 0]) == 1;
  }

  /** The private avlInsert("d", "c"): a new leaf on the left, "d".height =
      getHeight("d"), then rebalance("d"). */
  lemma InsertCBelowD()
    ensures Below(Node(1, Nil, Nil), 2) && Insert(Node(1, Nil, Nil), [1, 0], ["b", "d"], "c")
         == Ins(true, Node(1, Node(2, Nil, Nil), Nil), [1, 1, 0], ["b", "d", "c"], true)
  {
    assert Below(Node(1, Nil, Nil), 2);
    assert CompareTo("d", "c") > 0;
    assert Below(Node(2, Nil, Nil), 3);
    assert Below(Node(1, Node(2, Nil, Nil), Nil), 3);
    assert CachedHeight(Node(1, Node(2, Nil, Nil), Nil), [1, 0, 0]) == 1;
    RebalanceCAtD();
    assert Descend(Node(1, Nil, Nil), [1, 0], ["b", "d"], "c", true) == Climb(Node(1, Node(2, Nil, Nil), Nil), [1, 1, 0], ["b", "d", "c"], true, true);
  }

  /** rebalance("b") while inserting "c": balance 2; the right child "d" leans
      left, so rightRotate("d"), then leftRotate("b"). */
  lemma RebalanceCAtB()
    ensures Below(Node(0, Nil, Node(1, Node(2, Nil, Nil), Nil)), 3) && Rebalanced(Node(0, Nil, Node(1, Node(2, Nil, Nil), Nil)), [1, 1, 0])
         == Step(true, Node(2, Node(0, Nil, Nil), Node(1, Nil, Nil)), [0, 0, -2])
  {
    assert Below(Node(2, Nil, Nil), 3);
    assert Below(Node(1, Node(2, Nil, Nil), Nil), 3);
    assert Below(Node(0, Nil, Node(1, Node(2, Nil, Nil), Nil)), 3);
    assert Bal(Node(0, Nil, Node(1, Node(2, Nil, Nil), Nil)), [1, 1, 0]) == 2;
    assert Bal(Node(1, Node(2, Nil, Nil), Nil), [1, 1, 0]) == -1;
    assert RotRHeights(Node(1, Node(2, Nil, Nil), Nil), [1, 1, 0]) == [1, 0, -1];
    assert RotLHeights(Node(0, Nil, Node(2, Nil, Node(1, Nil, Nil))), [1, 0, -1]) == [0, 0, -2];
  }

  /** The private avlInsert("b", "c"): down to the right, then rebalance("b"). */
  lemma InsertC()
    ensures Below(Node(0, Nil, Node(1, Nil, Nil)), 2) && Insert(Node(0, Nil, Node(1, Nil, Nil)), [1, 0], ["b", "d"], "c")
         == Ins(true, Node(2, Node(0, Nil, Nil), Node(1, Nil, Nil)), [0, 0, -2], ["b", "d", "c"], true)
  {
    assert Below(Node(1, Nil, Nil), 2);
    assert Below(Node(0, Nil, Node(1, Nil, Nil)), 2);
    assert CompareTo("b", "c") < 0;
    InsertCBelowD();
    RebalanceCAtB();
    assert Descend(Node(0, Nil, Node(1, Nil, Nil)), [1, 0], ["b", "d"], "c", false) == Climb(Node(0, Nil, Node(1, Node(2, Nil, Nil), Nil)), [1, 1, 0], ["b", "d", "c"], true, true);
  }

  /** rebalance("d") while inserting "g": balance 1; no rotation, only
      "d".height = getHeight("d"). */
  lemma RebalanceGAtD()
    ensures Below(Node(1, Nil, Node(3, Nil, Nil)), 4) && Rebalanced(Node(1, Nil, Node(3, Nil, Nil)), [0, 1, -2, 0])
         == Step(true, Node(1, Nil, Node(3, Nil, Nil)), [0, 1, -2, 0])
  {
    assert Below(Node(3, Nil, Nil), 4);
    assert Below(Node(1, Nil, Node(3, Nil, Nil)), 4);
    assert Bal(Node(1, Nil, Node(3, Nil, Nil)), [0, 1, -2, 0]) == 1;
    assert CachedHeight(Node(1, Nil, Node(3, Nil, Nil)), [0, 1, -2, 0]) == 1;
  }

  /** The private avlInsert("d", "g"): a new leaf on the right, "d".height =
      getHeight("d"), then rebalance("d"). */
  lemma InsertGBelowD()
    ensures Below(Node(1, Nil, Nil), 3) && Insert(Node(1, Nil, Nil), [0, 0, -2], ["b", "d", "c"], "g")
         == Ins(true, Node(1, Nil, Node(3, Nil, Nil)), [0, 1, -2, 0], ["b", "d", "c", "g"], true)
  {
    assert Below(Node(1, Nil, Nil), 3);
    assert CompareTo("d", "g") < 0;
    assert Below(Node(3, Nil, Nil), 4);
    assert Below(Node(1, Nil, Node(3, Nil, Nil)), 4);
    assert CachedHeight(Node(1, Nil, Node(3, Nil, Nil)), [0, 0, -2, 0]) == 1;
    RebalanceGAtD();
    assert Descend(Node(1, Nil, Nil), [0, 0, -2], ["b", "d", "c"], "g", false) == Climb(Node(1, Nil, Node(3, Nil, Nil)), [0, 1, -2, 0], ["b", "d", "c", "g"], true, true);
  }

  /** rebalance("c") while inserting "g": balance 1; no rotation, only
      "c".height = getHeight("c"). */
  lemma RebalanceGAtC()
    ensures Below(Node(2, Node(0, Nil, Nil), Node(1, Nil, Node(3, Nil, Nil))), 4) && Rebalanced(Node(2, Node(0, Nil, Nil), Node(1, Nil, Node(3, Nil, Nil))), [0, 1, -2, 0])
         == Step(true, Node(2, Node(0, Nil, Nil), Node(1, Nil, Node(3, Nil, Nil))), [0, 1, 2, 0])
  {
    assert Below(Node(0, Nil, Nil), 4);
    assert Below(Node(3, Nil, Nil), 4);
    assert Below(Node(1, Nil, Node(3, Nil, Nil)), 4);
    assert Below(Node(2, Node(0, Nil, Nil), Node(1, Nil, Node(3, Nil, Nil))), 4);
    assert Bal(Node(2, Node(0, Nil, Nil), Node(1, Nil, Node(3, Nil, Nil))), [0, 1, -2, 0]) == 1;
    assert CachedHeight(Node(2, Node(0, Nil, Nil), Node(1, Nil, Node(3, Nil, Nil))), [0, 1, -2, 0]) == 2;
  }

  /** The private avlInsert("c", "g"): down to the right, then rebalance("c"). */
  lemma InsertG()
    ensures Below(Node(2, Node(0, Nil, Nil), Node(1, Nil, Nil)), 3) && Insert(Node(2, Node(0, Nil, Nil), Node(1, Nil, Nil)), [0, 0, -2], ["b", "d", "c"], "g")
         == Ins(true, Node(2, Node(0, Nil, Nil), Node(1, Nil, Node(3, Nil, Nil))), [0, 1, 2, 0], ["b", "d", "c", "g"], true)
  {
    assert Below(Node(0, Nil, Nil), 3);
    assert Below(Node(1, Nil, Nil), 3);
    assert Below(Node(2, Node(0, Nil, Nil), Node(1, Nil, Nil)), 3);
    assert CompareTo("c", "g") < 0;
    InsertGBelowD();
    RebalanceGAtC();
    assert Descend(Node(2, Node(0, Nil, Nil), Node(1, Nil, Nil)), [0, 0, -2], ["b", "d", "c"], "g", false) == Climb(Node(2, Node(0, Nil, Nil), Node(1, Nil, Node(3, Nil, Nil))), [0, 1, -2, 0], ["b", "d", "c", "g"], true, true);
  }

  /** rebalance("g") while inserting "h": balance 1; no rotation, only
      "g".height = getHeight("g"). */
  lemma RebalanceHAtG()
    ensures Below(Node(3, Nil, Node(4, Nil, Nil)), 5) && Rebalanced(Node(3, Nil, Node(4, Nil, Nil)), [0, 1, 2, 1, 0])
         == Step(true, Node(3, Nil, Node(4, Nil, Nil)), [0, 1, 2, 1, 0])
  {
    assert Below(Node(4, Nil, Nil), 5);
    assert Below(Node(3, Nil, Node(4, Nil, Nil)), 5);
    assert Bal(Node(3, Nil, Node(4, Nil, Nil)), [0, 1, 2, 1, 0]) == 1;
    assert CachedHeight(Node(3, Nil, Node(4, Nil, Nil)), [0, 1, 2, 1, 0]) == 1;
  }

  /** The private avlInsert("g", "h"): a new leaf on the right, "g".height =
      getHeight("g"), then rebalance("g"). */
  lemma InsertHBelowG()
    ensures Below(Node(3, Nil, Nil), 4) && Insert(Node(3, Nil, Nil), [0, 1, 2, 0], ["b", "d", "c", "g"], "h")
         == Ins(true, Node(3, Nil, Node(4, Nil, Nil)), [0, 1, 2, 1, 0], ["b", "d", "c", "g", "h"], true)
  {
    assert Below(Node(3, Nil, Nil), 4);
    assert CompareTo("g", "h") < 0;
    assert Below(Node(4, Nil, Nil), 5);
    assert Below(Node(3, Nil, Node(4, Nil, Nil)), 5);
    assert CachedHeight(Node(3, Nil, Node(4, Nil, Nil)), [0, 1, 2, 0, 0]) == 1;
    RebalanceHAtG();
    assert Descend(Node(3, Nil, Nil), [0, 1, 2, 0], ["b", "d", "c", "g"], "h", false) == Climb(Node(3, Nil, Node(4, Nil, Nil)), [0, 1, 2, 1, 0], ["b", "d", "c", "g", "h"], true, true);
  }

  /** rebalance("d") while inserting "h": balance 2; the right child "g" does
      not lean left, so leftRotate("d"). */
  lemma RebalanceHAtD()
    ensures Below(Node(1, Nil, Node(3, Nil, Node(4, Nil, Nil))), 5) && Rebalanced(Node(1, Nil, Node(3, Nil, Node(4, Nil, Nil))), [0, 1, 2, 1, 0])
         == Step(true, Node(3, Node(1, Nil, Nil), Node(4, Nil, Nil)), [0, 0, 2, 0, 0])
  {
    assert Below(Node(4, Nil, Nil), 5);
    assert Below(Node(3, Nil, Node(4, Nil, Nil)), 5);
    assert Below(Node(1, Nil, Node(3, Nil, Node(4, Nil, Nil))), 5);
    assert Bal(Node(1, Nil, Node(3, Nil, Node(4, Nil, Nil))), [0, 1, 2, 1, 0]) == 2;
    assert Bal(Node(3, Nil, Node(4, Nil, Nil)), [0, 1, 2, 1, 0]) == 1;
    assert RotLHeights(Node(1, Nil, Node(3, Nil, Node(4, Nil, Nil))), [0, 1, 2, 1, 0]) == [0, 0, 2, 0, 0];
  }

  /** The private avlInsert("d", "h"): down to the right, then rebalance("d"). */
  lemma InsertHBelowD()
    ensures Below(Node(1, Nil, Node(3, Nil, Nil)), 4) && Insert(Node(1, Nil, Node(3, Nil, Nil)), [0, 1, 2, 0], ["b", "d", "c", "g"], "h")
         == Ins(true, Node(3, Node(1, Nil, Nil), Node(4, Nil, Nil)), [0, 0, 2, 0, 0], ["b", "d", "c", "g", "h"], true)
  {
    assert Below(Node(3, Nil, Nil), 4);
    assert Below(Node(1, Nil, Node(3, Nil, Nil)), 4);
    assert CompareTo("d", "h") < 0;
    InsertHBelowG();
    RebalanceHAtD();
    assert Descend(Node(1, Nil, Node(3, Nil, Nil)), [0, 1, 2, 0], ["b", "d", "c", "g"], "h", false) == Climb(Node(1, Nil, Node(3, Nil, Node(4, Nil, Nil))), [0, 1, 2, 1, 0], ["b", "d", "c", "g", "h"], true, true);
  }

  /** rebalance("c") while inserting "h": balance 1; no rotation, only
      "c".height = getHeight("c"). */
  lemma RebalanceHAtC()
    ensures Below(Node(2, Node(0, Nil, Nil), Node(3, Node(1, Nil, Nil), Node(4, Nil, Nil))), 5) && Rebalanced(Node(2, Node(0, Nil, Nil), Node(3, Node(1, Nil, Nil), Node(4, Nil, Nil))), [0, 0, 2, 0, 0])
         == Step(true, Node(2, Node(0, Nil, Nil), Node(3, Node(1, Nil, Nil), Node(4, Nil, Nil))), [0, 0, 1, 0, 0])
  {
    assert Below(Node(0, Nil, Nil), 5);
    assert Below(Node(1, Nil, Nil), 5);
    assert Below(Node(4, Nil, Nil), 5);
    assert Below(Node(3, Node(1, Nil, Nil), Node(4, Nil, Nil)), 5);
    assert Below(Node(2, Node(0, Nil, Nil), Node(3, Node(1, Nil, Nil), Node(4, Nil, Nil))), 5);
    assert Bal(Node(2, Node(0, Nil, Nil), Node(3, Node(1, Nil, Nil), Node(4, Nil, Nil))), [0, 0, 2, 0, 0]) == 1;
    assert CachedHeight(Node(2, Node(0, Nil, Nil), Node(3, Node(1, Nil, Nil), Node(4, Nil, Nil))), [0, 0, 2, 0, 0]) == 1;
  }

  /** The private avlInsert("c", "h"): down to the right, then rebalance("c"). */
  lemma InsertH()
    ensures Below(Node(2, Node(0, Nil, Nil), Node(1, Nil, Node(3, Nil, Nil))), 4) && Insert(Node(2, Node(0, Nil, Nil), Node(1, Nil, Node(3, Nil, Nil))), [0, 1, 2, 0], ["b", "d", "c", "g"], "h")
         == Ins(true, Node(2, Node(0, Nil, Nil), Node(3, Node(1, Nil, Nil), Node(4, Nil, Nil))), [0, 0, 1, 0, 0], ["b", "d", "c", "g", "h"], true)
  {
    assert Below(Node(0, Nil, Nil), 4);
    assert Below(Node(3, Nil, Nil), 4);
    assert Below(Node(1, Nil, Node(3, Nil, Nil)), 4);
    assert Below(Node(2, Node(0, Nil, Nil), Node(1, Nil, Node(3, Nil, Nil))), 4);
    assert CompareTo("c", "h") < 0;
    InsertHBelowD();
    RebalanceHAtC();
    assert Descend(Node(2, Node(0, Nil, Nil), Node(1, Nil, Node(3, Nil, Nil))), [0, 1, 2, 0], ["b", "d", "c", "g"], "h", false) == Climb(Node(2, Node(0, Nil, Nil), Node(3, Node(1, Nil, Nil), Node(4, Nil, Nil))), [0, 0, 2, 0, 0], ["b", "d", "c", "g", "h"], true, true);
  }

  /** rebalance("b") while inserting "a": balance -1; no rotation, only
      "b".height = getHeight("b"). */
  lemma RebalanceAAtB()
    ensures Below(Node(0, Node(5, Nil, Nil), Nil), 6) && Rebalanced(Node(0, Node(5, Nil, Nil), Nil), [1, 0, 1, 0, 0, 0])
         == Step(true, Node(0, Node(5, Nil, Nil), Nil), [1, 0, 1, 0, 0, 0])
  {
    assert Below(Node(5, Nil, Nil), 6);
    assert Below(Node(0, Node(5, Nil, Nil), Nil), 6);
    assert Bal(Node(0, Node(5, Nil, Nil), Nil), [1, 0, 1, 0, 0, 0]) == -1;
    assert CachedHeight(Node(0, Node(5, Nil, Nil), Nil), [1, 0, 1, 0, 0, 0]) == 1;
  }

  /** The private avlInsert("b", "a"): a new leaf on the left, "b".height =
      getHeight("b"), then rebalance("b"). */
  lemma InsertABelowB()
    ensures Below(Node(0, Nil, Nil), 5) && Insert(Node(0, Nil, Nil), [0, 0, 1, 0, 0], ["b", "d", "c", "g", "h"], "a")
         == Ins(true, Node(0, Node(5, Nil, Nil), Nil), [1, 0, 1, 0, 0, 0], ["b", "d", "c", "g", "h", "a"], true)
  {
    assert Below(Node(0, Nil, Nil), 5);
    assert CompareTo("b", "a") > 0;
    assert Below(Node(5, Nil, Nil), 6);
    assert Below(Node(0, Node(5, Nil, Nil), Nil), 6);
    assert CachedHeight(Node(0, Node(5, Nil, Nil), Nil), [0, 0, 1, 0, 0, 0]) == 1;
    RebalanceAAtB();
    assert Descend(Node(0, Nil, Nil), [0, 0, 1, 0, 0], ["b", "d", "c", "g", "h"], "a", true) == Climb(Node(0, Node(5, Nil, Nil), Nil), [1, 0, 1, 0, 0, 0], ["b", "d", "c", "g", "h", "a"], true, true);
  }

  /** rebalance("c") while inserting "a": balance 0; no rotation, only
      "c".height = getHeight("c"). */
  lemma RebalanceAAtC()
    ensures Below(Node(2, Node(0, Node(5, Nil, Nil), Nil), Node(3, Node(1, Nil, Nil), Node(4, Nil, Nil))), 6) && Rebalanced(Node(2, Node(0, Node(5, Nil, Nil), Nil), Node(3, Node(1, Nil, Nil), Node(4, Nil, Nil))), [1, 0, 1, 0, 0, 0])
         == Step(true, Node(2, Node(0, Node(5, Nil, Nil), Nil), Node(3, Node(1, Nil, Nil), Node(4, Nil, Nil))), [1, 0, 2, 0, 0, 0])
  {
    assert Below(Node(5, Nil, Nil), 6);
    assert Below(Node(0, Node(5, Nil, Nil), Nil), 6);
    assert Below(Node(1, Nil, Nil), 6);
    assert Below(Node(4, Nil, Nil), 6);
    assert Below(Node(3, Node(1, Nil, Nil), Node(4, Nil, Nil)), 6);
    assert Below(Node(2, Node(0, Node(5, Nil, Nil), Nil), Node(3, Node(1, Nil, Nil), Node(4, Nil, Nil))), 6);
    assert Bal(Node(2, Node(0, Node(5, Nil, Nil), Nil), Node(3, Node(1, Nil, Nil), Node(4, Nil, Nil))), [1, 0, 1, 0, 0, 0]) == 0;
    assert CachedHeight(Node(2, Node(0, Node(5, Nil, Nil), Nil), Node(3, Node(1, Nil, Nil), Node(4, Nil, Nil))), [1, 0, 1, 0, 0, 0]) == 2;
  }

  /** The private avlInsert("c", "a"): down to the left, then rebalance("c"). */
  lemma InsertA()
    ensures Below(Node(2, Node(0, Nil, Nil), Node(3, Node(1, Nil, Nil), Node(4, Nil, Nil))), 5) && Insert(Node(2, Node(0, Nil, Nil), Node(3, Node(1, Nil, Nil), Node(4, Nil, Nil))), [0, 0, 1, 0, 0], ["b", "d", "c", "g", "h"], "a")
         == Ins(true, Node(2, Node(0, Node(5, Nil, Nil), Nil), Node(3, Node(1, Nil, Nil), Node(4, Nil, Nil))), [1, 0, 2, 0, 0, 0], ["b", "d", "c", "g", "h", "a"], true)
  {
    assert Below(Node(0, Nil, Nil), 5);
    assert Below(Node(1, Nil, Nil), 5);
    assert Below(Node(4, Nil, Nil), 5);
    assert Below(Node(3, Node(1, Nil, Nil), Node(4, Nil, Nil)), 5);
    assert Below(Node(2, Node(0, Nil, Nil), Node(3, Node(1, Nil, Nil), Node(4, Nil, Nil))), 5);
    assert CompareTo("c", "a") > 0;
    InsertABelowB();
    RebalanceAAtC();
    assert Descend(Node(2, Node(0, Nil, Nil), Node(3, Node(1, Nil, Nil), Node(4, Nil, Nil))), [0, 0, 1, 0, 0], ["b", "d", "c", "g", "h"], "a", true) == Climb(Node(2, Node(0, Node(5, Nil, Nil), Nil), Node(3, Node(1, Nil, Nil), Node(4, Nil, Nil))), [1, 0, 1, 0, 0, 0], ["b", "d", "c", "g", "h", "a"], true, true);
  }

  /** rebalance("h") while inserting "j": balance 1; no rotation, only
      "h".height = getHeight("h"). */
  lemma RebalanceJAtH()
    ensures Below(Node(4, Nil, Node(6, Nil, Nil)), 7) && Rebalanced(Node(4, Nil, Node(6, Nil, Nil)), [1, 0, 2, 0, 1, 0, 0])
         == Step(true, Node(4, Nil, Node(6, Nil, Nil)), [1, 0, 2, 0, 1, 0, 0])
  {
    assert Below(Node(6, Nil, Nil), 7);
    assert Below(Node(4, Nil, Node(6, Nil, Nil)), 7);
    assert Bal(Node(4, Nil, Node(6, Nil, Nil)), [1, 0, 2, 0, 1, 0, 0]) == 1;
    assert CachedHeight(Node(4, Nil, Node(6, Nil, Nil)), [1, 0, 2, 0, 1, 0, 0]) == 1;
  }

  /** The private avlInsert("h", "j"): a new leaf on the right, "h".height =
      getHeight("h"), then rebalance("h"). */
  lemma InsertJBelowH()
    ensures Below(Node(4, Nil, Nil), 6) && Insert(Node(4, Nil, Nil), [1, 0, 2, 0, 0, 0], ["b", "d", "c", "g", "h", "a"], "j")
         == Ins(true, Node(4, Nil, Node(6, Nil, Nil)), [1, 0, 2, 0, 1, 0, 0], ["b", "d", "c", "g", "h", "a", "j"], true)
  {
    assert Below(Node(4, Nil, Nil), 6);
    assert CompareTo("h", "j") < 0;
    assert Below(Node(6, Nil, Nil), 7);
    assert Below(Node(4, Nil, Node(6, Nil, Nil)), 7);
    assert CachedHeight(Node(4, Nil, Node(6, Nil, Nil)), [1, 0, 2, 0, 0, 0, 0]) == 1;
    RebalanceJAtH();
    assert Descend(Node(4, Nil, Nil), [1, 0, 2, 0, 0, 0], ["b", "d", "c", "g", "h", "a"], "j", false) == Climb(Node(4, Nil, Node(6, Nil, Nil)), [1, 0, 2, 0, 1, 0, 0], ["b", "d", "c", "g", "h", "a", "j"], true, true);
  }

  /** rebalance("g") while inserting "j": balance 1; no rotation, only
      "g".height = getHeight("g"). */
  lemma RebalanceJAtG()
    ensures Below(Node(3, Node(1, Nil, Nil), Node(4, Nil, Node(6, Nil, Nil))), 7) && Rebalanced(Node(3, Node(1, Nil, Nil), Node(4, Nil, Node(6, Nil, Nil))), [1, 0, 2, 0, 1, 0, 0])
         == Step(true, Node(3, Node(1, Nil, Nil), Node(4, Nil, Node(6, Nil, Nil))), [1, 0, 2, 2, 1, 0, 0])
  {
    assert Below(Node(1, Nil, Nil), 7);
    assert Below(Node(6, Nil, Nil), 7);
    assert Below(Node(4, Nil, Node(6, Nil, Nil)), 7);
    assert Below(Node(3, Node(1, Nil, Nil), Node(4, Nil, Node(6, Nil, Nil))), 7);
    assert Bal(Node(3, Node(1, Nil, Nil), Node(4, Nil, Node(6, Nil, Nil))), [1, 0, 2, 0, 1, 0, 0]) == 1;
    assert CachedHeight(Node(3, Node(1, Nil, Nil), Node(4, Nil, Node(6, Nil, Nil))), [1, 0, 2, 0, 1, 0, 0]) == 2;
  }

  /** The private avlInsert("g", "j"): down to the right, then rebalance("g"). */
  lemma InsertJBelowG()
    ensures Below(Node(3, Node(1, Nil, Nil), Node(4, Nil, Nil)), 6) && Insert(Node(3, Node(1, Nil, Nil), Node(4, Nil, Nil)), [1, 0, 2, 0, 0, 0], ["b", "d", "c", "g", "h", "a"], "j")
         == Ins(true, Node(3, Node(1, Nil, Nil), Node(4, Nil, Node(6, Nil, Nil))), [1, 0, 2, 2, 1, 0, 0], ["b", "d", "c", "g", "h", "a", "j"], true)
  {
    assert Below(Node(1, Nil, Nil), 6);
    assert Below(Node(4, Nil, Nil), 6);
    assert Below(Node(3, Node(1, Nil, Nil), Node(4, Nil, Nil)), 6);
    assert CompareTo("g", "j") < 0;
    InsertJBelowH();
    RebalanceJAtG();
    assert Descend(Node(3, Node(1, Nil, Nil), Node(4, Nil, Nil)), [1, 0, 2, 0, 0, 0], ["b", "d", "c", "g", "h", "a"], "j", false) == Climb(Node(3, Node(1, Nil, Nil), Node(4, Nil, Node(6, Nil, Nil))), [1, 0, 2, 0, 1, 0, 0], ["b", "d", "c", "g", "h", "a", "j"], true, true);
  }

  /** rebalance("c") while inserting "j": balance 1; no rotation, only
      "c".height = getHeight("c"). */
  lemma RebalanceJAtC()
    ensures Below(Node(2, Node(0, Node(5, Nil, Nil), Nil), Node(3, Node(1, Nil, Nil), Node(4, Nil, Node(6, Nil, Nil)))), 7) && Rebalanced(Node(2, Node(0, Node(5, Nil, Nil), Nil), Node(3, Node(1, Nil, Nil), Node(4, Nil, Node(6, Nil, Nil)))), [1, 0, 2, 2, 1, 0, 0])
         == Step(true, Node(2, Node(0, Node(5, Nil, Nil), Nil), Node(3, Node(1, Nil, Nil), Node(4, Nil, Node(6, Nil, Nil)))), [1, 0, 3, 2, 1, 0, 0])
  {
    assert Below(Node(5, Nil, Nil), 7);
    assert Below(Node(0, Node(5, Nil, Nil), Nil), 7);
    assert Below(Node(1, Nil, Nil), 7);
    assert Below(Node(6, Nil, Nil), 7);
    assert Below(Node(4, Nil, Node(6, Nil, Nil)), 7);
    assert Below(Node(3, Node(1, Nil, Nil), Node(4, Nil, Node(6, Nil, Nil))), 7);
    assert Below(Node(2, Node(0, Node(5, Nil, Nil), Nil), Node(3, Node(1, Nil, Nil), Node(4, Nil, Node(6, Nil, Nil)))), 7);
    assert Bal(Node(2, Node(0, Node(5, Nil, Nil), Nil), Node(3, Node(1, Nil, Nil), Node(4, Nil, Node(6, Nil, Nil)))), [1, 0, 2, 2, 1, 0, 0]) == 1;
    assert CachedHeight(Node(2, Node(0, Node(5, Nil, Nil), Nil), Node(3, Node(1, Nil, Nil), Node(4, Nil, Node(6, Nil, Nil)))), [1, 0, 2, 2, 1, 0, 0]) == 3;
  }

  /** The private avlInsert("c", "j"): down to the right, then rebalance("c"). */
  lemma InsertJ()
    ensures Below(Node(2, Node(0, Node(5, Nil, Nil), Nil), Node(3, Node(1, Nil, Nil), Node(4, Nil, Nil))), 6) && Insert(Node(2, Node(0, Node(5, Nil, Nil), Nil), Node(3, Node(1, Nil, Nil), Node(4, Nil, Nil))), [1, 0, 2, 0, 0, 0], ["b", "d", "c", "g", "h", "a"], "j")
         == Ins(true, Node(2, Node(0, Node(5, Nil, Nil), Nil), Node(3, Node(1, Nil, Nil), Node(4, Nil, Node(6, Nil, Nil)))), [1, 0, 3, 2, 1, 0, 0], ["b", "d", "c", "g", "h", "a", "j"], true)
  {
    assert Below(Node(5, Nil, Nil), 6);
    assert Below(Node(0, Node(5, Nil, Nil), Nil), 6);
    assert Below(Node(1, Nil, Nil), 6);
    assert Below(Node(4, Nil, Nil), 6);
    assert Below(Node(3, Node(1, Nil, Nil), Node(4, Nil, Nil)), 6);
    assert Below(Node(2, Node(0, Node(5, Nil, Nil), Nil), Node(3, Node(1, Nil, Nil), Node(4, Nil, Nil))), 6);
    assert CompareTo("c", "j") < 0;
    InsertJBelowG();
    RebalanceJAtC();
    assert Descend(Node(2, Node(0, Node(5, Nil, Nil), Nil), Node(3, Node(1, Nil, Nil), Node(4, Nil, Nil))), [1, 0, 2, 0, 0, 0], ["b", "d", "c", "g", "h", "a"], "j", false) == Climb(Node(2, Node(0, Node(5, Nil, Nil), Nil), Node(3, Node(1, Nil, Nil), Node(4, Nil, Node(6, Nil, Nil)))), [1, 0, 2, 2, 1, 0, 0], ["b", "d", "c", "g", "h", "a", "j"], true, true);
  }

  /** rebalance("j") while inserting "i": balance -1; no rotation, only
      "j".height = getHeight("j"). */
  lemma RebalanceIAtJ()
    ensures Below(Node(6, Node(7, Nil, Nil), Nil), 8) && Rebalanced(Node(6, Node(7, Nil, Nil), Nil), [1, 0, 3, 2, 1, 0, 1, 0])
         == Step(true, Node(6, Node(7, Nil, Nil), Nil), [1, 0, 3, 2, 1, 0, 1, 0])
  {
    assert Below(Node(7, Nil, Nil), 8);
    assert Below(Node(6, Node(7, Nil, Nil), Nil), 8);
    assert Bal(Node(6, Node(7, Nil, Nil), Nil), [1, 0, 3, 2, 1, 0, 1, 0]) == -1;
    assert CachedHeight(Node(6, Node(7, Nil, Nil), Nil), [1, 0, 3, 2, 1, 0, 1, 0]) == 1;
  }

  /** The private avlInsert("j", "i"): a new leaf on the left, "j".height =
      getHeight("j"), then rebalance("j"). */
  lemma InsertIBelowJ()
    ensures Below(Node(6, Nil, Nil), 7) && Insert(Node(6, Nil, Nil), [1, 0, 3, 2, 1, 0, 0], ["b", "d", "c", "g", "h", "a", "j"], "i")
         == Ins(true, Node(6, Node(7, Nil, Nil), Nil), [1, 0, 3, 2, 1, 0, 1, 0], ["b", "d", "c", "g", "h", "a", "j", "i"], true)
  {
    assert Below(Node(6, Nil, Nil), 7);
    assert CompareTo("j", "i") > 0;
    assert Below(Node(7, Nil, Nil), 8);
    assert Below(Node(6, Node(7, Nil, Nil), Nil), 8);
    assert CachedHeight(Node(6, Node(7, Nil, Nil), Nil), [1, 0, 3, 2, 1, 0, 0, 0]) == 1;
    RebalanceIAtJ();
    assert Descend(Node(6, Nil, Nil), [1, 0, 3, 2, 1, 0, 0], ["b", "d", "c", "g", "h", "a", "j"], "i", true) == Climb(Node(6, Node(7, Nil, Nil), Nil), [1, 0, 3, 2, 1, 0, 1, 0], ["b", "d", "c", "g", "h", "a", "j", "i"], true, true);
  }

  /** rebalance("h") while inserting "i": balance 2; the right child "j" leans
      left, so rightRotate("j"), then leftRotate("h"). */
  lemma RebalanceIAtH()
    ensures Below(Node(4, Nil, Node(6, Node(7, Nil, Nil), Nil)), 8) && Rebalanced(Node(4, Nil, Node(6, Node(7, Nil, Nil), Nil)), [1, 0, 3, 2, 1, 0, 1, 0])
         == Step(true, Node(7, Node(4, Nil, Nil), Node(6, Nil, Nil)), [1, 0, 3, 2, 0, 0, 0, -2])
  {
    assert Below(Node(7, Nil, Nil), 8);
    assert Below(Node(6, Node(7, Nil, Nil), Nil), 8);
    assert Below(Node(4, Nil, Node(6, Node(7, Nil, Nil), Nil)), 8);
    assert Bal(Node(4, Nil, Node(6, Node(7, Nil, Nil), Nil)), [1, 0, 3, 2, 1, 0, 1, 0]) == 2;
    assert Bal(Node(6, Node(7, Nil, Nil), Nil), [1, 0, 3, 2, 1, 0, 1, 0]) == -1;
    assert RotRHeights(Node(6, Node(7, Nil, Nil), Nil), [1, 0, 3, 2, 1, 0, 1, 0]) == [1, 0, 3, 2, 1, 0, 0, -1];
    assert RotLHeights(Node(4, Nil, Node(7, Nil, Node(6, Nil, Nil))), [1, 0, 3, 2, 1, 0, 0, -1]) == [1, 0, 3, 2, 0, 0, 0, -2];
  }

  /** The private avlInsert("h", "i"): down to the right, then rebalance("h"). */
  lemma InsertIBelowH()
    ensures Below(Node(4, Nil, Node(6, Nil, Nil)), 7) && Insert(Node(4, Nil, Node(6, Nil, Nil)), [1, 0, 3, 2, 1, 0, 0], ["b", "d", "c", "g", "h", "a", "j"], "i")
         == Ins(true, Node(7, Node(4, Nil, Nil), Node(6, Nil, Nil)), [1, 0, 3, 2, 0, 0, 0, -2], ["b", "d", "c", "g", "h", "a", "j", "i"], true)
  {
    assert Below(Node(6, Nil, Nil), 7);
    assert Below(Node(4, Nil, Node(6, Nil, Nil)), 7);
    assert CompareTo("h", "i") < 0;
    InsertIBelowJ();
    RebalanceIAtH();
    assert Descend(Node(4, Nil, Node(6, Nil, Nil)), [1, 0, 3, 2, 1, 0, 0], ["b", "d", "c", "g", "h", "a", "j"], "i", false) == Climb(Node(4, Nil, Node(6, Node(7, Nil, Nil), Nil)), [1, 0, 3, 2, 1, 0, 1, 0], ["b", "d", "c", "g", "h", "a", "j", "i"], true, true);
  }

  /** rebalance("g") while inserting "i": balance 1; no rotation, only
      "g".height = getHeight("g"). */
  lemma RebalanceIAtG()
    ensures Below(Node(3, Node(1, Nil, Nil), Node(7, Node(4, Nil, Nil), Node(6, Nil, Nil))), 8) && Rebalanced(Node(3, Node(1, Nil, Nil), Node(7, Node(4, Nil, Nil), Node(6, Nil, Nil))), [1, 0, 3, 2, 0, 0, 0, -2])
         == Step(true, Node(3, Node(1, Nil, Nil), Node(7, Node(4, Nil, Nil), Node(6, Nil, Nil))), [1, 0, 3, 1, 0, 0, 0, -2])
  {
    assert Below(Node(1, Nil, Nil), 8);
    assert Below(Node(4, Nil, Nil), 8);
    assert Below(Node(6, Nil, Nil), 8);
    assert Below(Node(7, Node(4, Nil, Nil), Node(6, Nil, Nil)), 8);
    assert Below(Node(3, Node(1, Nil, Nil), Node(7, Node(4, Nil, Nil), Node(6, Nil, Nil))), 8);
    assert Bal(Node(3, Node(1, Nil, Nil), Node(7, Node(4, Nil, Nil), Node(6, Nil, Nil))), [1, 0, 3, 2, 0, 0, 0, -2]) == 1;
    assert CachedHeight(Node(3, Node(1, Nil, Nil), Node(7, Node(4, Nil, Nil), Node(6, Nil, Nil))), [1, 0, 3, 2, 0, 0, 0, -2]) == 1;
  }

  /** The private avlInsert("g", "i"): down to the right, then rebalance("g"). */
  lemma InsertIBelowG()
    ensures Below(Node(3, Node(1, Nil, Nil), Node(4, Nil, Node(6, Nil, Nil))), 7) && Insert(Node(3, Node(1, Nil, Nil), Node(4, Nil, Node(6, Nil, Nil))), [1, 0, 3, 2, 1, 0, 0], ["b", "d", "c", "g", "h", "a", "j"], "i")
         == Ins(true, Node(3, Node(1, Nil, Nil), Node(7, Node(4, Nil, Nil), Node(6, Nil, Nil))), [1, 0, 3, 1, 0, 0, 0, -2], ["b", "d", "c", "g", "h", "a", "j", "i"], true)
  {
    assert Below(Node(1, Nil, Nil), 7);
    assert Below(Node(6, Nil, Nil), 7);
    assert Below(Node(4, Nil, Node(6, Nil, Nil)), 7);
    assert Below(Node(3, Node(1, Nil, Nil), Node(4, Nil, Node(6, Nil, Nil))), 7);
    assert CompareTo("g", "i") < 0;
    InsertIBelowH();
    RebalanceIAtG();
    assert Descend(Node(3, Node(1, Nil, Nil), Node(4, Nil, Node(6, Nil, Nil))), [1, 0, 3, 2, 1, 0, 0], ["b", "d", "c", "g", "h", "a", "j"], "i", false) == Climb(Node(3, Node(1, Nil, Nil), Node(7, Node(4, Nil, Nil), Node(6, Nil, Nil))), [1, 0, 3, 2, 0, 0, 0, -2], ["b", "d", "c", "g", "h", "a", "j", "i"], true, true);
  }

  /** rebalance("c") while inserting "i": balance 0; no rotation, only
      "c".height = getHeight("c"). */
  lemma RebalanceIAtC()
    ensures Below(Node(2, Node(0, Node(5, Nil, Nil), Nil), Node(3, Node(1, Nil, Nil), Node(7, Node(4, Nil, Nil), Node(6, Nil, Nil)))), 8) && Rebalanced(Node(2, Node(0, Node(5, Nil, Nil), Nil), Node(3, Node(1, Nil, Nil), Node(7, Node(4, Nil, Nil), Node(6, Nil, Nil)))), [1, 0, 3, 1, 0, 0, 0, -2])
         == Step(true, Node(2, Node(0, Node(5, Nil, Nil), Nil), Node(3, Node(1, Nil, Nil), Node(7, Node(4, Nil, Nil), Node(6, Nil, Nil)))), [1, 0, 2, 1, 0, 0, 0, -2])
  {
    assert Below(Node(5, Nil, Nil), 8);
    assert Below(Node(0, Node(5, Nil, Nil), Nil), 8);
    assert Below(Node(1, Nil, Nil), 8);
    assert Below(Node(4, Nil, Nil), 8);
    assert Below(Node(6, Nil, Nil), 8);
    assert Below(Node(7, Node(4, Nil, Nil), Node(6, Nil, Nil)), 8);
    assert Below(Node(3, Node(1, Nil, Nil), Node(7, Node(4, Nil, Nil), Node(6, Nil, Nil))), 8);
    assert Below(Node(2, Node(0, Node(5, Nil, Nil), Nil), Node(3, Node(1, Nil, Nil), Node(7, Node(4, Nil, Nil), Node(6, Nil, Nil)))), 8);
    assert Bal(Node(2, Node(0, Node(5, Nil, Nil), Nil), Node(3, Node(1, Nil, Nil), Node(7, Node(4, Nil, Nil), Node(6, Nil, Nil)))), [1, 0, 3, 1, 0, 0, 0, -2]) == 0;
    assert CachedHeight(Node(2, Node(0, Node(5, Nil, Nil), Nil), Node(3, Node(1, Nil, Nil), Node(7, Node(4, Nil, Nil), Node(6, Nil, Nil)))), [1, 0, 3, 1, 0, 0, 0, -2]) == 2;
  }

  /** The private avlInsert("c", "i"): down to the right, then rebalance("c"). */
  lemma InsertI()
    ensures Below(Node(2, Node(0, Node(5, Nil, Nil), Nil), Node(3, Node(1, Nil, Nil), Node(4, Nil, Node(6, Nil, Nil)))), 7) && Insert(Node(2, Node(0, Node(5, Nil, Nil), Nil), Node(3, Node(1, Nil, Nil), Node(4, Nil, Node(6, Nil, Nil)))), [1, 0, 3, 2, 1, 0, 0], ["b", "d", "c", "g", "h", "a", "j"], "i")
         == Ins(true, Node(2, Node(0, Node(5, Nil, Nil), Nil), Node(3, Node(1, Nil, Nil), Node(7, Node(4, Nil, Nil), Node(6, Nil, Nil)))), [1, 0, 2, 1, 0, 0, 0, -2], ["b", "d", "c", "g", "h", "a", "j", "i"], true)
  {
    assert Below(Node(5, Nil, Nil), 7);
    assert Below(Node(0, Node(5, Nil, Nil), Nil), 7);
    assert Below(Node(1, Nil, Nil), 7);
    assert Below(Node(6, Nil, Nil), 7);
    assert Below(Node(4, Nil, Node(6, Nil, Nil)), 7);
    assert Below(Node(3, Node(1, Nil, Nil), Node(4, Nil, Node(6, Nil, Nil))), 7);
    assert Below(Node(2, Node(0, Node(5, Nil, Nil), Nil), Node(3, Node(1, Nil, Nil), Node(4, Nil, Node(6, Nil, Nil)))), 7);
    assert CompareTo("c", "i") < 0;
    InsertIBelowG();
    RebalanceIAtC();
    assert Descend(Node(2, Node(0, Node(5, Nil, Nil), Nil), Node(3, Node(1, Nil, Nil), Node(4, Nil, Node(6, Nil, Nil)))), [1, 0, 3, 2, 1, 0, 0], ["b", "d", "c", "g", "h", "a", "j"], "i", false) == Climb(Node(2, Node(0, Node(5, Nil, Nil), Nil), Node(3, Node(1, Nil, Nil), Node(7, Node(4, Nil, Nil), Node(6, Nil, Nil)))), [1, 0, 3, 1, 0, 0, 0, -2], ["b", "d", "c", "g", "h", "a", "j", "i"], true, true);
  }

  /** rebalance("d") while inserting "f": balance 1; no rotation, only
      "d".height = getHeight("d"). */
  lemma RebalanceFAtD()
    ensures Below(Node(1, Nil, Node(8, Nil, Nil)), 9) && Rebalanced(Node(1, Nil, Node(8, Nil, Nil)), [1, 1, 2, 1, 0, 0, 0, -2, 0])
         == Step(true, Node(1, Nil, Node(8, Nil, Nil)), [1, 1, 2, 1, 0, 0, 0, -2, 0])
  {
    assert Below(Node(8, Nil, Nil), 9);
    assert Below(Node(1, Nil, Node(8, Nil, Nil)), 9);
    assert Bal(Node(1, Nil, Node(8, Nil, Nil)), [1, 1, 2, 1, 0, 0, 0, -2, 0]) == 1;
    assert CachedHeight(Node(1, Nil, Node(8, Nil, Nil)), [1, 1, 2, 1, 0, 0, 0, -2, 0]) == 1;
  }

  /** The private avlInsert("d", "f"): a new leaf on the right, "d".height =
      getHeight("d"), then rebalance("d"). */
  lemma InsertFBelowD()
    ensures Below(Node(1, Nil, Nil), 8) && Insert(Node(1, Nil, Nil), [1, 0, 2, 1, 0, 0, 0, -2], ["b", "d", "c", "g", "h", "a", "j", "i"], "f")
         == Ins(true, Node(1, Nil, Node(8, Nil, Nil)), [1, 1, 2, 1, 0, 0, 0, -2, 0], ["b", "d", "c", "g", "h", "a", "j", "i", "f"], true)
  {
    assert Below(Node(1, Nil, Nil), 8);
    assert CompareTo("d", "f") < 0;
    assert Below(Node(8, Nil, Nil), 9);
    assert Below(Node(1, Nil, Node(8, Nil, Nil)), 9);
    assert CachedHeight(Node(1, Nil, Node(8, Nil, Nil)), [1, 0, 2, 1, 0, 0, 0, -2, 0]) == 1;
    RebalanceFAtD();
    assert Descend(Node(1, Nil, Nil), [1, 0, 2, 1, 0, 0, 0, -2], ["b", "d", "c", "g", "h", "a", "j", "i"], "f", false) == Climb(Node(1, Nil, Node(8, Nil, Nil)), [1, 1, 2, 1, 0, 0, 0, -2, 0], ["b", "d", "c", "g", "h", "a", "j", "i", "f"], true, true);
  }

  /** rebalance("g") while inserting "f": balance 0; no rotation, only
      "g".height = getHeight("g"). */
  lemma RebalanceFAtG()
    ensures Below(Node(3, Node(1, Nil, Node(8, Nil, Nil)), Node(7, Node(4, Nil, Nil), Node(6, Nil, Nil))), 9) && Rebalanced(Node(3, Node(1, Nil, Node(8, Nil, Nil)), Node(7, Node(4, Nil, Nil), Node(6, Nil, Nil))), [1, 1, 2, 1, 0, 0, 0, -2, 0])
         == Step(true, Node(3, Node(1, Nil, Node(8, Nil, Nil)), Node(7, Node(4, Nil, Nil), Node(6, Nil, Nil))), [1, 1, 2, 2, 0, 0, 0, -2, 0])
  {
    assert Below(Node(8, Nil, Nil), 9);
    assert Below(Node(1, Nil, Node(8, Nil, Nil)), 9);
    assert Below(Node(4, Nil, Nil), 9);
    assert Below(Node(6, Nil, Nil), 9);
    assert Below(Node(7, Node(4, Nil, Nil), Node(6, Nil, Nil)), 9);
    assert Below(Node(3, Node(1, Nil, Node(8, Nil, Nil)), Node(7, Node(4, Nil, Nil), Node(6, Nil, Nil))), 9);
    assert Bal(Node(3, Node(1, Nil, Node(8, Nil, Nil)), Node(7, Node(4, Nil, Nil), Node(6, Nil, Nil))), [1, 1, 2, 1, 0, 0, 0, -2, 0]) == 0;
    assert CachedHeight(Node(3, Node(1, Nil, Node(8, Nil, Nil)), Node(7, Node(4, Nil, Nil), Node(6, Nil, Nil))), [1, 1, 2, 1, 0, 0, 0, -2, 0]) == 2;
  }

  /** The private avlInsert("g", "f"): down to the left, then rebalance("g"). */
  lemma InsertFBelowG()
    ensures Below(Node(3, Node(1, Nil, Nil), Node(7, Node(4, Nil, Nil), Node(6, Nil, Nil))), 8) && Insert(Node(3, Node(1, Nil, Nil), Node(7, Node(4, Nil, Nil), Node(6, Nil, Nil))), [1, 0, 2, 1, 0, 0, 0, -2], ["b", "d", "c", "g", "h", "a", "j", "i"], "f")
         == Ins(true, Node(3, Node(1, Nil, Node(8, Nil, Nil)), Node(7, Node(4, Nil, Nil), Node(6, Nil, Nil))), [1, 1, 2, 2, 0, 0, 0, -2, 0], ["b", "d", "c", "g", "h", "a", "j", "i", "f"], true)
  {
    assert Below(Node(1, Nil, Nil), 8);
    assert Below(Node(4, Nil, Nil), 8);
    assert Below(Node(6, Nil, Nil), 8);
    assert Below(Node(7, Node(4, Nil, Nil), Node(6, Nil, Nil)), 8);
    assert Below(Node(3, Node(1, Nil, Nil), Node(7, Node(4, Nil, Nil), Node(6, Nil, Nil))), 8);
    assert CompareTo("g", "f") > 0;
    InsertFBelowD();
    RebalanceFAtG();
    assert Descend(Node(3, Node(1, Nil, Nil), Node(7, Node(4, Nil, Nil), Node(6, Nil, Nil))), [1, 0, 2, 1, 0, 0, 0, -2], ["b", "d", "c", "g", "h", "a", "j", "i"], "f", true) == Climb(Node(3, Node(1, Nil, Node(8, Nil, Nil)), Node(7, Node(4, Nil, Nil), Node(6, Nil, Nil))), [1, 1, 2, 1, 0, 0, 0, -2, 0], ["b", "d", "c", "g", "h", "a", "j", "i", "f"], true, true);
  }

  /** rebalance("c") while inserting "f": balance 1; no rotation, only
      "c".height = getHeight("c"). */
  lemma RebalanceFAtC()
    ensures Below(Node(2, Node(0, Node(5, Nil, Nil), Nil), Node(3, Node(1, Nil, Node(8, Nil, Nil)), Node(7, Node(4, Nil, Nil), Node(6, Nil, Nil)))), 9) && Rebalanced(Node(2, Node(0, Node(5, Nil, Nil), Nil), Node(3, Node(1, Nil, Node(8, Nil, Nil)), Node(7, Node(4, Nil, Nil), Node(6, Nil, Nil)))), [1, 1, 2, 2, 0, 0, 0, -2, 0])
         == Step(true, Node(2, Node(0, Node(5, Nil, Nil), Nil), Node(3, Node(1, Nil, Node(8, Nil, Nil)), Node(7, Node(4, Nil, Nil), Node(6, Nil, Nil)))), [1, 1, 3, 2, 0, 0, 0, -2, 0])
  {
    assert Below(Node(5, Nil, Nil), 9);
    assert Below(Node(0, Node(5, Nil, Nil), Nil), 9);
    assert Below(Node(8, Nil, Nil), 9);
    assert Below(Node(1, Nil, Node(8, Nil, Nil)), 9);
    assert Below(Node(4, Nil, Nil), 9);
    assert Below(Node(6, Nil, Nil), 9);
    assert Below(Node(7, Node(4, Nil, Nil), Node(6, Nil, Nil)), 9);
    assert Below(Node(3, Node(1, Nil, Node(8, Nil, Nil)), Node(7, Node(4, Nil, Nil), Node(6, Nil, Nil))), 9);
    assert Below(Node(2, Node(0, Node(5, Nil, Nil), Nil), Node(3, Node(1, Nil, Node(8, Nil, Nil)), Node(7, Node(4, Nil, Nil), Node(6, Nil, Nil)))), 9);
    assert Bal(Node(2, Node(0, Node(5, Nil, Nil), Nil), Node(3, Node(1, Nil, Node(8, Nil, Nil)), Node(7, Node(4, Nil, Nil), Node(6, Nil, Nil)))), [1, 1, 2, 2, 0, 0, 0, -2, 0]) == 1;
    assert CachedHeight(Node(2, Node(0, Node(5, Nil, Nil), Nil), Node(3, Node(1, Nil, Node(8, Nil, Nil)), Node(7, Node(4, Nil, Nil), Node(6, Nil, Nil)))), [1, 1, 2, 2, 0, 0, 0, -2, 0]) == 3;
  }

  /** The private avlInsert("c", "f"): down to the right, then rebalance("c"). */
  lemma InsertF()
    ensures Below(Node(2, Node(0, Node(5, Nil, Nil), Nil), Node(3, Node(1, Nil, Nil), Node(7, Node(4, Nil, Nil), Node(6, Nil, Nil)))), 8) && Insert(Node(2, Node(0, Node(5, Nil, Nil), Nil), Node(3, Node(1, Nil, Nil), Node(7, Node(4, Nil, Nil), Node(6, Nil, Nil)))), [1, 0, 2, 1, 0, 0, 0, -2], ["b", "d", "c", "g", "h", "a", "j", "i"], "f")
         == Ins(true, Node(2, Node(0, Node(5, Nil, Nil), Nil), Node(3, Node(1, Nil, Node(8, Nil, Nil)), Node(7, Node(4, Nil, Nil), Node(6, Nil, Nil)))), [1, 1, 3, 2, 0, 0, 0, -2, 0], ["b", "d", "c", "g", "h", "a", "j", "i", "f"], true)
  {
    assert Below(Node(5, Nil, Nil), 8);
    assert Below(Node(0, Node(5, Nil, Nil), Nil), 8);
    assert Below(Node(1, Nil, Nil), 8);
    assert Below(Node(4, Nil, Nil), 8);
    assert Below(Node(6, Nil, Nil), 8);
    assert Below(Node(7, Node(4, Nil, Nil), Node(6, Nil, Nil)), 8);
    assert Below(Node(3, Node(1, Nil, Nil), Node(7, Node(4, Nil, Nil), Node(6, Nil, Nil))), 8);
    assert Below(Node(2, Node(0, Node(5, Nil, Nil), Nil), Node(3, Node(1, Nil, Nil), Node(7, Node(4, Nil, Nil), Node(6, Nil, Nil)))), 8);
    assert CompareTo("c", "f") < 0;
    InsertFBelowG();
    RebalanceFAtC();
    assert Descend(Node(2, Node(0, Node(5, Nil, Nil), Nil), Node(3, Node(1, Nil, Nil), Node(7, Node(4, Nil, Nil), Node(6, Nil, Nil)))), [1, 0, 2, 1, 0, 0, 0, -2], ["b", "d", "c", "g", "h", "a", "j", "i"], "f", false) == Climb(Node(2, Node(0, Node(5, Nil, Nil), Nil), Node(3, Node(1, Nil, Node(8, Nil, Nil)), Node(7, Node(4, Nil, Nil), Node(6, Nil, Nil)))), [1, 1, 2, 2, 0, 0, 0, -2, 0], ["b", "d", "c", "g", "h", "a", "j", "i", "f"], true, true);
  }

  /** rebalance("f") while inserting "e": balance -1; no rotation, only
      "f".height = getHeight("f"). */
  lemma RebalanceEAtF()
    ensures Below(Node(8, Node(9, Nil, Nil), Nil), 10) && Rebalanced(Node(8, Node(9, Nil, Nil), Nil), [1, 1, 3, 2, 0, 0, 0, -2, 1, 0])
         == Step(true, Node(8, Node(9, Nil, Nil), Nil), [1, 1, 3, 2, 0, 0, 0, -2, 1, 0])
  {
    assert Below(Node(9, Nil, Nil), 10);
    assert Below(Node(8, Node(9, Nil, Nil), Nil), 10);
    assert Bal(Node(8, Node(9, Nil, Nil), Nil), [1, 1, 3, 2, 0, 0, 0, -2, 1, 0]) == -1;
    assert CachedHeight(Node(8, Node(9, Nil, Nil), Nil), [1, 1, 3, 2, 0, 0, 0, -2, 1, 0]) == 1;
  }

  /** The private avlInsert("f", "e"): a new leaf on the left, "f".height =
      getHeight("f"), then rebalance("f"). */
  lemma InsertEBelowF()
    ensures Below(Node(8, Nil, Nil), 9) && Insert(Node(8, Nil, Nil), [1, 1, 3, 2, 0, 0, 0, -2, 0], ["b", "d", "c", "g", "h", "a", "j", "i", "f"], "e")
         == Ins(true, Node(8, Node(9, Nil, Nil), Nil), [1, 1, 3, 2, 0, 0, 0, -2, 1, 0], ["b", "d", "c", "g", "h", "a", "j", "i", "f", "e"], true)
  {
    assert Below(Node(8, Nil, Nil), 9);
    assert CompareTo("f", "e") > 0;
    assert Below(Node(9, Nil, Nil), 10);
    assert Below(Node(8, Node(9, Nil, Nil), Nil), 10);
    assert CachedHeight(Node(8, Node(9, Nil, Nil), Nil), [1, 1, 3, 2, 0, 0, 0, -2, 0, 0]) == 1;
    RebalanceEAtF();
    assert Descend(Node(8, Nil, Nil), [1, 1, 3, 2, 0, 0, 0, -2, 0], ["b", "d", "c", "g", "h", "a", "j", "i", "f"], "e", true) == Climb(Node(8, Node(9, Nil, Nil), Nil), [1, 1, 3, 2, 0, 0, 0, -2, 1, 0], ["b", "d", "c", "g", "h", "a", "j", "i", "f", "e"], true, true);
  }

  /** rebalance("d") while inserting "e": balance 2; the right child "f" leans
      left, so rightRotate("f"), then leftRotate("d"). */
  lemma RebalanceEAtD()
    ensures Below(Node(1, Nil, Node(8, Node(9, Nil, Nil), Nil)), 10) && Rebalanced(Node(1, Nil, Node(8, Node(9, Nil, Nil), Nil)), [1, 1, 3, 2, 0, 0, 0, -2, 1, 0])
         == Step(true, Node(9, Node(1, Nil, Nil), Node(8, Nil, Nil)), [1, 0, 3, 2, 0, 0, 0, -2, 0, -2])
  {
    assert Below(Node(9, Nil, Nil), 10);
    assert Below(Node(8, Node(9, Nil, Nil), Nil), 10);
    assert Below(Node(1, Nil, Node(8, Node(9, Nil, Nil), Nil)), 10);
    assert Bal(Node(1, Nil, Node(8, Node(9, Nil, Nil), Nil)), [1, 1, 3, 2, 0, 0, 0, -2, 1, 0]) == 2;
    assert Bal(Node(8, Node(9, Nil, Nil), Nil), [1, 1, 3, 2, 0, 0, 0, -2, 1, 0]) == -1;
    assert RotRHeights(Node(8, Node(9, Nil, Nil), Nil), [1, 1, 3, 2, 0, 0, 0, -2, 1, 0]) == [1, 1, 3, 2, 0, 0, 0, -2, 0, -1];
    assert RotLHeights(Node(1, Nil, Node(9, Nil, Node(8, Nil, Nil))), [1, 1, 3, 2, 0, 0, 0, -2, 0, -1]) == [1, 0, 3, 2, 0, 0, 0, -2, 0, -2];
  }

  /** The private avlInsert("d", "e"): down to the right, then rebalance("d"). */
  lemma InsertEBelowD()
    ensures Below(Node(1, Nil, Node(8, Nil, Nil)), 9) && Insert(Node(1, Nil, Node(8, Nil, Nil)), [1, 1, 3, 2, 0, 0, 0, -2, 0], ["b", "d", "c", "g", "h", "a", "j", "i", "f"], "e")
         == Ins(true, Node(9, Node(1, Nil, Nil), Node(8, Nil, Nil)), [1, 0, 3, 2, 0, 0, 0, -2, 0, -2], ["b", "d", "c", "g", "h", "a", "j", "i", "f", "e"], true)
  {
    assert Below(Node(8, Nil, Nil), 9);
    assert Below(Node(1, Nil, Node(8, Nil, Nil)), 9);
    assert CompareTo("d", "e") < 0;
    InsertEBelowF();
    RebalanceEAtD();
    assert Descend(Node(1, Nil, Node(8, Nil, Nil)), [1, 1, 3, 2, 0, 0, 0, -2, 0], ["b", "d", "c", "g", "h", "a", "j", "i", "f"], "e", false) == Climb(Node(1, Nil, Node(8, Node(9, Nil, Nil), Nil)), [1, 1, 3, 2, 0, 0, 0, -2, 1, 0], ["b", "d", "c", "g", "h", "a", "j", "i", "f", "e"], true, true);
  }

  /** rebalance("g") while inserting "e": balance 0; no rotation, only
      "g".height = getHeight("g"). */
  lemma RebalanceEAtG()
    ensures Below(Node(3, Node(9, Node(1, Nil, Nil), Node(8, Nil, Nil)), Node(7, Node(4, Nil, Nil), Node(6, Nil, Nil))), 10) && Rebalanced(Node(3, Node(9, Node(1, Nil, Nil), Node(8, Nil, Nil)), Node(7, Node(4, Nil, Nil), Node(6, Nil, Nil))), [1, 0, 3, 2, 0, 0, 0, -2, 0, -2])
         == Step(true, Node(3, Node(9, Node(1, Nil, Nil), Node(8, Nil, Nil)), Node(7, Node(4, Nil, Nil), Node(6, Nil, Nil))), [1, 0, 3, -1, 0, 0, 0, -2, 0, -2])
  {
    assert Below(Node(1, Nil, Nil), 10);
    assert Below(Node(8, Nil, Nil), 10);
    assert Below(Node(9, Node(1, Nil, Nil), Node(8, Nil, Nil)), 10);
    assert Below(Node(4, Nil, Nil), 10);
    assert Below(Node(6, Nil, Nil), 10);
    assert Below(Node(7, Node(4, Nil, Nil), Node(6, Nil, Nil)), 10);
    assert Below(Node(3, Node(9, Node(1, Nil, Nil), Node(8, Nil, Nil)), Node(7, Node(4, Nil, Nil), Node(6, Nil, Nil))), 10);
    assert Bal(Node(3, Node(9, Node(1, Nil, Nil), Node(8, Nil, Nil)), Node(7, Node(4, Nil, Nil), Node(6, Nil, Nil))), [1, 0, 3, 2, 0, 0, 0, -2, 0, -2]) == 0;
    assert CachedHeight(Node(3, Node(9, Node(1, Nil, Nil), Node(8, Nil, Nil)), Node(7, Node(4, Nil, Nil), Node(6, Nil, Nil))), [1, 0, 3, 2, 0, 0, 0, -2, 0, -2]) == -1;
  }

  /** The private avlInsert("g", "e"): down to the left, then rebalance("g"). */
  lemma InsertEBelowG()
    ensures Below(Node(3, Node(1, Nil, Node(8, Nil, Nil)), Node(7, Node(4, Nil, Nil), Node(6, Nil, Nil))), 9) && Insert(Node(3, Node(1, Nil, Node(8, Nil, Nil)), Node(7, Node(4, Nil, Nil), Node(6, Nil, Nil))), [1, 1, 3, 2, 0, 0, 0, -2, 0], ["b", "d", "c", "g", "h", "a", "j", "i", "f"], "e")
         == Ins(true, Node(3, Node(9, Node(1, Nil, Nil), Node(8, Nil, Nil)), Node(7, Node(4, Nil, Nil), Node(6, Nil, Nil))), [1, 0, 3, -1, 0, 0, 0, -2, 0, -2], ["b", "d", "c", "g", "h", "a", "j", "i", "f", "e"], true)
  {
    assert Below(Node(8, Nil, Nil), 9);
    assert Below(Node(1, Nil, Node(8, Nil, Nil)), 9);
    assert Below(Node(4, Nil, Nil), 9);
    assert Below(Node(6, Nil, Nil), 9);
    assert Below(Node(7, Node(4, Nil, Nil), Node(6, Nil, Nil)), 9);
    assert Below(Node(3, Node(1, Nil, Node(8, Nil, Nil)), Node(7, Node(4, Nil, Nil), Node(6, Nil, Nil))), 9);
    assert CompareTo("g", "e") > 0;
    InsertEBelowD();
    RebalanceEAtG();
    assert Descend(Node(3, Node(1, Nil, Node(8, Nil, Nil)), Node(7, Node(4, Nil, Nil), Node(6, Nil, Nil))), [1, 1, 3, 2, 0, 0, 0, -2, 0], ["b", "d", "c", "g", "h", "a", "j", "i", "f"], "e", true) == Climb(Node(3, Node(9, Node(1, Nil, Nil), Node(8, Nil, Nil)), Node(7, Node(4, Nil, Nil), Node(6, Nil, Nil))), [1, 0, 3, 2, 0, 0, 0, -2, 0, -2], ["b", "d", "c", "g", "h", "a", "j", "i", "f", "e"], true, true);
  }

  /** rebalance("c") while inserting "e": balance -2; the left child "b" leans
      left, so rightRotate("c"). */
  lemma RebalanceEAtC()
    ensures Below(Node(2, Node(0, Node(5, Nil, Nil), Nil), Node(3, Node(9, Node(1, Nil, Nil), Node(8, Nil, Nil)), Node(7, Node(4, Nil, Nil), Node(6, Nil, Nil)))), 10) && Rebalanced(Node(2, Node(0, Node(5, Nil, Nil), Nil), Node(3, Node(9, Node(1, Nil, Nil), Node(8, Nil, Nil)), Node(7, Node(4, Nil, Nil), Node(6, Nil, Nil)))), [1, 0, 3, -1, 0, 0, 0, -2, 0, -2])
         == Step(true, Node(0, Node(5, Nil, Nil), Node(2, Nil, Node(3, Node(9, Node(1, Nil, Nil), Node(8, Nil, Nil)), Node(7, Node(4, Nil, Nil), Node(6, Nil, Nil))))), [0, 0, 0, -1, 0, 0, 0, -2, 0, -2])
  {
    assert Below(Node(5, Nil, Nil), 10);
    assert Below(Node(0, Node(5, Nil, Nil), Nil), 10);
    assert Below(Node(1, Nil, Nil), 10);
    assert Below(Node(8, Nil, Nil), 10);
    assert Below(Node(9, Node(1, Nil, Nil), Node(8, Nil, Nil)), 10);
    assert Below(Node(4, Nil, Nil), 10);
    assert Below(Node(6, Nil, Nil), 10);
    assert Below(Node(7, Node(4, Nil, Nil), Node(6, Nil, Nil)), 10);
    assert Below(Node(3, Node(9, Node(1, Nil, Nil), Node(8, Nil, Nil)), Node(7, Node(4, Nil, Nil), Node(6, Nil, Nil))), 10);
    assert Below(Node(2, Node(0, Node(5, Nil, Nil), Nil), Node(3, Node(9, Node(1, Nil, Nil), Node(8, Nil, Nil)), Node(7, Node(4, Nil, Nil), Node(6, Nil, Nil)))), 10);
    assert Bal(Node(2, Node(0, Node(5, Nil, Nil), Nil), Node(3, Node(9, Node(1, Nil, Nil), Node(8, Nil, Nil)), Node(7, Node(4, Nil, Nil), Node(6, Nil, Nil)))), [1, 0, 3, -1, 0, 0, 0, -2, 0, -2]) == -2;
    assert Bal(Node(0, Node(5, Nil, Nil), Nil), [1, 0, 3, -1, 0, 0, 0, -2, 0, -2]) == -1;
    assert RotRHeights(Node(2, Node(0, Node(5, Nil, Nil), Nil), Node(3, Node(9, Node(1, Nil, Nil), Node(8, Nil, Nil)), Node(7, Node(4, Nil, Nil), Node(6, Nil, Nil)))), [1, 0, 3, -1, 0, 0, 0, -2, 0, -2]) == [0, 0, 0, -1, 0, 0, 0, -2, 0, -2];
  }

  /** The private avlInsert("c", "e"): down to the right, then rebalance("c"). */
  lemma InsertE()
    ensures Below(Node(2, Node(0, Node(5, Nil, Nil), Nil), Node(3, Node(1, Nil, Node(8, Nil, Nil)), Node(7, Node(4, Nil, Nil), Node(6, Nil, Nil)))), 9) && Insert(Node(2, Node(0, Node(5, Nil, Nil), Nil), Node(3, Node(1, Nil, Node(8, Nil, Nil)), Node(7, Node(4, Nil, Nil), Node(6, Nil, Nil)))), [1, 1, 3, 2, 0, 0, 0, -2, 0], ["b", "d", "c", "g", "h", "a", "j", "i", "f"], "e")
         == Ins(true, Node(0, Node(5, Nil, Nil), Node(2, Nil, Node(3, Node(9, Node(1, Nil, Nil), Node(8, Nil, Nil)), Node(7, Node(4, Nil, Nil), Node(6, Nil, Nil))))), [0, 0, 0, -1, 0, 0, 0, -2, 0, -2], ["b", "d", "c", "g", "h", "a", "j", "i", "f", "e"], true)
  {
    assert Below(Node(2, Node(0, Node(5, Nil, Nil), Nil), Node(3, Node(1, Nil, Node(8, Nil, Nil)), Node(7, Node(4, Nil, Nil), Node(6, Nil, Nil)))), 9);
    assert Insert(Node(2, Node(0, Node(5, Nil, Nil), Nil), Node(3, Node(1, Nil, Node(8, Nil, Nil)), Node(7, Node(4, Nil, Nil), Node(6, Nil, Nil)))), [1, 1, 3, 2, 0, 0, 0, -2, 0], ["b", "d", "c", "g", "h", "a", "j", "i", "f"], "e") == Ins(true, Node(0, Node(5, Nil, Nil), Node(2, Nil, Node(3, Node(9, Node(1, Nil, Nil), Node(8, Nil, Nil)), Node(7, Node(4, Nil, Nil), Node(6, Nil, Nil))))), [0, 0, 0, -1, 0, 0, 0, -2, 0, -2], ["b", "d", "c", "g", "h", "a", "j", "i", "f", "e"], true) by {
      assert CompareTo("c", "e") < 0;
      InsertEBelowG();
      RebalanceEAtC();
      Resumed(Node(2, Node(0, Node(5, Nil, Nil), Nil), Node(3, Node(1, Nil, Node(8, Nil, Nil)), Node(7, Node(4, Nil, Nil), Node(6, Nil, Nil)))), [1, 1, 3, 2, 0, 0, 0, -2, 0], ["b", "d", "c", "g", "h", "a", "j", "i", "f"], "e", false,
        Node(3, Node(1, Nil, Node(8, Nil, Nil)), Node(7, Node(4, Nil, Nil), Node(6, Nil, Nil))),
        Ins(true, Node(3, Node(9, Node(1, Nil, Nil), Node(8, Nil, Nil)), Node(7, Node(4, Nil, Nil), Node(6, Nil, Nil))), [1, 0, 3, -1, 0, 0, 0, -2, 0, -2], ["b", "d", "c", "g", "h", "a", "j", "i", "f", "e"], true),
        Node(2, Node(0, Node(5, Nil, Nil), Nil), Node(3, Node(9, Node(1, Nil, Nil), Node(8, Nil, Nil)), Node(7, Node(4, Nil, Nil), Node(6, Nil, Nil)))),
        Step(true, Node(0, Node(5, Nil, Nil), Node(2, Nil, Node(3, Node(9, Node(1, Nil, Nil), Node(8, Nil, Nil)), Node(7, Node(4, Nil, Nil), Node(6, Nil, Nil))))), [0, 0, 0, -1, 0, 0, 0, -2, 0, -2]));
    }
  }

  /** The private avlInsert("d", "d"): the word is already there, so nothing
      is attached and no rebalance runs here. */
  lemma InsertDAgainBelowD()
    ensures Below(Node(1, Nil, Nil), 10) && Insert(Node(1, Nil, Nil), [0, 0, 0, -1, 0, 0, 0, -2, 0, -2], ["b", "d", "c", "g", "h", "a", "j", "i", "f", "e"], "d")
         == Ins(true, Node(1, Nil, Nil), [0, 0, 0, -1, 0, 0, 0, -2, 0, -2], ["b", "d", "c", "g", "h", "a", "j", "i", "f", "e"], false)
  {
    assert Below(Node(1, Nil, Nil), 10);
    assert CompareTo("d", "d") == 0;
  }

  /** rebalance("e") while inserting "d": balance 0; no rotation, only
      "e".height = getHeight("e"). */
  lemma RebalanceDAgainAtE()
    ensures Below(Node(9, Node(1, Nil, Nil), Node(8, Nil, Nil)), 10) && Rebalanced(Node(9, Node(1, Nil, Nil), Node(8, Nil, Nil)), [0, 0, 0, -1, 0, 0, 0, -2, 0, -2])
         == Step(true, Node(9, Node(1, Nil, Nil), Node(8, Nil, Nil)), [0, 0, 0, -1, 0, 0, 0, -2, 0, 1])
  {
    assert Below(Node(1, Nil, Nil), 10);
    assert Below(Node(8, Nil, Nil), 10);
    assert Below(Node(9, Node(1, Nil, Nil), Node(8, Nil, Nil)), 10);
    assert Bal(Node(9, Node(1, Nil, Nil), Node(8, Nil, Nil)), [0, 0, 0, -1, 0, 0, 0, -2, 0, -2]) == 0;
    assert CachedHeight(Node(9, Node(1, Nil, Nil), Node(8, Nil, Nil)), [0, 0, 0, -1, 0, 0, 0, -2, 0, -2]) == 1;
  }

  /** The private avlInsert("e", "d"): down to the left, then rebalance("e"). */
  lemma InsertDAgainBelowE()
    ensures Below(Node(9, Node(1, Nil, Nil), Node(8, Nil, Nil)), 10) && Insert(Node(9, Node(1, Nil, Nil), Node(8, Nil, Nil)), [0, 0, 0, -1, 0, 0, 0, -2, 0, -2], ["b", "d", "c", "g", "h", "a", "j", "i", "f", "e"], "d")
         == Ins(true, Node(9, Node(1, Nil, Nil), Node(8, Nil, Nil)), [0, 0, 0, -1, 0, 0, 0, -2, 0, 1], ["b", "d", "c", "g", "h", "a", "j", "i", "f", "e"], false)
  {
    assert Below(Node(1, Nil, Nil), 10);
    assert Below(Node(8, Nil, Nil), 10);
    assert Below(Node(9, Node(1, Nil, Nil), Node(8, Nil, Nil)), 10);
    assert CompareTo("e", "d") > 0;
    InsertDAgainBelowD();
    RebalanceDAgainAtE();
    assert Descend(Node(9, Node(1, Nil, Nil), Node(8, Nil, Nil)), [0, 0, 0, -1, 0, 0, 0, -2, 0, -2], ["b", "d", "c", "g", "h", "a", "j", "i", "f", "e"], "d", true) == Climb(Node(9, Node(1, Nil, Nil), Node(8, Nil, Nil)), [0, 0, 0, -1, 0, 0, 0, -2, 0, -2], ["b", "d", "c", "g", "h", "a", "j", "i", "f", "e"], false, true);
  }

  /** rebalance("g") while inserting "d": balance 0; no rotation, only
      "g".height = getHeight("g"). */
  lemma RebalanceDAgainAtG()
    ensures Below(Node(3, Node(9, Node(1, Nil, Nil), Node(8, Nil, Nil)), Node(7, Node(4, Nil, Nil), Node(6, Nil, Nil))), 10) && Rebalanced(Node(3, Node(9, Node(1, Nil, Nil), Node(8, Nil, Nil)), Node(7, Node(4, Nil, Nil), Node(6, Nil, Nil))), [0, 0, 0, -1, 0, 0, 0, -2, 0, 1])
         == Step(true, Node(3, Node(9, Node(1, Nil, Nil), Node(8, Nil, Nil)), Node(7, Node(4, Nil, Nil), Node(6, Nil, Nil))), [0, 0, 0, 2, 0, 0, 0, -2, 0, 1])
  {
    assert Below(Node(1, Nil, Nil), 10);
    assert Below(Node(8, Nil, Nil), 10);
    assert Below(Node(9, Node(1, Nil, Nil), Node(8, Nil, Nil)), 10);
    assert Below(Node(4, Nil, Nil), 10);
    assert Below(Node(6, Nil, Nil), 10);
    assert Below(Node(7, Node(4, Nil, Nil), Node(6, Nil, Nil)), 10);
    assert Below(Node(3, Node(9, Node(1, Nil, Nil), Node(8, Nil, Nil)), Node(7, Node(4, Nil, Nil), Node(6, Nil, Nil))), 10);
    assert Bal(Node(3, Node(9, Node(1, Nil, Nil), Node(8, Nil, Nil)), Node(7, Node(4, Nil, Nil), Node(6, Nil, Nil))), [0, 0, 0, -1, 0, 0, 0, -2, 0, 1]) == 0;
    assert CachedHeight(Node(3, Node(9, Node(1, Nil, Nil), Node(8, Nil, Nil)), Node(7, Node(4, Nil, Nil), Node(6, Nil, Nil))), [0, 0, 0, -1, 0, 0, 0, -2, 0, 1]) == 2;
  }

  /** The private avlInsert("g", "d"): down to the left, then rebalance("g"). */
  lemma InsertDAgainBelowG()
    ensures Below(Node(3, Node(9, Node(1, Nil, Nil), Node(8, Nil, Nil)), Node(7, Node(4, Nil, Nil), Node(6, Nil, Nil))), 10) && Insert(Node(3, Node(9, Node(1, Nil, Nil), Node(8, Nil, Nil)), Node(7, Node(4, Nil, Nil), Node(6, Nil, Nil))), [0, 0, 0, -1, 0, 0, 0, -2, 0, -2], ["b", "d", "c", "g", "h", "a", "j", "i", "f", "e"], "d")
         == Ins(true, Node(3, Node(9, Node(1, Nil, Nil), Node(8, Nil, Nil)), Node(7, Node(4, Nil, Nil), Node(6, Nil, Nil))), [0, 0, 0, 2, 0, 0, 0, -2, 0, 1], ["b", "d", "c", "g", "h", "a", "j", "i", "f", "e"], false)
  {
    assert Below(Node(1, Nil, Nil), 10);
    assert Below(Node(8, Nil, Nil), 10);
    assert Below(Node(9, Node(1, Nil, Nil), Node(8, Nil, Nil)), 10);
    assert Below(Node(4, Nil, Nil), 10);
    assert Below(Node(6, Nil, Nil), 10);
    assert Below(Node(7, Node(4, Nil, Nil), Node(6, Nil, Nil)), 10);
    assert Below(Node(3, Node(9, Node(1, Nil, Nil), Node(8, Nil, Nil)), Node(7, Node(4, Nil, Nil), Node(6, Nil, Nil))), 10);
    assert CompareTo("g", "d") > 0;
    InsertDAgainBelowE();
    RebalanceDAgainAtG();
    assert Descend(Node(3, Node(9, Node(1, Nil, Nil), Node(8, Nil, Nil)), Node(7, Node(4, Nil, Nil), Node(6, Nil, Nil))), [0, 0, 0, -1, 0, 0, 0, -2, 0, -2], ["b", "d", "c", "g", "h", "a", "j", "i", "f", "e"], "d", true) == Climb(Node(3, Node(9, Node(1, Nil, Nil), Node(8, Nil, Nil)), Node(7, Node(4, Nil, Nil), Node(6, Nil, Nil))), [0, 0, 0, -1, 0, 0, 0, -2, 0, 1], ["b", "d", "c", "g", "h", "a", "j", "i", "f", "e"], false, true);
  }

  /** rebalance("c") while inserting "d": balance 3; the right child "g" does
      not lean left, so leftRotate("c"). */
  lemma RebalanceDAgainAtC()
    ensures Below(Node(2, Nil, Node(3, Node(9, Node(1, Nil, Nil), Node(8, Nil, Nil)), Node(7, Node(4, Nil, Nil), Node(6, Nil, Nil)))), 10) && Rebalanced(Node(2, Nil, Node(3, Node(9, Node(1, Nil, Nil), Node(8, Nil, Nil)), Node(7, Node(4, Nil, Nil), Node(6, Nil, Nil)))), [0, 0, 0, 2, 0, 0, 0, -2, 0, 1])
         == Step(true, Node(3, Node(2, Nil, Node(9, Node(1, Nil, Nil), Node(8, Nil, Nil))), Node(7, Node(4, Nil, Nil), Node(6, Nil, Nil))), [0, 0, 2, 1, 0, 0, 0, -2, 0, 1])
  {
    assert Below(Node(1, Nil, Nil), 10);
    assert Below(Node(8, Nil, Nil), 10);
    assert Below(Node(9, Node(1, Nil, Nil), Node(8, Nil, Nil)), 10);
    assert Below(Node(4, Nil, Nil), 10);
    assert Below(Node(6, Nil, Nil), 10);
    assert Below(Node(7, Node(4, Nil, Nil), Node(6, Nil, Nil)), 10);
    assert Below(Node(3, Node(9, Node(1, Nil, Nil), Node(8, Nil, Nil)), Node(7, Node(4, Nil, Nil), Node(6, Nil, Nil))), 10);
    assert Below(Node(2, Nil, Node(3, Node(9, Node(1, Nil, Nil), Node(8, Nil, Nil)), Node(7, Node(4, Nil, Nil), Node(6, Nil, Nil)))), 10);
    assert Bal(Node(2, Nil, Node(3, Node(9, Node(1, Nil, Nil), Node(8, Nil, Nil)), Node(7, Node(4, Nil, Nil), Node(6, Nil, Nil)))), [0, 0, 0, 2, 0, 0, 0, -2, 0, 1]) == 3;
    assert Bal(Node(3, Node(9, Node(1, Nil, Nil), Node(8, Nil, Nil)), Node(7, Node(4, Nil, Nil), Node(6, Nil, Nil))), [0, 0, 0, 2, 0, 0, 0, -2, 0, 1]) == 0;
    assert RotLHeights(Node(2, Nil, Node(3, Node(9, Node(1, Nil, Nil), Node(8, Nil, Nil)), Node(7, Node(4, Nil, Nil), Node(6, Nil, Nil)))), [0, 0, 0, 2, 0, 0, 0, -2, 0, 1]) == [0, 0, 2, 1, 0, 0, 0, -2, 0, 1];
  }

  /** The private avlInsert("c", "d"): down to the right, then rebalance("c"). */
  lemma InsertDAgainBelowC()
    ensures Below(Node(2, Nil, Node(3, Node(9, Node(1, Nil, Nil), Node(8, Nil, Nil)), Node(7, Node(4, Nil, Nil), Node(6, Nil, Nil)))), 10) && Insert(Node(2, Nil, Node(3, Node(9, Node(1, Nil, Nil), Node(8, Nil, Nil)), Node(7, Node(4, Nil, Nil), Node(6, Nil, Nil)))), [0, 0, 0, -1, 0, 0, 0, -2, 0, -2], ["b", "d", "c", "g", "h", "a", "j", "i", "f", "e"], "d")
         == Ins(true, Node(3, Node(2, Nil, Node(9, Node(1, Nil, Nil), Node(8, Nil, Nil))), Node(7, Node(4, Nil, Nil), Node(6, Nil, Nil))), [0, 0, 2, 1, 0, 0, 0, -2, 0, 1], ["b", "d", "c", "g", "h", "a", "j", "i", "f", "e"], false)
  {
    assert Below(Node(1, Nil, Nil), 10);
    assert Below(Node(8, Nil, Nil), 10);
    assert Below(Node(9, Node(1, Nil, Nil), Node(8, Nil, Nil)), 10);
    assert Below(Node(4, Nil, Nil), 10);
    assert Below(Node(6, Nil, Nil), 10);
    assert Below(Node(7, Node(4, Nil, Nil), Node(6, Nil, Nil)), 10);
    assert Below(Node(3, Node(9, Node(1, Nil, Nil), Node(8, Nil, Nil)), Node(7, Node(4, Nil, Nil), Node(6, Nil, Nil))), 10);
    assert Below(Node(2, Nil, Node(3, Node(9, Node(1, Nil, Nil), Node(8, Nil, Nil)), Node(7, Node(4, Nil, Nil), Node(6, Nil, Nil)))), 10);
    assert CompareTo("c", "d") < 0;
    InsertDAgainBelowG();
    RebalanceDAgainAtC();
    assert Descend(Node(2, Nil, Node(3, Node(9, Node(1, Nil, Nil), Node(8, Nil, Nil)), Node(7, Node(4, Nil, Nil), Node(6, Nil, Nil)))), [0, 0, 0, -1, 0, 0, 0, -2, 0, -2], ["b", "d", "c", "g", "h", "a", "j", "i", "f", "e"], "d", false) == Climb(Node(2, Nil, Node(3, Node(9, Node(1, Nil, Nil), Node(8, Nil, Nil)), Node(7, Node(4, Nil, Nil), Node(6, Nil, Nil)))), [0, 0, 0, 2, 0, 0, 0, -2, 0, 1], ["b", "d", "c", "g", "h", "a", "j", "i", "f", "e"], false, true);
  }

  /** rebalance("b") while inserting "d": balance 3; the right child "g" leans
      left, so rightRotate("g"), then leftRotate("b"). */
  lemma RebalanceDAgainAtB()
    ensures Below(Node(0, Node(5, Nil, Nil), Node(3, Node(2, Nil, Node(9, Node(1, Nil, Nil), Node(8, Nil, Nil))), Node(7, Node(4, Nil, Nil), Node(6, Nil, Nil)))), 10) && Rebalanced(Node(0, Node(5, Nil, Nil), Node(3, Node(2, Nil, Node(9, Node(1, Nil, Nil), Node(8, Nil, Nil))), Node(7, Node(4, Nil, Nil), Node(6, Nil, Nil)))), [0, 0, 2, 1, 0, 0, 0, -2, 0, 1])
         == Step(true, Node(2, Node(0, Node(5, Nil, Nil), Nil), Node(3, Node(9, Node(1, Nil, Nil), Node(8, Nil, Nil)), Node(7, Node(4, Nil, Nil), Node(6, Nil, Nil)))), [1, 0, 0, 2, 0, 0, 0, -2, 0, 1])
  {
    assert Below(Node(5, Nil, Nil), 10);
    assert Below(Node(1, Nil, Nil), 10);
    assert Below(Node(8, Nil, Nil), 10);
    assert Below(Node(9, Node(1, Nil, Nil), Node(8, Nil, Nil)), 10);
    assert Below(Node(2, Nil, Node(9, Node(1, Nil, Nil), Node(8, Nil, Nil))), 10);
    assert Below(Node(4, Nil, Nil), 10);
    assert Below(Node(6, Nil, Nil), 10);
    assert Below(Node(7, Node(4, Nil, Nil), Node(6, Nil, Nil)), 10);
    assert Below(Node(3, Node(2, Nil, Node(9, Node(1, Nil, Nil), Node(8, Nil, Nil))), Node(7, Node(4, Nil, Nil), Node(6, Nil, Nil))), 10);
    assert Below(Node(0, Node(5, Nil, Nil), Node(3, Node(2, Nil, Node(9, Node(1, Nil, Nil), Node(8, Nil, Nil))), Node(7, Node(4, Nil, Nil), Node(6, Nil, Nil)))), 10);
    assert Bal(Node(0, Node(5, Nil, Nil), Node(3, Node(2, Nil, Node(9, Node(1, Nil, Nil), Node(8, Nil, Nil))), Node(7, Node(4, Nil, Nil), Node(6, Nil, Nil)))), [0, 0, 2, 1, 0, 0, 0, -2, 0, 1]) == 3;
    assert Bal(Node(3, Node(2, Nil, Node(9, Node(1, Nil, Nil), Node(8, Nil, Nil))), Node(7, Node(4, Nil, Nil), Node(6, Nil, Nil))), [0, 0, 2, 1, 0, 0, 0, -2, 0, 1]) == -1;
    assert RotRHeights(Node(3, Node(2, Nil, Node(9, Node(1, Nil, Nil), Node(8, Nil, Nil))), Node(7, Node(4, Nil, Nil), Node(6, Nil, Nil))), [0, 0, 2, 1, 0, 0, 0, -2, 0, 1]) == [0, 0, 1, 2, 0, 0, 0, -2, 0, 1];
    assert RotLHeights(Node(0, Node(5, Nil, Nil), Node(2, Nil, Node(3, Node(9, Node(1, Nil, Nil), Node(8, Nil, Nil)), Node(7, Node(4, Nil, Nil), Node(6, Nil, Nil))))), [0, 0, 1, 2, 0, 0, 0, -2, 0, 1]) == [1, 0, 0, 2, 0, 0, 0, -2, 0, 1];
  }

  /** The private avlInsert("b", "d"): down to the right, then rebalance("b"). */
  lemma InsertDAgain()
    ensures Below(Node(0, Node(5, Nil, Nil), Node(2, Nil, Node(3, Node(9, Node(1, Nil, Nil), Node(8, Nil, Nil)), Node(7, Node(4, Nil, Nil), Node(6, Nil, Nil))))), 10) && Insert(Node(0, Node(5, Nil, Nil), Node(2, Nil, Node(3, Node(9, Node(1, Nil, Nil), Node(8, Nil, Nil)), Node(7, Node(4, Nil, Nil), Node(6, Nil, Nil))))), [0, 0, 0, -1, 0, 0, 0, -2, 0, -2], ["b", "d", "c", "g", "h", "a", "j", "i", "f", "e"], "d")
         == Ins(true, Node(2, Node(0, Node(5, Nil, Nil), Nil), Node(3, Node(9, Node(1, Nil, Nil), Node(8, Nil, Nil)), Node(7, Node(4, Nil, Nil), Node(6, Nil, Nil)))), [1, 0, 0, 2, 0, 0, 0, -2, 0, 1], ["b", "d", "c", "g", "h", "a", "j", "i", "f", "e"], false)
  {
    assert Below(Node(5, Nil, Nil), 10);
    assert Below(Node(1, Nil, Nil), 10);
    assert Below(Node(8, Nil, Nil), 10);
    assert Below(Node(9, Node(1, Nil, Nil), Node(8, Nil, Nil)), 10);
    assert Below(Node(4, Nil, Nil), 10);
    assert Below(Node(6, Nil, Nil), 10);
    assert Below(Node(7, Node(4, Nil, Nil), Node(6, Nil, Nil)), 10);
    assert Below(Node(3, Node(9, Node(1, Nil, Nil), Node(8, Nil, Nil)), Node(7, Node(4, Nil, Nil), Node(6, Nil, Nil))), 10);
    assert Below(Node(2, Nil, Node(3, Node(9, Node(1, Nil, Nil), Node(8, Nil, Nil)), Node(7, Node(4, Nil, Nil), Node(6, Nil, Nil)))), 10);
    assert Below(Node(0, Node(5, Nil, Nil), Node(2, Nil, Node(3, Node(9, Node(1, Nil, Nil), Node(8, Nil, Nil)), Node(7, Node(4, Nil, Nil), Node(6, Nil, Nil))))), 10);
    assert CompareTo("b", "d") < 0;
    InsertDAgainBelowC();
    RebalanceDAgainAtB();
    assert Descend(Node(0, Node(5, Nil, Nil), Node(2, Nil, Node(3, Node(9, Node(1, Nil, Nil), Node(8, Nil, Nil)), Node(7, Node(4, Nil, Nil), Node(6, Nil, Nil))))), [0, 0, 0, -1, 0, 0, 0, -2, 0, -2], ["b", "d", "c", "g", "h", "a", "j", "i", "f", "e"], "d", false) == Climb(Node(0, Node(5, Nil, Nil), Node(3, Node(2, Nil, Node(9, Node(1, Nil, Nil), Node(8, Nil, Nil))), Node(7, Node(4, Nil, Nil), Node(6, Nil, Nil)))), [0, 0, 2, 1, 0, 0, 0, -2, 0, 1], ["b", "d", "c", "g", "h", "a", "j", "i", "f", "e"], false, true);
  }

  /** The private avlInsert(n, w) when w is not n's word: the recursive
      call on c, the child that w's side leads to, returns sub without
      throwing, and rebalance(n) on t1, n with c replaced, then gives s. */
  lemma Resumed(t: Tree, hs: seq<int>, ws: seq<string>, w: string, goLeft: bool, c: Tree, sub: Ins, t1: Tree, s: Step)
    requires t.Node? && Below(t, |ws|) && |hs| == |ws| && c == Child(t, goLeft) && c.Node?
    requires CompareTo(ws[t.id], w) != 0 && goLeft == (CompareTo(ws[t.id], w) > 0)
    requires Below(c, |ws|) && Insert(c, hs, ws, w) == sub && sub.ok
    requires t1 == Join(t, goLeft, sub.tree) && Below(t1, |sub.hs|) && Rebalanced(t1, sub.hs) == s
    ensures Insert(t, hs, ws, w) == Ins(s.ok, s.tree, s.hs, sub.ws, sub.added)
  {
  }
}
