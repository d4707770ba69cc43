/** What the tree operations of AVL.java do, stated on the abstract shape.

    Each function here describes the effect of one Java method on the shape
    (a `Tree` of handles), the cached `height` fields (a sequence indexed by
    handle) and the words (likewise); the arena methods in module Avl are
    proved to have exactly these effects.  The lemmas state what the source
    promises of them. */
module AvlModel {
  import opened JavaStrings
  import opened Shapes

  // ---------------------------------------------------------------------------
  // Rotations

  /** leftRotate(x): x's right child y takes x's place, x becomes y's left
      child, and y's old left subtree becomes x's right subtree. */
  function RotL(t: Tree): (r: Tree)
    requires t.Node? && t.right.Node?
    ensures r.Node? && r.left.Node?
  {
    Node(t.right.id, Node(t.id, t.left, t.right.left), t.right.right)
  }

  /** rightRotate(y): the mirror image. */
  function RotR(t: Tree): (r: Tree)
    requires t.Node? && t.left.Node?
    ensures r.Node? && r.right.Node?
  {
    Node(t.left.id, t.left.left, Node(t.id, t.left.right, t.right))
  }

  /** The height fields after leftRotate(x), in the order the code writes them:
      x.height++, y.height--, x.height = getHeight(x). */
  function RotLHeights(t: Tree, hs: seq<int>): (r: seq<int>)
    requires t.Node? && t.right.Node? && Below(t, |hs|)
    ensures |r| == |hs|
  {
    assert Below(t.right, |hs|);
    var x, y := t.id, t.right.id;
    var hs1 := hs[x := hs[x] + 1];
    var hs2 := hs1[y := hs1[y] - 1];
    hs2[x := CachedHeight(RotL(t).left, hs2)]
  }

  /** The height fields after rightRotate(y): y.height++, x.height--,
      y.height = getHeight(y). */
  function RotRHeights(t: Tree, hs: seq<int>): (r: seq<int>)
    requires t.Node? && t.left.Node? && Below(t, |hs|)
    ensures |r| == |hs|
  {
    assert Below(t.left, |hs|);
    var y, x := t.id, t.left.id;
    var hs1 := hs[y := hs[y] + 1];
    var hs2 := hs1[x := hs1[x] - 1];
    hs2[y := CachedHeight(RotR(t).right, hs2)]
  }

  /** A rotation keeps the nodes of the subtree. */
  lemma RotLKeeps(t: Tree, n: int)
    requires t.Node? && t.right.Node?
    ensures Ids(RotL(t)) == Ids(t) && Count(RotL(t)) == Count(t)
    ensures Below(t, n) ==> Below(RotL(t), n)
    ensures Distinct(t) ==> Distinct(RotL(t))
  {
    assert Below(t, n) ==> Below(t.right, n);
    assert Distinct(t) ==> Distinct(t.right);
    assert Ids(t.right) == {t.right.id} + Ids(t.right.left) + Ids(t.right.right);
  }

  lemma RotRKeeps(t: Tree, n: int)
    requires t.Node? && t.left.Node?
    ensures Ids(RotR(t)) == Ids(t) && Count(RotR(t)) == Count(t)
    ensures Below(t, n) ==> Below(RotR(t), n)
    ensures Distinct(t) ==> Distinct(RotR(t))
  {
    assert Below(t, n) ==> Below(t.left, n);
    assert Distinct(t) ==> Distinct(t.left);
    assert Ids(t.left) == {t.left.id} + Ids(t.left.left) + Ids(t.left.right);
  }

  /** A rotation keeps the in-order sequence of keys. */
  lemma RotLInorder(t: Tree, ws: seq<string>)
    requires t.Node? && t.right.Node? && Below(t, |ws|)
    ensures Below(RotL(t), |ws|)
    ensures Inorder(RotL(t), ws) == Inorder(t, ws)
  {
    var x, y := t.id, t.right.id;
    var a, b, c := t.left, t.right.left, t.right.right;
    assert Below(t.right, |ws|);
    assert Below(Node(x, a, b), |ws|);
    var ia, ib, ic := Inorder(a, ws), Inorder(b, ws), Inorder(c, ws);
    assert Inorder(t.right, ws) == ib + [ws[y]] + ic;
    assert Inorder(t, ws) == ia + [ws[x]] + (ib + [ws[y]] + ic);
    assert Inorder(Node(x, a, b), ws) == ia + [ws[x]] + ib;
    assert Inorder(RotL(t), ws) == (ia + [ws[x]] + ib) + [ws[y]] + ic;
    Regroup(ia, [ws[x]], ib, [ws[y]], ic);
  }

  lemma RotRInorder(t: Tree, ws: seq<string>)
    requires t.Node? && t.left.Node? && Below(t, |ws|)
    ensures Below(RotR(t), |ws|)
    ensures Inorder(RotR(t), ws) == Inorder(t, ws)
  {
    var y, x := t.id, t.left.id;
    var a, b, c := t.left.left, t.left.right, t.right;
    assert Below(t.left, |ws|);
    assert Below(Node(y, b, c), |ws|);
    var ia, ib, ic := Inorder(a, ws), Inorder(b, ws), Inorder(c, ws);
    assert Inorder(t.left, ws) == ia + [ws[x]] + ib;
    assert Inorder(t, ws) == (ia + [ws[x]] + ib) + [ws[y]] + ic;
    assert Inorder(Node(y, b, c), ws) == ib + [ws[y]] + ic;
    assert Inorder(RotR(t), ws) == ia + [ws[x]] + (ib + [ws[y]] + ic);
    Regroup(ia, [ws[x]], ib, [ws[y]], ic);
  }

  /** Concatenation regrouped around the middle piece. */
  lemma Regroup<T>(a: seq<T>, b: seq<T>, c: seq<T>, d: seq<T>, e: seq<T>)
    ensures (a + b + c) + d + e == a + b + (c + d + e)
  {
    assert (a + b + c) + d + e == a + b + c + d + e;
  }

  /** After leftRotate(x) the demoted x holds getHeight(x) and the promoted y
      holds its old cached height minus one; no other height changes. */
  lemma RotLHeightsAre(t: Tree, hs: seq<int>)
    requires t.Node? && t.right.Node? && Below(t, |hs|) && Distinct(t)
    ensures Below(t.right, |hs|)
    ensures RotLHeights(t, hs)
         == hs[t.right.id := hs[t.right.id] - 1][t.id := CachedHeight(RotL(t).left, hs)]
  {
    HeightsAfterRotation(t.id, t.right.id, t.left, t.right.left, hs);
  }

  lemma RotRHeightsAre(t: Tree, hs: seq<int>)
    requires t.Node? && t.left.Node? && Below(t, |hs|) && Distinct(t)
    ensures Below(t.left, |hs|)
    ensures RotRHeights(t, hs)
         == hs[t.left.id := hs[t.left.id] - 1][t.id := CachedHeight(RotR(t).right, hs)]
  {
    HeightsAfterRotation(t.id, t.left.id, t.left.right, t.right, hs);
  }

  /** The shared step of the two lemmas above: x's own ++ is overwritten, and
      getHeight(x) reads only the heights of x's children a and b. */
  lemma HeightsAfterRotation(x: nat, y: nat, a: Tree, b: Tree, hs: seq<int>)
    requires x < |hs| && y < |hs| && x != y && Below(a, |hs|) && Below(b, |hs|)
    requires x !in Ids(a) && y !in Ids(a) && x !in Ids(b) && y !in Ids(b)
    ensures var hs1 := hs[x := hs[x] + 1]; var hs2 := hs1[y := hs1[y] - 1];
      hs2[x := CachedHeight(Node(x, a, b), hs2)] == hs[y := hs[y] - 1][x := CachedHeight(Node(x, a, b), hs)]
  {
    var hs1 := hs[x := hs[x] + 1];
    var hs2 := hs1[y := hs1[y] - 1];
    assert a.Node? ==> Field(a, hs2) == Field(a, hs);
    assert b.Node? ==> Field(b, hs2) == Field(b, hs);
  }

  // ---------------------------------------------------------------------------
  // rebalance

  /** The outcome of a step that may dereference null: `ok` is false exactly
      when the Java code would throw a NullPointerException; the tree and
      heights are then those at the moment of the throw. */
  datatype Step = Step(ok: bool, tree: Tree, hs: seq<int>)

  /** rebalance(n) on the subtree t rooted at n. */
  function Rebalanced(t: Tree, hs: seq<int>): (r: Step)
    requires t.Node? && Below(t, |hs|)
    ensures |r.hs| == |hs| && r.tree.Node?
    ensures !r.ok ==> r.tree == t && r.hs == hs
  {
    var n := t.id;
    if Bal(t, hs) < -1 then
      if t.left.Nil? then Step(false, t, hs)
      else if Bal(t.left, hs) < 0 then
        var t1 := RotR(t);
        var hs1 := RotRHeights(t, hs);
        RotRKeeps(t, |hs|);
        Step(true, t1, hs1[n := CachedHeight(t1.right, hs1)])
      else if t.left.right.Nil? then Step(false, t, hs)
      else
        var t0 := Node(n, RotL(t.left), t.right);
        var hs0 := RotLHeights(t.left, hs);
        RotLKeeps(t.left, |hs|);
        var t1 := RotR(t0);
        RotRKeeps(t0, |hs|);
        var hs1 := RotRHeights(t0, hs0);
        Step(true, t1, hs1[n := CachedHeight(t1.right, hs1)])
    else if Bal(t, hs) > 1 then
      if t.right.Nil? then Step(false, t, hs)
      else if Bal(t.right, hs) < 0 then
        if t.right.left.Nil? then Step(false, t, hs)
        else
          var t0 := Node(n, t.left, RotR(t.right));
          var hs0 := RotRHeights(t.right, hs);
          RotRKeeps(t.right, |hs|);
          var t1 := RotL(t0);
          RotLKeeps(t0, |hs|);
          var hs1 := RotLHeights(t0, hs0);
          Step(true, t1, hs1[n := CachedHeight(t1.left, hs1)])
      else
        var t1 := RotL(t);
        var hs1 := RotLHeights(t, hs);
        RotLKeeps(t, |hs|);
        Step(true, t1, hs1[n := CachedHeight(t1.left, hs1)])
    else
      Step(true, t, hs[n := CachedHeight(t, hs)])
  }

  /** rebalance only restructures: the shape keeps its nodes and its in-order
      sequence. */
  lemma RebalancedShape(t: Tree, hs: seq<int>, ws: seq<string>)
    requires t.Node? && Below(t, |hs|) && Below(t, |ws|)
    ensures var r := Rebalanced(t, hs);
      Ids(r.tree) == Ids(t) && Count(r.tree) == Count(t) && Below(r.tree, |hs|) && Below(r.tree, |ws|) &&
      (Distinct(t) ==> Distinct(r.tree)) &&
      Inorder(r.tree, ws) == Inorder(t, ws)
  {
    var n := t.id;
    if Bal(t, hs) < -1 {
      if t.left.Nil? {
      } else if Bal(t.left, hs) < 0 {
        RotRKeeps(t, |hs|); RotRInorder(t, ws);
      } else if t.left.right.Nil? {
      } else {
        RotLKeeps(t.left, |hs|); RotLInorder(t.left, ws);
        var t0 := Node(n, RotL(t.left), t.right);
        RotRKeeps(t0, |hs|); RotRInorder(t0, ws);
      }
    } else if Bal(t, hs) > 1 {
      if t.right.Nil? {
      } else if Bal(t.right, hs) < 0 {
        if t.right.left.Nil? {
        } else {
          RotRKeeps(t.right, |hs|); RotRInorder(t.right, ws);
          var t0 := Node(n, t.left, RotR(t.right));
          RotLKeeps(t0, |hs|); RotLInorder(t0, ws);
        }
      } else {
        RotLKeeps(t, |hs|); RotLInorder(t, ws);
      }
    }
  }

  /** The case analysis of rebalance: which rotations it performs. */
  lemma RebalancedCases(t: Tree, hs: seq<int>)
    requires t.Node? && Below(t, |hs|)
    ensures var r := Rebalanced(t, hs);
      (-1 <= Bal(t, hs) <= 1 ==> r.ok && r.tree == t && r.hs == hs[t.id := CachedHeight(t, hs)]) &&
      (Bal(t, hs) < -1 && t.left.Node? && Bal(t.left, hs) < 0 ==> r.ok && r.tree == RotR(t)) &&
      (Bal(t, hs) < -1 && t.left.Node? && Bal(t.left, hs) >= 0 && t.left.right.Node? ==>
         r.ok && r.tree == RotR(Node(t.id, RotL(t.left), t.right))) &&
      (Bal(t, hs) > 1 && t.right.Node? && Bal(t.right, hs) >= 0 ==> r.ok && r.tree == RotL(t)) &&
      (Bal(t, hs) > 1 && t.right.Node? && Bal(t.right, hs) < 0 && t.right.left.Node? ==>
         r.ok && r.tree == RotL(Node(t.id, t.left, RotR(t.right))))
  {
  }

  /** rebalance dereferences null only when a cached height has dropped below
      -1: with every cached height at least -1, a balance below -1 forces a left
      child (and a left-right grandchild when the left child leans right), and
      symmetrically on the right. */
  lemma {:induction false} RebalanceSafe(t: Tree, hs: seq<int>)
    requires t.Node? && Below(t, |hs|) && CachedAtLeastMinusOne(t, hs)
    ensures Rebalanced(t, hs).ok
  {
    var l, r := t.left, t.right;
    if l.Node? {
      assert CachedAtLeastMinusOne(l, hs);
      CachedHeightNonNegative(l, hs);
      if l.left.Node? { CachedHeightNonNegative(l.left, hs); }
      if l.right.Node? { CachedHeightNonNegative(l.right, hs); }
    }
    if r.Node? {
      assert CachedAtLeastMinusOne(r, hs);
      CachedHeightNonNegative(r, hs);
      if r.left.Node? { CachedHeightNonNegative(r.left, hs); }
      if r.right.Node? { CachedHeightNonNegative(r.right, hs); }
    }
  }

  // ---------------------------------------------------------------------------
  // avlInsert

  /** The outcome of an insertion: whether it completed without throwing,
      the new shape, heights and words, and whether a node was attached. */
  datatype Ins = Ins(ok: bool, tree: Tree, hs: seq<int>, ws: seq<string>, added: bool)

  /** The way back up from the recursive call at node t1.id: unless the call
      below threw, `rebalance(n)` runs on the updated subtree t1. */
  function Climb(t1: Tree, hs: seq<int>, ws: seq<string>, added: bool, ok: bool): (r: Ins)
    requires t1.Node? && Below(t1, |hs|) && |hs| == |ws|
    ensures r.ws == ws && r.added == added && |r.hs| == |hs| && r.tree.Node?
    ensures (!ok ==> !r.ok) && (!r.ok ==> r.tree == t1 && r.hs == hs)
  {
    if !ok then Ins(false, t1, hs, ws, added)
    else
      var s := Rebalanced(t1, hs);
      Ins(s.ok, s.tree, s.hs, ws, added)
  }

  /** The child of t on the chosen side, and t with that child replaced by u. */
  function Child(t: Tree, goLeft: bool): Tree
    requires t.Node?
  {
    if goLeft then t.left else t.right
  }

  function Other(t: Tree, goLeft: bool): Tree
    requires t.Node?
  {
    if goLeft then t.right else t.left
  }

  function Join(t: Tree, goLeft: bool, u: Tree): (r: Tree)
    requires t.Node?
    ensures r.Node? && r.id == t.id && Child(r, goLeft) == u && Other(r, goLeft) == Other(t, goLeft)
  {
    if goLeft then Node(t.id, u, t.right) else Node(t.id, t.left, u)
  }

  /** The private avlInsert(n, w) on the subtree t rooted at n: go left when
      n.word.compareTo(w) > 0, right when < 0, and return at once when equal. */
  function Insert(t: Tree, hs: seq<int>, ws: seq<string>, w: string): (r: Ins)
    requires t.Node? && Below(t, |ws|) && |hs| == |ws|
    ensures |r.hs| == |r.ws| && r.ws == (if r.added then ws + [w] else ws)
    ensures Below(r.tree, |r.ws|) && r.tree.Node?
    decreases t, 1
  {
    var d := CompareTo(ws[t.id], w);
    if d > 0 then Descend(t, hs, ws, w, true)
    else if d < 0 then Descend(t, hs, ws, w, false)
    else Ins(true, t, hs, ws, false)
  }

  /** One side of avlInsert(n, w): attach a new node (next free handle |ws|,
      height 0, then n.height = getHeight(n)) at an empty child slot, or recur
      into the child; either way rebalance(n) follows unless the call below threw. */
  function Descend(t: Tree, hs: seq<int>, ws: seq<string>, w: string, goLeft: bool): (r: Ins)
    requires t.Node? && Below(t, |ws|) && |hs| == |ws|
    ensures |r.hs| == |r.ws| && r.ws == (if r.added then ws + [w] else ws)
    ensures Below(r.tree, |r.ws|) && r.tree.Node?
    decreases t, 0
  {
    JoinBelow(t, goLeft, |ws|);
    if Child(t, goLeft).Nil? then
      var t1 := Join(t, goLeft, Node(|ws|, Nil, Nil));
      var hs1 := hs + [0];
      JoinBelow(t, goLeft, |ws| + 1);
      ClimbShape(t1, hs1[t.id := CachedHeight(t1, hs1)], ws + [w], true, true);
      Climb(t1, hs1[t.id := CachedHeight(t1, hs1)], ws + [w], true, true)
    else
      var sub := Insert(Child(t, goLeft), hs, ws, w);
      JoinBelow(t, goLeft, |sub.ws|);
      var t1 := Join(t, goLeft, sub.tree);
      ClimbShape(t1, sub.hs, sub.ws, sub.added, sub.ok);
      Climb(t1, sub.hs, sub.ws, sub.added, sub.ok)
  }

  /** The public avlInsert(w): a first word becomes the root. */
  function AvlInsert(t: Tree, hs: seq<int>, ws: seq<string>, w: string): (r: Ins)
    requires Below(t, |ws|) && |hs| == |ws|
    ensures |r.hs| == |r.ws| && r.ws == (if r.added then ws + [w] else ws)
    ensures Below(r.tree, |r.ws|) && r.tree.Node?
  {
    if t.Nil? then Ins(true, Node(|ws|, Nil, Nil), hs + [0], ws + [w], true)
    else Insert(t, hs, ws, w)
  }

  /** The way back up keeps the nodes and the in-order sequence. */
  lemma ClimbShape(t1: Tree, hs: seq<int>, ws: seq<string>, added: bool, ok: bool)
    requires t1.Node? && Below(t1, |hs|) && |hs| == |ws|
    ensures var r := Climb(t1, hs, ws, added, ok);
      Ids(r.tree) == Ids(t1) && Count(r.tree) == Count(t1) && Below(r.tree, |ws|) &&
      (Distinct(t1) ==> Distinct(r.tree)) && Inorder(r.tree, ws) == Inorder(t1, ws)
  {
    if ok {
      RebalancedShape(t1, hs, ws);
    }
  }

  /** What t and Join(t, goLeft, u) have in common. */
  lemma JoinBelow(t: Tree, goLeft: bool, n: int)
    requires t.Node? && Below(t, n)
    ensures t.id < n && Below(Child(t, goLeft), n) && Below(Other(t, goLeft), n)
    ensures forall u :: Below(u, n) ==> Below(Join(t, goLeft, u), n)
    ensures forall m :: n <= m ==> Below(t, m)
  {
    forall m | n <= m ensures Below(t, m) { BelowMono(t, n, m); }
  }

  lemma JoinIds(t: Tree, goLeft: bool, u: Tree)
    requires t.Node?
    ensures Ids(t) == {t.id} + Ids(Child(t, goLeft)) + Ids(Other(t, goLeft))
    ensures Ids(Join(t, goLeft, u)) == {t.id} + Ids(u) + Ids(Other(t, goLeft))
    ensures Count(Join(t, goLeft, u)) == Count(t) - Count(Child(t, goLeft)) + Count(u)
    ensures Distinct(Join(t, goLeft, u)) <==>
      Distinct(u) && Distinct(Other(t, goLeft)) && t.id !in Ids(u) &&
      t.id !in Ids(Other(t, goLeft)) && Ids(u) !! Ids(Other(t, goLeft))
    ensures Distinct(t) <==>
      Distinct(Child(t, goLeft)) && Distinct(Other(t, goLeft)) && t.id !in Ids(Child(t, goLeft)) &&
      t.id !in Ids(Other(t, goLeft)) && Ids(Child(t, goLeft)) !! Ids(Other(t, goLeft))
  {
  }

  /** Two trees with the same in-order sequence have the same keys, and one is
      ordered exactly when the other is. */
  lemma SameInorder(t: Tree, u: Tree, ws: seq<string>)
    requires Below(t, |ws|) && Below(u, |ws|) && Inorder(t, ws) == Inorder(u, ws)
    ensures Keys(t, ws) == Keys(u, ws) && (Ordered(t, ws) <==> Ordered(u, ws))
  {
    KeysInorder(t, ws);
    KeysInorder(u, ws);
    OrderedIffSorted(t, ws);
    OrderedIffSorted(u, ws);
  }

  /** avlInsert attaches at most one node, with the next free handle, and keeps
      every handle owned once. */
  lemma {:induction false} InsertIds(t: Tree, hs: seq<int>, ws: seq<string>, w: string)
    requires t.Node? && Below(t, |ws|) && |hs| == |ws| && Distinct(t)
    ensures var r := Insert(t, hs, ws, w);
      Ids(r.tree) == Ids(t) + (if r.added then {|ws|} else {}) &&
      Count(r.tree) == Count(t) + (if r.added then 1 else 0) &&
      Distinct(r.tree)
    decreases t, 1
  {
    var d := CompareTo(ws[t.id], w);
    if d > 0 {
      DescendIds(t, hs, ws, w, true);
    } else if d < 0 {
      DescendIds(t, hs, ws, w, false);
    }
  }

  lemma {:induction false} DescendIds(t: Tree, hs: seq<int>, ws: seq<string>, w: string, goLeft: bool)
    requires t.Node? && Below(t, |ws|) && |hs| == |ws| && Distinct(t)
    ensures var r := Descend(t, hs, ws, w, goLeft);
      Ids(r.tree) == Ids(t) + (if r.added then {|ws|} else {}) &&
      Count(r.tree) == Count(t) + (if r.added then 1 else 0) &&
      Distinct(r.tree)
    decreases t, 0
  {
    var u := Child(t, goLeft);
    if u.Nil? {
      AttachIds(t, hs, ws, w, goLeft);
    } else {
      var r := Descend(t, hs, ws, w, goLeft);
      JoinBelow(t, goLeft, |ws|);
      var sub := Insert(u, hs, ws, w);
      InsertIds(u, hs, ws, w);
      JoinBelow(t, goLeft, |sub.ws|);
      var t1 := Join(t, goLeft, sub.tree);
      assert r == Climb(t1, sub.hs, sub.ws, sub.added, sub.ok);
      ClimbShape(t1, sub.hs, sub.ws, sub.added, sub.ok);
      JoinedIds(t, goLeft, sub.tree, |ws|, sub.added);
    }
  }

  /** Replacing a child of t by a distinct tree with the child's handles and
      possibly the fresh handle k. */
  lemma JoinedIds(t: Tree, goLeft: bool, u': Tree, k: int, added: bool)
    requires t.Node? && Distinct(t) && Below(t, k) && Distinct(u')
    requires Ids(u') == Ids(Child(t, goLeft)) + (if added then {k} else {})
    requires Count(u') == Count(Child(t, goLeft)) + (if added then 1 else 0)
    ensures Ids(Join(t, goLeft, u')) == Ids(t) + (if added then {k} else {})
    ensures Count(Join(t, goLeft, u')) == Count(t) + (if added then 1 else 0)
    ensures Distinct(Join(t, goLeft, u'))
  {
    BelowIds(t, k);
    JoinIds(t, goLeft, u');
    assert k !in Ids(t);
  }

  lemma AttachIds(t: Tree, hs: seq<int>, ws: seq<string>, w: string, goLeft: bool)
    requires t.Node? && Below(t, |ws|) && |hs| == |ws| && Distinct(t) && Child(t, goLeft).Nil?
    ensures var r := Descend(t, hs, ws, w, goLeft);
      r.added && Ids(r.tree) == Ids(t) + {|ws|} && Count(r.tree) == Count(t) + 1 && Distinct(r.tree)
  {
    var r := Descend(t, hs, ws, w, goLeft);
    JoinBelow(t, goLeft, |ws|);
    var leaf := Node(|ws|, Nil, Nil);
    var t1 := Join(t, goLeft, leaf);
    var hs1 := hs + [0];
    JoinBelow(t, goLeft, |ws| + 1);
    var hs2 := hs1[t.id := CachedHeight(t1, hs1)];
    assert r == Climb(t1, hs2, ws + [w], true, true);
    ClimbShape(t1, hs2, ws + [w], true, true);
    JoinedIds(t, goLeft, leaf, |ws|, true);
  }

  /** k belongs on the goLeft side of a node holding pivot. */
  predicate Side(goLeft: bool, k: string, pivot: string) {
    if goLeft then Less(k, pivot) else Less(pivot, k)
  }

  lemma JoinKeys(t: Tree, goLeft: bool, u: Tree, ws: seq<string>)
    requires t.Node? && Below(t, |ws|) && Below(u, |ws|)
    ensures Below(Join(t, goLeft, u), |ws|)
    ensures Keys(t, ws) == {ws[t.id]} + Keys(Child(t, goLeft), ws) + Keys(Other(t, goLeft), ws)
    ensures Keys(Join(t, goLeft, u), ws) == {ws[t.id]} + Keys(u, ws) + Keys(Other(t, goLeft), ws)
    ensures Ordered(t, ws) <==>
      Ordered(Child(t, goLeft), ws) && Ordered(Other(t, goLeft), ws) &&
      (forall k :: k in Keys(Child(t, goLeft), ws) ==> Side(goLeft, k, ws[t.id])) &&
      (forall k :: k in Keys(Other(t, goLeft), ws) ==> Side(!goLeft, k, ws[t.id]))
    ensures Ordered(Join(t, goLeft, u), ws) <==>
      Ordered(u, ws) && Ordered(Other(t, goLeft), ws) &&
      (forall k :: k in Keys(u, ws) ==> Side(goLeft, k, ws[t.id])) &&
      (forall k :: k in Keys(Other(t, goLeft), ws) ==> Side(!goLeft, k, ws[t.id]))
  {
    JoinBelow(t, goLeft, |ws|);
  }

  /** On an ordered tree avlInsert adds exactly w to the keys, keeps the order,
      and attaches a node exactly when w was not yet a key -- whether or not a
      rebalance on the way up throws. */
  lemma {:induction false} InsertKeys(t: Tree, hs: seq<int>, ws: seq<string>, w: string)
    requires t.Node? && Below(t, |ws|) && |hs| == |ws| && Ordered(t, ws)
    ensures var r := Insert(t, hs, ws, w);
      Keys(r.tree, r.ws) == Keys(t, ws) + {w} && Ordered(r.tree, r.ws) &&
      (r.added <==> w !in Keys(t, ws))
    decreases t, 1
  {
    var d := CompareTo(ws[t.id], w);
    GreaterIsLess(ws[t.id], w);
    if d > 0 {
      DescendKeys(t, hs, ws, w, true);
    } else if d < 0 {
      DescendKeys(t, hs, ws, w, false);
    } else {
      CompareToZero(ws[t.id], w);
      JoinKeys(t, true, t.left, ws);
    }
  }

  lemma {:induction false} DescendKeys(t: Tree, hs: seq<int>, ws: seq<string>, w: string, goLeft: bool)
    requires t.Node? && Below(t, |ws|) && |hs| == |ws| && Ordered(t, ws)
    requires Side(goLeft, w, ws[t.id])
    ensures var r := Descend(t, hs, ws, w, goLeft);
      Keys(r.tree, r.ws) == Keys(t, ws) + {w} && Ordered(r.tree, r.ws) &&
      (r.added <==> w !in Keys(t, ws))
    decreases t, 0
  {
    var u := Child(t, goLeft);
    if u.Nil? {
      AttachKeys(t, hs, ws, w, goLeft);
    } else {
      var r := Descend(t, hs, ws, w, goLeft);
      JoinBelow(t, goLeft, |ws|);
      var sub := Insert(u, hs, ws, w);
      InsertKeys(u, hs, ws, w);
      JoinBelow(t, goLeft, |sub.ws|);
      var t1 := Join(t, goLeft, sub.tree);
      assert r == Climb(t1, sub.hs, sub.ws, sub.added, sub.ok);
      ClimbShape(t1, sub.hs, sub.ws, sub.added, sub.ok);
      SameInorder(t1, r.tree, sub.ws);
      assert ws + sub.ws[|ws|..] == sub.ws;
      assert Ordered(u, ws) by { JoinKeys(t, goLeft, u, ws); }
      ResumeKeys(t, goLeft, u, sub.tree, ws, sub.ws[|ws|..], w);
    }
  }

  /** Replacing the child u on w's side by a tree holding u's keys and w keeps the
      rest of the tree's keys and its order. */
  lemma ResumeKeys(t: Tree, goLeft: bool, u: Tree, u': Tree, ws: seq<string>, more: seq<string>, w: string)
    requires t.Node? && Below(t, |ws|) && Ordered(t, ws) && Side(goLeft, w, ws[t.id]) && u == Child(t, goLeft)
    requires Below(u', |ws + more|) && Ordered(u', ws + more) && Keys(u', ws + more) == Keys(u, ws) + {w}
    ensures Below(Join(t, goLeft, u'), |ws + more|)
    ensures Keys(Join(t, goLeft, u'), ws + more) == Keys(t, ws) + {w}
    ensures Ordered(Join(t, goLeft, u'), ws + more)
    ensures w in Keys(t, ws) <==> w in Keys(u, ws)
  {
    JoinBelow(t, goLeft, |ws|);
    JoinKeys(t, goLeft, u, ws);
    OtherSide(t, goLeft, ws, w);
    KeysExtend(t, ws, more);
    KeysExtend(u, ws, more);
    JoinBelow(t, goLeft, |ws + more|);
    JoinKeys(t, goLeft, u', ws + more);
    JoinKeys(t, goLeft, u, ws + more);
  }

  lemma AttachKeys(t: Tree, hs: seq<int>, ws: seq<string>, w: string, goLeft: bool)
    requires t.Node? && Below(t, |ws|) && |hs| == |ws| && Ordered(t, ws)
    requires Side(goLeft, w, ws[t.id]) && Child(t, goLeft).Nil?
    ensures var r := Descend(t, hs, ws, w, goLeft);
      Keys(r.tree, r.ws) == Keys(t, ws) + {w} && Ordered(r.tree, r.ws) && r.added && w !in Keys(t, ws)
  {
    var r := Descend(t, hs, ws, w, goLeft);
    JoinBelow(t, goLeft, |ws|);
    var leaf := Node(|ws|, Nil, Nil);
    var t1 := Join(t, goLeft, leaf);
    var hs1 := hs + [0];
    JoinBelow(t, goLeft, |ws| + 1);
    var hs2 := hs1[t.id := CachedHeight(t1, hs1)];
    assert r == Climb(t1, hs2, ws + [w], true, true);
    ClimbShape(t1, hs2, ws + [w], true, true);
    assert Keys(leaf, ws + [w]) == {w};
    ResumeKeys(t, goLeft, Nil, leaf, ws, [w], w);
    SameInorder(t1, r.tree, ws + [w]);
  }

  /** In an ordered tree a word that belongs on one side of the top node is
      neither the top word nor a key on the other side. */
  lemma OtherSide(t: Tree, goLeft: bool, ws: seq<string>, w: string)
    requires t.Node? && Below(t, |ws|) && Ordered(t, ws) && Side(goLeft, w, ws[t.id])
    ensures Below(Other(t, goLeft), |ws|)
    ensures w != ws[t.id] && w !in Keys(Other(t, goLeft), ws)
  {
    JoinBelow(t, goLeft, |ws|);
    JoinKeys(t, goLeft, Child(t, goLeft), ws);
    LessIrreflexive(w);
    if w in Keys(Other(t, goLeft), ws) {
      LessTrans(w, ws[t.id], w);
    }
  }

  /** The public avlInsert(w) on an ordered tree: the keys become the old keys
      and w, the order is kept, and a node -- with the next free handle -- is
      attached exactly when w was not a key; the node count is then the number
      of keys. */
  lemma AvlInsertFacts(t: Tree, hs: seq<int>, ws: seq<string>, w: string)
    requires Below(t, |ws|) && |hs| == |ws| && Distinct(t) && Ordered(t, ws)
    ensures var r := AvlInsert(t, hs, ws, w);
      Keys(r.tree, r.ws) == Keys(t, ws) + {w} && Ordered(r.tree, r.ws) &&
      (r.added <==> w !in Keys(t, ws)) &&
      Ids(r.tree) == Ids(t) + (if r.added then {|ws|} else {}) && Distinct(r.tree) &&
      Count(r.tree) == Count(t) + (if r.added then 1 else 0) &&
      Count(r.tree) == |Keys(r.tree, r.ws)|
  {
    var r := AvlInsert(t, hs, ws, w);
    if t.Node? {
      InsertIds(t, hs, ws, w);
      InsertKeys(t, hs, ws, w);
    } else {
      assert Keys(r.tree, r.ws) == {w};
    }
    OrderedKeyCount(r.tree, r.ws);
  }
  /** avlInsert of a word that is already a key attaches nothing, so the
      words, the keys and the node count stay as they were. */
  lemma DuplicateKeeps(t: Tree, hs: seq<int>, ws: seq<string>, w: string)
    requires Below(t, |ws|) && |hs| == |ws| && Distinct(t) && Ordered(t, ws)
    ensures var r := AvlInsert(t, hs, ws, w);
      !r.added ==> r.ws == ws && Keys(r.tree, r.ws) == Keys(t, ws) && Count(r.tree) == Count(t)
  {
    AvlInsertFacts(t, hs, ws, w);
  }

  /** avlInsert of every line, in order, into a new tree (the loop of
      avlUnique), up to the first insertion that throws. */
  function Build(lines: seq<string>): (r: Ins)
    ensures Below(r.tree, |r.ws|) && |r.hs| == |r.ws|
    decreases |lines|
  {
    if lines == [] then Ins(true, Nil, [], [], false)
    else
      var b := Build(lines[..|lines| - 1]);
      if !b.ok then b else AvlInsert(b.tree, b.hs, b.ws, lines[|lines| - 1])
  }

  /** One more line: Build extends by one avlInsert unless it already threw. */
  lemma BuildStep(lines: seq<string>, w: string)
    ensures var b := Build(lines);
      Build(lines + [w]) == if b.ok then AvlInsert(b.tree, b.hs, b.ws, w) else b
  {
    assert (lines + [w])[..|lines|] == lines;
  }

  /** Unless an insertion threw, the tree built is a search tree, with one
      node per distinct key. */
  lemma {:induction false} BuildFacts(lines: seq<string>)
    ensures var r := Build(lines);
      r.ok ==> (Distinct(r.tree) && Ordered(r.tree, r.ws) && Count(r.tree) == |Keys(r.tree, r.ws)|)
    decreases |lines|
  {
    if lines != [] {
      var p := lines[..|lines| - 1];
      var b := Build(p);
      BuildFacts(p);
      if b.ok {
        AvlInsertFacts(b.tree, b.hs, b.ws, lines[|lines| - 1]);
      }
    }
  }
}
