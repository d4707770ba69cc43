/** avlInsert with the rotations as evidently intended.

    leftRotate and rightRotate in AVL.java end by decrementing the promoted
    node's height instead of recomputing it (module Findings shows where that
    leads).  This module replaces those two statements by `getHeight` of the
    demoted node and then of the promoted one, and leaves every other line of
    rebalance and avlInsert as it is.  It proves that insertion then keeps
    what the comment on avlInsert promises: every cached height is the true
    height, the tree stays AVL balanced, and no NullPointerException is thrown. */
module Fixed {
  import opened JavaStrings
  import opened Shapes
  import opened AvlModel

  // ---------------------------------------------------------------------------
  // The corrected rotations

  /** leftRotate as evidently intended: x.height = getHeight(x), then
      y.height = getHeight(y). */
  function FixedRotLHeights(t: Tree, hs: seq<int>): (r: seq<int>)
    requires t.Node? && t.right.Node? && Below(t, |hs|)
    ensures |r| == |hs|
    ensures forall i :: 0 <= i < |hs| && i != t.id && i != t.right.id ==> r[i] == hs[i]
  {
    assert Below(t.right, |hs|);
    var t' := RotL(t);
    var hs1 := hs[t.id := CachedHeight(t'.left, hs)];
    hs1[t.right.id := CachedHeight(t', hs1)]
  }

  /** rightRotate as evidently intended: y.height = getHeight(y), then
      x.height = getHeight(x). */
  function FixedRotRHeights(t: Tree, hs: seq<int>): (r: seq<int>)
    requires t.Node? && t.left.Node? && Below(t, |hs|)
    ensures |r| == |hs|
    ensures forall i :: 0 <= i < |hs| && i != t.id && i != t.left.id ==> r[i] == hs[i]
  {
    assert Below(t.left, |hs|);
    var t' := RotR(t);
    var hs1 := hs[t.id := CachedHeight(t'.right, hs)];
    hs1[t.left.id := CachedHeight(t', hs1)]
  }

  /** Writing the height of a node outside t leaves t's cached heights as
      they were. */
  lemma {:induction false} ExactFrame(t: Tree, hs: seq<int>, i: nat, v: int)
    requires Below(t, |hs|) && i < |hs| && i !in Ids(t)
    ensures Exact(t, hs[i := v]) == Exact(t, hs)
  {
    match t
    case Nil =>
    case Node(_, l, r) =>
      ExactFrame(l, hs, i, v);
      ExactFrame(r, hs, i, v);
  }

  /** Whether t's cached heights are exact depends only on the heights of
      t's own nodes. */
  lemma {:induction false} ExactAgree(t: Tree, hs: seq<int>, hs': seq<int>)
    requires Below(t, |hs|) && Below(t, |hs'|)
    requires forall i :: i in Ids(t) ==> i < |hs| && i < |hs'| && hs[i] == hs'[i]
    ensures Exact(t, hs) == Exact(t, hs')
  {
    match t
    case Nil =>
    case Node(_, l, r) =>
      assert forall i :: i in Ids(l) || i in Ids(r) ==> i in Ids(t);
      ExactAgree(l, hs, hs');
      ExactAgree(r, hs, hs');
  }

  /** The corrected leftRotate keeps the cached heights exact: if the three
      subtrees it regroups have exact heights, the whole rotated tree does. */
  lemma FixedRotLExact(t: Tree, hs: seq<int>)
    requires t.Node? && t.right.Node? && Below(t, |hs|) && Below(t.right, |hs|) && Distinct(t)
    requires Exact(t.left, hs) && Exact(t.right.left, hs) && Exact(t.right.right, hs)
    ensures Exact(RotL(t), FixedRotLHeights(t, hs))
  {
    var x, y, a, b, c := t.id, t.right.id, t.left, t.right.left, t.right.right;
    assert Below(t.right, |hs|);
    var t' := RotL(t);
    var hs1 := hs[x := CachedHeight(t'.left, hs)];
    var hs2 := hs1[y := CachedHeight(t', hs1)];
    CachedHeightExact(t'.left, hs);
    ExactFrame(a, hs, x, CachedHeight(t'.left, hs));
    ExactFrame(b, hs, x, CachedHeight(t'.left, hs));
    ExactFrame(c, hs, x, CachedHeight(t'.left, hs));
    assert Exact(t'.left, hs1);
    CachedHeightExact(t', hs1);
    ExactFrame(t'.left, hs1, y, CachedHeight(t', hs1));
    ExactFrame(c, hs1, y, CachedHeight(t', hs1));
  }

  /** The corrected rightRotate keeps the cached heights exact. */
  lemma FixedRotRExact(t: Tree, hs: seq<int>)
    requires t.Node? && t.left.Node? && Below(t, |hs|) && Below(t.left, |hs|) && Distinct(t)
    requires Exact(t.right, hs) && Exact(t.left.left, hs) && Exact(t.left.right, hs)
    ensures Exact(RotR(t), FixedRotRHeights(t, hs))
  {
    var y, x, a, b, c := t.id, t.left.id, t.left.left, t.left.right, t.right;
    assert Below(t.left, |hs|);
    var t' := RotR(t);
    var hs1 := hs[y := CachedHeight(t'.right, hs)];
    var hs2 := hs1[x := CachedHeight(t', hs1)];
    CachedHeightExact(t'.right, hs);
    ExactFrame(a, hs, y, CachedHeight(t'.right, hs));
    ExactFrame(b, hs, y, CachedHeight(t'.right, hs));
    ExactFrame(c, hs, y, CachedHeight(t'.right, hs));
    assert Exact(t'.right, hs1);
    CachedHeightExact(t', hs1);
    ExactFrame(t'.right, hs1, x, CachedHeight(t', hs1));
    ExactFrame(a, hs1, x, CachedHeight(t', hs1));
  }

  // ---------------------------------------------------------------------------
  // rebalance and avlInsert over the corrected rotations

  /** rebalance(n) with the corrected rotations: the same case analysis and
      the same null dereferences as AvlModel.Rebalanced. */
  function FixedRebalanced(t: Tree, hs: seq<int>): (r: Step)
    requires t.Node? && Below(t, |hs|)
    ensures |r.hs| == |hs| && r.ok == Rebalanced(t, hs).ok && r.tree == Rebalanced(t, hs).tree
    ensures Below(r.tree, |hs|) && Ids(r.tree) == Ids(t) && (Distinct(t) ==> Distinct(r.tree))
  {
    var n := t.id;
    if Bal(t, hs) < -1 then
      if t.left.Nil? then Step(false, t, hs)
      else if Bal(t.left, hs) < 0 then
        var t1 := RotR(t);
        var hs1 := FixedRotRHeights(t, hs);
        RotRKeeps(t, |hs|);
        Step(true, t1, hs1[n := CachedHeight(t1.right, hs1)])
      else if t.left.right.Nil? then Step(false, t, hs)
      else
        var t0 := Node(n, RotL(t.left), t.right);
        var hs0 := FixedRotLHeights(t.left, hs);
        RotLKeeps(t.left, |hs|);
        var t1 := RotR(t0);
        RotRKeeps(t0, |hs|);
        var hs1 := FixedRotRHeights(t0, hs0);
        Step(true, t1, hs1[n := CachedHeight(t1.right, hs1)])
    else if Bal(t, hs) > 1 then
      if t.right.Nil? then Step(false, t, hs)
      else if Bal(t.right, hs) < 0 then
        if t.right.left.Nil? then Step(false, t, hs)
        else
          var t0 := Node(n, t.left, RotR(t.right));
          var hs0 := FixedRotRHeights(t.right, hs);
          RotRKeeps(t.right, |hs|);
          var t1 := RotL(t0);
          RotLKeeps(t0, |hs|);
          var hs1 := FixedRotLHeights(t0, hs0);
          Step(true, t1, hs1[n := CachedHeight(t1.left, hs1)])
      else
        var t1 := RotL(t);
        var hs1 := FixedRotLHeights(t, hs);
        RotLKeeps(t, |hs|);
        Step(true, t1, hs1[n := CachedHeight(t1.left, hs1)])
    else
      Step(true, t, hs[n := CachedHeight(t, hs)])
  }

  /** The way back up from the recursive call, over the corrected rebalance. */
  function FixedClimb(t1: Tree, hs: seq<int>, ws: seq<string>, added: bool, ok: bool): (r: Ins)
    requires t1.Node? && Below(t1, |hs|) && |hs| == |ws|
    ensures r.ws == ws && r.added == added && |r.hs| == |hs|
    ensures r.ok == Climb(t1, hs, ws, added, ok).ok && r.tree == Climb(t1, hs, ws, added, ok).tree
  {
    if !ok then Ins(false, t1, hs, ws, added)
    else
      var s := FixedRebalanced(t1, hs);
      Ins(s.ok, s.tree, s.hs, ws, added)
  }

  /** The private avlInsert(n, w) over the corrected rotations. */
  function FixedInsert(t: Tree, hs: seq<int>, ws: seq<string>, w: string): (r: Ins)
    requires t.Node? && Below(t, |ws|) && |hs| == |ws|
    ensures |r.hs| == |r.ws| && r.ws == (if r.added then ws + [w] else ws)
    ensures Below(r.tree, |r.ws|) && r.tree.Node?
    decreases t, 1
  {
    var d := CompareTo(ws[t.id], w);
    if d > 0 then FixedDescend(t, hs, ws, w, true)
    else if d < 0 then FixedDescend(t, hs, ws, w, false)
    else Ins(true, t, hs, ws, false)
  }

  /** One side of the private avlInsert over the corrected rotations. */
  function FixedDescend(t: Tree, hs: seq<int>, ws: seq<string>, w: string, goLeft: bool): (r: Ins)
    requires t.Node? && Below(t, |ws|) && |hs| == |ws|
    ensures |r.hs| == |r.ws| && r.ws == (if r.added then ws + [w] else ws)
    ensures Below(r.tree, |r.ws|) && r.tree.Node?
    decreases t, 0
  {
    JoinBelow(t, goLeft, |ws|);
    if Child(t, goLeft).Nil? then
      var t1 := Join(t, goLeft, Node(|ws|, Nil, Nil));
      var hs1 := hs + [0];
      JoinBelow(t, goLeft, |ws| + 1);
      ClimbShape(t1, hs1[t.id := CachedHeight(t1, hs1)], ws + [w], true, true);
      FixedClimb(t1, hs1[t.id := CachedHeight(t1, hs1)], ws + [w], true, true)
    else
      var sub := FixedInsert(Child(t, goLeft), hs, ws, w);
      JoinBelow(t, goLeft, |sub.ws|);
      var t1 := Join(t, goLeft, sub.tree);
      ClimbShape(t1, sub.hs, sub.ws, sub.added, sub.ok);
      FixedClimb(t1, sub.hs, sub.ws, sub.added, sub.ok)
  }

  /** The public avlInsert(w) over the corrected rotations. */
  function FixedAvlInsert(t: Tree, hs: seq<int>, ws: seq<string>, w: string): (r: Ins)
    requires Below(t, |ws|) && |hs| == |ws|
    ensures |r.hs| == |r.ws| && r.ws == (if r.added then ws + [w] else ws)
    ensures Below(r.tree, |r.ws|) && r.tree.Node?
  {
    if t.Nil? then Ins(true, Node(|ws|, Nil, Nil), hs + [0], ws + [w], true)
    else FixedInsert(t, hs, ws, w)
  }

  /** avlInsert of every line, in order, into a new tree (what avlUnique
      does), over the corrected rotations, up to the first throw. */
  function FixedBuild(lines: seq<string>): (r: Ins)
    ensures Below(r.tree, |r.ws|) && |r.hs| == |r.ws|
    decreases |lines|
  {
    if lines == [] then Ins(true, Nil, [], [], false)
    else
      var b := FixedBuild(lines[..|lines| - 1]);
      if !b.ok then b else FixedAvlInsert(b.tree, b.hs, b.ws, lines[|lines| - 1])
  }

  // ---------------------------------------------------------------------------
  // Balance: the rotations on shapes

  /** A single right rotation repairs a node whose left child is two higher
      than its right child and leans left. */
  lemma RotRBalanced(t: Tree)
    requires t.Node? && t.left.Node? && Balanced(t.left) && Balanced(t.right)
    requires Height(t.left) == Height(t.right) + 2 && Height(t.left.left) > Height(t.left.right)
    ensures Balanced(RotR(t)) && Height(RotR(t)) == Height(t.left)
  {
  }

  /** The mirror image: a single left rotation. */
  lemma RotLBalanced(t: Tree)
    requires t.Node? && t.right.Node? && Balanced(t.left) && Balanced(t.right)
    requires Height(t.right) == Height(t.left) + 2 && Height(t.right.right) > Height(t.right.left)
    ensures Balanced(RotL(t)) && Height(RotL(t)) == Height(t.right)
  {
  }

  /** A left-right double rotation repairs a node whose left child is two
      higher than its right child and leans right. */
  lemma RotLRBalanced(t: Tree)
    requires t.Node? && t.left.Node? && Balanced(t.left) && Balanced(t.right)
    requires Height(t.left) == Height(t.right) + 2 && Height(t.left.right) > Height(t.left.left)
    ensures t.left.right.Node?
    ensures var t1 := RotR(Node(t.id, RotL(t.left), t.right));
      Balanced(t1) && Height(t1) == Height(t.left)
  {
  }

  /** The mirror image: a right-left double rotation. */
  lemma RotRLBalanced(t: Tree)
    requires t.Node? && t.right.Node? && Balanced(t.left) && Balanced(t.right)
    requires Height(t.right) == Height(t.left) + 2 && Height(t.right.left) > Height(t.right.right)
    ensures t.right.left.Node?
    ensures var t1 := RotL(Node(t.id, t.left, RotR(t.right)));
      Balanced(t1) && Height(t1) == Height(t.right)
  {
  }

  // ---------------------------------------------------------------------------
  // Balance and exact heights: rebalance

  /** With exact heights below it, balance(n) is the true height difference. */
  lemma BalIsHeights(t: Tree, hs: seq<int>)
    requires t.Node? && Below(t, |hs|) && Exact(t.left, hs) && Exact(t.right, hs)
    ensures Bal(t, hs) == Height(t.right) - Height(t.left)
  {
    if t.left.Node? { CachedHeightExact(t.left, hs); }
    if t.right.Node? { CachedHeightExact(t.right, hs); }
  }

  /** `n.height = getHeight(n)` changes nothing on a node whose height is exact. */
  lemma RecomputeExact(t: Tree, hs: seq<int>)
    requires t.Node? && Below(t, |hs|) && Exact(t, hs)
    ensures hs[t.id := CachedHeight(t, hs)] == hs
  {
    CachedHeightExact(t, hs);
  }

  /** hs' holds the heights of hs at every handle of hs outside s. */
  predicate KeepsOutside(hs': seq<int>, hs: seq<int>, s: set<nat>) {
    |hs| <= |hs'| && forall i :: 0 <= i < |hs| && i !in s ==> hs'[i] == hs[i]
  }

  /** What rebalance(n) meets on the way back up a corrected insertion: both
      subtrees AVL balanced with exact heights, their heights at most two
      apart, and a subtree that is two higher leaning to one side. */
  predicate Repairable(t: Tree, hs: seq<int>)
    requires t.Node? && Below(t, |hs|)
  {
    Distinct(t) && Balanced(t.left) && Balanced(t.right) && Exact(t.left, hs) && Exact(t.right, hs) &&
    -2 <= Height(t.right) - Height(t.left) <= 2 &&
    (Height(t.left) == Height(t.right) + 2 ==> t.left.Node? && Height(t.left.left) != Height(t.left.right)) &&
    (Height(t.right) == Height(t.left) + 2 ==> t.right.Node? && Height(t.right.left) != Height(t.right.right))
  }

  /** The corrected rebalance(n) repairs such a node: it does not throw, and
      leaves an AVL balanced subtree with exact heights, writing only heights
      of the subtree's nodes.  A node within balance keeps its shape and
      height 1 + the higher child; a rotated one ends as high as its higher
      child was. */
  lemma FixedRebalanceAvl(t: Tree, hs: seq<int>)
    requires t.Node? && Below(t, |hs|) && Repairable(t, hs)
    ensures var r := FixedRebalanced(t, hs);
      r.ok && Balanced(r.tree) && Exact(r.tree, r.hs) && KeepsOutside(r.hs, hs, Ids(t)) &&
      (-1 <= Height(t.right) - Height(t.left) <= 1 ==> r.tree == t && Height(r.tree) == Height(t)) &&
      (Height(t.right) - Height(t.left) < -1 ==> Height(r.tree) == Height(t.left)) &&
      (Height(t.right) - Height(t.left) > 1 ==> Height(r.tree) == Height(t.right))
  {
    var d := Height(t.right) - Height(t.left);
    if -1 <= d <= 1 {
      FixedKeep(t, hs);
    } else if d < -1 {
      if Height(t.left.left) > Height(t.left.right) {
        FixedLeftSingle(t, hs);
      } else {
        FixedLeftDouble(t, hs);
      }
    } else {
      if Height(t.right.right) > Height(t.right.left) {
        FixedRightSingle(t, hs);
      } else {
        FixedRightDouble(t, hs);
      }
    }
  }

  /** Within balance: only `n.height = getHeight(n)`, which makes n exact. */
  lemma FixedKeep(t: Tree, hs: seq<int>)
    requires t.Node? && Below(t, |hs|) && Repairable(t, hs)
    requires -1 <= Height(t.right) - Height(t.left) <= 1
    ensures var r := FixedRebalanced(t, hs);
      r.ok && r.tree == t && r.hs == hs[t.id := Height(t)] &&
      Balanced(r.tree) && Exact(r.tree, r.hs) && KeepsOutside(r.hs, hs, Ids(t))
  {
    BalIsHeights(t, hs);
    CachedHeightExact(t, hs);
    ExactFrame(t.left, hs, t.id, Height(t));
    ExactFrame(t.right, hs, t.id, Height(t));
  }

  /** Left child two higher and leaning left: rightRotate(n). */
  lemma FixedLeftSingle(t: Tree, hs: seq<int>)
    requires t.Node? && Below(t, |hs|) && Repairable(t, hs)
    requires Height(t.left) == Height(t.right) + 2 && Height(t.left.left) > Height(t.left.right)
    ensures var r := FixedRebalanced(t, hs);
      r.ok && Balanced(r.tree) && Exact(r.tree, r.hs) && KeepsOutside(r.hs, hs, Ids(t)) &&
      Height(r.tree) == Height(t.left)
  {
    assert Below(t.left, |hs|);
    BalIsHeights(t, hs);
    BalIsHeights(t.left, hs);
    var t1, hs1 := RotR(t), FixedRotRHeights(t, hs);
    RotRKeeps(t, |hs|);
    FixedRotRExact(t, hs);
    assert Exact(t1.right, hs1);
    RecomputeExact(t1.right, hs1);
    RotRBalanced(t);
  }

  /** Left child two higher and leaning right: leftRotate(n.left), then
      rightRotate(n). */
  lemma FixedLeftDouble(t: Tree, hs: seq<int>)
    requires t.Node? && Below(t, |hs|) && Repairable(t, hs)
    requires Height(t.left) == Height(t.right) + 2 && Height(t.left.right) > Height(t.left.left)
    ensures var r := FixedRebalanced(t, hs);
      r.ok && Balanced(r.tree) && Exact(r.tree, r.hs) && KeepsOutside(r.hs, hs, Ids(t)) &&
      Height(r.tree) == Height(t.left)
  {
    LeftInner(t, hs);
    var t0, hs0 := Node(t.id, RotL(t.left), t.right), FixedRotLHeights(t.left, hs);
    var t1, hs1 := RotR(t0), FixedRotRHeights(t0, hs0);
    RotRKeeps(t0, |hs|);
    FixedRotRExact(t0, hs0);
    assert Exact(t1.right, hs1);
    RecomputeExact(t1.right, hs1);
    RotLRBalanced(t);
  }

  /** The first half of that double rotation: after leftRotate(n.left) the
      node is ready for rightRotate(n), with exact heights in the three
      subtrees it regroups. */
  lemma LeftInner(t: Tree, hs: seq<int>)
    requires t.Node? && Below(t, |hs|) && Repairable(t, hs)
    requires Height(t.left) == Height(t.right) + 2 && Height(t.left.right) > Height(t.left.left)
    ensures t.left.Node? && t.left.right.Node? && Bal(t, hs) < -1 && Bal(t.left, hs) >= 0
    ensures var t0, hs0 := Node(t.id, RotL(t.left), t.right), FixedRotLHeights(t.left, hs);
      Below(t0, |hs|) && t0.left.Node? && Below(t0.left, |hs|) && Distinct(t0) && Ids(t0) == Ids(t) &&
      Exact(t0.right, hs0) && Exact(t0.left.left, hs0) && Exact(t0.left.right, hs0) &&
      KeepsOutside(hs0, hs, Ids(t.left))
  {
    var l := t.left;
    assert Below(l, |hs|) && Below(l.right, |hs|);
    BalIsHeights(t, hs);
    BalIsHeights(l, hs);
    var hs0 := FixedRotLHeights(l, hs);
    RotLKeeps(l, |hs|);
    FixedRotLExact(l, hs);
    assert l.id in Ids(l) && l.right.id in Ids(l);
    BelowIds(t.right, |hs|);
    assert forall i :: i in Ids(t.right) ==> i != l.id && i != l.right.id;
    ExactAgree(t.right, hs, hs0);
  }

  /** Right child two higher and leaning right: leftRotate(n). */
  lemma FixedRightSingle(t: Tree, hs: seq<int>)
    requires t.Node? && Below(t, |hs|) && Repairable(t, hs)
    requires Height(t.right) == Height(t.left) + 2 && Height(t.right.right) > Height(t.right.left)
    ensures var r := FixedRebalanced(t, hs);
      r.ok && Balanced(r.tree) && Exact(r.tree, r.hs) && KeepsOutside(r.hs, hs, Ids(t)) &&
      Height(r.tree) == Height(t.right)
  {
    assert Below(t.right, |hs|);
    BalIsHeights(t, hs);
    BalIsHeights(t.right, hs);
    var t1, hs1 := RotL(t), FixedRotLHeights(t, hs);
    RotLKeeps(t, |hs|);
    FixedRotLExact(t, hs);
    assert Exact(t1.left, hs1);
    RecomputeExact(t1.left, hs1);
    RotLBalanced(t);
  }

  /** Right child two higher and leaning left: rightRotate(n.right), then
      leftRotate(n). */
  lemma FixedRightDouble(t: Tree, hs: seq<int>)
    requires t.Node? && Below(t, |hs|) && Repairable(t, hs)
    requires Height(t.right) == Height(t.left) + 2 && Height(t.right.left) > Height(t.right.right)
    ensures var r := FixedRebalanced(t, hs);
      r.ok && Balanced(r.tree) && Exact(r.tree, r.hs) && KeepsOutside(r.hs, hs, Ids(t)) &&
      Height(r.tree) == Height(t.right)
  {
    RightInner(t, hs);
    var t0, hs0 := Node(t.id, t.left, RotR(t.right)), FixedRotRHeights(t.right, hs);
    var t1, hs1 := RotL(t0), FixedRotLHeights(t0, hs0);
    RotLKeeps(t0, |hs|);
    FixedRotLExact(t0, hs0);
    assert Exact(t1.left, hs1);
    RecomputeExact(t1.left, hs1);
    RotRLBalanced(t);
  }

  /** The first half of the mirrored double rotation: rightRotate(n.right). */
  lemma RightInner(t: Tree, hs: seq<int>)
    requires t.Node? && Below(t, |hs|) && Repairable(t, hs)
    requires Height(t.right) == Height(t.left) + 2 && Height(t.right.left) > Height(t.right.right)
    ensures t.right.Node? && t.right.left.Node? && Bal(t, hs) > 1 && Bal(t.right, hs) < 0
    ensures var t0, hs0 := Node(t.id, t.left, RotR(t.right)), FixedRotRHeights(t.right, hs);
      Below(t0, |hs|) && t0.right.Node? && Below(t0.right, |hs|) && Distinct(t0) && Ids(t0) == Ids(t) &&
      Exact(t0.left, hs0) && Exact(t0.right.left, hs0) && Exact(t0.right.right, hs0) &&
      KeepsOutside(hs0, hs, Ids(t.right))
  {
    var u := t.right;
    assert Below(u, |hs|) && Below(u.left, |hs|);
    BalIsHeights(t, hs);
    BalIsHeights(u, hs);
    var hs0 := FixedRotRHeights(u, hs);
    RotRKeeps(u, |hs|);
    FixedRotRExact(u, hs);
    assert u.id in Ids(u) && u.left.id in Ids(u);
    BelowIds(t.left, |hs|);
    assert forall i :: i in Ids(t.left) ==> i != u.id && i != u.left.id;
    ExactAgree(t.left, hs, hs0);
  }
  // ---------------------------------------------------------------------------
  // Balance and exact heights: avlInsert

  /** What one corrected insertion into the subtree t guarantees: no throw,
      an AVL balanced subtree with exact heights over t's nodes and, if a node
      was attached, the new handle |hs|; heights of other nodes untouched; the
      height grown by at most one, and a subtree that grew leaning to one side. */
  predicate Grown(t: Tree, hs: seq<int>, r: Ins)
    requires t.Node? && Below(r.tree, |r.hs|)
  {
    r.ok && r.tree.Node? && Distinct(r.tree) && Balanced(r.tree) && Exact(r.tree, r.hs) &&
    Ids(r.tree) == Ids(t) + (if r.added then {|hs|} else {}) && KeepsOutside(r.hs, hs, Ids(t)) &&
    Height(t) <= Height(r.tree) <= Height(t) + 1 &&
    (Height(r.tree) == Height(t) + 1 ==> Height(r.tree.left) != Height(r.tree.right))
  }

  /** The corrected private avlInsert(n, w) keeps an AVL tree with exact
      heights AVL with exact heights. */
  lemma {:induction false} FixedInsertAvl(t: Tree, hs: seq<int>, ws: seq<string>, w: string)
    requires t.Node? && Below(t, |ws|) && |hs| == |ws| && Distinct(t) && Balanced(t) && Exact(t, hs)
    ensures Grown(t, hs, FixedInsert(t, hs, ws, w))
    decreases t, 1
  {
    var d := CompareTo(ws[t.id], w);
    if d > 0 {
      FixedDescendAvl(t, hs, ws, w, true);
    } else if d < 0 {
      FixedDescendAvl(t, hs, ws, w, false);
    }
  }

  /** One side of the corrected private avlInsert keeps it so. */
  lemma {:induction false} FixedDescendAvl(t: Tree, hs: seq<int>, ws: seq<string>, w: string, goLeft: bool)
    requires t.Node? && Below(t, |ws|) && |hs| == |ws| && Distinct(t) && Balanced(t) && Exact(t, hs)
    ensures Grown(t, hs, FixedDescend(t, hs, ws, w, goLeft))
    decreases t, 0
  {
    JoinBelow(t, goLeft, |ws|);
    if Child(t, goLeft).Nil? {
      AttachAvl(t, hs, ws, w, goLeft);
    } else {
      var c := Child(t, goLeft);
      assert Distinct(c) && Balanced(c) && Exact(c, hs);
      FixedInsertAvl(c, hs, ws, w);
      var sub := FixedInsert(c, hs, ws, w);
      ResumeAvl(t, hs, goLeft, sub);
    }
  }

  /** A new leaf under a node with an empty child: the other child is at most
      a leaf, so rebalance(n) finds n within balance. */
  lemma AttachAvl(t: Tree, hs: seq<int>, ws: seq<string>, w: string, goLeft: bool)
    requires t.Node? && Below(t, |ws|) && |hs| == |ws| && Distinct(t) && Balanced(t) && Exact(t, hs)
    requires Child(t, goLeft).Nil?
    ensures Grown(t, hs, FixedDescend(t, hs, ws, w, goLeft))
  {
    var k, c, o := |ws|, Child(t, goLeft), Other(t, goLeft);
    var leaf := Node(k, Nil, Nil);
    var t1 := Join(t, goLeft, leaf);
    var hs1 := hs + [0];
    ResumeShape(t, hs, goLeft, leaf, hs1, true);
    var hs2 := hs1[t.id := CachedHeight(t1, hs1)];
    assert t.id !in Ids(o) && Balanced(o) && Height(o) <= 0;
    ExactFrame(o, hs1, t.id, CachedHeight(t1, hs1));
    assert Exact(leaf, hs2);
    if goLeft {
      RepairableLeft(t1, hs2, -1);
    } else {
      RepairableRight(t1, hs2, -1);
    }
    FixedRebalanceAvl(t1, hs2);
    var r := FixedRebalanced(t1, hs2);
    forall i | 0 <= i < |hs| && i !in Ids(t)
      ensures r.hs[i] == hs[i]
    {
      assert i !in Ids(t1) && i != t.id;
    }
  }

  /** Back from the recursive call: after rebalance the subtree is as Grown
      says. */
  lemma ResumeAvl(t: Tree, hs: seq<int>, goLeft: bool, sub: Ins)
    requires t.Node? && Below(t, |hs|) && Distinct(t) && Balanced(t) && Exact(t, hs)
    requires Child(t, goLeft).Node? && Below(sub.tree, |sub.hs|) && |sub.hs| == |sub.ws|
    requires |sub.hs| == |hs| + (if sub.added then 1 else 0)
    requires Grown(Child(t, goLeft), hs, sub)
    ensures Below(Join(t, goLeft, sub.tree), |sub.hs|)
    ensures Grown(t, hs, FixedClimb(Join(t, goLeft, sub.tree), sub.hs, sub.ws, sub.added, true))
  {
    var c, o := Child(t, goLeft), Other(t, goLeft);
    var t1 := Join(t, goLeft, sub.tree);
    ResumeReady(t, hs, goLeft, sub);
    FixedRebalanceAvl(t1, sub.hs);
    var r := FixedRebalanced(t1, sub.hs);
    forall i | 0 <= i < |hs| && i !in Ids(t)
      ensures r.hs[i] == hs[i]
    {
      assert i !in Ids(c) && i !in Ids(t1);
    }
    var hc, ho, hn := Height(c), Height(o), Height(sub.tree);
    assert Height(t) == 1 + Max(hc, ho);
    if Height(r.tree) == Height(t) + 1 {
      assert r.tree == t1 && hn == hc + 1 && hn > ho;
    }
  }

  /** The node rebuilt around the grown subtree is within what rebalance
      repairs. */
  lemma ResumeReady(t: Tree, hs: seq<int>, goLeft: bool, sub: Ins)
    requires t.Node? && Below(t, |hs|) && Distinct(t) && Balanced(t) && Exact(t, hs)
    requires Child(t, goLeft).Node? && Below(sub.tree, |sub.hs|) && |sub.hs| == |sub.ws|
    requires |sub.hs| == |hs| + (if sub.added then 1 else 0)
    requires Grown(Child(t, goLeft), hs, sub)
    ensures var t1 := Join(t, goLeft, sub.tree);
      Below(t1, |sub.hs|) && Repairable(t1, sub.hs) &&
      Ids(Child(t, goLeft)) <= Ids(t) && Ids(t1) == Ids(t) + (if sub.added then {|hs|} else {})
  {
    var c, o := Child(t, goLeft), Other(t, goLeft);
    var t1 := Join(t, goLeft, sub.tree);
    ResumeShape(t, hs, goLeft, sub.tree, sub.hs, sub.added);
    assert Balanced(o) && Balanced(c);
    if goLeft {
      RepairableLeft(t1, sub.hs, Height(c));
    } else {
      RepairableRight(t1, sub.hs, Height(c));
    }
  }

  /** The node rebuilt around the subtree u that replaced its child: its
      handles, and the exact heights of the other child, which the insertion
      did not touch. */
  lemma ResumeShape(t: Tree, hs: seq<int>, goLeft: bool, u: Tree, hs': seq<int>, added: bool)
    requires t.Node? && Below(t, |hs|) && Distinct(t) && Exact(t, hs)
    requires Below(u, |hs'|) && |hs'| == |hs| + (if added then 1 else 0) && Distinct(u)
    requires Ids(u) == Ids(Child(t, goLeft)) + (if added then {|hs|} else {})
    requires KeepsOutside(hs', hs, Ids(Child(t, goLeft)))
    ensures var t1 := Join(t, goLeft, u);
      Below(t1, |hs'|) && Distinct(t1) && Exact(Other(t, goLeft), hs') &&
      Ids(Child(t, goLeft)) <= Ids(t) && Ids(t1) == Ids(t) + (if added then {|hs|} else {})
  {
    var o := Other(t, goLeft);
    JoinBelow(t, goLeft, |hs|);
    JoinBelow(t, goLeft, |hs'|);
    JoinIds(t, goLeft, u);
    BelowIds(t, |hs|);
    BelowIds(o, |hs|);
    assert Below(o, |hs|) && Exact(o, hs);
    ExactAgree(o, hs, hs');
  }

  /** The heights part of that, when the left subtree, once of height hl
      within one of the right one, grew by at most one, leaning to one side
      if it is now two higher. */
  lemma RepairableLeft(t1: Tree, hs: seq<int>, hl: int)
    requires t1.Node? && Below(t1, |hs|) && Distinct(t1) && Balanced(t1.left) && Balanced(t1.right)
    requires Exact(t1.left, hs) && Exact(t1.right, hs)
    requires -1 <= Height(t1.right) - hl <= 1 && hl <= Height(t1.left) <= hl + 1
    requires Height(t1.left) == hl + 1 == Height(t1.right) + 2 ==> t1.left.Node? && Height(t1.left.left) != Height(t1.left.right)
    ensures Repairable(t1, hs)
  {
  }

  /** The mirror image: the right subtree grew. */
  lemma RepairableRight(t1: Tree, hs: seq<int>, hr: int)
    requires t1.Node? && Below(t1, |hs|) && Distinct(t1) && Balanced(t1.left) && Balanced(t1.right)
    requires Exact(t1.left, hs) && Exact(t1.right, hs)
    requires -1 <= hr - Height(t1.left) <= 1 && hr <= Height(t1.right) <= hr + 1
    requires Height(t1.right) == hr + 1 == Height(t1.left) + 2 ==> t1.right.Node? && Height(t1.right.left) != Height(t1.right.right)
    ensures Repairable(t1, hs)
  {
  }

  /** The corrected public avlInsert(w) keeps an AVL tree with exact heights
      AVL with exact heights, and never throws. */
  lemma FixedAvlInsertAvl(t: Tree, hs: seq<int>, ws: seq<string>, w: string)
    requires Below(t, |ws|) && |hs| == |ws| && Distinct(t) && Balanced(t) && Exact(t, hs)
    ensures var r := FixedAvlInsert(t, hs, ws, w);
      r.ok && Distinct(r.tree) && Balanced(r.tree) && Exact(r.tree, r.hs)
  {
    if t.Node? {
      FixedInsertAvl(t, hs, ws, w);
    }
  }

  /** With the corrected rotations, avlInsert of any sequence of lines never
      throws and leaves an AVL balanced tree whose cached heights are all
      exact: what the comment on avlInsert promises. */
  lemma {:induction false} FixedBuildAvl(lines: seq<string>)
    ensures var r := FixedBuild(lines);
      r.ok && Distinct(r.tree) && Balanced(r.tree) && Exact(r.tree, r.hs)
    decreases |lines|
  {
    if lines != [] {
      var b := FixedBuild(lines[..|lines| - 1]);
      FixedBuildAvl(lines[..|lines| - 1]);
      FixedAvlInsertAvl(b.tree, b.hs, b.ws, lines[|lines| - 1]);
    }
  }
}
