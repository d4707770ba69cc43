/** The reference updates of leftRotate, rightRotate and of attaching a new leaf,
    as functions on the arena's left/right/parent references, and the proof that
    each leaves the references consistent with the new shape. */
module Links {
  import opened Shapes
  import opened AvlModel

  /** The references of handle i are the same in g and g'. */
  predicate SameAt(g: Graph, g': Graph, i: int) {
    (Has(g, i) <==> Has(g', i)) &&
    (Has(g, i) ==> g.left[i] == g'.left[i] && g.right[i] == g'.right[i] && g.parent[i] == g'.parent[i])
  }

  predicate Sized(g: Graph, n: int) {
    |g.left| == n && |g.right| == n && |g.parent| == n
  }

  /** A subtree none of whose handles is in m keeps its references. */
  lemma LinkedKeep(t: Tree, g: Graph, g': Graph, p: int, m: set<int>)
    requires Linked(t, g, p)
    requires forall i: int :: i !in m ==> SameAt(g, g', i)
    requires forall i :: i in Ids(t) ==> i !in m
    ensures Linked(t, g', p)
  {
    LinkedFrame(t, g, g', p);
  }

  /** The position's context keeps its references when only handles outside it
      (m) change, and the parent's child reference on the position's side now
      names h. */
  lemma CtxRelink(c: Ctx, t: Tree, g: Graph, g': Graph, h: int, m: set<int>)
    requires Distinct(Plug(c, t)) && CtxLinked(c, g, Top(t))
    requires forall i: int :: i !in m && i != CtxParent(c) ==> SameAt(g, g', i)
    requires forall i :: i in CtxIds(c) ==> i !in m
    requires c.InLeft? ==> Has(g', c.pid) && g'.parent[c.pid] == g.parent[c.pid] &&
                           g'.left[c.pid] == h && g'.right[c.pid] == g.right[c.pid]
    requires c.InRight? ==> Has(g', c.pid) && g'.parent[c.pid] == g.parent[c.pid] &&
                            g'.right[c.pid] == h && g'.left[c.pid] == g.left[c.pid]
    ensures CtxLinked(c, g', h)
  {
    match c
    case Root =>
    case InLeft(q, up, s) =>
      DistinctPlug(up, Node(q, t, s));
      LinkedKeep(s, g, g', q, m + {q});
      CtxLinkedFrame(up, g, g', q);
    case InRight(q, s, up) =>
      DistinctPlug(up, Node(q, s, t));
      LinkedKeep(s, g, g', q, m + {q});
      CtxLinkedFrame(up, g, g', q);
  }

  // ---------------------------------------------------------------------------
  // leftRotate(x)

  /** The reference updates of leftRotate(x), in the order the code makes them;
      the root test `x == root` is c.Root?, and `x == x.parent.left` is c.InLeft?. */
  function RotLLinks(g: Graph, c: Ctx, t: Tree): (g': Graph)
    requires t.Node? && t.right.Node? && Has(g, t.id) && Has(g, t.right.id)
    requires t.right.left.Node? ==> Has(g, t.right.left.id)
    requires !c.Root? ==> Has(g, c.pid)
    ensures Sized(g', |g.left|) || !Sized(g, |g.left|)
  {
    var x, y, b := t.id, t.right.id, Top(t.right.left);
    var right1 := g.right[x := b];
    var parent1 := if b != NIL then g.parent[b := x] else g.parent;
    var parent2 := parent1[y := g.parent[x]];
    var left1 := if c.InLeft? then g.left[c.pid := y] else g.left;
    var right2 := if c.InRight? then right1[c.pid := y] else right1;
    var left2 := left1[y := x];
    var parent3 := parent2[x := y];
    Graph(left2, right2, parent3)
  }

  /** What RotLLinks changes: x, y, the moved middle subtree's top b, and the
      child reference of x's old parent q; every other handle keeps its references. */
  lemma RotLLinksAt(g: Graph, c: Ctx, t: Tree)
    requires t.Node? && t.right.Node? && Has(g, t.id) && Has(g, t.right.id)
    requires t.right.left.Node? ==> Has(g, t.right.left.id)
    requires !c.Root? ==> Has(g, c.pid)
    requires Sized(g, |g.left|)
    requires t.id != t.right.id && t.id != CtxParent(c) && t.right.id != CtxParent(c)
    requires t.right.left.Node? ==>
      t.right.left.id != t.id && t.right.left.id != t.right.id && t.right.left.id != CtxParent(c)
    ensures var g', x, y, b, q := RotLLinks(g, c, t), t.id, t.right.id, Top(t.right.left), CtxParent(c);
      Sized(g', |g.left|) &&
      (forall i: int :: i != x && i != y && i != b && i != q ==> SameAt(g, g', i)) &&
      g'.parent[y] == g.parent[x] && g'.left[y] == x && g'.right[y] == g.right[y] &&
      g'.parent[x] == y && g'.left[x] == g.left[x] && g'.right[x] == b &&
      (b != NIL ==> g'.parent[b] == x && g'.left[b] == g.left[b] && g'.right[b] == g.right[b]) &&
      (c.InLeft? ==> g'.left[q] == y && g'.right[q] == g.right[q] && g'.parent[q] == g.parent[q]) &&
      (c.InRight? ==> g'.right[q] == y && g'.left[q] == g.left[q] && g'.parent[q] == g.parent[q])
  {
  }

  /** The rotated subtree is consistent in any g' that makes leftRotate's
      changes to x, y and b and keeps every other handle of t (q lies outside t). */
  lemma RotLInner(t: Tree, g: Graph, g': Graph, p: int, q: int)
    requires t.Node? && t.right.Node? && Linked(t, g, p) && Distinct(t)
    requires q !in Ids(t) && (q == p || p == NIL)
    requires var x, y, b := t.id, t.right.id, Top(t.right.left);
      (forall i: int :: i != x && i != y && i != b && i != q ==> SameAt(g, g', i)) &&
      Has(g, x) && Has(g, y) && (b != NIL ==> Has(g, b)) &&
      Has(g', x) && Has(g', y) && (b != NIL ==> Has(g', b)) &&
      g'.parent[y] == g.parent[x] && g'.left[y] == x && g'.right[y] == g.right[y] &&
      g'.parent[x] == y && g'.left[x] == g.left[x] && g'.right[x] == b &&
      (b != NIL ==> g'.parent[b] == x && g'.left[b] == g.left[b] && g'.right[b] == g.right[b])
    ensures Linked(RotL(t), g', p)
  {
    var x, y := t.id, t.right.id;
    var a, b, cc := t.left, t.right.left, t.right.right;
    assert Linked(t.right, g, x) && Distinct(t.right);
    var m: set<int> := {x, y, q} + (if b.Node? then {b.id} else {});
    LinkedKeep(a, g, g', x, m);
    LinkedKeep(cc, g, g', y, m);
    if b.Node? {
      assert Linked(b, g, y) && Distinct(b);
      LinkedKeep(b.left, g, g', b.id, m);
      LinkedKeep(b.right, g, g', b.id, m);
      assert Linked(b, g', x);
    }
  }

  /** leftRotate keeps every reference consistent: the promoted y takes x's
      place under x's parent (or as the root), x becomes y's left child, and y's
      old left subtree becomes x's right subtree. */
  lemma RotLLinked(g: Graph, c: Ctx, t: Tree)
    requires t.Node? && t.right.Node? && Sized(g, |g.left|)
    requires Linked(Plug(c, t), g, NIL) && Distinct(Plug(c, t))
    ensures Has(g, t.id) && Has(g, t.right.id) && (t.right.left.Node? ==> Has(g, t.right.left.id))
    ensures !c.Root? ==> Has(g, c.pid)
    ensures Sized(RotLLinks(g, c, t), |g.left|)
    ensures Linked(Plug(c, RotL(t)), RotLLinks(g, c, t), NIL)
  {
    LinkedPlug(c, t, g);
    DistinctPlug(c, t);
    var x, y, b := t.id, t.right.id, t.right.left;
    var p := CtxParent(c);
    assert Linked(t.right, g, x) && Distinct(t.right);
    assert b.Node? ==> Linked(b, g, y) && Has(g, b.id);
    assert !c.Root? ==> Has(g, c.pid) && c.pid in CtxIds(c);
    assert x != y && p != x && p != y;
    assert b.Node? ==> b.id != x && b.id != y && b.id != p;
    RotLLinksAt(g, c, t);
    var g' := RotLLinks(g, c, t);
    CtxRelink(c, t, g, g', y, {x, y} + (if b.Node? then {b.id} else {}));
    RotLInner(t, g, g', p, p);
    LinkedPlug(c, RotL(t), g');
  }

  // ---------------------------------------------------------------------------
  // rightRotate(y)

  /** The reference updates of rightRotate(y), in the order the code makes them;
      `y == y.parent.right` is c.InRight?. */
  function RotRLinks(g: Graph, c: Ctx, t: Tree): (g': Graph)
    requires t.Node? && t.left.Node? && Has(g, t.id) && Has(g, t.left.id)
    requires t.left.right.Node? ==> Has(g, t.left.right.id)
    requires !c.Root? ==> Has(g, c.pid)
  {
    var y, x, b := t.id, t.left.id, Top(t.left.right);
    var left1 := g.left[y := b];
    var parent1 := if b != NIL then g.parent[b := y] else g.parent;
    var parent2 := parent1[x := g.parent[y]];
    var right1 := if c.InRight? then g.right[c.pid := x] else g.right;
    var left2 := if c.InLeft? then left1[c.pid := x] else left1;
    var right2 := right1[x := y];
    var parent3 := parent2[y := x];
    Graph(left2, right2, parent3)
  }

  lemma RotRLinksAt(g: Graph, c: Ctx, t: Tree)
    requires t.Node? && t.left.Node? && Has(g, t.id) && Has(g, t.left.id)
    requires t.left.right.Node? ==> Has(g, t.left.right.id)
    requires !c.Root? ==> Has(g, c.pid)
    requires Sized(g, |g.left|)
    requires t.id != t.left.id && t.id != CtxParent(c) && t.left.id != CtxParent(c)
    requires t.left.right.Node? ==>
      t.left.right.id != t.id && t.left.right.id != t.left.id && t.left.right.id != CtxParent(c)
    ensures var g', y, x, b, q := RotRLinks(g, c, t), t.id, t.left.id, Top(t.left.right), CtxParent(c);
      Sized(g', |g.left|) &&
      (forall i: int :: i != x && i != y && i != b && i != q ==> SameAt(g, g', i)) &&
      g'.parent[x] == g.parent[y] && g'.right[x] == y && g'.left[x] == g.left[x] &&
      g'.parent[y] == x && g'.right[y] == g.right[y] && g'.left[y] == b &&
      (b != NIL ==> g'.parent[b] == y && g'.left[b] == g.left[b] && g'.right[b] == g.right[b]) &&
      (c.InLeft? ==> g'.left[q] == x && g'.right[q] == g.right[q] && g'.parent[q] == g.parent[q]) &&
      (c.InRight? ==> g'.right[q] == x && g'.left[q] == g.left[q] && g'.parent[q] == g.parent[q])
  {
  }

  lemma RotRInner(t: Tree, g: Graph, g': Graph, p: int, q: int)
    requires t.Node? && t.left.Node? && Linked(t, g, p) && Distinct(t)
    requires q !in Ids(t) && (q == p || p == NIL)
    requires var y, x, b := t.id, t.left.id, Top(t.left.right);
      (forall i: int :: i != x && i != y && i != b && i != q ==> SameAt(g, g', i)) &&
      Has(g, x) && Has(g, y) && (b != NIL ==> Has(g, b)) &&
      Has(g', x) && Has(g', y) && (b != NIL ==> Has(g', b)) &&
      g'.parent[x] == g.parent[y] && g'.right[x] == y && g'.left[x] == g.left[x] &&
      g'.parent[y] == x && g'.right[y] == g.right[y] && g'.left[y] == b &&
      (b != NIL ==> g'.parent[b] == y && g'.left[b] == g.left[b] && g'.right[b] == g.right[b])
    ensures Linked(RotR(t), g', p)
  {
    var y, x := t.id, t.left.id;
    var a, b, cc := t.left.left, t.left.right, t.right;
    assert Linked(t.left, g, y) && Distinct(t.left);
    var m: set<int> := {x, y, q} + (if b.Node? then {b.id} else {});
    LinkedKeep(a, g, g', x, m);
    LinkedKeep(cc, g, g', y, m);
    if b.Node? {
      assert Linked(b, g, x) && Distinct(b);
      LinkedKeep(b.left, g, g', b.id, m);
      LinkedKeep(b.right, g, g', b.id, m);
      assert Linked(b, g', y);
    }
  }

  /** rightRotate keeps every reference consistent: the promoted x takes y's
      place, y becomes x's right child, and x's old right subtree becomes y's
      left subtree. */
  lemma RotRLinked(g: Graph, c: Ctx, t: Tree)
    requires t.Node? && t.left.Node? && Sized(g, |g.left|)
    requires Linked(Plug(c, t), g, NIL) && Distinct(Plug(c, t))
    ensures Has(g, t.id) && Has(g, t.left.id) && (t.left.right.Node? ==> Has(g, t.left.right.id))
    ensures !c.Root? ==> Has(g, c.pid)
    ensures Sized(RotRLinks(g, c, t), |g.left|)
    ensures Linked(Plug(c, RotR(t)), RotRLinks(g, c, t), NIL)
  {
    LinkedPlug(c, t, g);
    DistinctPlug(c, t);
    var y, x, b := t.id, t.left.id, t.left.right;
    var p := CtxParent(c);
    assert Linked(t.left, g, y) && Distinct(t.left);
    assert b.Node? ==> Linked(b, g, x) && Has(g, b.id);
    assert !c.Root? ==> Has(g, c.pid) && c.pid in CtxIds(c);
    assert x != y && p != x && p != y;
    assert b.Node? ==> b.id != x && b.id != y && b.id != p;
    RotRLinksAt(g, c, t);
    var g' := RotRLinks(g, c, t);
    CtxRelink(c, t, g, g', x, {x, y} + (if b.Node? then {b.id} else {}));
    RotRInner(t, g, g', p, p);
    LinkedPlug(c, RotR(t), g');
  }

  // ---------------------------------------------------------------------------
  // Attaching a new leaf: n.left (or n.right) = insert; insert.parent = n

  /** The arena grows by one node n' = |g.left| whose references start out null
      (Java's defaults); then the parent's child reference and n'.parent are set. */
  function AttachLinks(g: Graph, n: int, goLeft: bool): (g': Graph)
    requires Has(g, n) && Sized(g, |g.left|)
  {
    var k := |g.left|;
    var left0, right0, parent0 := g.left + [NIL], g.right + [NIL], g.parent + [NIL];
    var left1 := if goLeft then left0[n := k] else left0;
    var right1 := if goLeft then right0 else right0[n := k];
    Graph(left1, right1, parent0[k := n])
  }

  /** Attaching at an empty slot of the shape keeps every reference consistent. */
  lemma AttachLinked(g: Graph, c: Ctx)
    requires !c.Root? && Sized(g, |g.left|)
    requires Linked(Plug(c, Nil), g, NIL) && Distinct(Plug(c, Nil)) && Below(Plug(c, Nil), |g.left|)
    ensures Has(g, c.pid)
    ensures var g' := AttachLinks(g, c.pid, c.InLeft?);
      Sized(g', |g.left| + 1) && Linked(Plug(c, Node(|g.left|, Nil, Nil)), g', NIL)
  {
    var k := |g.left|;
    LinkedPlug(c, Nil, g);
    BelowPlug(c, Nil, k);
    IdsPlug(c, Nil);
    BelowIds(Plug(c, Nil), k);
    assert c.pid in CtxIds(c);
    var g' := AttachLinks(g, c.pid, c.InLeft?);
    assert forall i: int :: i != k && i != c.pid ==> SameAt(g, g', i);
    CtxRelink(c, Nil, g, g', k, {k});
    var leaf := Node(k, Nil, Nil);
    assert Linked(leaf, g', c.pid);
    LinkedPlug(c, leaf, g');
  }
}
