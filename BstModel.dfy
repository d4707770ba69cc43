/** The plain binary-search-tree insertion (bstInsert) and the parent walk that
    patches the cached heights after it, on the abstract shape. */
module BstModel {
  import opened JavaStrings
  import opened Shapes

  /** Where the descent of bstInsert(n, w) ends: at a node t (context c) whose
      word equals w, or at the empty child slot with context c. */
  datatype Spot = Hit(c: Ctx, t: Tree) | Slot(c: Ctx)

  /** The descent of the private bstInsert(n, w) from the node t at position c:
      left while n.word.compareTo(w) > 0, right while < 0. */
  function Locate(c: Ctx, t: Tree, ws: seq<string>, w: string): (s: Spot)
    requires t.Node? && Below(t, |ws|) && CtxBelow(c, |ws|)
    ensures s.Hit? ==> s.t.Node? && Below(s.t, |ws|)
    ensures CtxBelow(s.c, |ws|)
    decreases t
  {
    var d := CompareTo(ws[t.id], w);
    if d > 0 then
      if t.left.Nil? then Slot(InLeft(t.id, c, t.right))
      else Locate(InLeft(t.id, c, t.right), t.left, ws, w)
    else if d < 0 then
      if t.right.Nil? then Slot(InRight(t.id, t.left, c))
      else Locate(InRight(t.id, t.left, c), t.right, ws, w)
    else Hit(c, t)
  }

  /** The leaf that bstInsert allocates for a new word. */
  function Leaf(id: nat): Tree {
    Node(id, Nil, Nil)
  }

  /** The outcome of bstInsert: the new shape, heights and words, and whether
      a node was attached. */
  datatype Grow = Grow(tree: Tree, hs: seq<int>, ws: seq<string>, added: bool)

  /** bstInsert(n, w) on the node t at position c: nothing changes when the
      descent finds w; otherwise a new leaf with the next free handle |ws| and
      height 0 fills the empty slot, and the parent walk then raises the
      heights above it. */
  function BstInsert(c: Ctx, t: Tree, hs: seq<int>, ws: seq<string>, w: string): (r: Grow)
    requires t.Node? && Below(t, |ws|) && CtxBelow(c, |ws|) && |hs| == |ws|
    ensures |r.hs| == |r.ws| && r.ws == (if r.added then ws + [w] else ws)
  {
    match Locate(c, t, ws, w)
    case Hit(_, _) => Grow(Plug(c, t), hs, ws, false)
    case Slot(s) =>
      CtxExtend(s, ws, [w], w);
      Grow(Plug(s, Leaf(|ws|)), Raise(hs + [0], |ws|, s, 0), ws + [w], true)
  }

  /** The descent stays inside the tree: the whole tree is unchanged by moving
      the position, and a slot is an empty position of it. */
  lemma {:induction false} LocatePlug(c: Ctx, t: Tree, ws: seq<string>, w: string)
    requires t.Node? && Below(t, |ws|) && CtxBelow(c, |ws|)
    ensures match Locate(c, t, ws, w)
      case Hit(c', t') => Plug(c', t') == Plug(c, t) && ws[t'.id] == w
      case Slot(c') => Plug(c', Nil) == Plug(c, t)
    decreases t
  {
    var d := CompareTo(ws[t.id], w);
    if d > 0 {
      if t.left.Node? { LocatePlug(InLeft(t.id, c, t.right), t.left, ws, w); }
    } else if d < 0 {
      if t.right.Node? { LocatePlug(InRight(t.id, t.left, c), t.right, ws, w); }
    } else {
      CompareToZero(ws[t.id], w);
    }
  }

  /** In an ordered tree the descent finds w exactly when w is a key, and
      otherwise ends at a slot where w fits the order on its whole path. */
  lemma {:induction false} LocateKeys(c: Ctx, t: Tree, ws: seq<string>, w: string)
    requires t.Node? && Below(t, |ws|) && CtxBelow(c, |ws|) && Ordered(t, ws) && Fits(c, ws, w)
    ensures Locate(c, t, ws, w).Hit? <==> w in Keys(t, ws)
    ensures Locate(c, t, ws, w).Slot? ==> Fits(Locate(c, t, ws, w).c, ws, w)
    decreases t
  {
    var n := t.id;
    var d := CompareTo(ws[n], w);
    GreaterIsLess(ws[n], w);
    LessIrreflexive(w);
    if d > 0 {
      assert w !in Keys(t.right, ws);
      if t.left.Node? { LocateKeys(InLeft(n, c, t.right), t.left, ws, w); }
    } else if d < 0 {
      assert w !in Keys(t.left, ws);
      if t.right.Node? { LocateKeys(InRight(n, t.left, c), t.right, ws, w); }
    } else {
      CompareToZero(ws[n], w);
    }
  }

  /** bstInsert on an ordered tree: the keys become the old keys and w, the
      order is kept, the new node has the next free handle, and nothing is
      attached when w is already a key. */
  lemma GrownFacts(t: Tree, hs: seq<int>, ws: seq<string>, w: string)
    requires t.Node? && Below(t, |ws|) && |hs| == |ws| && Distinct(t) && Ordered(t, ws)
    ensures var r := BstInsert(Root, t, hs, ws, w);
      Below(r.tree, |r.ws|) && Keys(r.tree, r.ws) == Keys(t, ws) + {w} && Ordered(r.tree, r.ws) &&
      Distinct(r.tree) && (r.added <==> w !in Keys(t, ws)) &&
      (!r.added ==> r.tree == t && r.hs == hs) &&
      (r.added ==> Ids(r.tree) == Ids(t) + {|ws|} && Count(r.tree) == Count(t) + 1)
  {
    LocatePlug(Root, t, ws, w);
    LocateKeys(Root, t, ws, w);
    var ws' := ws + [w];
    KeysExtend(t, ws, [w]);
    match Locate(Root, t, ws, w)
    case Hit(c', t') =>
      KeysPlug(c', t', ws);
      BelowPlug(c', t', |ws|);
    case Slot(c') =>
      BelowPlug(c', Nil, |ws|);
      FillSlot(c', t, ws, w);
      FillSlotIds(c', t, |ws|);
  }

  /** Filling an empty slot where w fits with a leaf holding w under the next
      free handle adds w to the keys and keeps the order. */
  lemma FillSlot(c: Ctx, t: Tree, ws: seq<string>, w: string)
    requires Plug(c, Nil) == t && CtxBelow(c, |ws|) && Below(t, |ws|) && Ordered(t, ws) && Fits(c, ws, w)
    ensures var g, ws' := Plug(c, Leaf(|ws|)), ws + [w];
      Below(g, |ws'|) && Keys(g, ws') == Keys(t, ws) + {w} && Ordered(g, ws')
  {
    var leaf, ws' := Leaf(|ws|), ws + [w];
    KeysExtend(t, ws, [w]);
    CtxExtend(c, ws, [w], w);
    assert Keys(leaf, ws') == {w};
    OrderedReplace(c, Nil, leaf, ws');
    KeysPlug(c, Nil, ws');
    BelowPlug(c, leaf, |ws'|);
    KeysPlug(c, leaf, ws');
  }

  /** The new leaf adds one fresh handle to the tree. */
  lemma FillSlotIds(c: Ctx, t: Tree, n: nat)
    requires Plug(c, Nil) == t && Below(t, n) && Distinct(t)
    ensures var g := Plug(c, Leaf(n));
      Distinct(g) && Ids(g) == Ids(t) + {n} && Count(g) == Count(t) + 1
  {
    var leaf := Leaf(n);
    BelowIds(t, n);
    IdsPlug(c, Nil);
    IdsPlug(c, leaf);
    CountPlug(c, Nil);
    CountPlug(c, leaf);
    DistinctReplace(c, Nil, leaf, {n});
  }

  // ---------------------------------------------------------------------------
  // The parent walk: nd = insert; h = 0; while nd.parent != null { ... }

  /** The parent subtree of the position c holding t. */
  function Lift(c: Ctx, t: Tree): Tree
    requires !c.Root?
  {
    match c
    case InLeft(p, _, s) => Node(p, t, s)
    case InRight(p, s, _) => Node(p, s, t)
  }

  /** One pass of the loop per node from nd up to, but not including, the
      root: a height below h is raised to h, and h grows by one per edge. */
  function Raise(hs: seq<int>, nd: nat, c: Ctx, h: int): (r: seq<int>)
    requires nd < |hs| && CtxBelow(c, |hs|)
    ensures |r| == |hs|
    decreases c
  {
    if c.Root? then hs
    else
      var hs' := if h > hs[nd] then hs[nd := h] else hs;
      Raise(hs', c.pid, c.up, h + 1)
  }

  /** The handles the walk visits from the position c holding t: every node on
      the path except the root. */
  function PathIds(c: Ctx, t: Tree): set<nat>
    requires t.Node?
    decreases c
  {
    if c.Root? then {} else {t.id} + PathIds(c.up, Lift(c, t))
  }

  /** The k-th node above t (the 0th is t itself). */
  function Ancestor(c: Ctx, t: Tree, k: nat): nat
    requires t.Node? && k <= Depth(c)
    decreases k
  {
    if k == 0 then t.id else Ancestor(c.up, Lift(c, t), k - 1)
  }

  lemma {:induction false} PathInside(c: Ctx, t: Tree)
    requires t.Node?
    ensures PathIds(c, t) <= {t.id} + CtxIds(c)
    ensures forall k :: 0 < k <= Depth(c) ==> Ancestor(c, t, k) in CtxIds(c)
    decreases c
  {
    if !c.Root? {
      PathInside(c.up, Lift(c, t));
      forall k | 0 < k <= Depth(c) ensures Ancestor(c, t, k) in CtxIds(c) {
        if k > 1 { assert Ancestor(c, t, k) == Ancestor(c.up, Lift(c, t), k - 1); }
      }
    }
  }

  lemma LiftPlug(c: Ctx, t: Tree, n: int)
    requires t.Node? && !c.Root?
    ensures Plug(c.up, Lift(c, t)) == Plug(c, t)
    ensures CtxBelow(c, n) && Below(t, n) ==> CtxBelow(c.up, n) && Below(Lift(c, t), n)
    ensures Distinct(Plug(c, t)) ==> Distinct(Lift(c, t)) && t.id != c.pid && t.id !in CtxIds(c.up)
  {
    if Distinct(Plug(c, t)) {
      DistinctPlug(c.up, Lift(c, t));
      DistinctPlug(c, t);
    }
  }

  /** The walk writes only the nodes it visits. */
  lemma {:induction false} RaiseFrame(hs: seq<int>, c: Ctx, t: Tree, h: int, i: int)
    requires t.Node? && t.id < |hs| && CtxBelow(c, |hs|) && Below(t, |hs|)
    requires 0 <= i < |hs| && i !in PathIds(c, t)
    ensures Raise(hs, t.id, c, h)[i] == hs[i]
    decreases c
  {
    if !c.Root? {
      var hs' := if h > hs[t.id] then hs[t.id := h] else hs;
      LiftPlug(c, t, |hs|);
      RaiseFrame(hs', c.up, Lift(c, t), h + 1, i);
    }
  }

  /** The root is not written: the loop stops when nd.parent is null. */
  lemma {:induction false} RaiseSkipsRoot(hs: seq<int>, c: Ctx, t: Tree, h: int)
    requires t.Node? && Below(Plug(c, t), |hs|) && Distinct(Plug(c, t))
    ensures Top(Plug(c, t)) !in PathIds(c, t)
    decreases c
  {
    BelowPlug(c, t, |hs|);
    if !c.Root? {
      LiftPlug(c, t, |hs|);
      RaiseSkipsRoot(hs, c.up, Lift(c, t), h + 1);
      TopOfPlug(c, t);
    }
  }

  /** No height is lowered. */
  lemma {:induction false} RaiseNeverLowers(hs: seq<int>, c: Ctx, t: Tree, h: int)
    requires t.Node? && t.id < |hs| && CtxBelow(c, |hs|) && Below(t, |hs|)
    ensures forall i :: 0 <= i < |hs| ==> Raise(hs, t.id, c, h)[i] >= hs[i]
    decreases c
  {
    if !c.Root? {
      var hs' := if h > hs[t.id] then hs[t.id := h] else hs;
      LiftPlug(c, t, |hs|);
      RaiseNeverLowers(hs', c.up, Lift(c, t), h + 1);
    }
  }

  /** The k-th visited node ends with the larger of its old height and h + k:
      each non-root ancestor is raised to at least its distance. */
  lemma {:induction false} RaiseDistance(hs: seq<int>, c: Ctx, t: Tree, h: int, k: nat)
    requires t.Node? && CtxBelow(c, |hs|) && Below(t, |hs|) && Distinct(Plug(c, t)) && k < Depth(c)
    ensures Ancestor(c, t, k) < |hs|
    ensures Raise(hs, t.id, c, h)[Ancestor(c, t, k)] == Max(hs[Ancestor(c, t, k)], h + k)
    decreases c
  {
    LiftPlug(c, t, |hs|);
    var hs' := if h > hs[t.id] then hs[t.id := h] else hs;
    var a := Ancestor(c, t, k);
    if k == 0 {
      PathInside(c.up, Lift(c, t));
      assert t.id !in PathIds(c.up, Lift(c, t));
      RaiseFrame(hs', c.up, Lift(c, t), h + 1, t.id);
    } else {
      RaiseDistance(hs', c.up, Lift(c, t), h + 1, k - 1);
      PathInside(c, t);
      DistinctPlug(c, t);
      assert a != t.id;
    }
  }
}
