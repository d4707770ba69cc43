/** The AVL class of AVL.java.

    Each Java `Node` is a handle into an arena: `word[i]`, `parent[i]`,
    `left[i]`, `right[i]` and `height[i]` are the fields of node i, and NIL
    stands for `null`.  Nodes are never freed, so a new node takes the next
    free handle.  The ghost `shape` says which handle sits where; `Valid()`
    ties the references to it.  Every method is proved to have exactly the
    effect that module AvlModel (or BstModel) describes on the shape, the
    height fields and the words. */
module Avl {
  import opened JavaStrings
  import opened Shapes
  import opened AvlModel
  import opened BstModel
  import opened Links

  /** p is `null` or one of the n allocated nodes. */
  predicate IsRef(p: int, n: int) {
    p == NIL || 0 <= p < n
  }

  /** The references g of an arena of n nodes form the tree t, with the given
      root handle and size. */
  ghost predicate Layout(t: Tree, g: Graph, n: int, root: int, size: int) {
    Below(t, n) && Distinct(t) && Linked(t, g, NIL) && root == Top(t) && size == Count(t)
  }

  /** The nodes leftRotate(x) dereferences exist: x, its right child y,
      y's left child (when not null) and x's parent (when x is not the root). */
  ghost predicate RotLReads(c: Ctx, t: Tree, g: Graph, n: int) {
    t.Node? && t.right.Node? && Sized(g, n) && Has(g, t.id) && Has(g, t.right.id) &&
    (t.right.left.Node? ==> Has(g, t.right.left.id)) && (!c.Root? ==> Has(g, c.pid))
  }

  /** The nodes rightRotate(y) dereferences exist. */
  ghost predicate RotRReads(c: Ctx, t: Tree, g: Graph, n: int) {
    t.Node? && t.left.Node? && Sized(g, n) && Has(g, t.id) && Has(g, t.left.id) &&
    (t.left.right.Node? ==> Has(g, t.left.right.id)) && (!c.Root? ==> Has(g, c.pid))
  }

  /** leftRotate keeps the arena well formed; y becomes the root when x was. */
  lemma RotLLayout(c: Ctx, t: Tree, g: Graph, n: int, root: int, size: int)
    requires t.Node? && t.right.Node? && CtxBelow(c, n) && Below(t, n)
    requires Sized(g, n) && Layout(Plug(c, t), g, n, root, size)
    requires Has(g, t.id) && Has(g, t.right.id) && (t.right.left.Node? ==> Has(g, t.right.left.id))
    requires !c.Root? ==> Has(g, c.pid)
    ensures var g' := RotLLinks(g, c, t);
      Sized(g', n) && Layout(Plug(c, RotL(t)), g', n, if c.Root? then t.right.id else root, size)
  {
    RotLLinked(g, c, t);
    assert Below(t.right, n);
    RotLKeeps(t, n);
    BelowPlug(c, t, n);
    BelowPlug(c, RotL(t), n);
    DistinctPlug(c, t);
    DistinctReplace(c, t, RotL(t), {});
    CountPlug(c, t);
    CountPlug(c, RotL(t));
    TopOfPlug(c, t);
    if !c.Root? { TopPlugSame(c, t, RotL(t)); }
  }

  /** What leftRotate(x) reads before it writes, for the node x = t.id at
      position c: its right child y, y's left child b, whether x is the root,
      and on which side of its parent x hangs; and that the updates it makes
      leave the arena well formed, y becoming the root when x was. */
  lemma RotLSetup(c: Ctx, t: Tree, g: Graph, n: int, root: int, size: int)
    requires t.Node? && t.right.Node? && CtxBelow(c, n) && Below(t, n)
    requires Sized(g, n) && Layout(Plug(c, t), g, n, root, size)
    ensures var x, y, b := t.id, t.right.id, Top(t.right.left);
      Has(g, x) && Has(g, y) && g.right[x] == y && g.left[y] == b && IsRef(b, n) &&
      x != y && b != x && (c.Root? <==> root == x) &&
      (!c.Root? ==> Has(g, c.pid) && g.parent[x] == c.pid && (g.left[c.pid] == x <==> c.InLeft?))
    ensures !c.Root? ==> Has(g, c.pid)
    ensures Has(g, t.id) && Has(g, t.right.id) && (t.right.left.Node? ==> Has(g, t.right.left.id))
    ensures g.left[t.id] == Top(t.left) && (!c.Root? ==> c.pid != t.id)
    ensures Below(RotL(t).left, n)
  {
    RotLLinked(g, c, t);
    LinkedPlug(c, t, g);
    DistinctPlug(c, t);
    TopOfPlug(c, t);
    assert Linked(t.right, g, t.id) && Distinct(t.right);
    assert Below(t.right, n);
    if !c.Root? {
      assert c.pid in CtxIds(c);
      assert Ids(c.sib) <= CtxIds(c);
    }
    RotLLinksAt(g, c, t);
  }

  /** rightRotate keeps the arena well formed; x becomes the root when y was. */
  lemma RotRLayout(c: Ctx, t: Tree, g: Graph, n: int, root: int, size: int)
    requires t.Node? && t.left.Node? && CtxBelow(c, n) && Below(t, n)
    requires Sized(g, n) && Layout(Plug(c, t), g, n, root, size)
    requires Has(g, t.id) && Has(g, t.left.id) && (t.left.right.Node? ==> Has(g, t.left.right.id))
    requires !c.Root? ==> Has(g, c.pid)
    ensures var g' := RotRLinks(g, c, t);
      Sized(g', n) && Layout(Plug(c, RotR(t)), g', n, if c.Root? then t.left.id else root, size)
  {
    RotRLinked(g, c, t);
    assert Below(t.left, n);
    RotRKeeps(t, n);
    BelowPlug(c, t, n);
    BelowPlug(c, RotR(t), n);
    DistinctPlug(c, t);
    DistinctReplace(c, t, RotR(t), {});
    CountPlug(c, t);
    CountPlug(c, RotR(t));
    TopOfPlug(c, t);
    if !c.Root? { TopPlugSame(c, t, RotR(t)); }
  }

  /** What rightRotate(y) reads before it writes, for the node y = t.id at
      position c: its left child x, x's right child b, whether y is the root,
      and on which side of its parent y hangs; and that the updates it makes
      leave the arena well formed, x becoming the root when y was. */
  lemma RotRSetup(c: Ctx, t: Tree, g: Graph, n: int, root: int, size: int)
    requires t.Node? && t.left.Node? && CtxBelow(c, n) && Below(t, n)
    requires Sized(g, n) && Layout(Plug(c, t), g, n, root, size)
    ensures var y, x, b := t.id, t.left.id, Top(t.left.right);
      Has(g, x) && Has(g, y) && g.left[y] == x && g.right[x] == b && IsRef(b, n) &&
      x != y && b != y && (c.Root? <==> root == y) &&
      (!c.Root? ==> Has(g, c.pid) && g.parent[y] == c.pid && (g.right[c.pid] == y <==> c.InRight?))
    ensures !c.Root? ==> Has(g, c.pid)
    ensures Has(g, t.id) && Has(g, t.left.id) && (t.left.right.Node? ==> Has(g, t.left.right.id))
    ensures g.right[t.id] == Top(t.right) && (!c.Root? ==> c.pid != t.id)
    ensures Below(RotR(t).right, n)
  {
    RotRLinked(g, c, t);
    LinkedPlug(c, t, g);
    DistinctPlug(c, t);
    TopOfPlug(c, t);
    assert Linked(t.left, g, t.id) && Distinct(t.left);
    assert Below(t.left, n);
    if !c.Root? {
      assert c.pid in CtxIds(c);
      assert Ids(c.sib) <= CtxIds(c);
    }
    RotRLinksAt(g, c, t);
  }

  /** A new node n that nothing references yet leaves the tree as it was. */
  lemma GrowLayout(t: Tree, g: Graph, n: int, root: int, size: int)
    requires n >= 0 && Sized(g, n) && Layout(t, g, n, root, size)
    ensures var g' := Graph(g.left + [NIL], g.right + [NIL], g.parent + [NIL]);
      Sized(g', n + 1) && Layout(t, g', n + 1, root, size)
  {
    var g' := Graph(g.left + [NIL], g.right + [NIL], g.parent + [NIL]);
    BelowMono(t, n, n + 1);
    BelowIds(t, n);
    LinkedFrame(t, g, g', NIL);
  }

  /** Hanging the new node n into the empty slot c keeps the arena well formed
      and adds one node. */
  lemma AttachLayout(c: Ctx, g: Graph, n: int, root: int, size: int)
    requires !c.Root? && n == |g.left| && Sized(g, n) && Layout(Plug(c, Nil), g, n, root, size)
    ensures Has(g, c.pid)
    ensures var g' := AttachLinks(g, c.pid, c.InLeft?);
      Sized(g', n + 1) && Layout(Plug(c, Leaf(n)), g', n + 1, root, size + 1)
  {
    AttachLinked(g, c);
    FillSlotIds(c, Plug(c, Nil), n);
    BelowMono(Plug(c, Nil), n, n + 1);
    BelowPlug(c, Nil, n + 1);
    BelowPlug(c, Leaf(n), n + 1);
    TopPlugSame(c, Nil, Leaf(n));
  }

  class AVL {
    var word: seq<string>
    var parent: seq<int>
    var left: seq<int>
    var right: seq<int>
    var height: seq<int>
    var root: int
    var size: int
    ghost var shape: Tree

    /** The child and parent references as one value. */
    function Refs(): Graph
      reads this
    {
      Graph(left, right, parent)
    }

    /** p is `null` or an allocated node. */
    predicate Ref(p: int)
      reads this
    {
      IsRef(p, |word|)
    }

    /** All node fields have one entry per node. */
    ghost predicate Arena()
      reads this
    {
      |height| == |word| && Sized(Refs(), |word|)
    }

    /** p is null, or a node whose children are null or nodes: what getHeight
        dereferences. */
    predicate Linkable(p: int)
      reads this
      requires Arena()
    {
      Ref(p) && (p != NIL ==> Ref(left[p]) && Ref(right[p]))
    }

    /** The references form the tree `shape`, `root` is its top node and `size`
        its number of nodes. */
    ghost predicate Valid()
      reads this
    {
      Arena() && Layout(shape, Refs(), |word|, root, size)
    }

    /** t is the subtree at position c of the shape. */
    ghost predicate At(c: Ctx, t: Tree)
      reads this
    {
      Plug(c, t) == shape && CtxBelow(c, |word|) && Below(t, |word|)
    }

    /** `new AVL()`: the empty tree. */
    constructor ()
      ensures Valid() && shape == Nil && word == [] && height == [] && size == 0
    {
      word, parent, left, right, height := [], [], [], [], [];
      root, size := NIL, 0;
      shape := Nil;
    }

    /** getSize(): the number of nodes of the tree. */
    function GetSize(): (r: int)
      reads this
      ensures Valid() ==> r == Count(shape)
    {
      size
    }

    /** getHeight(n): -1 for null, otherwise one more than the larger cached
        height of n's children (0 for a leaf). */
    function GetHeight(n: int): int
      reads this
      requires Arena() && Linkable(n)
    {
      if n == NIL then -1
      else if left[n] == NIL && right[n] == NIL then 0
      else if left[n] != NIL && right[n] == NIL then 1 + height[left[n]]
      else if right[n] != NIL && left[n] == NIL then 1 + height[right[n]]
      else 1 + Max(height[left[n]], height[right[n]])
    }

    /** balance(n): getHeight of the right child minus getHeight of the left. */
    function Balance(n: int): int
      reads this
      requires Arena() && 0 <= n < |word| && Linkable(left[n]) && Linkable(right[n])
    {
      GetHeight(right[n]) - GetHeight(left[n])
    }

    /** The references of the node at a position: its children are the tops of
        its subtrees, and its parent is the position's parent. */
    lemma NodeRefs(c: Ctx, t: Tree)
      requires Valid() && At(c, t) && t.Node?
      ensures t.id < |word| && CtxParent(c) == parent[t.id]
      ensures left[t.id] == Top(t.left) && right[t.id] == Top(t.right)
      ensures At(InLeft(t.id, c, t.right), t.left) && At(InRight(t.id, t.left, c), t.right)
    {
      LinkedPlug(c, t, Refs());
    }

    /** getHeight on the node at a position is getHeight on its subtree. */
    lemma GetHeightIs(c: Ctx, t: Tree)
      requires Valid() && At(c, t)
      ensures Linkable(Top(t)) && GetHeight(Top(t)) == CachedHeight(t, height)
    {
      if t.Node? {
        NodeRefs(c, t);
      }
    }

    /** getHeight on a node whose child references are the tops of t's subtrees. */
    lemma GetHeightOf(t: Tree)
      requires Arena() && t.Node? && Below(t, |word|)
      requires left[t.id] == Top(t.left) && right[t.id] == Top(t.right)
      ensures Linkable(t.id) && GetHeight(t.id) == CachedHeight(t, height)
    {
    }

    /** balance on the node at a position is the balance of its subtree. */
    lemma BalanceIs(c: Ctx, t: Tree)
      requires Valid() && At(c, t) && t.Node?
      ensures t.id < |word| && Linkable(left[t.id]) && Linkable(right[t.id])
      ensures Balance(t.id) == Bal(t, height)
    {
      NodeRefs(c, t);
      GetHeightIs(InLeft(t.id, c, t.right), t.left);
      GetHeightIs(InRight(t.id, t.left, c), t.right);
    }

    /** Whether a non-root position is its parent's left or right child can be
        read off the parent's references, as leftRotate and rightRotate do. */
    lemma ParentSide(c: Ctx, t: Tree)
      requires Valid() && At(c, t) && t.Node? && !c.Root?
      ensures c.pid < |word| && parent[t.id] == c.pid
      ensures left[c.pid] == t.id <==> c.InLeft?
      ensures right[c.pid] == t.id <==> c.InRight?
    {
      LinkedPlug(c, t, Refs());
      DistinctPlug(c, t);
      assert c.pid in CtxIds(c);
      assert Ids(c.sib) <= CtxIds(c);
    }

    // -------------------------------------------------------------------------
    // search

    /** search(w): the node holding w, or null.  The node found always holds w;
        in an ordered tree null is returned only when w is not a key. */
    function Search(w: string): (r: int)
      reads this
      requires Valid()
      ensures r == NIL || (r in Ids(shape) && 0 <= r < |word| && word[r] == w)
      ensures Ordered(shape, word) ==> (r != NIL <==> w in Keys(shape, word))
    {
      SearchFrom(Root, shape, root, w)
    }

    /** The private search(n, w) on the node n at position c. */
    function SearchFrom(ghost c: Ctx, ghost t: Tree, n: int, w: string): (r: int)
      reads this
      requires Valid() && At(c, t) && n == Top(t)
      ensures r == NIL || (r in Ids(t) && 0 <= r < |word| && word[r] == w)
      ensures Ordered(shape, word) ==> (r != NIL <==> w in Keys(t, word))
      decreases t
    {
      if n == NIL then NIL
      else
        NodeRefs(c, t);
        SearchStep(c, t, w);
        if w == word[n] then n
        else if CompareTo(w, word[n]) < 0 then SearchFrom(InLeft(n, c, t.right), t.left, left[n], w)
        else SearchFrom(InRight(n, t.left, c), t.right, right[n], w)
    }

    /** In an ordered tree, a word that compares below the node's word can only
        be in its left subtree, and another word different from it only in its
        right subtree. */
    lemma SearchStep(c: Ctx, t: Tree, w: string)
      requires Valid() && At(c, t) && t.Node?
      ensures Ordered(shape, word) ==>
        (Less(w, word[t.id]) ==> (w in Keys(t, word) <==> w in Keys(t.left, word))) &&
        (w != word[t.id] && !Less(w, word[t.id]) ==> (w in Keys(t, word) <==> w in Keys(t.right, word)))
    {
      if Ordered(shape, word) {
        OrderedPlug(c, t, word);
        var k := word[t.id];
        LessIrreflexive(w);
        LessTotal(w, k);
        if Less(w, k) && w in Keys(t.right, word) {
          LessTrans(w, k, w);
        }
      }
    }

    // -------------------------------------------------------------------------
    // leftRotate and rightRotate

    /** leftRotate(x) on the node x at position c: the shape, the references and
        the root follow RotL, and the height fields follow RotLHeights. */
    method LeftRotate(x: int, ghost c: Ctx, ghost t: Tree)
      requires Valid() && At(c, t) && t.Node? && t.id == x && t.right.Node?
      modifies this
      ensures Valid() && shape == Plug(c, RotL(t))
      ensures height == RotLHeights(t, old(height))
      ensures word == old(word) && size == old(size)
    {
      var y := RelinkLeft(x, c, t);
      shape := Plug(c, RotL(t));
      var hs := height[x := height[x] + 1];
      hs := hs[y := hs[y] - 1];
      assert RotLHeights(t, old(height)) == hs[x := CachedHeight(RotL(t).left, hs)];
      height := hs;
      GetHeightOf(RotL(t).left);
      height := height[x := GetHeight(x)];
    }

    /** The reference updates of leftRotate(x), up to `x.parent = y`: they are
        RotLLinks, and y becomes the root when x was. */
    method RelinkLeft(x: int, ghost c: Ctx, ghost t: Tree) returns (y: int)
      requires Valid() && At(c, t) && t.Node? && t.id == x && t.right.Node?
      modifies this
      ensures y == t.right.id && y != x && RotLReads(c, t, old(Refs()), |word|)
      ensures Refs() == RotLLinks(old(Refs()), c, t)
      ensures root == if c.Root? then y else old(root)
      ensures Sized(Refs(), |word|) && Layout(Plug(c, RotL(t)), Refs(), |word|, root, size)
      ensures left[x] == Top(t.left) && right[x] == Top(t.right.left) && Below(RotL(t).left, |word|)
      ensures word == old(word) && height == old(height) && size == old(size) && shape == old(shape)
    {
      ghost var g, n := Refs(), |word|;
      RotLSetup(c, t, g, n, root, size);
      var lf, rt, pa := left, right, parent;
      y := rt[x];
      rt := rt[x := lf[y]];
      if lf[y] != NIL {
        pa := pa[lf[y] := x];
      }
      pa := pa[y := pa[x]];
      if x == root {
        root := y;
      } else if x == lf[pa[x]] {
        lf := lf[pa[x] := y];
      } else {
        rt := rt[pa[x] := y];
      }
      lf := lf[y := x];
      pa := pa[x := y];
      left, right, parent := lf, rt, pa;
      RotLLayout(c, t, g, n, old(root), size);
    }

    /** rightRotate(y) on the node y at position c: the shape, the references
        and the root follow RotR, and the height fields follow RotRHeights. */
    method RightRotate(y: int, ghost c: Ctx, ghost t: Tree)
      requires Valid() && At(c, t) && t.Node? && t.id == y && t.left.Node?
      modifies this
      ensures Valid() && shape == Plug(c, RotR(t))
      ensures height == RotRHeights(t, old(height))
      ensures word == old(word) && size == old(size)
    {
      var x := RelinkRight(y, c, t);
      shape := Plug(c, RotR(t));
      var hs := height[y := height[y] + 1];
      hs := hs[x := hs[x] - 1];
      assert RotRHeights(t, old(height)) == hs[y := CachedHeight(RotR(t).right, hs)];
      height := hs;
      GetHeightOf(RotR(t).right);
      height := height[y := GetHeight(y)];
    }

    /** The reference updates of rightRotate(y), up to `y.parent = x`. */
    method RelinkRight(y: int, ghost c: Ctx, ghost t: Tree) returns (x: int)
      requires Valid() && At(c, t) && t.Node? && t.id == y && t.left.Node?
      modifies this
      ensures x == t.left.id && x != y && RotRReads(c, t, old(Refs()), |word|)
      ensures Refs() == RotRLinks(old(Refs()), c, t)
      ensures root == if c.Root? then x else old(root)
      ensures Sized(Refs(), |word|) && Layout(Plug(c, RotR(t)), Refs(), |word|, root, size)
      ensures left[y] == Top(t.left.right) && right[y] == Top(t.right) && Below(RotR(t).right, |word|)
      ensures word == old(word) && height == old(height) && size == old(size) && shape == old(shape)
    {
      ghost var g, n := Refs(), |word|;
      RotRSetup(c, t, g, n, root, size);
      var lf, rt, pa := left, right, parent;
      x := lf[y];
      lf := lf[y := rt[x]];
      if rt[x] != NIL {
        pa := pa[rt[x] := y];
      }
      pa := pa[x := pa[y]];
      if y == root {
        root := x;
      } else if y == rt[pa[y]] {
        rt := rt[pa[y] := x];
      } else {
        lf := lf[pa[y] := x];
      }
      rt := rt[x := y];
      pa := pa[y := x];
      left, right, parent := lf, rt, pa;
      RotRLayout(c, t, g, n, old(root), size);
    }

    // -------------------------------------------------------------------------
    // new Node(w) and attaching it

    /** `root = new Node(w)` on the empty tree: the new node, with null
        references and height 0, is the whole tree. */
    method Plant(w: string)
      requires Valid() && shape.Nil?
      modifies this
      ensures Valid() && shape == Leaf(|old(word)|) && word == old(word) + [w]
      ensures height == old(height) + [0] && root == |old(word)| && size == 1
    {
      var k := |word|;
      word, height := word + [w], height + [0];
      left, right, parent := left + [NIL], right + [NIL], parent + [NIL];
      root, size := k, 1;
      shape := Leaf(k);
    }

    /** `new Node(w)` hung below n on the chosen side (n.left = insert or
        n.right = insert, then insert.parent = n), counted in size: the new
        node takes the next free handle, with null references and height 0. */
    method Link(n: int, w: string, goLeft: bool, ghost c: Ctx, ghost t: Tree) returns (k: int)
      requires Valid() && At(c, t) && t.Node? && t.id == n && Child(t, goLeft).Nil?
      modifies this
      ensures k == |old(word)| && word == old(word) + [w] && height == old(height) + [0]
      ensures Valid() && shape == Plug(c, Join(t, goLeft, Leaf(k))) && size == old(size) + 1
      ensures Refs() == AttachLinks(old(Refs()), n, goLeft) && root == old(root)
      ensures left[n] == Top(Join(t, goLeft, Leaf(k)).left) && right[n] == Top(Join(t, goLeft, Leaf(k)).right)
    {
      ghost var c' := if goLeft then InLeft(n, c, t.right) else InRight(n, t.left, c);
      ghost var g := Refs();
      NodeRefs(c, t);
      assert Plug(c', Nil) == shape;
      AttachLayout(c', g, |word|, root, size);
      k := |word|;
      word, height := word + [w], height + [0];
      var lf, rt, pa := left + [NIL], right + [NIL], parent + [NIL];
      if goLeft {
        lf := lf[n := k];
      } else {
        rt := rt[n := k];
      }
      pa := pa[k := n];
      left, right, parent := lf, rt, pa;
      size := size + 1;
      shape := Plug(c', Leaf(k));
    }

    // -------------------------------------------------------------------------
    // rebalance

    /** rebalance(n) on the node n at position c: the rotations it picks, the
        new shape and the new height fields are those of Rebalanced.  ok is
        false exactly when the code dereferences a null child, which happens
        before anything is written. */
    method Rebalance(n: int, ghost c: Ctx, ghost t: Tree) returns (ok: bool)
      requires Valid() && At(c, t) && t.Node? && t.id == n
      modifies this
      ensures var r := Rebalanced(t, old(height));
        ok == r.ok && Valid() && shape == Plug(c, r.tree) && height == r.hs
      ensures word == old(word) && size == old(size)
    {
      BalanceIs(c, t);
      ghost var cn, tn := c, t;
      if Balance(n) < -1 {
        ok, cn, tn := FixLeftHeavy(n, c, t);
        if !ok {
          return;
        }
      } else if Balance(n) > 1 {
        ok, cn, tn := FixRightHeavy(n, c, t);
        if !ok {
          return;
        }
      }
      GetHeightIs(cn, tn);
      height := height[n := GetHeight(n)];
      ok := true;
    }

    /** The `balance(n) < -1` branch of rebalance: rightRotate(n) when the left
        child leans left, else leftRotate(n.left) then rightRotate(n).  On
        success n ends up as the subtree tn at position cn. */
    method FixLeftHeavy(n: int, ghost c: Ctx, ghost t: Tree) returns (ok: bool, ghost cn: Ctx, ghost tn: Tree)
      requires Valid() && At(c, t) && t.Node? && t.id == n && Bal(t, height) < -1
      modifies this
      ensures var r := Rebalanced(t, old(height));
        ok == r.ok && Valid() && word == old(word) && size == old(size) &&
        (!ok ==> shape == old(shape) && height == old(height)) &&
        (ok ==> At(cn, tn) && tn.Node? && tn.id == n && shape == Plug(c, r.tree) &&
                r.hs == height[n := CachedHeight(tn, height)])
    {
      NodeRefs(c, t);
      cn, tn := c, t;
      if left[n] == NIL {
        return false, cn, tn;
      }
      BalanceIs(InLeft(n, c, t.right), t.left);
      if Balance(left[n]) < 0 {
        RightRotate(n, c, t);
        cn, tn := InRight(t.left.id, t.left.left, c), RotR(t).right;
      } else {
        NodeRefs(InLeft(n, c, t.right), t.left);
        if right[left[n]] == NIL {
          return false, cn, tn;
        }
        LeftRotate(left[n], InLeft(n, c, t.right), t.left);
        ghost var t0 := Node(n, RotL(t.left), t.right);
        RotLKeeps(t.left, |word|);
        RightRotate(n, c, t0);
        cn, tn := InRight(t0.left.id, t0.left.left, c), RotR(t0).right;
      }
      ok := true;
      BelowPlug(cn, tn, |word|);
    }

    /** The `balance(n) > 1` branch of rebalance: rightRotate(n.right) then
        leftRotate(n) when the right child leans left, else leftRotate(n). */
    method FixRightHeavy(n: int, ghost c: Ctx, ghost t: Tree) returns (ok: bool, ghost cn: Ctx, ghost tn: Tree)
      requires Valid() && At(c, t) && t.Node? && t.id == n && Bal(t, height) > 1
      modifies this
      ensures var r := Rebalanced(t, old(height));
        ok == r.ok && Valid() && word == old(word) && size == old(size) &&
        (!ok ==> shape == old(shape) && height == old(height)) &&
        (ok ==> At(cn, tn) && tn.Node? && tn.id == n && shape == Plug(c, r.tree) &&
                r.hs == height[n := CachedHeight(tn, height)])
    {
      NodeRefs(c, t);
      cn, tn := c, t;
      if right[n] == NIL {
        return false, cn, tn;
      }
      BalanceIs(InRight(n, t.left, c), t.right);
      if Balance(right[n]) < 0 {
        NodeRefs(InRight(n, t.left, c), t.right);
        if left[right[n]] == NIL {
          return false, cn, tn;
        }
        RightRotate(right[n], InRight(n, t.left, c), t.right);
        ghost var t0 := Node(n, t.left, RotR(t.right));
        RotRKeeps(t.right, |word|);
        LeftRotate(n, c, t0);
        cn, tn := InLeft(t0.right.id, c, t0.right.right), RotL(t0).left;
      } else {
        LeftRotate(n, c, t);
        cn, tn := InLeft(t.right.id, c, t.right.right), RotL(t).left;
      }
      ok := true;
      BelowPlug(cn, tn, |word|);
    }

    // -------------------------------------------------------------------------
    // avlInsert

    /** avlInsert(w): a first word becomes the root; otherwise the private
        avlInsert runs from the root.  The outcome is AvlModel.AvlInsert. */
    method AvlInsert(w: string) returns (ok: bool)
      requires Valid()
      modifies this
      ensures var r := AvlModel.AvlInsert(old(shape), old(height), old(word), w);
        ok == r.ok && Valid() && shape == r.tree && height == r.hs && word == r.ws &&
        size == old(size) + (if r.added then 1 else 0)
      ensures Ordered(old(shape), old(word)) ==>
        Ordered(shape, word) && Keys(shape, word) == Keys(old(shape), old(word)) + {w} &&
        size == |Keys(shape, word)| && (w in Keys(old(shape), old(word)) ==> size == old(size))
    {
      ghost var t, hs, ws := shape, height, word;
      if Ordered(t, ws) {
        AvlInsertFacts(t, hs, ws, w);
      }
      if root == NIL {
        Plant(w);
        return true;
      }
      ok := AvlInsertAt(root, w, Root, shape);
    }

    /** The private avlInsert(n, w) on the node n at position c: the outcome is
        AvlModel.Insert on its subtree.  The source's two mirrored branches are
        one here, on the side goLeft the comparison picks. */
    method AvlInsertAt(n: int, w: string, ghost c: Ctx, ghost t: Tree) returns (ok: bool)
      requires Valid() && At(c, t) && t.Node? && t.id == n
      modifies this
      ensures var r := Insert(t, old(height), old(word), w);
        ok == r.ok && Valid() && shape == Plug(c, r.tree) && height == r.hs && word == r.ws &&
        size == old(size) + (if r.added then 1 else 0)
      decreases t
    {
      NodeRefs(c, t);
      var d := CompareTo(word[n], w);
      if d == 0 {
        return true;
      }
      var goLeft := d > 0;
      var child := if goLeft then left[n] else right[n];
      ghost var c' := if goLeft then InLeft(n, c, t.right) else InRight(n, t.left, c);
      ghost var t1;
      if child != NIL {
        ok := AvlInsertAt(child, w, c', Child(t, goLeft));
        ghost var sub := Insert(Child(t, goLeft), old(height), old(word), w);
        t1 := Join(t, goLeft, sub.tree);
        if !ok {
          return;
        }
      } else {
        t1 := AvlAttach(n, w, goLeft, c, t);
      }
      BelowPlug(c, t1, |word|);
      ok := Rebalance(n, c, t1);
    }

    /** The attach step of the private avlInsert: the new node is hung below n
        (n.left = insert or n.right = insert, insert.parent = n, size += 1),
        its height is set to 0 and n's height to getHeight(n). */
    method AvlAttach(n: int, w: string, goLeft: bool, ghost c: Ctx, ghost t: Tree) returns (ghost t1: Tree)
      requires Valid() && At(c, t) && t.Node? && t.id == n && Child(t, goLeft).Nil?
      modifies this
      ensures t1 == Join(t, goLeft, Node(|old(word)|, Nil, Nil)) && word == old(word) + [w]
      ensures Valid() && At(c, t1) && shape == Plug(c, t1) && size == old(size) + 1
      ensures var hs1 := old(height) + [0]; height == hs1[n := CachedHeight(t1, hs1)]
    {
      ghost var hs := height;
      var k := Link(n, w, goLeft, c, t);
      t1 := Join(t, goLeft, Leaf(k));
      height := height[k := 0];
      assert height == hs + [0];
      BelowPlug(c, t1, |word|);
      GetHeightOf(t1);
      height := height[n := GetHeight(n)];
    }

    // -------------------------------------------------------------------------
    // bstInsert

    /** bstInsert(w): a first word becomes the root; otherwise the private
        bstInsert runs from the root.  The outcome is BstModel.BstInsert. */
    method BstInsert(w: string)
      requires Valid()
      modifies this
      ensures old(shape).Nil? ==>
        Valid() && shape == Leaf(|old(word)|) && height == old(height) + [0] &&
        word == old(word) + [w] && size == 1
      ensures old(shape).Node? ==>
        var r := BstModel.BstInsert(Root, old(shape), old(height), old(word), w);
        Valid() && shape == r.tree && height == r.hs && word == r.ws &&
        size == old(size) + (if r.added then 1 else 0)
      ensures Ordered(old(shape), old(word)) ==>
        Ordered(shape, word) && Keys(shape, word) == Keys(old(shape), old(word)) + {w} &&
        size == |Keys(shape, word)|
      ensures Ordered(old(shape), old(word)) && w in Keys(old(shape), old(word)) ==>
        shape == old(shape) && height == old(height) && word == old(word) && size == old(size) &&
        Refs() == old(Refs()) && root == old(root)
    {
      if root == NIL {
        Plant(w);
        assert Keys(shape, word) == {w};
        OrderedKeyCount(shape, word);
        return;
      }
      ghost var t, hs, ws := shape, height, word;
      BstInsertAt(root, w, Root, t);
      if Ordered(t, ws) {
        GrownFacts(t, hs, ws, w);
        OrderedKeyCount(shape, word);
      }
    }

    /** The private bstInsert(n, w) on the node n at position c: the outcome is
        BstModel.BstInsert, and when w is already present nothing at all
        changes.  The source's two mirrored branches are one here, on the side
        goLeft the comparison picks. */
    method BstInsertAt(n: int, w: string, ghost c: Ctx, ghost t: Tree)
      requires Valid() && At(c, t) && t.Node? && t.id == n
      modifies this
      ensures var r := BstModel.BstInsert(c, t, old(height), old(word), w);
        Valid() && shape == r.tree && height == r.hs && word == r.ws &&
        size == old(size) + (if r.added then 1 else 0) &&
        (!r.added ==> Refs() == old(Refs()) && root == old(root))
      decreases t
    {
      NodeRefs(c, t);
      var d := CompareTo(word[n], w);
      if d == 0 {
        return;
      }
      var goLeft := d > 0;
      var child := if goLeft then left[n] else right[n];
      ghost var c' := if goLeft then InLeft(n, c, t.right) else InRight(n, t.left, c);
      if child != NIL {
        BstInsertAt(child, w, c', Child(t, goLeft));
      } else {
        BstAttach(n, w, goLeft, c, t);
      }
    }

    /** The attach step of the private bstInsert: size += 1, the new node is
        hung below n, and the walk up from it adjusts the heights. */
    method BstAttach(n: int, w: string, goLeft: bool, ghost c: Ctx, ghost t: Tree)
      requires Valid() && At(c, t) && t.Node? && t.id == n && Child(t, goLeft).Nil?
      modifies this
      ensures var c', k := (if goLeft then InLeft(n, c, t.right) else InRight(n, t.left, c)), |old(word)|;
        Valid() && CtxBelow(c', |word|) && shape == Plug(c', Leaf(k)) && word == old(word) + [w] &&
        size == old(size) + 1 && height == Raise(old(height) + [0], k, c', 0)
    {
      ghost var c' := if goLeft then InLeft(n, c, t.right) else InRight(n, t.left, c);
      var k := Link(n, w, goLeft, c, t);
      assert Plug(c', Leaf(k)) == shape;
      BelowPlug(c', Leaf(k), |word|);
      FixHeights(k, c');
    }

    /** The walk after bstInsert attaches the leaf k at position c:
        `nd = insert; h = 0; while (nd.parent != null) { if (h > nd.height)
        nd.height = h; nd = nd.parent; h++; }`.  Only heights change, as Raise
        says. */
    method FixHeights(k: nat, ghost c: Ctx)
      requires Valid() && At(c, Leaf(k))
      modifies this
      ensures Valid() && height == Raise(old(height), k, c, 0)
      ensures word == old(word) && shape == old(shape) && size == old(size)
      ensures Refs() == old(Refs()) && root == old(root)
    {
      var nd, h := k, 0;
      ghost var cx, tx := c, Leaf(k);
      while parent[nd] != NIL
        invariant Valid() && At(cx, tx) && tx.Node? && tx.id == nd
        invariant Raise(height, nd, cx, h) == Raise(old(height), k, c, 0)
        invariant word == old(word) && shape == old(shape) && size == old(size)
        invariant Refs() == old(Refs()) && root == old(root)
        decreases Depth(cx)
      {
        NodeRefs(cx, tx);
        if h > height[nd] {
          height := height[nd := h];
        }
        LiftPlug(cx, tx, |word|);
        nd, h := parent[nd], h + 1;
        cx, tx := cx.up, Lift(cx, tx);
      }
      NodeRefs(cx, tx);
    }
  }
}