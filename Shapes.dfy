/** The abstract shape of the tree, and how it is laid out in the node arena.

    A node is a handle (an index into the arena); NIL plays the part of Java's
    `null`.  A `Tree` records which handle sits where; a `Ctx` is the path from
    the root down to one position (a zipper), so that `Plug(c, t)` is the whole
    tree with `t` at that position. */
module Shapes {
  import opened JavaStrings

  const NIL: int := -1

  datatype Tree = Nil | Node(id: nat, left: Tree, right: Tree)

  /** `InLeft(p, up, sib)`: the position is the left child of p, whose right subtree is sib. */
  datatype Ctx = Root | InLeft(pid: nat, up: Ctx, sib: Tree) | InRight(pid: nat, sib: Tree, up: Ctx)

  function Top(t: Tree): int {
    if t.Nil? then NIL else t.id
  }

  function Ids(t: Tree): set<nat> {
    match t
    case Nil => {}
    case Node(i, l, r) => {i} + Ids(l) + Ids(r)
  }

  /** Number of nodes. */
  function Count(t: Tree): nat {
    match t
    case Nil => 0
    case Node(_, l, r) => Count(l) + 1 + Count(r)
  }

  /** Every handle is below n (is allocated in an arena of n nodes). */
  predicate Below(t: Tree, n: int) {
    match t
    case Nil => true
    case Node(i, l, r) => i < n && Below(l, n) && Below(r, n)
  }

  /** No handle occurs twice: each node has exactly one owner. */
  predicate Distinct(t: Tree) {
    match t
    case Nil => true
    case Node(i, l, r) =>
      Distinct(l) && Distinct(r) && i !in Ids(l) && i !in Ids(r) && Ids(l) !! Ids(r)
  }

  function Plug(c: Ctx, t: Tree): Tree
    decreases c
  {
    match c
    case Root => t
    case InLeft(p, up, s) => Plug(up, Node(p, t, s))
    case InRight(p, s, up) => Plug(up, Node(p, s, t))
  }

  function CtxIds(c: Ctx): set<nat> {
    match c
    case Root => {}
    case InLeft(p, up, s) => {p} + Ids(s) + CtxIds(up)
    case InRight(p, s, up) => {p} + Ids(s) + CtxIds(up)
  }

  function CtxCount(c: Ctx): nat {
    match c
    case Root => 0
    case InLeft(_, up, s) => 1 + Count(s) + CtxCount(up)
    case InRight(_, s, up) => 1 + Count(s) + CtxCount(up)
  }

  predicate CtxBelow(c: Ctx, n: int) {
    match c
    case Root => true
    case InLeft(p, up, s) => p < n && Below(s, n) && CtxBelow(up, n)
    case InRight(p, s, up) => p < n && Below(s, n) && CtxBelow(up, n)
  }

  /** The handle of the parent of the position (NIL at the root). */
  function CtxParent(c: Ctx): int {
    if c.Root? then NIL else c.pid
  }

  /** Number of edges from the position up to the root. */
  function Depth(c: Ctx): nat {
    if c.Root? then 0 else 1 + Depth(c.up)
  }

  lemma {:induction false} IdsPlug(c: Ctx, t: Tree)
    ensures Ids(Plug(c, t)) == CtxIds(c) + Ids(t)
    decreases c
  {
    match c
    case Root =>
    case InLeft(p, up, s) => IdsPlug(up, Node(p, t, s));
    case InRight(p, s, up) => IdsPlug(up, Node(p, s, t));
  }

  lemma {:induction false} CountPlug(c: Ctx, t: Tree)
    ensures Count(Plug(c, t)) == CtxCount(c) + Count(t)
    decreases c
  {
    match c
    case Root =>
    case InLeft(p, up, s) => CountPlug(up, Node(p, t, s));
    case InRight(p, s, up) => CountPlug(up, Node(p, s, t));
  }

  lemma {:induction false} BelowPlug(c: Ctx, t: Tree, n: int)
    ensures Below(Plug(c, t), n) <==> CtxBelow(c, n) && Below(t, n)
    decreases c
  {
    match c
    case Root =>
    case InLeft(p, up, s) => BelowPlug(up, Node(p, t, s), n);
    case InRight(p, s, up) => BelowPlug(up, Node(p, s, t), n);
  }

  lemma {:induction false} BelowIds(t: Tree, n: int)
    ensures Below(t, n) <==> forall i :: i in Ids(t) ==> i < n
  {
    match t
    case Nil =>
    case Node(i, l, r) =>
      BelowIds(l, n);
      BelowIds(r, n);
      assert Ids(t) == {i} + Ids(l) + Ids(r);
  }

  lemma {:induction false} BelowMono(t: Tree, n: int, m: int)
    requires Below(t, n) && n <= m
    ensures Below(t, m)
  {
    match t
    case Nil =>
    case Node(_, l, r) => BelowMono(l, n, m); BelowMono(r, n, m);
  }

  lemma {:induction false} DistinctPlug(c: Ctx, t: Tree)
    requires Distinct(Plug(c, t))
    ensures Distinct(t) && CtxIds(c) !! Ids(t)
    decreases c
  {
    match c
    case Root =>
    case InLeft(p, up, s) => DistinctPlug(up, Node(p, t, s));
    case InRight(p, s, up) => DistinctPlug(up, Node(p, s, t));
  }

  /** Putting a distinct subtree whose handles are old ones or new ones (x) in the
      place of t keeps the whole tree distinct. */
  lemma {:induction false} DistinctReplace(c: Ctx, t: Tree, t': Tree, x: set<nat>)
    requires Distinct(Plug(c, t)) && Distinct(t')
    requires Ids(t') <= Ids(t) + x && x !! Ids(Plug(c, t))
    ensures Distinct(Plug(c, t'))
    decreases c
  {
    IdsPlug(c, t);
    match c
    case Root =>
    case InLeft(p, up, s) =>
      DistinctPlug(up, Node(p, t, s));
      DistinctReplace(up, Node(p, t, s), Node(p, t', s), x);
    case InRight(p, s, up) =>
      DistinctPlug(up, Node(p, s, t));
      DistinctReplace(up, Node(p, s, t), Node(p, s, t'), x);
  }

  // ---------------------------------------------------------------------------
  // Keys and the binary-search-tree order

  function Keys(t: Tree, ws: seq<string>): set<string>
    requires Below(t, |ws|)
  {
    match t
    case Nil => {}
    case Node(i, l, r) => Keys(l, ws) + {ws[i]} + Keys(r, ws)
  }

  /** The in-order sequence of keys. */
  function Inorder(t: Tree, ws: seq<string>): seq<string>
    requires Below(t, |ws|)
  {
    match t
    case Nil => []
    case Node(i, l, r) => Inorder(l, ws) + [ws[i]] + Inorder(r, ws)
  }

  /** Every key of the left subtree compares less than the node's word, every
      key of the right subtree greater, at every node. */
  predicate Ordered(t: Tree, ws: seq<string>)
    requires Below(t, |ws|)
  {
    match t
    case Nil => true
    case Node(i, l, r) =>
      Ordered(l, ws) && Ordered(r, ws) &&
      (forall k :: k in Keys(l, ws) ==> Less(k, ws[i])) &&
      (forall k :: k in Keys(r, ws) ==> Less(ws[i], k))
  }

  predicate Sorted(s: seq<string>) {
    forall i, j :: 0 <= i < j < |s| ==> Less(s[i], s[j])
  }

  function CtxKeys(c: Ctx, ws: seq<string>): set<string>
    requires CtxBelow(c, |ws|)
  {
    match c
    case Root => {}
    case InLeft(p, up, s) => {ws[p]} + Keys(s, ws) + CtxKeys(up, ws)
    case InRight(p, s, up) => {ws[p]} + Keys(s, ws) + CtxKeys(up, ws)
  }

  /** Key k lies on the side of every ancestor of the position that the
      position itself lies on. */
  predicate Fits(c: Ctx, ws: seq<string>, k: string)
    requires CtxBelow(c, |ws|)
  {
    match c
    case Root => true
    case InLeft(p, up, _) => Less(k, ws[p]) && Fits(up, ws, k)
    case InRight(p, _, up) => Less(ws[p], k) && Fits(up, ws, k)
  }

  lemma {:induction false} KeysInorder(t: Tree, ws: seq<string>)
    requires Below(t, |ws|)
    ensures forall k :: k in Keys(t, ws) <==> k in Inorder(t, ws)
  {
    match t
    case Nil =>
    case Node(_, l, r) => KeysInorder(l, ws); KeysInorder(r, ws);
  }

  lemma {:induction false} KeysPlug(c: Ctx, t: Tree, ws: seq<string>)
    requires CtxBelow(c, |ws|) && Below(t, |ws|) && Below(Plug(c, t), |ws|)
    ensures Keys(Plug(c, t), ws) == CtxKeys(c, ws) + Keys(t, ws)
    decreases c
  {
    BelowPlug(c, t, |ws|);
    match c
    case Root =>
    case InLeft(p, up, s) => KeysPlug(up, Node(p, t, s), ws);
    case InRight(p, s, up) => KeysPlug(up, Node(p, s, t), ws);
  }

  /** A subtree of an ordered tree is ordered, and its keys fit its position. */
  lemma {:induction false} OrderedPlug(c: Ctx, t: Tree, ws: seq<string>)
    requires CtxBelow(c, |ws|) && Below(t, |ws|) && Below(Plug(c, t), |ws|)
    requires Ordered(Plug(c, t), ws)
    ensures Ordered(t, ws) && forall k :: k in Keys(t, ws) ==> Fits(c, ws, k)
    decreases c
  {
    match c
    case Root =>
    case InLeft(p, up, s) =>
      OrderedPlug(up, Node(p, t, s), ws);
    case InRight(p, s, up) =>
      OrderedPlug(up, Node(p, s, t), ws);
  }

  /** Putting an ordered subtree whose keys are old keys or keys that fit the
      position in the place of t keeps the whole tree ordered. */
  lemma {:induction false} OrderedReplace(c: Ctx, t: Tree, t': Tree, ws: seq<string>)
    requires CtxBelow(c, |ws|) && Below(t, |ws|) && Below(t', |ws|) && Below(Plug(c, t), |ws|)
    requires Ordered(Plug(c, t), ws) && Ordered(t', ws)
    requires forall k :: k in Keys(t', ws) ==> k in Keys(t, ws) || Fits(c, ws, k)
    ensures Below(Plug(c, t'), |ws|)
    ensures Ordered(Plug(c, t'), ws)
    decreases c
  {
    BelowPlug(c, t', |ws|);
    match c
    case Root =>
    case InLeft(p, up, s) =>
      OrderedPlug(up, Node(p, t, s), ws);
      OrderedPlug(c, t, ws);
      OrderedReplace(up, Node(p, t, s), Node(p, t', s), ws);
    case InRight(p, s, up) =>
      OrderedPlug(up, Node(p, s, t), ws);
      OrderedPlug(c, t, ws);
      OrderedReplace(up, Node(p, s, t), Node(p, s, t'), ws);
  }

  /** BST order is exactly "the in-order traversal is strictly ascending". */
  lemma {:induction false} OrderedIffSorted(t: Tree, ws: seq<string>)
    requires Below(t, |ws|)
    ensures Ordered(t, ws) <==> Sorted(Inorder(t, ws))
  {
    match t
    case Nil =>
    case Node(i, l, r) =>
      OrderedIffSorted(l, ws);
      OrderedIffSorted(r, ws);
      KeysInorder(l, ws);
      KeysInorder(r, ws);
      var a, b := Inorder(l, ws), Inorder(r, ws);
      assert a + [ws[i]] + b == Inorder(t, ws);
      if Ordered(t, ws) {
        SortedJoin(a, ws[i], b);
      }
      if Sorted(a + [ws[i]] + b) {
        SortedSplit(a, ws[i], b);
      }
  }

  /** Two ascending runs on either side of a pivot make one ascending run. */
  lemma SortedJoin(a: seq<string>, k: string, b: seq<string>)
    requires Sorted(a) && Sorted(b)
    requires forall x :: x in a ==> Less(x, k)
    requires forall y :: y in b ==> Less(k, y)
    ensures Sorted(a + [k] + b)
  {
    var s := a + [k] + b;
    forall x, y | 0 <= x < y < |s| ensures Less(s[x], s[y]) {
      if y < |a| {
        assert s[x] == a[x] && s[y] == a[y];
      } else if x < |a| && y == |a| {
        assert s[x] == a[x] && a[x] in a;
      } else if x < |a| {
        assert s[x] == a[x] && a[x] in a && s[y] == b[y - |a| - 1] && b[y - |a| - 1] in b;
        LessTrans(s[x], k, s[y]);
      } else if x == |a| {
        assert s[y] == b[y - |a| - 1] && b[y - |a| - 1] in b;
      } else {
        assert s[x] == b[x - |a| - 1] && s[y] == b[y - |a| - 1];
      }
    }
  }

  lemma SortedSplit(a: seq<string>, k: string, b: seq<string>)
    requires Sorted(a + [k] + b)
    ensures Sorted(a) && Sorted(b)
    ensures forall x :: x in a ==> Less(x, k)
    ensures forall y :: y in b ==> Less(k, y)
  {
    var s := a + [k] + b;
    forall x, y | 0 <= x < y < |a| ensures Less(a[x], a[y]) { assert a[x] == s[x] && a[y] == s[y]; }
    forall x, y | 0 <= x < y < |b| ensures Less(b[x], b[y]) {
      assert b[x] == s[x + |a| + 1] && b[y] == s[y + |a| + 1];
    }
    forall v | v in a ensures Less(v, k) {
      var x :| 0 <= x < |a| && a[x] == v;
      assert s[x] == v && s[|a|] == k;
    }
    forall v | v in b ensures Less(k, v) {
      var y :| 0 <= y < |b| && b[y] == v;
      assert s[y + |a| + 1] == v && s[|a|] == k;
    }
  }

  /** An ordered tree holds each key once, so it has as many keys as nodes. */
  lemma {:induction false} OrderedKeyCount(t: Tree, ws: seq<string>)
    requires Below(t, |ws|) && Ordered(t, ws)
    ensures |Keys(t, ws)| == Count(t)
  {
    match t
    case Nil =>
    case Node(i, l, r) =>
      OrderedKeyCount(l, ws);
      OrderedKeyCount(r, ws);
      var kl, kr := Keys(l, ws), Keys(r, ws);
      LessIrreflexive(ws[i]);
      assert ws[i] !in kl && ws[i] !in kr;
      forall k | k in kl && k in kr ensures false {
        LessTrans(k, ws[i], k);
        LessIrreflexive(k);
      }
      assert kl !! kr;
      assert |kl + {ws[i]}| == |kl| + 1;
      assert |kl + {ws[i]} + kr| == |kl + {ws[i]}| + |kr|;
  }

  /** Appending new words to the arena does not change the keys of a tree. */
  lemma {:induction false} KeysExtend(t: Tree, ws: seq<string>, more: seq<string>)
    requires Below(t, |ws|)
    ensures Below(t, |ws + more|)
    ensures Keys(t, ws + more) == Keys(t, ws) && Inorder(t, ws + more) == Inorder(t, ws) &&
            (Ordered(t, ws + more) <==> Ordered(t, ws))
  {
    BelowMono(t, |ws|, |ws + more|);
    match t
    case Nil =>
    case Node(i, l, r) => KeysExtend(l, ws, more); KeysExtend(r, ws, more);
  }

  lemma {:induction false} CtxExtend(c: Ctx, ws: seq<string>, more: seq<string>, k: string)
    requires CtxBelow(c, |ws|)
    ensures CtxBelow(c, |ws + more|) && CtxKeys(c, ws + more) == CtxKeys(c, ws) &&
            (Fits(c, ws + more, k) <==> Fits(c, ws, k))
  {
    match c
    case Root =>
    case InLeft(p, up, s) =>
      KeysExtend(s, ws, more);
      CtxExtend(up, ws, more, k);
    case InRight(p, s, up) =>
      KeysExtend(s, ws, more);
      CtxExtend(up, ws, more, k);
  }

  // ---------------------------------------------------------------------------
  // Heights

  /** The true height: -1 for the empty tree, 0 for a leaf. */
  function Height(t: Tree): (h: int)
    ensures t.Nil? <==> h == -1
    ensures h >= -1
  {
    match t
    case Nil => -1
    case Node(_, l, r) => 1 + Max(Height(l), Height(r))
  }

  function Max(a: int, b: int): int {
    if a < b then b else a
  }

  /** The AVL property: the two subtrees of every node differ in height by at most one. */
  predicate Balanced(t: Tree) {
    match t
    case Nil => true
    case Node(_, l, r) => -1 <= Height(r) - Height(l) <= 1 && Balanced(l) && Balanced(r)
  }

  /** Every node's cached height is its true height. */
  predicate Exact(t: Tree, hs: seq<int>)
    requires Below(t, |hs|)
  {
    match t
    case Nil => true
    case Node(i, l, r) => hs[i] == Height(t) && Exact(l, hs) && Exact(r, hs)
  }

  /** Every node's cached height is at least -1. */
  predicate CachedAtLeastMinusOne(t: Tree, hs: seq<int>)
    requires Below(t, |hs|)
  {
    match t
    case Nil => true
    case Node(i, l, r) => hs[i] >= -1 && CachedAtLeastMinusOne(l, hs) && CachedAtLeastMinusOne(r, hs)
  }

  /** `getHeight` on the node at the top of t: computed from the children's
      cached heights, not from the node's own. */
  function CachedHeight(t: Tree, hs: seq<int>): int
    requires Below(t, |hs|)
  {
    match t
    case Nil => -1
    case Node(_, l, r) =>
      if l.Nil? && r.Nil? then 0
      else if r.Nil? then 1 + Field(l, hs)
      else if l.Nil? then 1 + Field(r, hs)
      else 1 + Max(Field(l, hs), Field(r, hs))
  }

  /** The `height` field of the top node of t. */
  function Field(t: Tree, hs: seq<int>): int
    requires t.Node? && Below(t, |hs|)
  {
    hs[t.id]
  }

  /** `balance`: right height minus left height, both as `getHeight` computes them. */
  function Bal(t: Tree, hs: seq<int>): int
    requires t.Node? && Below(t, |hs|)
  {
    CachedHeight(t.right, hs) - CachedHeight(t.left, hs)
  }

  /** With exact cached heights below it, `getHeight` computes the true height. */
  lemma CachedHeightExact(t: Tree, hs: seq<int>)
    requires t.Node? && Below(t, |hs|) && Exact(t.left, hs) && Exact(t.right, hs)
    ensures CachedHeight(t, hs) == Height(t)
  {
    assert t.left.Node? ==> Field(t.left, hs) == Height(t.left);
    assert t.right.Node? ==> Field(t.right, hs) == Height(t.right);
  }

  /** When no cached height is below -1, `getHeight` of a node is at least 0. */
  lemma CachedHeightNonNegative(t: Tree, hs: seq<int>)
    requires t.Node? && Below(t, |hs|) && CachedAtLeastMinusOne(t, hs)
    ensures CachedHeight(t, hs) >= 0
  {
  }

  // ---------------------------------------------------------------------------
  // The arena's child and parent references

  datatype Graph = Graph(left: seq<int>, right: seq<int>, parent: seq<int>)

  predicate Has(g: Graph, i: int) {
    0 <= i < |g.left| && i < |g.right| && i < |g.parent|
  }

  /** The references of every node of t agree with the shape, and t's top node
      has parent p. */
  predicate Linked(t: Tree, g: Graph, p: int) {
    match t
    case Nil => true
    case Node(i, l, r) =>
      Has(g, i) && g.parent[i] == p && g.left[i] == Top(l) && g.right[i] == Top(r) &&
      Linked(l, g, i) && Linked(r, g, i)
  }

  /** The references of every node of the context agree with it, when the
      position holds the node h. */
  predicate CtxLinked(c: Ctx, g: Graph, h: int) {
    match c
    case Root => true
    case InLeft(q, up, s) =>
      Has(g, q) && g.left[q] == h && g.right[q] == Top(s) && g.parent[q] == CtxParent(up) &&
      Linked(s, g, q) && CtxLinked(up, g, q)
    case InRight(q, s, up) =>
      Has(g, q) && g.left[q] == Top(s) && g.right[q] == h && g.parent[q] == CtxParent(up) &&
      Linked(s, g, q) && CtxLinked(up, g, q)
  }

  lemma {:induction false} LinkedPlug(c: Ctx, t: Tree, g: Graph)
    ensures Linked(Plug(c, t), g, NIL) <==> CtxLinked(c, g, Top(t)) && Linked(t, g, CtxParent(c))
    decreases c
  {
    match c
    case Root =>
    case InLeft(p, up, s) => LinkedPlug(up, Node(p, t, s), g);
    case InRight(p, s, up) => LinkedPlug(up, Node(p, s, t), g);
  }

  /** g and g' hold the same references for the handles in s. */
  predicate Agree(g: Graph, g': Graph, s: set<nat>) {
    forall i :: i in s ==>
      (Has(g, i) <==> Has(g', i)) &&
      (Has(g, i) ==> g.left[i] == g'.left[i] && g.right[i] == g'.right[i] && g.parent[i] == g'.parent[i])
  }

  lemma {:induction false} LinkedFrame(t: Tree, g: Graph, g': Graph, p: int)
    requires Agree(g, g', Ids(t))
    ensures Linked(t, g, p) == Linked(t, g', p)
  {
    match t
    case Nil =>
    case Node(i, l, r) => LinkedFrame(l, g, g', i); LinkedFrame(r, g, g', i);
  }

  lemma {:induction false} CtxLinkedFrame(c: Ctx, g: Graph, g': Graph, h: int)
    requires Agree(g, g', CtxIds(c))
    ensures CtxLinked(c, g, h) == CtxLinked(c, g', h)
  {
    match c
    case Root =>
    case InLeft(q, up, s) => LinkedFrame(s, g, g', q); CtxLinkedFrame(up, g, g', q);
    case InRight(q, s, up) => LinkedFrame(s, g, g', q); CtxLinkedFrame(up, g, g', q);
  }

  /** In a linked, distinct tree the top handle is the root only at the root position. */
  lemma {:induction false} TopOfPlug(c: Ctx, t: Tree)
    requires t.Node? && Distinct(Plug(c, t))
    ensures c.Root? <==> Top(Plug(c, t)) == t.id
    decreases c
  {
    match c
    case Root =>
    case InLeft(p, up, s) =>
      DistinctPlug(c, t);
      IdsPlug(up, Node(p, t, s));
      TopPlugIn(up, Node(p, t, s));
    case InRight(p, s, up) =>
      DistinctPlug(c, t);
      IdsPlug(up, Node(p, s, t));
      TopPlugIn(up, Node(p, s, t));
  }

  lemma {:induction false} TopPlugIn(c: Ctx, t: Tree)
    requires t.Node?
    ensures Top(Plug(c, t)) == t.id || Top(Plug(c, t)) in CtxIds(c)
    decreases c
  {
    match c
    case Root =>
    case InLeft(p, up, s) => TopPlugIn(up, Node(p, t, s));
    case InRight(p, s, up) => TopPlugIn(up, Node(p, s, t));
  }

  /** Below the root, what hangs at a position does not change the root handle. */
  lemma {:induction false} TopPlugSame(c: Ctx, t: Tree, u: Tree)
    requires !c.Root?
    ensures Top(Plug(c, t)) == Top(Plug(c, u))
    decreases c
  {
    match c
    case InLeft(p, up, s) =>
      if !up.Root? { TopPlugSame(up, Node(p, t, s), Node(p, u, s)); }
    case InRight(p, s, up) =>
      if !up.Root? { TopPlugSame(up, Node(p, s, t), Node(p, s, u)); }
  }
}
