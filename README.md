# AVL string set and unique-line counters, modelled in Dafny

This project models the `AVL` class of `AVL.java` and the counters of
`Unique.java`. `AVL` is a binary search tree of strings with parent links and
cached node heights. It offers a plain BST insertion with a height-patching
parent walk, an AVL insertion that calls `rebalance` on every ancestor, the
two rotations, `search`, `getHeight`, `balance` and `getSize`. `Unique` counts
the distinct lines of an input in two ways: with a list and a linear scan,
and with the AVL tree.

How it is modelled:

- **Arena (`AvlTree.dfy`, class `Avl.AVL`).** Every Java `Node` is a handle
  into parallel sequences: `word`, `parent`, `left`, `right` and `height`.
  `NIL` (-1) stands for `null`. A new node takes the next free handle, with
  null references and height 0, just as `new Node(w)` leaves it.
- **Shape and validity.** A ghost `shape: Tree` records which handle sits
  where. `Valid()` ties the references to it: the parent/child links agree,
  `root` is its top and `size` its node count. A zipper `Ctx` names a
  node's position.
- **Effects stated exactly.** Every method's postcondition gives its new
  shape, references, cached heights, words and size as pure functions of the
  old state:
  - `AvlModel.RotL`/`RotLHeights` for the rotations;
  - `AvlModel.Rebalanced` for `rebalance`;
  - `AvlModel.Insert` for `avlInsert`;
  - `BstModel.BstInsert`/`Raise` for `bstInsert` and its loop.

  The lemmas about those functions carry the properties.
- **Cached heights as written.** Heights are kept exactly as the code writes
  them, including the rotations' `y.height--`. Nothing assumes a cached
  height equals the true height.
- **String comparison.** `String.compareTo` is modelled as Java defines it:
  the difference of the first differing characters, otherwise the difference
  of the lengths (`JavaStrings.CompareTo`).
- **Findings.** `Findings` and `TenKeys` replay concrete insertions through
  the model of the code as written. `Fixed` replaces the two height updates
  of the rotations by recomputations and proves the balance promise for
  that version.
- **NullPointerException.** Where the code would throw one (inside
  `rebalance`), the model returns `ok == false` with the state as it was at
  the throw. Nothing has been written at that point.

Where the code departs from the textbook AVL algorithm that its comments
promise, the model follows the code:

- A textbook rotation recomputes the heights of both moved nodes, the lower
  one first. `leftRotate` and `rightRotate` recompute only the demoted node
  and decrement the promoted one (`AVL.java:182-184`, `207-209`). The
  promoted node's cached height then goes stale, and can fall below -1.
- `rebalance` reads only cached heights. With stale ones, `avlInsert`, as
  written, does not keep the promise of its comment (`AVL.java:97-99`).
  After ten insertions the tree is not AVL balanced
  (`TenKeys.TenKeysUnbalanced`). With both heights recomputed, every
  insertion keeps the tree balanced with exact heights (`Fixed.FixedBuildAvl`).
- A duplicate `avlInsert` returns at the node holding the word, but
  `rebalance` still runs on every strict ancestor (`AVL.java:156-159`). Keys
  and size are kept (`AvlModel.DuplicateKeeps`). Cached heights can be
  rewritten (`Findings.AbcDuplicateChangesHeight`). Stale heights can also
  push a balance past 1 on the way up, so a duplicate can rotate and change
  the shape (`TenKeys.DuplicateRotates`).
- When the heavier child's balance is exactly 0, `rebalance` treats the two
  sides differently (`AVL.java:215-231`). The tests are `balance(n.left) < 0`
  and `balance(n.right) < 0`, so the left side takes the double rotation and
  the right side the single one.

## Model

| member | source | states |
|---|---|---|
| JavaStrings.GreaterIsLess | app/src/main/java/avl/AVL.java:52 | `a.compareTo(b) > 0` holds exactly when b sorts before a, and `< 0` exactly when a sorts before b |
| JavaStrings.LessTrans | app/src/main/java/avl/AVL.java:29 | the order used by the descent is transitive |
| JavaStrings.LessTotal | app/src/main/java/avl/AVL.java:29 | any two different strings are ordered one way or the other |
| Avl.AVL.constructor | app/src/main/java/avl/AVL.java:6-10 | a new tree is empty: no nodes, root null, size 0 |
| Avl.AVL.GetSize | app/src/main/java/avl/AVL.java:12-14 | getSize() is the number of nodes in the tree |
| Avl.AVL.GetHeightIs | app/src/main/java/avl/AVL.java:109-125 | getHeight of a node is -1 for null, 0 for a leaf, else 1 + the larger cached height of its present children (`CachedHeight`), read from the children's fields alone |
| Shapes.CachedHeightExact | app/src/main/java/avl/AVL.java:109-125 | when the children's cached heights are their true heights, getHeight returns the node's true height |
| Avl.AVL.BalanceIs | app/src/main/java/avl/AVL.java:15-17 | balance(n) is getHeight(n.right) - getHeight(n.left) on the node's subtree |
| Avl.AVL.Search | app/src/main/java/avl/AVL.java:20-22 | a returned node holds exactly w; in an ordered tree null is returned exactly when w is not a key |
| Avl.AVL.SearchFrom | app/src/main/java/avl/AVL.java:23-34 | the private search finds a node of the subtree holding w, and in an ordered tree returns null exactly when w is not a key of the subtree |
| Avl.AVL.LeftRotate | app/src/main/java/avl/AVL.java:164-185 | leftRotate(x) with a right child y: the tree becomes RotL at x's position (y takes x's slot, x becomes y's left child, y's left subtree becomes x's right), all links stay consistent, heights become RotLHeights, words and size are unchanged |
| Avl.AVL.RelinkLeft | app/src/main/java/avl/AVL.java:165-181 | the reference writes of leftRotate are exactly RotLLinks; y becomes the root when x was; the other parent link is repointed on x's old side |
| Links.RotLLinked | app/src/main/java/avl/AVL.java:165-181 | after the reference writes of leftRotate, every parent/child link agrees with the rotated shape |
| AvlModel.RotLKeeps | app/src/main/java/avl/AVL.java:164-185 | a left rotation keeps the set and number of nodes and their distinctness |
| AvlModel.RotLInorder | app/src/main/java/avl/AVL.java:164-185 | a left rotation keeps the in-order word sequence |
| AvlModel.RotLHeightsAre | app/src/main/java/avl/AVL.java:182-184 | after leftRotate, x holds getHeight(x) in its new place, the promoted y holds its old cached height minus one, and no other height changes |
| Avl.AVL.RightRotate | app/src/main/java/avl/AVL.java:189-210 | the mirror image of LeftRotate: RotR at y's position, heights RotRHeights, links consistent |
| Avl.AVL.RelinkRight | app/src/main/java/avl/AVL.java:190-206 | the reference writes of rightRotate are exactly RotRLinks; x becomes the root when y was |
| Links.RotRLinked | app/src/main/java/avl/AVL.java:190-206 | after the reference writes of rightRotate, every parent/child link agrees with the rotated shape |
| AvlModel.RotRKeeps | app/src/main/java/avl/AVL.java:189-210 | a right rotation keeps the nodes |
| AvlModel.RotRInorder | app/src/main/java/avl/AVL.java:189-210 | a right rotation keeps the in-order word sequence |
| AvlModel.RotRHeightsAre | app/src/main/java/avl/AVL.java:207-209 | after rightRotate, y holds getHeight(y), the promoted x its old cached height minus one, nothing else changes |
| Avl.AVL.Rebalance | app/src/main/java/avl/AVL.java:214-234 | rebalance(n) has exactly the outcome `Rebalanced`: the rotations chosen, the new shape and heights, and a thrown NullPointerException when a needed child is null |
| Avl.AVL.FixLeftHeavy | app/src/main/java/avl/AVL.java:215-222 | the balance < -1 branch: rightRotate(n), or leftRotate(n.left) then rightRotate(n); on success n's new position is returned |
| Avl.AVL.FixRightHeavy | app/src/main/java/avl/AVL.java:224-231 | the balance > 1 branch: rightRotate(n.right) then leftRotate(n), or leftRotate(n) |
| AvlModel.RebalancedCases | app/src/main/java/avl/AVL.java:214-234 | the case analysis: no rotation when the balance is within [-1, 1] (only n's height is recomputed); a single right rotation when the left child leans left; a left-right double rotation when it does not; the mirrored cases on the right; a child balance of 0 takes the double rotation on the left and the single rotation on the right, as the `< 0` tests decide |
| AvlModel.RebalancedShape | app/src/main/java/avl/AVL.java:214-234 | rebalance keeps the nodes, their distinctness and the in-order word sequence |
| AvlModel.RebalanceSafe | app/src/main/java/avl/AVL.java:215-231 | when no cached height in the subtree is below -1, rebalance never dereferences null: the rotation preconditions hold |
| Avl.AVL.AvlInsert | app/src/main/java/avl/AVL.java:100-107 | avlInsert(w) has exactly the outcome AvlModel.AvlInsert; on an ordered tree the result is ordered, the keys are the old keys plus w, size is the number of keys, and a duplicate keeps the size |
| Avl.AVL.AvlInsertAt | app/src/main/java/avl/AVL.java:128-160 | the private avlInsert has exactly the outcome AvlModel.Insert: descend by compareTo, attach at the null slot, then rebalance on the way back unless a call below threw |
| Avl.AVL.AvlAttach | app/src/main/java/avl/AVL.java:135-140 | attaching in avlInsert: a new leaf with the next handle and height 0 is linked below n, size grows by one, n.height becomes getHeight(n) |
| AvlModel.InsertKeys | app/src/main/java/avl/AVL.java:128-160 | on an ordered subtree, the private avlInsert gives an ordered subtree whose keys are the old keys plus w, attaching a node exactly when w was not a key |
| AvlModel.InsertIds | app/src/main/java/avl/AVL.java:128-160 | the private avlInsert adds exactly the new handle to the nodes, and only when it attaches; the node count grows by one then |
| AvlModel.AvlInsertFacts | app/src/main/java/avl/AVL.java:97-107 | the public avlInsert on an ordered tree: keys become old keys plus w, the order is kept, a node is attached exactly when w is new, and the node count equals the number of keys |
| Avl.AVL.Plant | app/src/main/java/avl/AVL.java:38-41 | on an empty tree the new node becomes the root and size is set to 1 |
| Avl.AVL.Link | app/src/main/java/avl/AVL.java:58-60 | a new node with null references and height 0 is hung below n on the chosen side, its parent set to n, and size grows by one; the references are AttachLinks of the old ones |
| Avl.AVL.BstInsert | app/src/main/java/avl/AVL.java:37-44 | bstInsert(w) has exactly the outcome BstModel.BstInsert; on an ordered tree the result is ordered with keys old plus w and size equal to the number of keys, and a duplicate changes nothing at all |
| Avl.AVL.BstInsertAt | app/src/main/java/avl/AVL.java:48-95 | the private bstInsert has exactly the outcome BstModel.BstInsert; when w is present no field of any node, nor root or size, changes |
| Avl.AVL.BstAttach | app/src/main/java/avl/AVL.java:57-69 | attaching in bstInsert: the leaf fills the empty slot, size grows by one, heights become Raise of the old heights from the new leaf |
| Avl.AVL.FixHeights | app/src/main/java/avl/AVL.java:61-69 | the height walk ends with the heights Raise describes and changes nothing else; it terminates because each step moves one edge closer to the root |
| BstModel.LocateKeys | app/src/main/java/avl/AVL.java:52-76 | in an ordered tree the descent ends at w's node exactly when w is a key, and otherwise at an empty slot where w keeps the order |
| BstModel.LocatePlug | app/src/main/java/avl/AVL.java:52-76 | the descent stays inside the tree: the slot it ends at is an empty position of the same tree |
| BstModel.GrownFacts | app/src/main/java/avl/AVL.java:48-95 | bstInsert on an ordered tree: keys become old keys plus w, order kept, a node is attached exactly when w is new, and then it is the only new node; otherwise tree and heights are unchanged |
| BstModel.FillSlot | app/src/main/java/avl/AVL.java:57-60 | the new leaf at the first null slot on the comparison path adds w to the keys and keeps the order |
| BstModel.RaiseDistance | app/src/main/java/avl/AVL.java:61-69 | the walk leaves the node k steps up from the new leaf (the leaf itself at k = 0), for every such node short of the root, with the larger of its old height and k |
| BstModel.RaiseNeverLowers | app/src/main/java/avl/AVL.java:64-66 | the walk never lowers a height |
| BstModel.RaiseSkipsRoot | app/src/main/java/avl/AVL.java:63 | the walk stops at the node whose parent is null, so the root is never visited |
| BstModel.RaiseFrame | app/src/main/java/avl/AVL.java:61-69 | the walk writes only the heights of the nodes it visits |
| Unique.Scan | app/src/main/java/avl/Unique.java:43-46 | the inner scan stops at the first index holding line, or at seen.size() exactly when line is not in seen; no earlier entry equals line |
| Unique.NaiveUnique | app/src/main/java/avl/Unique.java:36-52 | naiveUnique keeps `seen` equal to Dedup of the lines read so far, and returns the number of distinct lines, at most the number of lines |
| Unique.DedupFacts | app/src/main/java/avl/Unique.java:44-49 | `seen` has no duplicates and holds exactly the distinct lines; its length is their number and at most the number of lines |
| Unique.DedupOrder | app/src/main/java/avl/Unique.java:38-51 | `seen` lists the distinct lines in the order of their first occurrence |
| Unique.AvlUnique | app/src/main/java/avl/Unique.java:55-62 | unless an avlInsert throws, avlUnique returns the number of distinct lines |
| Unique.CountsAgree | app/src/main/java/avl/Unique.java:35-62 | naiveUnique and avlUnique return the same count whenever avlUnique completes |
| Findings.AbcCachedHeightTooLow | app/src/main/java/avl/AVL.java:182-184 | after avlInsert of "a", "b", "c" the root "b" has cached height 0 but true height 1 |
| Findings.CabCachedHeightNegative | app/src/main/java/avl/AVL.java:183-208 | after avlInsert of "c", "a", "b" the root "b" has cached height -2, below the -1 of an absent node |
| Findings.AbcDuplicateChangesHeight | app/src/main/java/avl/AVL.java:156-159 | a duplicate avlInsert attaches nothing and keeps the shape, but rebalance on the way up rewrites an ancestor's cached height |
| AvlModel.DuplicateKeeps | app/src/main/java/avl/AVL.java:156-159 | an avlInsert that attaches nothing keeps the words, the keys and the node count |
| TenKeys.TenKeysBuilt | app/src/main/java/avl/Unique.java:55-62 | avlInsert of "b", "d", "c", "g", "h", "a", "j", "i", "f", "e" into an empty tree throws nothing and ends with the given shape and cached heights |
| TenKeys.TenKeysUnbalanced | app/src/main/java/avl/AVL.java:97-99 | after those ten insertions the tree is ordered with ten nodes, but not AVL balanced: the root's subtrees have true heights 0 and 3, while the cached heights give the root a balance of 0 |
| TenKeys.DuplicateRotates | app/src/main/java/avl/AVL.java:156-159 | inserting "d" again into that tree attaches nothing and keeps the keys and node count, but the tree changes shape |
| Fixed.FixedRotLExact | app/src/main/java/avl/AVL.java:182-184 | recomputing x and then y after a left rotation keeps every cached height equal to the true height |
| Fixed.FixedRotRExact | app/src/main/java/avl/AVL.java:207-209 | the same for the right rotation |
| Fixed.FixedRebalanced | app/src/main/java/avl/AVL.java:214-234 | rebalance over the corrected rotations chooses the same rotations and builds the same shape as the code; only the cached heights differ |
| Fixed.RotRBalanced | app/src/main/java/avl/AVL.java:215-217 | a single right rotation balances a node whose left child is two higher and leans left, leaving the height of that child |
| Fixed.RotLBalanced | app/src/main/java/avl/AVL.java:229-230 | the mirror image: a single left rotation |
| Fixed.RotLRBalanced | app/src/main/java/avl/AVL.java:219-221 | a left-right double rotation balances a node whose left child is two higher and leans right |
| Fixed.RotRLBalanced | app/src/main/java/avl/AVL.java:225-227 | the mirror image: a right-left double rotation |
| Fixed.FixedRebalanceAvl | app/src/main/java/avl/AVL.java:212-234 | with the corrected rotations, rebalance of a node whose subtrees are balanced with exact heights and differ by at most two throws nothing and leaves a balanced subtree with exact heights, touching only heights inside it |
| Fixed.FixedInsertAvl | app/src/main/java/avl/AVL.java:128-160 | with the corrected rotations, the private avlInsert on a balanced subtree with exact heights throws nothing, leaves it balanced with exact heights, grows its height by at most one and touches no height outside it |
| Fixed.FixedAvlInsertAvl | app/src/main/java/avl/AVL.java:97-107 | with the corrected rotations, avlInsert on a balanced tree with exact heights throws nothing and leaves it balanced with exact heights |
| Fixed.FixedBuildAvl | app/src/main/java/avl/Unique.java:55-62 | with the corrected rotations, avlInsert of any sequence of lines into an empty tree never throws and leaves a balanced tree with exact heights |

## Left out

- `main`, the `File`/`Scanner` construction, argument checks and the
  `FileNotFoundException` handling (`Unique.java:13-33`) are console and
  file I/O. The lines the `Scanner` would return are a `seq<string>` parameter.
- `printTree`, `printSubtree` and `Node.toString` are debugging output.
- `remove` is an empty stub that returns at once, so there is nothing to model.
- The unused `Node` constructors are not modelled.
- Each call of the private inserts allocates a `new Node(w)` first, even on
  paths where it stays unused. Such a node is unreachable, so the model
  allocates only the node it attaches. Handles are therefore numbered by
  attached nodes only.
- Dafny characters are compared by code point. 16-bit UTF-16 code units
  and surrogate pairs are not modelled separately.
- `size` and the heights are unbounded integers. Java's 32-bit `int` would
  overflow only beyond 2^31 nodes.
- Avl.AVL.AvlInsert: the model does not prove that `avlInsert` never
  throws. `AvlModel.RebalanceSafe` proves no throw when every cached height
  is at least -1, but the code itself breaks that condition
  (`Findings.CabCachedHeightNegative`).
- Avl.AVL.AvlInsert: the AVL balance promised by the comment at
  `AVL.java:97-99` is not stated, because the code does not keep it: after
  the ten insertions of `TenKeys.TenKeysUnbalanced` the tree is not
  balanced. `Fixed.FixedBuildAvl` proves the promise for the corrected
  rotations.
- Unique.AvlUnique: its count is stated only for runs on which no
  `avlInsert` throws, for the same reason.
- Unique.CountsAgree: the two counts are stated to agree only when
  `avlUnique` completes, because `avlInsert` is not proved never to throw.
- Avl.AVL.GetHeightIs: `getHeight` and `balance` are modelled as functions
  of the arena on nodes whose children are allocated. They are not modelled
  for arbitrary handles.

## Findings

| source | as written | input that shows it | evidently intended | confidence | as-written member | corrected member |
|---|---|---|---|---|---|---|
| app/src/main/java/avl/AVL.java:182-184 | leftRotate ends with `x.height++; y.height--; x.height = getHeight(x)`: the promoted y is only decremented, and rightRotate (lines 207-209) mirrors this. | avlInsert "a", "b", "c": the root "b" caches height 0, though the tree has height 1. avlInsert "c", "a", "b": it caches -2. | recompute x with getHeight, then y with getHeight, so every cached height stays equal to the true height | not executed | Findings.AbcCachedHeightTooLow | Fixed.FixedRotLExact |
| app/src/main/java/avl/AVL.java:97-99 | avlInsert promises to keep the tree AVL balanced, but rebalance decides from the stale cached heights the rotations leave | avlInsert "b", "d", "c", "g", "h", "a", "j", "i", "f", "e": the root "b" ends with subtrees of true heights 0 and 3 | every avlInsert keeps the tree AVL balanced, with exact cached heights and no NullPointerException | not executed | TenKeys.TenKeysUnbalanced | Fixed.FixedBuildAvl |
