# Red-black tree map

A Dafny model of `rbtree.c`. The file implements an ordered key->value map on a
red-black tree. Its nodes link to their parents, and childless BLACK sentinel
nodes stand for empty subtrees. The model covers:

- the sentinels (`newNill`, `isNill`);
- the shared binary-search descent of `find`, `add` and `erase`;
- the two rotations and the in-order predecessor;
- insertion with upsert and its fixup `balanceInsert`;
- deletion, including the two-children case that copies the predecessor and
  goes on deleting the predecessor's key in the left subtree, with its fixup
  `balanceRemoval`;
- the in-order traversal `PrintTree`;
- the public functions `MapNew`, `MapInsert`, `MapFind`, `MapRemove` and
  `MapPrint`, with their status codes 0, -1 and -2.

The tree is an immutable datatype `Tree<V> = Leaf | Node(color, left, key,
value, right)`. `Leaf` is the sentinel. Parent pointers become a zipper: a
focused subtree plus a `Path` of ancestor frames. `Parent`, `Sibling`, `Uncle`,
`isLeft`/`isRight` become reads of the innermost frames. `Root` becomes `Plug`,
which rebuilds the whole tree. Parent/child links are therefore consistent by
construction.

The abstraction is the traversal. `InOrder(t)` lists exactly the entries
`PrintTree` hands to its callback, in the same order. `Contents(t)` is the map
those entries spell out. `Valid(t)` holds when the traversal is strictly
ascending (`Ordered`) and the colour invariants hold (`RedBlack`): no red-red
edge, equal black height on every path, and a BLACK root. Sentinels are BLACK by
construction. `IsSearchTree` is the classical search-tree property on key sets,
and `SearchTreeIffOrdered` proves it equivalent to `Ordered`.

Modules, one per file: `Entries` (entries.dfy: entries, key order and the map of
a sequence of entries), `RBTree` (tree.dfy), `Zipper` (zipper.dfy), `Search`
(find.dfy), `Insertion` (insert.dfy), `Removal` (remove.dfy) and `RBMap`
(api.dfy: the public functions and whole-map properties).

Choices:

- Keys are `int`. The comparator is fixed to the integer order by `Compare`,
  which returns -1, 0 or 1. Values are a type parameter `V`.
- A map handle is `Option<Tree<V>>`, and `None` is the NULL map.
- Allocation failure is a boolean input, `allocFails`. It makes `MapNew` return
  NULL. It makes `MapInsert` return -2 only when a node would have to be
  created. Overwriting a present key allocates nothing.
- Each `panic` of the source becomes a precondition, or is excluded by the
  types: a NULL node cannot be written.
- The upward fixups are recursive functions over the path. The descent of
  `find` is a loop (`Search.Find`). The descents of `add` and `erase` are
  recursive on the subtree, with the path as an accumulator. `erase` keeps the
  source's behaviour of continuing the descent with the predecessor's key.
- `RBMap.Session` is a fixed sequence of calls: insert (5,50), (3,30), (8,80),
  (1,10), (4,40), print, remove 3, print, look 3 up, overwrite 5 with 99, look 5
  up, print. Its contract states the status of every insert, of the removal and
  of both lookups, the value found for 5, and the three printed sequences.

## Model

| member | source | states |
|---|---|---|
| Entries.Compare | rbtree.c:337-344 | the comparator sign is negative, zero or positive exactly when the first key is below, equal to or above the second |
| RBTree.NewNil | rbtree.c:42-57 | a fresh node is a childless BLACK sentinel (`IsNil`, the model of `isNill` at rbtree.c:59-67, holds of it) that contributes no entry to the traversal |
| RBTree.InOrderLength | rbtree.c:529-537 | `InOrder` (the model of `PrintTree`) reports every data-bearing node exactly once, so its length is the node count; sentinels report nothing |
| RBTree.InOrderKeys | rbtree.c:529-537 | a key occurs in the traversal exactly when a data-bearing node holds it |
| RBTree.SearchTreeIffOrdered | rbtree.c:366-374 | the search-tree property that the descent relies on (left keys below, right keys above, at every node) holds exactly when the traversal is strictly ascending |
| RBTree.SameShapeInvariants | rbtree.c:342 | trees that differ only in stored values have the same colours, black heights, red-black properties and key sequence |
| RBTree.Rightmost | rbtree.c:226-231 | the walk down right children ends at the last entry of the subtree's traversal |
| RBTree.Predecessor | rbtree.c:217-232 | nothing for a sentinel; the node itself when its left child is a sentinel; otherwise the last entry of the left subtree's traversal |
| RBTree.PredecessorIsLargestBelow | rbtree.c:217-232 | on an ordered tree with a data-bearing left child, the predecessor's key is in the tree, is below the node's key, and is the largest such key |
| RBTree.RotateLeft | rbtree.c:261-282 | rotating left keeps the traversal; the node ends up as the pivot's left child and takes over the pivot's inner child; nothing else is re-linked, and both nodes keep their colours |
| RBTree.RotateRight | rbtree.c:236-257 | the mirror image of `RotateLeft`, colours included |
| RBTree.RotationsInverse | rbtree.c:236-282 | rotating left and then right, or right and then left, gives back the original subtree |
| Zipper.InOrderPlug | rbtree.c:204-213 | `Plug` (the model of `Root`) rebuilds the tree up to the root, and its traversal is the entries before the focus, then the focus's own, then those after it |
| Zipper.PlugSameInOrder | rbtree.c:204-213 | replacing a subtree by one with the same traversal leaves the traversal of the whole tree unchanged |
| Zipper.PlugRedBlack | rbtree.c:204-213 | the whole tree has no red-red edge, is black-balanced and has a BLACK root exactly when the focus and its path each keep their share of those properties |
| Zipper.PlugSameShape | rbtree.c:342 | overwriting a value below some path leaves the shape of the whole tree as it was |
| Zipper.Descend | rbtree.c:366-374 | the descent ends at a sentinel or at the node whose key compares equal, and does not change the tree |
| Zipper.DescendSeparates | rbtree.c:366-374 | on an ordered tree, all entries the descent leaves on its left are below the key and all entries on its right are above |
| Search.DescendFinds | rbtree.c:358-377 | on an ordered tree the descent stops at a data-bearing node exactly when the map has the key, and that node holds the map's value |
| Search.Find | rbtree.c:358-377 | the loop returns a node with the key exactly when the descent hits one; on an ordered tree that happens exactly when the map has the key, and the node holds the map's value |
| Insertion.Promote | rbtree.c:71-114 | the sentinel becomes a RED node with the key and value and two fresh BLACK sentinel children, and it keeps the sentinel's black height |
| Insertion.RecolorUp | rbtree.c:302-307 | with a RED uncle, recolouring parent, uncle and grandparent keeps the traversal and leaves the grandparent as a RED focus with the same guarantees, two levels up |
| Insertion.RotateIntoLine | rbtree.c:308-323 | with a BLACK uncle, the straightening rotation, the recolouring and the rotation of the grandparent give a BLACK subtree with no red-red edge, one black level above the node, with the same traversal |
| Insertion.LineUpLeft | rbtree.c:309-319 | the parent is a left child: the result is sound one black level up, and its traversal is the parent's, then the grandparent's entry, then the uncle's |
| Insertion.LineUpRight | rbtree.c:311-322 | the mirror image of `LineUpLeft` |
| Insertion.TwoRedChildren | rbtree.c:315-322 | a BLACK node over two RED children over four sound subtrees of equal height is sound one level higher |
| Insertion.BalanceInsert | rbtree.c:286-324 | from a RED focus whose only possible red-red edge is the one to its parent, the fixup returns a tree with all the red-black invariants and the same traversal |
| Insertion.Add | rbtree.c:328-354 | inserting into a red-black tree leaves a red-black tree |
| Insertion.AddCorrect | rbtree.c:328-354 | on a valid map, insertion keeps it valid and updates the stored map at the key; a present key keeps shape, colours and size, and a new key adds one node |
| Insertion.UpsertEntries | rbtree.c:336-345 | overwriting a present key keeps the traversal sorted and of the same length, with the map updated at the key |
| Insertion.InsertEntries | rbtree.c:347-353 | inserting an absent key keeps the traversal sorted and one entry longer, with the map updated at the key |
| Insertion.AddIdempotent | rbtree.c:336-345 | inserting the same key and value twice builds exactly the tree that inserting once builds |
| Removal.RotateRedSibling | rbtree.c:395-404 | with a RED sibling, the recolouring and rotation give the focus a BLACK sibling under a RED parent, with the same deficit and the same traversal |
| Removal.AbsorbIntoParent | rbtree.c:408-420 | with a BLACK sibling and two BLACK nephews, making the sibling RED and the parent BLACK gives a sound BLACK parent subtree one level above the focus |
| Removal.TwoBlackChildren | rbtree.c:432-436 | a node over two BLACK children over four fine subtrees of equal height is fine one or two levels higher, depending on its colour |
| Removal.FarNephewRed | rbtree.c:422-446 | when only the near nephew is RED, recolouring and rotating the sibling away from the focus makes the far nephew RED and keeps the sibling's colour, black height and traversal |
| Removal.RotateFarNephew | rbtree.c:422-453 | with a RED nephew, the last case removes the deficit: the parent's subtree becomes sound, with the parent's old colour, the parent's intended black height and the same traversal |
| Removal.RotateTowardsLeft | rbtree.c:432-436 | the focus is a left child: after the recolouring and the left rotation of the parent, the subtree is fine, has the parent's colour and keeps the traversal |
| Removal.RotateTowardsRight | rbtree.c:448-452 | the mirror image of `RotateTowardsLeft` |
| Removal.BalanceRemoval | rbtree.c:381-454 | from a focus one BLACK node short whose path keeps every other invariant, the fixup returns a tree with all the red-black invariants and the same traversal |
| Removal.EraseFrom | rbtree.c:458-513 | the descent finds a node exactly when the key is in the subtree; the result has the red-black invariants, and its traversal is the original one with exactly that key's entry removed |
| Removal.SpliceOut | rbtree.c:479-507 | a node with at most one data-bearing child is replaced by that child or a sentinel; when the node was RED the result is exactly that replacement, with no fixup run; the red-black invariants hold and exactly its entry is gone |
| Removal.EraseRight | rbtree.c:467-468 | going right past a smaller key: the key is in the subtree exactly when it is in the right subtree, and removing it touches only the right part |
| Removal.EraseLeft | rbtree.c:469-470 | going left past a larger key: the mirror image of `EraseRight` |
| Removal.CopyPredecessor | rbtree.c:472-478 | after copying the predecessor into a node with two data-bearing children, the tree still has the red-black invariants; the predecessor's key is in the left subtree, and deleting it there deletes the node's key |
| Removal.Splice | rbtree.c:480-507 | splicing out removes exactly the node's entry; a BLACK node leaves its replacement one BLACK node short, and a RED one leaves the invariants intact |
| Removal.Erase | rbtree.c:458-513 | on a valid tree, the result is NULL exactly when the key is absent; otherwise it is valid and its traversal is the old one without the key |
| Removal.EraseCorrect | rbtree.c:458-513 | on a valid map, deletion reports an absent key, or leaves a valid map with the key removed, every other entry kept and one node fewer |
| RBMap.MapNew | rbtree.c:540-558 | NULL exactly when an allocation fails; otherwise a valid map holding nothing |
| RBMap.MapInsert | rbtree.c:561-574 | -1 on NULL; -2 exactly when the key is new and its node cannot be allocated, with the map unchanged; otherwise 0, with the stored map updated at the key and the size grown by one only for a new key |
| RBMap.MapFind | rbtree.c:577-590 | -1 on NULL; on a valid map, 0 exactly when the key is present, together with its stored value, and -2 otherwise |
| RBMap.MapRemove | rbtree.c:592-606 | -1 on NULL; -2 when the key is absent, with the map unchanged; otherwise 0, with exactly that key removed and one node fewer |
| RBMap.MapPrint | rbtree.c:619-625 | nothing for NULL; otherwise one entry per data-bearing node, spelling out the stored map; on a valid map, in strictly ascending key order |
| RBMap.PrintCanonical | rbtree.c:529-537 | two valid trees storing the same map print the same sequence, whatever their shapes and colours |
| RBMap.AddEraseRoundTrip | rbtree.c:561-606 | inserting a new key and then removing it gives back the stored map |
| RBMap.EraseAddRoundTrip | rbtree.c:561-606 | removing a present key and then inserting it again with its old value gives back the stored map |
| RBMap.Session | rbtree.c:540-625 | every insert, the removal of 3 and the lookup of 5 return 0; the fixed session prints [(1,10),(3,30),(4,40),(5,50),(8,80)], then [(1,10),(4,40),(5,50),(8,80)]; looking up 3 gives -2; after 5 is overwritten with 99, looking up 5 gives 99 and the print is [(1,10),(4,40),(5,99),(8,80)] |

## Left out

- Memory management is not modelled: `malloc`/`free`, `freeNode`, `freeTree`, `MapDestroy`, and the rollback in `insertNode` after a failed allocation. The tree is an immutable value, so nothing is freed or leaked. The failure itself is the `allocFails` input.
- `panic` is not modelled: each of its conditions is a precondition or cannot be written. The NULL node checks cannot be written at all.
- The byte copies are not modelled: `CopyKey`, `CopyValue`, `copyNode`'s `memmove`, and the `keySize`/`valueSize` bookkeeping. Keys are `int` and values are a type parameter. `copyNode` is the new path frame that `Removal.EraseFrom` builds with the predecessor's key and value in place of the node's.
- The comparator function pointer is not modelled. The order is fixed to the integer order (`Entries.Compare`).
- The `printFunc` callback is not modelled. `MapPrint` returns the sequence of entries the callback would receive.
- The fall-through at the end of `balanceRemoval` is not modelled: there the node is neither a left nor a right child. A focus with a parent is always on one side of it, so the model uses a plain if/else.
- The value each C helper returns is not modelled. For example, `rotateLeft` returns the node that sank, and `balanceInsert` returns some node of the tree. The callers either discard that node, climb from it to the root with `Root`, or (in `balanceInsert` at rbtree.c:310 and rbtree.c:312) take the node sunk by the straightening rotation as the new current node; `Insertion.LineUpLeft` and `Insertion.LineUpRight` reproduce that step by rotating the parent into line before recolouring and rotating the grandparent. The model returns the whole tree directly.
- RBMap.MapInsert: requires a handle that is NULL or holds a valid tree. The source assumes this without checking, and every public function keeps it.
- RBMap.MapRemove: requires a handle that is NULL or holds a valid tree, for the same reason as `MapInsert`.
- RBMap.MapFind: states the key/value results only for a valid tree. On an arbitrary tree it states only the status codes, and that a hit is a node with the key.
- Search.Find: states the relation to the stored map only for ordered trees. On other trees it states only that it agrees with the descent.
