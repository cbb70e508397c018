/** The red-black tree itself: nodes, sentinel leaves, the invariants of a
    well-formed map, in-order traversal, the predecessor search and the two
    rotations (rbtree.c). */
module RBTree {
  import opened Entries

  datatype Color = Red | Black

  /** A subtree. `Leaf` is the childless sentinel: it carries no key or value
      and is BLACK. `Node` is a data-bearing node with its two children. */
  datatype Tree<V> = Leaf | Node(color: Color, left: Tree<V>, key: int, value: V, right: Tree<V>)

  /** A node is a sentinel exactly when it has no children. */
  predicate IsNil<V>(t: Tree<V>) {
    t.Leaf?
  }

  /** The colour of a subtree's root; sentinels are BLACK. */
  function ColorOf<V>(t: Tree<V>): Color {
    if t.Leaf? then Black else t.color
  }

  /** Recolour the root; a sentinel stays the BLACK sentinel. */
  function Paint<V>(t: Tree<V>, c: Color): Tree<V> {
    if t.Leaf? then Leaf else t.(color := c)
  }

  /** A fresh sentinel: no children, no payload, BLACK. */
  function NewNil<V>(): (t: Tree<V>)
    ensures IsNil(t) && ColorOf(t) == Black && InOrder(t) == []
  {
    Leaf
  }

  /** The entries of the data-bearing nodes, left subtree first, then the
      node, then the right subtree; sentinels contribute nothing. */
  function InOrder<V>(t: Tree<V>): seq<Entry<V>> {
    match t
    case Leaf => []
    case Node(_, l, k, v, r) => InOrder(l) + [Entry(k, v)] + InOrder(r)
  }

  /** The key->value map the tree stores. */
  ghost function Contents<V>(t: Tree<V>): map<int, V> {
    MapOf(InOrder(t))
  }

  /** Number of data-bearing nodes. */
  function Size<V>(t: Tree<V>): nat {
    match t
    case Leaf => 0
    case Node(_, l, _, _, r) => Size(l) + 1 + Size(r)
  }

  /** The keys held by data-bearing nodes. */
  ghost function KeySet<V>(t: Tree<V>): set<int> {
    match t
    case Leaf => {}
    case Node(_, l, k, _, r) => KeySet(l) + {k} + KeySet(r)
  }

  /** BLACK nodes on the leftmost root-to-sentinel path, the sentinel included. */
  function BlackHeight<V>(t: Tree<V>): (h: nat)
    ensures 1 <= h
  {
    match t
    case Leaf => 1
    case Node(c, l, _, _, _) => BlackHeight(l) + (if c == Black then 1 else 0)
  }

  /** Every path from a node down to a sentinel meets the same number of BLACK nodes. */
  ghost predicate BlackBalanced<V>(t: Tree<V>) {
    match t
    case Leaf => true
    case Node(_, l, _, _, r) =>
      BlackBalanced(l) && BlackBalanced(r) && BlackHeight(l) == BlackHeight(r)
  }

  /** No RED node has a RED child. */
  ghost predicate NoRedRed<V>(t: Tree<V>) {
    match t
    case Leaf => true
    case Node(c, l, _, _, r) =>
      NoRedRed(l) && NoRedRed(r) && (c == Red ==> ColorOf(l) == Black && ColorOf(r) == Black)
  }

  /** The colour invariants of the whole map: no red-red edge, uniform black
      height, BLACK root (sentinels are BLACK by construction). */
  ghost predicate RedBlack<V>(t: Tree<V>) {
    NoRedRed(t) && BlackBalanced(t) && ColorOf(t) == Black
  }

  /** In-order keys strictly increase. */
  ghost predicate Ordered<V>(t: Tree<V>) {
    Sorted(InOrder(t))
  }

  /** The invariants every public operation must leave behind. */
  ghost predicate Valid<V>(t: Tree<V>) {
    RedBlack(t) && Ordered(t)
  }

  /** The classical search-tree property, stated on key sets rather than on
      the traversal. */
  ghost predicate IsSearchTree<V>(t: Tree<V>) {
    match t
    case Leaf => true
    case Node(_, l, k, _, r) =>
      && IsSearchTree(l) && IsSearchTree(r)
      && (forall x :: x in KeySet(l) ==> x < k)
      && (forall x :: x in KeySet(r) ==> k < x)
  }

  /** Same structure, colours and keys; values may differ. */
  ghost predicate SameShape<V>(a: Tree<V>, b: Tree<V>) {
    match a
    case Leaf => b.Leaf?
    case Node(c, l, k, _, r) =>
      b.Node? && b.color == c && b.key == k && SameShape(l, b.left) && SameShape(r, b.right)
  }

  /** The traversal lists every data-bearing node and nothing else. */
  lemma {:induction false} InOrderLength<V>(t: Tree<V>)
    ensures |InOrder(t)| == Size(t)
  {
    if t.Node? {
      InOrderLength(t.left);
      InOrderLength(t.right);
    }
  }

  /** The keys of the traversal are exactly the keys of the data-bearing nodes. */
  lemma {:induction false} InOrderKeys<V>(t: Tree<V>)
    ensures forall x :: x in KeySet(t) <==> HasKey(InOrder(t), x)
  {
    if t.Node? {
      InOrderKeys(t.left);
      InOrderKeys(t.right);
      var a, e, b := InOrder(t.left), Entry(t.key, t.value), InOrder(t.right);
      var s := InOrder(t);
      assert s == a + [e] + b;
      forall x
        ensures x in KeySet(t) <==> HasKey(s, x)
      {
        if x in KeySet(t.left) {
          var i :| 0 <= i < |a| && a[i].key == x;
          assert s[i] == a[i];
        } else if x in KeySet(t.right) {
          var i :| 0 <= i < |b| && b[i].key == x;
          assert s[|a| + 1 + i] == b[i];
        } else if x == t.key {
          assert s[|a|] == e;
        }
        if HasKey(s, x) {
          var i :| 0 <= i < |s| && s[i].key == x;
          if i < |a| {
            assert a[i] == s[i];
          } else if |a| < i {
            assert b[i - |a| - 1] == s[i];
          }
        }
      }
    }
  }

  /** The search-tree property and the sorted traversal are the same thing:
      the in-order walk of a search tree visits keys in ascending order, and
      a tree whose walk is ascending is a search tree. */
  lemma {:induction false} SearchTreeIffOrdered<V>(t: Tree<V>)
    ensures IsSearchTree(t) <==> Ordered(t)
  {
    if t.Node? {
      SearchTreeIffOrdered(t.left);
      SearchTreeIffOrdered(t.right);
      InOrderKeys(t.left);
      InOrderKeys(t.right);
      var a, b := InOrder(t.left), InOrder(t.right);
      SortedSplit(a, Entry(t.key, t.value), b);
      forall x | x in KeySet(t.left)
        ensures HasKey(a, x)
      {
      }
      forall x | x in KeySet(t.right)
        ensures HasKey(b, x)
      {
      }
      forall i | 0 <= i < |a|
        ensures a[i].key in KeySet(t.left)
      {
        assert HasKey(a, a[i].key);
      }
      forall i | 0 <= i < |b|
        ensures b[i].key in KeySet(t.right)
      {
        assert HasKey(b, b[i].key);
      }
    }
  }

  /** Trees of the same shape have the same colour invariants and keys. */
  lemma {:induction false} SameShapeInvariants<V>(a: Tree<V>, b: Tree<V>)
    requires SameShape(a, b)
    ensures NoRedRed(a) == NoRedRed(b) && BlackBalanced(a) == BlackBalanced(b)
    ensures ColorOf(a) == ColorOf(b) && BlackHeight(a) == BlackHeight(b)
    ensures |InOrder(a)| == |InOrder(b)|
    ensures forall i :: 0 <= i < |InOrder(a)| ==> InOrder(a)[i].key == InOrder(b)[i].key
  {
    if a.Node? {
      SameShapeInvariants(a.left, b.left);
      SameShapeInvariants(a.right, b.right);
      var la, lb := InOrder(a.left), InOrder(b.left);
      forall i | 0 <= i < |InOrder(a)|
        ensures InOrder(a)[i].key == InOrder(b)[i].key
      {
        if i < |la| {
          assert InOrder(a)[i] == la[i] && InOrder(b)[i] == lb[i];
        } else if i > |la| {
          assert InOrder(a)[i] == InOrder(a.right)[i - |la| - 1];
          assert InOrder(b)[i] == InOrder(b.right)[i - |la| - 1];
        }
      }
    }
  }

  /** The entry of the rightmost data-bearing node: the last one the
      traversal visits. */
  function Rightmost<V>(t: Tree<V>): (e: Entry<V>)
    requires t.Node?
    ensures InOrder(t) != [] && e == InOrder(t)[|InOrder(t)| - 1]
  {
    if t.right.Leaf? then Entry(t.key, t.value) else Rightmost(t.right)
  }

  /** Predecessor: None for a sentinel; the node itself when its left child
      is a sentinel; otherwise the rightmost node of the left subtree. */
  function Predecessor<V>(t: Tree<V>): (r: Option<Entry<V>>)
    ensures r.None? <==> t.Leaf?
    ensures t.Node? && t.left.Leaf? ==> r == Some(Entry(t.key, t.value))
    ensures t.Node? && t.left.Node? ==>
              r.Some? && InOrder(t.left) == InOrder(t.left)[..|InOrder(t.left)| - 1] + [r.value]
  {
    if t.Leaf? then None
    else if t.left.Leaf? then Some(Entry(t.key, t.value))
    else
      var e := Rightmost(t.left);
      assert InOrder(t.left) == InOrder(t.left)[..|InOrder(t.left)| - 1] + [e];
      Some(e)
  }

  /** In an ordered tree with a non-empty left subtree, the predecessor holds
      the largest key below the node's key, and it is stored in the tree. */
  lemma PredecessorIsLargestBelow<V>(t: Tree<V>)
    requires Ordered(t) && t.Node? && t.left.Node?
    ensures var e := Predecessor(t).value;
            && e.key < t.key
            && HasKey(InOrder(t), e.key)
            && forall i :: 0 <= i < |InOrder(t)| && InOrder(t)[i].key < t.key ==> InOrder(t)[i].key <= e.key
  {
    var e := Predecessor(t).value;
    var a, b := InOrder(t.left), InOrder(t.right);
    var s := InOrder(t);
    SortedSplit(a, Entry(t.key, t.value), b);
    var a' := a[..|a| - 1];
    assert a == a' + [e];
    assert s[|a| - 1] == e;
    SortedSplit(a', e, []);
    assert a' + [e] + [] == a;
    forall i | |a| < i < |s|
      ensures t.key < s[i].key
    {
      assert s[i] == b[i - |a| - 1];
    }
    forall i | 0 <= i < |a| - 1
      ensures s[i].key < e.key
    {
      assert s[i] == a'[i];
    }
  }

  /** rotateLeft: the right child (the pivot) rises, the node sinks to its
      left, and the pivot's inner (left) child moves across. Colours stay with
      their nodes. */
  function RotateLeft<V>(t: Tree<V>): (r: Tree<V>)
    requires t.Node? && t.right.Node?
    ensures InOrder(r) == InOrder(t)
    ensures r.Node? && r.left.Node?
    ensures r.left.left == t.left && r.left.right == t.right.left && r.right == t.right.right
    ensures r.color == t.right.color && r.left.color == t.color
  {
    var pivot := t.right;
    Node(pivot.color, Node(t.color, t.left, t.key, t.value, pivot.left), pivot.key, pivot.value, pivot.right)
  }

  /** rotateRight: the mirror image of `RotateLeft`. */
  function RotateRight<V>(t: Tree<V>): (r: Tree<V>)
    requires t.Node? && t.left.Node?
    ensures InOrder(r) == InOrder(t)
    ensures r.Node? && r.right.Node?
    ensures r.right.right == t.right && r.right.left == t.left.right && r.left == t.left.left
    ensures r.color == t.left.color && r.right.color == t.color
  {
    var pivot := t.left;
    Node(pivot.color, pivot.left, pivot.key, pivot.value, Node(t.color, pivot.right, t.key, t.value, t.right))
  }

  /** The two rotations undo each other. */
  lemma RotationsInverse<V>(t: Tree<V>)
    ensures t.Node? && t.right.Node? ==> RotateRight(RotateLeft(t)) == t
    ensures t.Node? && t.left.Node? ==> RotateLeft(RotateRight(t)) == t
  {
  }
}
