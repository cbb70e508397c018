/** Deletion: `erase` and `balanceRemoval` of rbtree.c. */
module Removal {
  import opened Entries
  import opened RBTree
  import opened Zipper

  /** The state `balanceRemoval` is entered with: the subtree at the focus
      is sound but one BLACK node short compared with its path, and the path
      itself keeps all the other invariants. */
  ghost predicate Deficient<V>(n: Tree<V>, p: Path<V>) {
    && NoRedRed(n) && BlackBalanced(n)
    && PathRedOk(p, Black)
    && PathBalanced(p, BlackHeight(n) + 1)
    && TopBlack(p)
  }

  /** A subtree free of red-red edges, balanced at black height `h`, whatever
      the colour of its root. */
  ghost predicate Fine<V>(t: Tree<V>, h: nat) {
    NoRedRed(t) && BlackBalanced(t) && BlackHeight(t) == h
  }

  /** Sibling RED: the sibling turns BLACK, the parent RED, and the parent is
      rotated towards the focus. The focus keeps its place under the (now
      RED) parent and gets a BLACK sibling; the old sibling takes the
      parent's place. The result is the focus's new path. */
  function RotateRedSibling<V>(n: Tree<V>, p: Path<V>): (q: Path<V>)
    requires Deficient(n, p) && ColorOf(n) == Black && p.Up? && ColorOf(p.sibling) == Red
    ensures q.Up? && q.side == p.side && q.color == Red && ColorOf(q.sibling) == Black
    ensures Deficient(n, q)
    ensures q.up.Up? && q.up.up == p.up
    ensures InOrder(Plug(n, q)) == InOrder(Plug(n, p))
  {
    var s := p.sibling;
    var h := BlackHeight(n);
    assert p.color == Black && PathRedOk(p.up, Black) && PathBalanced(p.up, h + 2);
    assert Fine(s.left, h + 1) && Fine(s.right, h + 1);
    var parent := Attach(n, p.(color := Red, sibling := Paint(s, Black)));
    var top := if p.side == LeftChild then RotateLeft(parent) else RotateRight(parent);
    var q :=
      if p.side == LeftChild then
        Up(LeftChild, Red, p.key, p.value, s.left, Up(LeftChild, Black, s.key, s.value, s.right, p.up))
      else
        Up(RightChild, Red, p.key, p.value, s.right, Up(RightChild, Black, s.key, s.value, s.left, p.up));
    assert Plug(n, q) == Plug(top, p.up);
    PlugSameInOrder(top, parent, p.up);
    PlugSameInOrder(Attach(n, p), parent, p.up);
    q
  }

  /** Both nephews BLACK: the sibling turns RED and the parent BLACK. The
      parent's subtree becomes sound, but, when the parent was BLACK before,
      still one BLACK node short. */
  function AbsorbIntoParent<V>(n: Tree<V>, q: Path<V>): (m: Tree<V>)
    requires Deficient(n, q) && ColorOf(n) == Black && q.Up?
    requires q.sibling.Node? && q.sibling.color == Black
    requires ColorOf(q.sibling.left) == Black && ColorOf(q.sibling.right) == Black
    ensures NoRedRed(m) && BlackBalanced(m) && ColorOf(m) == Black
    ensures BlackHeight(m) == BlackHeight(n) + 1
    ensures InOrder(m) == InOrder(Attach(n, q))
  {
    var s := q.sibling;
    assert BlackHeight(s.left) == BlackHeight(n);
    Attach(n, q.(color := Black, sibling := Paint(s, Red)))
  }

  /** A node of colour `c` with two BLACK children over four fine subtrees
      of equal height is fine: the shape both far-nephew cases end in. */
  lemma TwoBlackChildren<V>(t: Tree<V>, h: nat)
    requires t.Node? && t.left.Node? && t.right.Node?
    requires t.left.color == Black && t.right.color == Black
    requires Fine(t.left.left, h) && Fine(t.left.right, h)
    requires Fine(t.right.left, h) && Fine(t.right.right, h)
    ensures Fine(t, h + 1 + (if t.color == Black then 1 else 0))
  {
  }

  /** A nephew RED, the near one only: the sibling turns RED, the near
      nephew BLACK, and the sibling is rotated away from the focus, so that
      afterwards the far nephew is RED. Otherwise the sibling is unchanged. */
  function FarNephewRed<V>(s: Tree<V>, side: Side): (s1: Tree<V>)
    requires s.Node? && s.color == Black && NoRedRed(s) && BlackBalanced(s)
    requires ColorOf(s.left) == Red || ColorOf(s.right) == Red
    ensures s1.Node? && s1.color == Black && NoRedRed(s1) && BlackBalanced(s1)
    ensures BlackHeight(s1) == BlackHeight(s) && InOrder(s1) == InOrder(s)
    ensures side == LeftChild ==> ColorOf(s1.right) == Red
    ensures side == RightChild ==> ColorOf(s1.left) == Red
  {
    var h := BlackHeight(s.left);
    if side == LeftChild && ColorOf(s.left) == Red && ColorOf(s.right) == Black then
      var near := s.left;
      assert NoRedRed(near) && BlackBalanced(near) && near.color == Red;
      assert Fine(near.left, h) && Fine(near.right, h) && ColorOf(near.right) == Black;
      var inner := Node(Red, near.right, s.key, s.value, s.right);
      assert NoRedRed(inner) && BlackBalanced(inner) && BlackHeight(inner) == h;
      RotateRight(s.(color := Red, left := Paint(near, Black)))
    else if side == RightChild && ColorOf(s.right) == Red && ColorOf(s.left) == Black then
      var near := s.right;
      assert NoRedRed(near) && BlackBalanced(near) && near.color == Red;
      assert Fine(near.left, h) && Fine(near.right, h) && ColorOf(near.left) == Black;
      var inner := Node(Red, s.left, s.key, s.value, near.left);
      assert NoRedRed(inner) && BlackBalanced(inner) && BlackHeight(inner) == h;
      RotateLeft(s.(color := Red, right := Paint(near, Black)))
    else
      s
  }

  /** A nephew RED: once the far nephew is RED, the sibling takes the
      parent's colour, parent and far nephew turn BLACK, and the parent is
      rotated towards the focus. The result replaces the parent's subtree
      and is no longer short. */
  function RotateFarNephew<V>(n: Tree<V>, q: Path<V>): (t: Tree<V>)
    requires Deficient(n, q) && ColorOf(n) == Black && q.Up?
    requires q.sibling.Node? && q.sibling.color == Black
    requires ColorOf(q.sibling.left) == Red || ColorOf(q.sibling.right) == Red
    ensures NoRedRed(t) && BlackBalanced(t) && ColorOf(t) == q.color
    ensures BlackHeight(t) == BlackHeight(n) + 1 + (if q.color == Black then 1 else 0)
    ensures InOrder(t) == InOrder(Attach(n, q))
  {
    var h := BlackHeight(n);
    assert Fine(q.sibling, h + 1);
    var s1 := FarNephewRed(q.sibling, q.side);
    if q.side == LeftChild then RotateTowardsLeft(n, q.color, q.key, q.value, s1, h)
    else RotateTowardsRight(s1, q.color, q.key, q.value, n, h)
  }

  /** The last step with the focus `n` on the left: the parent (`k`, `v`)
      turns BLACK, the sibling `s` takes the parent's old colour `c`, the RED
      far nephew turns BLACK, and the parent is rotated left. */
  function RotateTowardsLeft<V>(n: Tree<V>, c: Color, k: int, v: V, s: Tree<V>, h: nat): (t: Tree<V>)
    requires Fine(n, h) && ColorOf(n) == Black
    requires s.Node? && s.color == Black && Fine(s, h + 1) && ColorOf(s.right) == Red
    ensures Fine(t, h + 1 + (if c == Black then 1 else 0)) && ColorOf(t) == c
    ensures InOrder(t) == InOrder(n) + [Entry(k, v)] + InOrder(s)
  {
    var far := s.right;
    assert NoRedRed(far) && BlackBalanced(far) && far.color == Red;
    assert Fine(s.left, h) && Fine(far.left, h) && Fine(far.right, h);
    var sib := s.(color := c, right := Paint(far, Black));
    assert InOrder(sib) == InOrder(s);
    var t := RotateLeft(Node(Black, n, k, v, sib));
    TwoBlackChildren(t, h);
    t
  }

  /** The mirror image of `RotateTowardsLeft`, with the focus `n` on the right. */
  function RotateTowardsRight<V>(s: Tree<V>, c: Color, k: int, v: V, n: Tree<V>, h: nat): (t: Tree<V>)
    requires Fine(n, h) && ColorOf(n) == Black
    requires s.Node? && s.color == Black && Fine(s, h + 1) && ColorOf(s.left) == Red
    ensures Fine(t, h + 1 + (if c == Black then 1 else 0)) && ColorOf(t) == c
    ensures InOrder(t) == InOrder(s) + [Entry(k, v)] + InOrder(n)
  {
    var far := s.left;
    assert NoRedRed(far) && BlackBalanced(far) && far.color == Red;
    assert Fine(s.right, h) && Fine(far.left, h) && Fine(far.right, h);
    var sib := s.(color := c, left := Paint(far, Black));
    assert InOrder(sib) == InOrder(s);
    var t := RotateRight(Node(Black, sib, k, v, n));
    TwoBlackChildren(t, h);
    t
  }

  /** `balanceRemoval`: repair a focus that is one BLACK node short, climbing
      towards the root while the deficit persists, and return the whole tree. */
  function BalanceRemoval<V>(n: Tree<V>, p: Path<V>): (t: Tree<V>)
    requires Deficient(n, p)
    ensures RedBlack(t)
    ensures InOrder(t) == InOrder(Plug(n, p))
    decreases p
  {
    if ColorOf(n) == Red then
      // a RED focus absorbs the deficit by turning BLACK
      var b := Paint(n, Black);
      assert BlackHeight(b) == BlackHeight(n) + 1 && InOrder(b) == InOrder(n);
      PlugRedBlack(b, p);
      PlugSameInOrder(b, n, p);
      Plug(b, p)
    else if p.Top? then
      // the root: every path is short by the same amount
      n
    else
      var q := if ColorOf(p.sibling) == Red then RotateRedSibling(n, p) else p;
      var h := BlackHeight(n);
      assert PathBalanced(q, h + 1);
      assert q.sibling.Node? && q.sibling.color == Black;
      if ColorOf(q.sibling.left) == Black && ColorOf(q.sibling.right) == Black then
        var m := AbsorbIntoParent(n, q);
        PlugSameInOrder(m, Attach(n, q), q.up);
        assert PathRedOk(q.up, q.color) && TopBlack(q.up);
        if q.color == Black then
          BalanceRemoval(m, q.up)
        else
          PathRedOkBlack(q.up);
          PlugRedBlack(m, q.up);
          Plug(m, q.up)
      else
        var top := RotateFarNephew(n, q);
        PlugSameInOrder(top, Attach(n, q), q.up);
        PlugRedBlack(top, q.up);
        Plug(top, q.up)
  }

  /** The descent of `erase`, from focus `t` at path `p`, deleting `k`.
      A node with the key and two data-bearing children takes over its
      predecessor's key and value, and the descent goes on into its left
      subtree, now deleting the predecessor's key. A node with the key and
      at most one data-bearing child is replaced by that child (or by a
      sentinel), and when the removed node was BLACK the replacement is
      rebalanced. Reaching a sentinel means the key is absent (NULL). */
  function EraseFrom<V>(t: Tree<V>, p: Path<V>, k: int): (r: Option<Tree<V>>)
    requires RedBlack(Plug(t, p))
    requires Sorted(InOrder(t))
    ensures r.Some? <==> HasKey(InOrder(t), k)
    ensures r.Some? ==> RedBlack(r.value)
    ensures r.Some? ==> InOrder(r.value) == Before(p) + RemoveKey(InOrder(t), k) + After(p)
    decreases t
  {
    match t
    case Leaf => None
    case Node(c, l, nk, v, rt) =>
      if Compare(nk, k) < 0 then
        var q := Up(RightChild, c, nk, v, l, p);
        assert Plug(rt, q) == Plug(t, p);
        EraseRight(t, k);
        assert Before(q) == Before(p) + InOrder(l) + [Entry(nk, v)] && After(q) == After(p);
        SeqRegroup(Before(p), InOrder(l), [Entry(nk, v)], RemoveKey(InOrder(rt), k), After(p));
        EraseFrom(rt, q, k)
      else if Compare(nk, k) > 0 then
        var q := Up(LeftChild, c, nk, v, rt, p);
        assert Plug(l, q) == Plug(t, p);
        EraseLeft(t, k);
        assert Before(q) == Before(p) && After(q) == [Entry(nk, v)] + InOrder(rt) + After(p);
        SeqRegroup(Before(p), RemoveKey(InOrder(l), k), [Entry(nk, v)], InOrder(rt), After(p));
        EraseFrom(l, q, k)
      else if !IsNil(l) && !IsNil(rt) then
        var pred := Predecessor(t).value;
        var q := Up(LeftChild, c, pred.key, pred.value, rt, p);
        CopyPredecessor(t, p);
        var r := EraseFrom(l, q, pred.key);
        SeqRegroup(Before(p), RemoveKey(InOrder(l), pred.key), [pred], InOrder(rt), After(p));
        r
      else
        Some(SpliceOut(t, p))
  }

  /** The node with the key has at most one data-bearing child: that child
      (or a sentinel) takes its place, and when the removed node was BLACK
      the replacement is rebalanced. */
  function SpliceOut<V>(t: Tree<V>, p: Path<V>): (r: Tree<V>)
    requires t.Node? && (IsNil(t.left) || IsNil(t.right))
    requires RedBlack(Plug(t, p)) && Sorted(InOrder(t))
    ensures RedBlack(r)
    ensures HasKey(InOrder(t), t.key)
    ensures InOrder(r) == Before(p) + RemoveKey(InOrder(t), t.key) + After(p)
    ensures t.color == Red ==> r == Plug(if t.left.Node? then t.left else t.right, p)
  {
    var child := if !IsNil(t.left) then t.left else t.right;
    Splice(t, p);
    InOrderPlug(child, p);
    if t.color == Black then BalanceRemoval(child, p) else Plug(child, p)
  }

  /** Going right past a smaller key: the key is in the right subtree or
      nowhere, and the left part of the traversal is untouched. */
  lemma EraseRight<V>(t: Tree<V>, k: int)
    requires t.Node? && t.key < k && Sorted(InOrder(t))
    ensures Sorted(InOrder(t.right))
    ensures HasKey(InOrder(t), k) <==> HasKey(InOrder(t.right), k)
    ensures RemoveKey(InOrder(t), k) == InOrder(t.left) + [Entry(t.key, t.value)] + RemoveKey(InOrder(t.right), k)
  {
    var a, e, b := InOrder(t.left), Entry(t.key, t.value), InOrder(t.right);
    SortedParts(a, e, b);
    AllBelowConcat(a, [e], k);
    RemoveKeyBelow(a + [e], b, k);
  }

  /** Going left past a larger key: the mirror image of `EraseRight`. */
  lemma EraseLeft<V>(t: Tree<V>, k: int)
    requires t.Node? && k < t.key && Sorted(InOrder(t))
    ensures Sorted(InOrder(t.left))
    ensures HasKey(InOrder(t), k) <==> HasKey(InOrder(t.left), k)
    ensures RemoveKey(InOrder(t), k) == RemoveKey(InOrder(t.left), k) + [Entry(t.key, t.value)] + InOrder(t.right)
  {
    var a, e, b := InOrder(t.left), Entry(t.key, t.value), InOrder(t.right);
    SortedParts(a, e, b);
    AllAboveConcat([e], b, k);
    assert InOrder(t) == a + ([e] + b);
    RemoveKeyAbove(a, [e] + b, k);
    assert RemoveKey(a, k) + ([e] + b) == RemoveKey(a, k) + [e] + b;
  }

  /** Two data-bearing children: the node takes over its predecessor's key
      and value. The tree keeps its colours, the predecessor's key is in the
      left subtree, and deleting it there, with the copied entry kept in
      place, deletes `k` from the node's traversal. */
  lemma CopyPredecessor<V>(t: Tree<V>, p: Path<V>)
    requires t.Node? && t.left.Node? && t.right.Node?
    requires RedBlack(Plug(t, p)) && Sorted(InOrder(t))
    ensures var pred := Predecessor(t).value;
            var q := Up(LeftChild, t.color, pred.key, pred.value, t.right, p);
            && RedBlack(Plug(t.left, q))
            && Sorted(InOrder(t.left))
            && HasKey(InOrder(t), t.key) && HasKey(InOrder(t.left), pred.key)
            && RemoveKey(InOrder(t), t.key) == RemoveKey(InOrder(t.left), pred.key) + [pred] + InOrder(t.right)
            && Before(q) == Before(p) && After(q) == [pred] + InOrder(t.right) + After(p)
  {
    var pred := Predecessor(t).value;
    var a, e, b := InOrder(t.left), Entry(t.key, t.value), InOrder(t.right);
    var a' := a[..|a| - 1];
    assert a == a' + [pred];
    SortedParts(a, e, b);
    RemoveKeyAt(a, e, b);
    assert a' + [pred] + [] == a;
    RemoveKeyAt(a', pred, []);
    assert a' + [] == a';
    var t' := t.(key := pred.key, value := pred.value);
    PlugRedBlack(t, p);
    PlugRedBlack(t', p);
  }

  /** At most one data-bearing child: the node's place is taken by that
      child, or by a sentinel, which removes exactly `k`. A BLACK node
      leaves its replacement one BLACK node short; a RED node has two
      sentinel children and leaves the tree intact. */
  lemma Splice<V>(t: Tree<V>, p: Path<V>)
    requires t.Node? && (t.left.Leaf? || t.right.Leaf?)
    requires RedBlack(Plug(t, p)) && Sorted(InOrder(t))
    ensures var child := if t.left.Node? then t.left else t.right;
            && HasKey(InOrder(t), t.key)
            && RemoveKey(InOrder(t), t.key) == InOrder(child)
            && (t.color == Black ==> Deficient(child, p))
            && (t.color == Red ==> RedBlack(Plug(child, p)))
  {
    var child := if t.left.Node? then t.left else t.right;
    var a, e, b := InOrder(t.left), Entry(t.key, t.value), InOrder(t.right);
    RemoveKeyAt(a, e, b);
    assert a + b == InOrder(child);
    PlugRedBlack(t, p);
    assert BlackHeight(child) == 1;
    if t.color == Red {
      assert child.Leaf?;
      PathRedOkBlack(p);
      PlugRedBlack(child, p);
    }
  }

  /** `erase`: delete `k` from the whole tree; None (NULL) when `k` is absent. */
  function Erase<V>(t: Tree<V>, k: int): (r: Option<Tree<V>>)
    requires Valid(t)
    ensures r.Some? <==> HasKey(InOrder(t), k)
    ensures r.Some? ==> Valid(r.value) && InOrder(r.value) == RemoveKey(InOrder(t), k)
  {
    var r := EraseFrom(t, Top, k);
    assert [] + RemoveKey(InOrder(t), k) + [] == RemoveKey(InOrder(t), k);
    SortedRemoveKey(InOrder(t), k);
    r
  }

  /** Deleting from a valid map reports an absent key and otherwise leaves a
      valid map without `k`, one entry smaller, all other entries as they were. */
  lemma EraseCorrect<V>(t: Tree<V>, k: int)
    requires Valid(t)
    ensures Erase(t, k).None? <==> k !in Contents(t)
    ensures Erase(t, k).Some? ==>
              && Valid(Erase(t, k).value)
              && Contents(Erase(t, k).value) == Contents(t) - {k}
              && Size(Erase(t, k).value) == Size(t) - 1
  {
    var s := InOrder(t);
    MapOfKeys(s, k);
    var r := Erase(t, k);
    if r.Some? {
      var s' := InOrder(r.value);
      MapOfRemoveKey(s, k);
      SortedMapSize(s);
      SortedMapSize(s');
      InOrderLength(t);
      InOrderLength(r.value);
      assert MapOf(s).Keys - {k} == MapOf(s').Keys;
    }
  }
}
