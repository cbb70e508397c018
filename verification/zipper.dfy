/** Parent links as a zipper: a focused subtree together with the path of its
    ancestors. `Parent`, `Sibling`, `Uncle`, `isLeft`/`isRight` and `Root`
    of rbtree.c become reads of the path, and parent/child links are
    consistent by construction. Also the BST descent shared by `find`, `add`
    and `erase`. */
module Zipper {
  import opened Entries
  import opened RBTree

  /** Which child of its parent the focus is. */
  datatype Side = LeftChild | RightChild

  /** The ancestors of a focus, innermost (the parent) first. Each frame is
      the parent node with the focus cut out: the focus's side, the parent's
      colour and payload, and the focus's sibling. `Top` means the focus is
      the root. */
  datatype Path<V> = Top | Up(side: Side, color: Color, key: int, value: V, sibling: Tree<V>, up: Path<V>)

  /** Rebuild the parent node with `t` as the child on the frame's side. */
  function Attach<V>(t: Tree<V>, p: Path<V>): (r: Tree<V>)
    requires p.Up?
    ensures r.Node? && r.color == p.color && r.key == p.key && r.value == p.value
    ensures p.side == LeftChild ==> r.left == t && r.right == p.sibling
    ensures p.side == RightChild ==> r.right == t && r.left == p.sibling
  {
    if p.side == LeftChild then Node(p.color, t, p.key, p.value, p.sibling)
    else Node(p.color, p.sibling, p.key, p.value, t)
  }

  /** Climb to the top and return the whole tree (the source's `Root`). */
  function Plug<V>(t: Tree<V>, p: Path<V>): Tree<V>
    decreases p
  {
    match p
    case Top => t
    case Up(_, _, _, _, _, up) => Plug(Attach(t, p), up)
  }

  /** The entries the traversal visits before the focus. */
  function Before<V>(p: Path<V>): seq<Entry<V>> {
    match p
    case Top => []
    case Up(side, _, k, v, s, up) =>
      if side == LeftChild then Before(up) else Before(up) + InOrder(s) + [Entry(k, v)]
  }

  /** The entries the traversal visits after the focus. */
  function After<V>(p: Path<V>): seq<Entry<V>> {
    match p
    case Top => []
    case Up(side, _, k, v, s, up) =>
      if side == LeftChild then [Entry(k, v)] + InOrder(s) + After(up) else After(up)
  }

  /** The path carries no red-red edge, provided the focus has colour `c`
      and is itself free of red-red edges. */
  ghost predicate PathRedOk<V>(p: Path<V>, c: Color) {
    match p
    case Top => true
    case Up(_, pc, _, _, s, up) =>
      && NoRedRed(s)
      && (pc == Red ==> c == Black && ColorOf(s) == Black)
      && PathRedOk(up, pc)
  }

  /** The path is black-balanced around a balanced focus of black height `h`. */
  ghost predicate PathBalanced<V>(p: Path<V>, h: nat) {
    match p
    case Top => true
    case Up(_, pc, _, _, s, up) =>
      && BlackBalanced(s)
      && BlackHeight(s) == h
      && PathBalanced(up, h + (if pc == Black then 1 else 0))
  }

  /** The outermost frame, the root, is BLACK (vacuous for the empty path). */
  ghost predicate TopBlack<V>(p: Path<V>) {
    match p
    case Top => true
    case Up(_, pc, _, _, _, up) => if up.Top? then pc == Black else TopBlack(up)
  }

  /** The root of the plugged tree is BLACK. */
  ghost predicate RootBlack<V>(t: Tree<V>, p: Path<V>) {
    if p.Top? then ColorOf(t) == Black else TopBlack(p)
  }

  /** The traversal of the whole tree is the entries before the focus, the
      focus's own, and the entries after it. */
  lemma {:induction false} InOrderPlug<V>(t: Tree<V>, p: Path<V>)
    ensures InOrder(Plug(t, p)) == Before(p) + InOrder(t) + After(p)
    decreases p
  {
    if p.Up? {
      var a := Attach(t, p);
      InOrderPlug(a, p.up);
      var e, s := Entry(p.key, p.value), InOrder(p.sibling);
      var bu, au := Before(p.up), After(p.up);
      if p.side == LeftChild {
        SeqRegroup(bu, InOrder(t), [e], s, au);
      } else {
        SeqRegroup(bu, s, [e], InOrder(t), au);
      }
    }
  }

  /** Replacing the focus by one with the same traversal leaves the whole
      traversal unchanged. */
  lemma PlugSameInOrder<V>(a: Tree<V>, b: Tree<V>, p: Path<V>)
    requires InOrder(a) == InOrder(b)
    ensures InOrder(Plug(a, p)) == InOrder(Plug(b, p))
  {
    InOrderPlug(a, p);
    InOrderPlug(b, p);
  }

  /** The colour invariants of the whole tree, split into those of the focus
      and those of its path. */
  lemma {:induction false} PlugRedBlack<V>(t: Tree<V>, p: Path<V>)
    ensures NoRedRed(Plug(t, p)) <==> NoRedRed(t) && PathRedOk(p, ColorOf(t))
    ensures BlackBalanced(Plug(t, p)) <==> BlackBalanced(t) && PathBalanced(p, BlackHeight(t))
    ensures ColorOf(Plug(t, p)) == Black <==> RootBlack(t, p)
    decreases p
  {
    if p.Up? {
      var a := Attach(t, p);
      PlugRedBlack(a, p.up);
      if BlackBalanced(a) {
        assert BlackHeight(t) == BlackHeight(p.sibling);
      }
    }
  }

  /** Trees of the same shape plug into the same path to trees of the same shape. */
  lemma {:induction false} PlugSameShape<V>(a: Tree<V>, b: Tree<V>, p: Path<V>)
    requires SameShape(a, b)
    ensures SameShape(Plug(a, p), Plug(b, p))
    decreases p
  {
    if p.Up? {
      assert SameShape(p.sibling, p.sibling) by { SameShapeRefl(p.sibling); }
      PlugSameShape(Attach(a, p), Attach(b, p), p.up);
    }
  }

  lemma {:induction false} SameShapeRefl<V>(t: Tree<V>)
    ensures SameShape(t, t)
  {
    if t.Node? {
      SameShapeRefl(t.left);
      SameShapeRefl(t.right);
    }
  }

  /** A path that accepts a RED focus accepts a BLACK one. */
  lemma PathRedOkBlack<V>(p: Path<V>)
    requires PathRedOk(p, Red)
    ensures PathRedOk(p, Black)
  {
  }

  /** The BST descent of `find`, `add` and `erase`: go right while the node's
      key compares below the search key, left while it compares above, and
      stop on an equal key or on a sentinel. */
  function Descend<V>(t: Tree<V>, k: int, p: Path<V>): (z: (Tree<V>, Path<V>))
    ensures Plug(z.0, z.1) == Plug(t, p)
    ensures z.0.Leaf? || z.0.key == k
    decreases t
  {
    match t
    case Leaf => (t, p)
    case Node(c, l, nk, v, r) =>
      if Compare(nk, k) < 0 then Descend(r, k, Up(RightChild, c, nk, v, l, p))
      else if Compare(nk, k) > 0 then Descend(l, k, Up(LeftChild, c, nk, v, r, p))
      else (t, p)
  }

  /** On an ordered tree the descent separates the entries: everything
      before the place it stops is below `k`, everything after is above, and
      the place holds `k` or is a sentinel. */
  lemma {:induction false} DescendSeparates<V>(t: Tree<V>, k: int, p: Path<V>)
    requires Sorted(Before(p) + InOrder(t) + After(p))
    requires AllBelow(Before(p), k) && AllAbove(After(p), k)
    ensures var z := Descend(t, k, p);
            && AllBelow(Before(z.1), k) && AllAbove(After(z.1), k)
            && Before(z.1) + InOrder(z.0) + After(z.1) == Before(p) + InOrder(t) + After(p)
    decreases t
  {
    if t.Node? {
      if t.key < k {
        var q := Up(RightChild, t.color, t.key, t.value, t.left, p);
        DescendRightStep(t, k, p);
        DescendSeparates(t.right, k, q);
      } else if t.key > k {
        var q := Up(LeftChild, t.color, t.key, t.value, t.right, p);
        DescendLeftStep(t, k, p);
        DescendSeparates(t.left, k, q);
      }
    }
  }

  /** A step to the right keeps the separation of the entries. */
  lemma DescendRightStep<V>(t: Tree<V>, k: int, p: Path<V>)
    requires t.Node? && t.key < k
    requires Sorted(Before(p) + InOrder(t) + After(p))
    requires AllBelow(Before(p), k) && AllAbove(After(p), k)
    ensures var q := Up(RightChild, t.color, t.key, t.value, t.left, p);
            && Before(q) + InOrder(t.right) + After(q) == Before(p) + InOrder(t) + After(p)
            && AllBelow(Before(q), k) && AllAbove(After(q), k)
  {
    var a, e, b := InOrder(t.left), Entry(t.key, t.value), InOrder(t.right);
    var bp, ap := Before(p), After(p);
    var q := Up(RightChild, t.color, t.key, t.value, t.left, p);
    assert InOrder(t) == a + [e] + b;
    SeqRegroup(bp, a, [e], b, ap);
    SortedParts(bp + a, e, b + ap);
    AllBelowRaise(bp + a, e.key, k);
    assert AllBelow([e], k);
    AllBelowConcat(bp + a, [e], k);
    assert Before(q) == bp + a + [e];
  }

  /** A step to the left keeps the separation of the entries. */
  lemma DescendLeftStep<V>(t: Tree<V>, k: int, p: Path<V>)
    requires t.Node? && k < t.key
    requires Sorted(Before(p) + InOrder(t) + After(p))
    requires AllBelow(Before(p), k) && AllAbove(After(p), k)
    ensures var q := Up(LeftChild, t.color, t.key, t.value, t.right, p);
            && Before(q) + InOrder(t.left) + After(q) == Before(p) + InOrder(t) + After(p)
            && AllBelow(Before(q), k) && AllAbove(After(q), k)
  {
    var a, e, b := InOrder(t.left), Entry(t.key, t.value), InOrder(t.right);
    var bp, ap := Before(p), After(p);
    var q := Up(LeftChild, t.color, t.key, t.value, t.right, p);
    assert InOrder(t) == a + [e] + b;
    SeqRegroup(bp, a, [e], b, ap);
    SortedParts(bp + a, e, b + ap);
    AllAboveLower(b + ap, e.key, k);
    assert AllAbove([e], k);
    AllAboveConcat([e], b + ap, k);
    assert After(q) == [e] + (b + ap) by {
      assert After(q) == [e] + b + ap;
    }
  }

  lemma SeqRegroup<T>(bp: seq<T>, a: seq<T>, e: seq<T>, b: seq<T>, ap: seq<T>)
    ensures bp + (a + e + b) + ap == (bp + a) + e + (b + ap)
    ensures bp + (a + e + b) + ap == (bp + a + e) + b + ap
    ensures bp + (a + e + b) + ap == bp + a + (e + b + ap)
  {
  }
}
