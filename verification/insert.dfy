/** Insertion with upsert: `insertNode`, `balanceInsert` and `add` of rbtree.c. */
module Insertion {
  import opened Entries
  import opened RBTree
  import opened Zipper
  import opened Search

  /** The state `balanceInsert` is entered with: the focus is a RED node whose
      own subtree is sound, and the only red-red edge that may exist is the
      one between the focus and its parent. Black heights already agree. */
  ghost predicate RedFocus<V>(n: Tree<V>, p: Path<V>) {
    && n.Node? && n.color == Red
    && NoRedRed(n) && BlackBalanced(n)
    && PathRedOk(p, Black)
    && PathBalanced(p, BlackHeight(n))
    && TopBlack(p)
  }

  /** `insertNode`: the sentinel reached by the descent gets two fresh
      sentinel children and the key and value, and turns RED. */
  function Promote<V>(k: int, v: V): (n: Tree<V>)
    ensures n.Node? && n.color == Red && n.key == k && n.value == v
    ensures IsNil(n.left) && IsNil(n.right)
    ensures InOrder(n) == [Entry(k, v)] && BlackHeight(n) == BlackHeight(NewNil<V>())
  {
    Node(Red, NewNil(), k, v, NewNil())
  }

  /** Uncle RED: parent and uncle turn BLACK, the grandparent turns RED and
      becomes the new focus, one level further up. */
  function RecolorUp<V>(n: Tree<V>, p: Path<V>): (g: Tree<V>)
    requires RedFocus(n, p) && p.Up? && p.color == Red && p.up.Up?
    requires ColorOf(p.up.sibling) == Red
    ensures RedFocus(g, p.up.up)
    ensures InOrder(g) == InOrder(Attach(Attach(n, p), p.up))
  {
    var h := BlackHeight(n);
    var gp := p.up;
    assert TopBlack(gp);
    assert PathRedOk(gp, Red) && PathBalanced(gp, h);
    var u := gp.sibling;
    assert gp.color == Black && PathRedOk(gp.up, Black) && PathBalanced(gp.up, h + 1);
    var parent := Attach(n, p.(color := Black));
    assert NoRedRed(parent) && BlackBalanced(parent) && BlackHeight(parent) == h + 1;
    var uncle := Paint(u, Black);
    assert NoRedRed(uncle) && BlackBalanced(uncle) && BlackHeight(uncle) == h + 1;
    Attach(parent, gp.(color := Red, sibling := uncle))
  }

  /** Uncle BLACK: when node and parent form a bend, rotate the parent to
      straighten it; then the grandparent turns RED, the (new) parent BLACK,
      and the grandparent is rotated away from the node. The result replaces
      the grandparent's subtree. */
  function RotateIntoLine<V>(n: Tree<V>, p: Path<V>): (t: Tree<V>)
    requires RedFocus(n, p) && p.Up? && p.color == Red && p.up.Up?
    requires ColorOf(p.up.sibling) == Black
    ensures NoRedRed(t) && BlackBalanced(t) && ColorOf(t) == Black
    ensures BlackHeight(t) == BlackHeight(n) + 1
    ensures InOrder(t) == InOrder(Attach(Attach(n, p), p.up))
  {
    var g := p.up;
    var h := BlackHeight(n);
    assert PathRedOk(g, Red) && PathBalanced(g, h);
    assert Sound(g.sibling, h) && Sound(p.sibling, h);
    assert Sound(n.left, h) && Sound(n.right, h);
    assert RedPair(Attach(n, p), p.side, h);
    if g.side == LeftChild then LineUpLeft(Attach(n, p), p.side, g.key, g.value, g.sibling, h)
    else LineUpRight(g.sibling, g.key, g.value, Attach(n, p), p.side, h)
  }

  /** A RED parent whose child on `side` is RED over two sound subtrees and
      whose other child is sound, all at height `h`. */
  ghost predicate RedPair<V>(pp: Tree<V>, side: Side, h: nat) {
    && pp.Node? && pp.color == Red
    && var (c, o) := if side == LeftChild then (pp.left, pp.right) else (pp.right, pp.left);
       c.Node? && c.color == Red && Sound(c.left, h) && Sound(c.right, h) && Sound(o, h)
  }

  /** The rotation case with the parent `pp` a left child of the grandparent
      (`k`, `v`) and the BLACK uncle `u` on the right. */
  function LineUpLeft<V>(pp: Tree<V>, side: Side, k: int, v: V, u: Tree<V>, h: nat): (t: Tree<V>)
    requires RedPair(pp, side, h) && Sound(u, h)
    ensures Sound(t, h + 1)
    ensures InOrder(t) == InOrder(pp) + [Entry(k, v)] + InOrder(u)
  {
    // a bend (the node is the right child) is first straightened
    var line := if side == RightChild then RotateLeft(pp) else pp;
    var t := RotateRight(Node(Red, Paint(line, Black), k, v, u));
    TwoRedChildren(t, h);
    t
  }

  /** The mirror image of `LineUpLeft`: the parent `pp` is a right child and
      the BLACK uncle `u` is on the left. */
  function LineUpRight<V>(u: Tree<V>, k: int, v: V, pp: Tree<V>, side: Side, h: nat): (t: Tree<V>)
    requires RedPair(pp, side, h) && Sound(u, h)
    ensures Sound(t, h + 1)
    ensures InOrder(t) == InOrder(u) + [Entry(k, v)] + InOrder(pp)
  {
    var line := if side == LeftChild then RotateRight(pp) else pp;
    var t := RotateLeft(Node(Red, u, k, v, Paint(line, Black)));
    TwoRedChildren(t, h);
    t
  }

  /** A sound subtree: BLACK root, no red-red edge, balanced at height `h`. */
  ghost predicate Sound<V>(t: Tree<V>, h: nat) {
    ColorOf(t) == Black && NoRedRed(t) && BlackBalanced(t) && BlackHeight(t) == h
  }

  /** A BLACK node with two RED children over four sound subtrees of equal
      height is sound: the shape both rotation cases of insertion end in. */
  lemma TwoRedChildren<V>(t: Tree<V>, h: nat)
    requires t.Node? && t.left.Node? && t.right.Node?
    requires t.color == Black && t.left.color == Red && t.right.color == Red
    requires Sound(t.left.left, h) && Sound(t.left.right, h)
    requires Sound(t.right.left, h) && Sound(t.right.right, h)
    ensures Sound(t, h + 1)
  {
  }

  /** `balanceInsert`: restore the red-black invariants after a RED node was
      attached, climbing towards the root, and return the whole tree. */
  function BalanceInsert<V>(n: Tree<V>, p: Path<V>): (t: Tree<V>)
    requires RedFocus(n, p)
    ensures RedBlack(t)
    ensures InOrder(t) == InOrder(Plug(n, p))
    decreases p
  {
    if p.Top? then
      // the focus is the root: it turns BLACK
      Paint(n, Black)
    else if p.color == Black then
      PlugRedBlack(n, p);
      Plug(n, p)
    else if ColorOf(p.up.sibling) == Red then
      var g := RecolorUp(n, p);
      PlugSameInOrder(g, Attach(Attach(n, p), p.up), p.up.up);
      BalanceInsert(g, p.up.up)
    else
      var top := RotateIntoLine(n, p);
      assert PathRedOk(p.up, Red) && PathBalanced(p.up, BlackHeight(n)) && TopBlack(p.up);
      assert PathRedOk(p.up.up, Black) && PathBalanced(p.up.up, BlackHeight(n) + 1);
      PlugRedBlack(top, p.up.up);
      PlugSameInOrder(top, Attach(Attach(n, p), p.up), p.up.up);
      Plug(top, p.up.up)
  }

  /** `add`: descend; on an equal key overwrite that node's value in place,
      otherwise promote the sentinel reached and rebalance. */
  function Add<V>(t: Tree<V>, k: int, v: V): (r: Tree<V>)
    requires RedBlack(t)
    ensures RedBlack(r)
  {
    var z := Descend(t, k, Top);
    PlugRedBlack(z.0, z.1);
    if z.0.Node? then
      var f := z.0.(value := v);
      assert SameShape(z.0, f) by { SameShapeRefl(z.0.left); SameShapeRefl(z.0.right); }
      SameShapeInvariants(z.0, f);
      PlugRedBlack(f, z.1);
      Plug(f, z.1)
    else
      BalanceInsert(Promote(k, v), z.1)
  }

  /** Inserting into a valid map keeps it valid and updates the stored map
      at `k`; a key already present only has its value overwritten, so
      shape, colours and all other entries stay as they were, while a new
      key adds one node. */
  lemma AddCorrect<V>(t: Tree<V>, k: int, v: V)
    requires Valid(t)
    ensures Valid(Add(t, k, v))
    ensures Contents(Add(t, k, v)) == Contents(t)[k := v]
    ensures k in Contents(t) ==> SameShape(t, Add(t, k, v)) && Size(Add(t, k, v)) == Size(t)
    ensures k !in Contents(t) ==> Size(Add(t, k, v)) == Size(t) + 1
  {
    var z := Descend(t, k, Top);
    DescendFromRoot(t, k);
    DescendFinds(t, k);
    var r := Add(t, k, v);
    InOrderLength(t);
    InOrderLength(r);
    if z.0.Node? {
      UpsertEntries(t, k, v);
      var f := z.0;
      assert SameShape(f, f.(value := v)) by { SameShapeRefl(f.left); SameShapeRefl(f.right); }
      PlugSameShape(f, f.(value := v), z.1);
    } else {
      InsertEntries(t, k, v);
    }
  }

  /** The entries after overwriting a present key. */
  lemma UpsertEntries<V>(t: Tree<V>, k: int, v: V)
    requires Valid(t)
    requires Descend(t, k, Top).0.Node?
    ensures Sorted(InOrder(Add(t, k, v)))
    ensures MapOf(InOrder(Add(t, k, v))) == MapOf(InOrder(t))[k := v]
    ensures |InOrder(Add(t, k, v))| == |InOrder(t)|
  {
    var z := Descend(t, k, Top);
    DescendFromRoot(t, k);
    var f := z.0;
    var f' := f.(value := v);
    assert Add(t, k, v) == Plug(f', z.1);
    var b, a := Before(z.1), After(z.1);
    var l, rr := InOrder(f.left), InOrder(f.right);
    var e, d := Entry(k, v), Entry(k, f.value);
    InOrderPlug(f', z.1);
    SeqRegroup(b, l, [e], rr, a);
    SeqRegroup(b, l, [d], rr, a);
    assert InOrder(Add(t, k, v)) == (b + l) + [e] + (rr + a);
    assert InOrder(t) == (b + l) + [d] + (rr + a);
    ReplaceSorted(b + l, d, e, rr + a);
  }

  /** The entries after inserting an absent key. */
  lemma InsertEntries<V>(t: Tree<V>, k: int, v: V)
    requires Valid(t)
    requires Descend(t, k, Top).0.Leaf?
    ensures Sorted(InOrder(Add(t, k, v)))
    ensures MapOf(InOrder(Add(t, k, v))) == MapOf(InOrder(t))[k := v]
    ensures |InOrder(Add(t, k, v))| == |InOrder(t)| + 1
  {
    var z := Descend(t, k, Top);
    var b, a := Before(z.1), After(z.1);
    var e := Entry(k, v);
    assert InOrder(t) == b + a && Sorted(b + a) && AllBelow(b, k) && AllAbove(a, k) by {
      DescendFromRoot(t, k);
      assert InOrder(t) == b + [] + a;
    }
    assert InOrder(Add(t, k, v)) == b + [e] + a by {
      InOrderPlug(Promote(k, v), z.1);
    }
    InsertBetween(b, e, a);
  }

  /** Inserting the same key and value twice builds the same tree as
      inserting it once. */
  lemma AddIdempotent<V>(t: Tree<V>, k: int, v: V)
    requires Valid(t)
    ensures Add(Add(t, k, v), k, v) == Add(t, k, v)
  {
    AddCorrect(t, k, v);
    var t' := Add(t, k, v);
    DescendFinds(t', k);
    var z := Descend(t', k, Top);
    assert z.0.(value := v) == z.0;
  }
}
