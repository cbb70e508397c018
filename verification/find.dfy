/** Lookup: `find` of rbtree.c. */
module Search {
  import opened Entries
  import opened RBTree
  import opened Zipper

  /** Where the descent for `k` stops does not depend on the path above the
      starting point. */
  lemma {:induction false} DescendLanding<V>(t: Tree<V>, k: int, p: Path<V>)
    ensures Descend(t, k, p).0 == Descend(t, k, Top).0
    decreases t
  {
    if t.Node? {
      if Compare(t.key, k) < 0 {
        DescendLanding(t.right, k, Up(RightChild, t.color, t.key, t.value, t.left, p));
        DescendLanding(t.right, k, Up(RightChild, t.color, t.key, t.value, t.left, Top));
      } else if Compare(t.key, k) > 0 {
        DescendLanding(t.left, k, Up(LeftChild, t.color, t.key, t.value, t.right, p));
        DescendLanding(t.left, k, Up(LeftChild, t.color, t.key, t.value, t.right, Top));
      }
    }
  }

  /** On an ordered tree the descent splits the traversal around the search
      key: what it passed on the left is below `k`, on the right above. */
  lemma DescendFromRoot<V>(t: Tree<V>, k: int)
    requires Ordered(t)
    ensures var z := Descend(t, k, Top);
            && InOrder(t) == Before(z.1) + InOrder(z.0) + After(z.1)
            && AllBelow(Before(z.1), k) && AllAbove(After(z.1), k)
            && Sorted(Before(z.1) + InOrder(z.0) + After(z.1))
  {
    assert InOrder(t) == Before(Top) + InOrder(t) + After(Top);
    DescendSeparates(t, k, Top);
  }

  /** The descent stops at a data-bearing node exactly when the map has
      `k`, and that node holds the value the map associates with `k`. */
  lemma DescendFinds<V>(t: Tree<V>, k: int)
    requires Ordered(t)
    ensures var f := Descend(t, k, Top).0;
            && (f.Node? <==> k in Contents(t))
            && (f.Node? ==> f.value == Contents(t)[k])
  {
    var z := Descend(t, k, Top);
    DescendFromRoot(t, k);
    var b, a := Before(z.1), After(z.1);
    MapOfKeys(InOrder(t), k);
    if z.0.Node? {
      var f := z.0;
      var e := Entry(k, f.value);
      SeqRegroup(b, InOrder(f.left), [e], InOrder(f.right), a);
      MapOfAtSorted(b + InOrder(f.left), e, InOrder(f.right) + a);
    } else {
      assert InOrder(t) == b + a;
      NoKeyBetween(b, a, k);
    }
  }

  /** `find`: walk down from the root; a data-bearing node whose key
      compares equal is the hit, reaching a sentinel means not found (NULL).
      On an ordered tree the hit exists exactly when the map has `k` and
      holds the map's value for it. */
  method Find<V>(t: Tree<V>, k: int) returns (r: Option<Tree<V>>)
    ensures r.Some? ==> r.value.Node? && r.value.key == k
    ensures r.Some? <==> Descend(t, k, Top).0.Node?
    ensures Ordered(t) ==> (r.Some? <==> k in Contents(t))
    ensures Ordered(t) && r.Some? ==> r.value.value == Contents(t)[k]
  {
    var node := t;
    while !IsNil(node)
      invariant Descend(node, k, Top).0 == Descend(t, k, Top).0
      decreases node
    {
      if Compare(node.key, k) < 0 {
        DescendLanding(node.right, k, Up(RightChild, node.color, node.key, node.value, node.left, Top));
        node := node.right;
      } else if Compare(node.key, k) > 0 {
        DescendLanding(node.left, k, Up(LeftChild, node.color, node.key, node.value, node.right, Top));
        node := node.left;
      } else {
        if Ordered(t) {
          DescendFinds(t, k);
        }
        return Some(node);
      }
    }
    if Ordered(t) {
      DescendFinds(t, k);
    }
    return None;
  }
}
