/** Key/value entries as the in-order traversal reports them, the map's key
    order, and the abstract key->value map a sequence of entries stands for. */
module Entries {

  /** Conventional optional value; `None` stands for the source's NULL results. */
  datatype Option<T> = None | Some(value: T)

  /** One key/value pair stored in a data-bearing node. */
  datatype Entry<V> = Entry(key: int, value: V)

  /** The comparator the map is created with, fixed here to the integer order:
      negative, zero or positive as `a` is below, equal to or above `b`. */
  function Compare(a: int, b: int): (r: int)
    ensures r < 0 <==> a < b
    ensures r == 0 <==> a == b
    ensures r > 0 <==> b < a
  {
    if a < b then -1 else if a == b then 0 else 1
  }

  /** Keys strictly increase along the sequence. */
  ghost predicate Sorted<V>(s: seq<Entry<V>>) {
    forall i, j :: 0 <= i < j < |s| ==> s[i].key < s[j].key
  }

  ghost predicate AllBelow<V>(s: seq<Entry<V>>, k: int) {
    forall i :: 0 <= i < |s| ==> s[i].key < k
  }

  ghost predicate AllAbove<V>(s: seq<Entry<V>>, k: int) {
    forall i :: 0 <= i < |s| ==> k < s[i].key
  }

  ghost predicate HasKey<V>(s: seq<Entry<V>>, k: int) {
    exists i :: 0 <= i < |s| && s[i].key == k
  }

  /** The key->value map a sequence of entries denotes; a later entry wins. */
  ghost function MapOf<V>(s: seq<Entry<V>>): map<int, V>
    decreases |s|
  {
    if s == [] then map[] else MapOf(s[..|s| - 1])[s[|s| - 1].key := s[|s| - 1].value]
  }

  /** The sequence with every entry of key `k` dropped. */
  ghost function RemoveKey<V>(s: seq<Entry<V>>, k: int): seq<Entry<V>>
    decreases |s|
  {
    if s == [] then []
    else (if s[0].key == k then [] else [s[0]]) + RemoveKey(s[1..], k)
  }

  /** A sorted sequence splits around any of its entries. */
  lemma SortedParts<V>(a: seq<Entry<V>>, e: Entry<V>, b: seq<Entry<V>>)
    requires Sorted(a + [e] + b)
    ensures Sorted(a) && Sorted(b) && AllBelow(a, e.key) && AllAbove(b, e.key)
  {
    var s := a + [e] + b;
    assert forall i :: 0 <= i < |a| ==> s[i] == a[i];
    assert s[|a|] == e;
    forall i, j | 0 <= i < j < |b|
      ensures b[i].key < b[j].key
    {
      assert s[|a| + 1 + i] == b[i];
      assert s[|a| + 1 + j] == b[j];
    }
    forall i | 0 <= i < |b|
      ensures e.key < b[i].key
    {
      assert s[|a| + 1 + i] == b[i];
    }
  }

  /** Two sorted sequences separated by an entry join into a sorted one. */
  lemma SortedJoin<V>(a: seq<Entry<V>>, e: Entry<V>, b: seq<Entry<V>>)
    requires Sorted(a) && Sorted(b) && AllBelow(a, e.key) && AllAbove(b, e.key)
    ensures Sorted(a + [e] + b)
  {
    var s := a + [e] + b;
    assert forall i :: 0 <= i < |a| ==> s[i] == a[i];
    assert s[|a|] == e;
    forall i, j | 0 <= i < j < |s|
      ensures s[i].key < s[j].key
    {
      if j <= |a| {
      } else if i <= |a| {
        assert s[j] == b[j - |a| - 1];
      } else {
        assert s[i] == b[i - |a| - 1];
        assert s[j] == b[j - |a| - 1];
      }
    }
  }

  /** A sorted sequence splits around any of its entries, and conversely. */
  lemma SortedSplit<V>(a: seq<Entry<V>>, e: Entry<V>, b: seq<Entry<V>>)
    ensures Sorted(a + [e] + b) <==>
            Sorted(a) && Sorted(b) && AllBelow(a, e.key) && AllAbove(b, e.key)
  {
    if Sorted(a + [e] + b) {
      SortedParts(a, e, b);
    }
    if Sorted(a) && Sorted(b) && AllBelow(a, e.key) && AllAbove(b, e.key) {
      SortedJoin(a, e, b);
    }
  }

  /** Both halves of a sorted concatenation are sorted. */
  lemma SortedConcat<V>(a: seq<Entry<V>>, b: seq<Entry<V>>)
    requires Sorted(a + b)
    ensures Sorted(a) && Sorted(b)
  {
    var s := a + b;
    forall i, j | 0 <= i < j < |a|
      ensures a[i].key < a[j].key
    {
      assert s[i] == a[i];
      assert s[j] == a[j];
    }
    forall i, j | 0 <= i < j < |b|
      ensures b[i].key < b[j].key
    {
      assert s[|a| + i] == b[i];
      assert s[|a| + j] == b[j];
    }
  }

  lemma {:induction false} MapOfAppend<V>(a: seq<Entry<V>>, b: seq<Entry<V>>)
    ensures MapOf(a + b) == MapOf(a) + MapOf(b)
    decreases |b|
  {
    if b == [] {
      assert a + b == a;
    } else {
      var b' := b[..|b| - 1];
      var e := b[|b| - 1];
      assert (a + b)[..|a + b| - 1] == a + b';
      assert (a + b)[|a + b| - 1] == e;
      MapOfAppend(a, b');
      assert MapOf(a + b) == (MapOf(a) + MapOf(b'))[e.key := e.value];
    }
  }

  lemma {:induction false} MapOfKeys<V>(s: seq<Entry<V>>, k: int)
    ensures k in MapOf(s) <==> HasKey(s, k)
    decreases |s|
  {
    if s != [] {
      var s' := s[..|s| - 1];
      MapOfKeys(s', k);
      if HasKey(s, k) && s[|s| - 1].key != k {
        var i :| 0 <= i < |s| && s[i].key == k;
        assert s'[i] == s[i];
      }
      if HasKey(s', k) {
        var i :| 0 <= i < |s'| && s'[i].key == k;
        assert s[i] == s'[i];
      }
    }
  }

  /** An entry whose key does not recur after it is what the map holds for that key. */
  lemma MapOfAt<V>(a: seq<Entry<V>>, e: Entry<V>, b: seq<Entry<V>>)
    requires !HasKey(b, e.key)
    ensures e.key in MapOf(a + [e] + b) && MapOf(a + [e] + b)[e.key] == e.value
  {
    MapOfAppend(a + [e], b);
    MapOfKeys(b, e.key);
    assert (a + [e])[..|a + [e]| - 1] == a;
  }

  lemma {:induction false} RemoveKeyAppend<V>(a: seq<Entry<V>>, b: seq<Entry<V>>, k: int)
    ensures RemoveKey(a + b, k) == RemoveKey(a, k) + RemoveKey(b, k)
    decreases |a|
  {
    if a == [] {
      assert a + b == b;
    } else {
      assert (a + b)[0] == a[0];
      assert (a + b)[1..] == a[1..] + b;
      RemoveKeyAppend(a[1..], b, k);
    }
  }

  lemma {:induction false} RemoveKeyAbsent<V>(s: seq<Entry<V>>, k: int)
    requires !HasKey(s, k)
    ensures RemoveKey(s, k) == s
    decreases |s|
  {
    if s != [] {
      assert s[0].key != k;
      forall i | 0 <= i < |s[1..]|
        ensures s[1..][i].key != k
      {
        assert s[1..][i] == s[i + 1];
      }
      RemoveKeyAbsent(s[1..], k);
      assert [s[0]] + s[1..] == s;
    }
  }

  /** Removing a key from the entries removes exactly that key from the map. */
  lemma {:induction false} MapOfRemoveKey<V>(s: seq<Entry<V>>, k: int)
    ensures MapOf(RemoveKey(s, k)) == MapOf(s) - {k}
    decreases |s|
  {
    if s != [] {
      var s', e := s[..|s| - 1], s[|s| - 1];
      assert s == s' + [e];
      MapOfRemoveKey(s', k);
      RemoveKeyAppend(s', [e], k);
      assert [e][1..] == [];
      var r := RemoveKey(s', k);
      MapUpdateMinus(MapOf(s'), e.key, e.value, k);
      if e.key == k {
        assert RemoveKey(s, k) == r + [];
        assert r + [] == r;
      } else {
        assert RemoveKey(s, k) == r + [e];
        MapOfSnoc(r, e);
      }
    }
  }

  lemma MapUpdateMinus<V>(m: map<int, V>, a: int, v: V, k: int)
    ensures a != k ==> (m - {k})[a := v] == m[a := v] - {k}
    ensures a == k ==> m - {k} == m[a := v] - {k}
  {
  }

  /** Dropping entries keeps a lower bound on the keys. */
  lemma {:induction false} RemoveKeyBound<V>(s: seq<Entry<V>>, k: int, j: int)
    requires AllAbove(s, j)
    ensures AllAbove(RemoveKey(s, k), j)
    decreases |s|
  {
    if s != [] {
      assert AllAbove(s[1..], j) by {
        forall i | 0 <= i < |s[1..]|
          ensures j < s[1..][i].key
        {
          assert s[1..][i] == s[i + 1];
        }
      }
      RemoveKeyBound(s[1..], k, j);
      AllAboveConcat(if s[0].key == k then [] else [s[0]], RemoveKey(s[1..], k), j);
    }
  }

  /** Dropping the entries of one key keeps a sequence sorted. */
  lemma {:induction false} SortedRemoveKey<V>(s: seq<Entry<V>>, k: int)
    requires Sorted(s)
    ensures Sorted(RemoveKey(s, k))
    decreases |s|
  {
    if s != [] {
      var rest := RemoveKey(s[1..], k);
      assert Sorted(s[1..]) && AllAbove(s[1..], s[0].key) by {
        assert s == [] + [s[0]] + s[1..];
        SortedParts([], s[0], s[1..]);
      }
      SortedRemoveKey(s[1..], k);
      if s[0].key == k {
        assert RemoveKey(s, k) == rest;
      } else {
        RemoveKeyBound(s[1..], k, s[0].key);
        SortedJoin([], s[0], rest);
        assert RemoveKey(s, k) == [] + [s[0]] + rest;
      }
    }
  }

  /** In a sorted sequence every entry has its own key, so the map has one
      key per entry. */
  lemma {:induction false} SortedMapSize<V>(s: seq<Entry<V>>)
    requires Sorted(s)
    ensures |MapOf(s)| == |s|
    decreases |s|
  {
    if s != [] {
      var s' := s[..|s| - 1];
      var e := s[|s| - 1];
      assert s == s' + [e] + [];
      SortedSplit(s', e, []);
      SortedMapSize(s');
      MapOfKeys(s', e.key);
    }
  }

  /** The last entry of a sorted sequence carries its largest key, and the
      entries before it denote the map without that key. */
  lemma SortedLast<V>(s: seq<Entry<V>>)
    requires Sorted(s) && s != []
    ensures var e := s[|s| - 1];
            && e.key in MapOf(s) && MapOf(s)[e.key] == e.value
            && (forall k :: k in MapOf(s) ==> k <= e.key)
            && MapOf(s[..|s| - 1]) == MapOf(s) - {e.key}
  {
    var s', e := s[..|s| - 1], s[|s| - 1];
    assert s == s' + [e];
    MapOfSnoc(s', e);
    assert !HasKey(s', e.key) by {
      forall i | 0 <= i < |s'|
        ensures s'[i].key != e.key
      {
        assert s'[i] == s[i];
      }
    }
    MapOfKeys(s', e.key);
    var m := MapOf(s');
    assert m[e.key := e.value] - {e.key} == m;
    SortedKeysBelowLast(s);
  }

  /** No key of a sorted sequence's map exceeds the last entry's key. */
  lemma SortedKeysBelowLast<V>(s: seq<Entry<V>>)
    requires Sorted(s) && s != []
    ensures forall k :: k in MapOf(s) ==> k <= s[|s| - 1].key
  {
    forall k | k in MapOf(s)
      ensures k <= s[|s| - 1].key
    {
      MapOfKeys(s, k);
      var i :| 0 <= i < |s| && s[i].key == k;
    }
  }

  /** Two sorted sequences denoting the same map end in the same entry, and
      the entries before it denote the same map. */
  lemma SortedLastAgree<V>(a: seq<Entry<V>>, b: seq<Entry<V>>)
    requires Sorted(a) && Sorted(b) && MapOf(a) == MapOf(b) && a != [] && b != []
    ensures a[|a| - 1] == b[|b| - 1]
    ensures MapOf(a[..|a| - 1]) == MapOf(b[..|b| - 1])
  {
    var ea, eb := a[|a| - 1], b[|b| - 1];
    SortedLast(a);
    SortedLast(b);
    assert ea.key <= eb.key && eb.key <= ea.key;
  }

  /** A sorted sequence is determined by the map it denotes. */
  lemma {:induction false} SortedUnique<V>(a: seq<Entry<V>>, b: seq<Entry<V>>)
    requires Sorted(a) && Sorted(b) && MapOf(a) == MapOf(b)
    ensures a == b
    decreases |a|
  {
    SortedMapSize(a);
    SortedMapSize(b);
    if a != [] {
      var a', b' := a[..|a| - 1], b[..|b| - 1];
      SortedLastAgree(a, b);
      assert a' + [a[|a| - 1]] == a;
      assert b' + [b[|b| - 1]] == b;
      SortedConcat(a', [a[|a| - 1]]);
      SortedConcat(b', [b[|b| - 1]]);
      SortedUnique(a', b');
    }
  }

  lemma AllBelowConcat<V>(a: seq<Entry<V>>, b: seq<Entry<V>>, k: int)
    requires AllBelow(a, k) && AllBelow(b, k)
    ensures AllBelow(a + b, k)
  {
    forall i | 0 <= i < |a + b|
      ensures (a + b)[i].key < k
    {
      if i < |a| {
        assert (a + b)[i] == a[i];
      } else {
        assert (a + b)[i] == b[i - |a|];
      }
    }
  }

  lemma AllAboveConcat<V>(a: seq<Entry<V>>, b: seq<Entry<V>>, k: int)
    requires AllAbove(a, k) && AllAbove(b, k)
    ensures AllAbove(a + b, k)
  {
    forall i | 0 <= i < |a + b|
      ensures k < (a + b)[i].key
    {
      if i < |a| {
        assert (a + b)[i] == a[i];
      } else {
        assert (a + b)[i] == b[i - |a|];
      }
    }
  }

  /** A bound on all keys carries over to any weaker bound. */
  lemma AllBelowRaise<V>(s: seq<Entry<V>>, k: int, j: int)
    requires AllBelow(s, k) && k <= j
    ensures AllBelow(s, j)
  {
  }

  lemma AllAboveLower<V>(s: seq<Entry<V>>, k: int, j: int)
    requires AllAbove(s, k) && j <= k
    ensures AllAbove(s, j)
  {
  }

  /** In a sorted sequence the map holds each entry's own value. */
  lemma MapOfAtSorted<V>(a: seq<Entry<V>>, e: Entry<V>, b: seq<Entry<V>>)
    requires Sorted(a + [e] + b)
    ensures e.key in MapOf(a + [e] + b) && MapOf(a + [e] + b)[e.key] == e.value
  {
    SortedParts(a, e, b);
    MapOfAt(a, e, b);
  }

  /** A key strictly between two halves occurs in neither. */
  lemma NoKeyBetween<V>(a: seq<Entry<V>>, b: seq<Entry<V>>, k: int)
    requires AllBelow(a, k) && AllAbove(b, k)
    ensures !HasKey(a + b, k)
  {
    forall i | 0 <= i < |a + b|
      ensures (a + b)[i].key != k
    {
      if i < |a| {
        assert (a + b)[i] == a[i];
      } else {
        assert (a + b)[i] == b[i - |a|];
      }
    }
  }

  /** Appending an entry updates the map at its key. */
  lemma MapOfSnoc<V>(b: seq<Entry<V>>, e: Entry<V>)
    ensures MapOf(b + [e]) == MapOf(b)[e.key := e.value]
  {
    assert (b + [e])[..|b + [e]| - 1] == b;
  }

  /** Putting an entry between two halves, the second of which lacks its
      key, updates the map of the halves with it. */
  lemma MapOfInsert<V>(b: seq<Entry<V>>, e: Entry<V>, a: seq<Entry<V>>)
    requires !HasKey(a, e.key)
    ensures MapOf(b + [e] + a) == MapOf(b + a)[e.key := e.value]
  {
    MapOfAppend(b + [e], a);
    MapOfAppend(b, a);
    MapOfSnoc(b, e);
    MapOfKeys(a, e.key);
    var m1, m2 := MapOf(b), MapOf(a);
    assert m1[e.key := e.value] + m2 == (m1 + m2)[e.key := e.value];
  }

  /** Replacing an entry by one of the same key, where the second half lacks
      that key, updates the map at that key. */
  lemma MapOfReplace<V>(b: seq<Entry<V>>, d: Entry<V>, e: Entry<V>, a: seq<Entry<V>>)
    requires !HasKey(a, e.key) && d.key == e.key
    ensures MapOf(b + [e] + a) == MapOf(b + [d] + a)[e.key := e.value]
  {
    MapOfAppend(b + [e], a);
    MapOfAppend(b + [d], a);
    MapOfSnoc(b, e);
    MapOfSnoc(b, d);
    MapOfKeys(a, e.key);
    var m1, m2 := MapOf(b), MapOf(a);
    assert m1[e.key := e.value] + m2 == (m1[d.key := d.value] + m2)[e.key := e.value];
  }

  /** Putting an entry between two halves whose keys lie below and above
      its own keeps the sequence sorted, adds one entry and updates the map
      at its key. */
  lemma InsertBetween<V>(b: seq<Entry<V>>, e: Entry<V>, a: seq<Entry<V>>)
    requires Sorted(b + a) && AllBelow(b, e.key) && AllAbove(a, e.key)
    ensures Sorted(b + [e] + a)
    ensures MapOf(b + [e] + a) == MapOf(b + a)[e.key := e.value]
    ensures |b + [e] + a| == |b + a| + 1
  {
    SortedConcat(b, a);
    SortedJoin(b, e, a);
    NoKeyBetween([], a, e.key);
    assert [] + a == a;
    MapOfInsert(b, e, a);
  }

  /** Overwriting the value of one entry of a sorted sequence keeps it sorted
      and updates the map at that key. */
  lemma ReplaceSorted<V>(b: seq<Entry<V>>, d: Entry<V>, e: Entry<V>, a: seq<Entry<V>>)
    requires Sorted(b + [d] + a) && d.key == e.key
    ensures Sorted(b + [e] + a)
    ensures MapOf(b + [e] + a) == MapOf(b + [d] + a)[e.key := e.value]
  {
    SortedParts(b, d, a);
    SortedJoin(b, e, a);
    NoKeyBetween([], a, e.key);
    assert [] + a == a;
    MapOfReplace(b, d, e, a);
  }

  /** A key occurs in a concatenation exactly when it occurs in one part. */
  lemma HasKeyAppend<V>(a: seq<Entry<V>>, b: seq<Entry<V>>, k: int)
    ensures HasKey(a + b, k) <==> HasKey(a, k) || HasKey(b, k)
  {
    if HasKey(a + b, k) {
      var i :| 0 <= i < |a + b| && (a + b)[i].key == k;
      if i < |a| {
        assert a[i] == (a + b)[i];
      } else {
        assert b[i - |a|] == (a + b)[i];
      }
    }
    if HasKey(a, k) {
      var i :| 0 <= i < |a| && a[i].key == k;
      assert (a + b)[i] == a[i];
    }
    if HasKey(b, k) {
      var i :| 0 <= i < |b| && b[i].key == k;
      assert (a + b)[|a| + i] == b[i];
    }
  }

  /** Removing a key above everything in a prefix leaves the prefix alone. */
  lemma RemoveKeyBelow<V>(x: seq<Entry<V>>, m: seq<Entry<V>>, k: int)
    requires AllBelow(x, k)
    ensures RemoveKey(x + m, k) == x + RemoveKey(m, k)
    ensures HasKey(x + m, k) <==> HasKey(m, k)
  {
    assert !HasKey(x, k);
    RemoveKeyAppend(x, m, k);
    RemoveKeyAbsent(x, k);
    HasKeyAppend(x, m, k);
  }

  /** Removing a key below everything in a suffix leaves the suffix alone. */
  lemma RemoveKeyAbove<V>(m: seq<Entry<V>>, y: seq<Entry<V>>, k: int)
    requires AllAbove(y, k)
    ensures RemoveKey(m + y, k) == RemoveKey(m, k) + y
    ensures HasKey(m + y, k) <==> HasKey(m, k)
  {
    assert !HasKey(y, k);
    RemoveKeyAppend(m, y, k);
    RemoveKeyAbsent(y, k);
    HasKeyAppend(m, y, k);
  }

  /** Removing the key of an entry of a sorted sequence drops exactly that entry. */
  lemma RemoveKeyAt<V>(a: seq<Entry<V>>, e: Entry<V>, b: seq<Entry<V>>)
    requires Sorted(a + [e] + b)
    ensures HasKey(a + [e] + b, e.key)
    ensures RemoveKey(a + [e] + b, e.key) == a + b
  {
    var k := e.key;
    assert (a + [e] + b)[|a|] == e;
    SortedParts(a, e, b);
    assert a + [e] + b == a + ([e] + b);
    RemoveKeyBelow(a, [e] + b, k);
    RemoveKeyAbove([e], b, k);
    assert [e][1..] == [];
    assert RemoveKey([e], k) == [];
  }
}
