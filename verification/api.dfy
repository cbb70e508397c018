/** The public map interface of rbtree.c: `MapNew`, `MapInsert`, `MapFind`,
    `MapRemove` and `MapPrint`. A handle is `None` for the NULL map and
    otherwise holds the tree; allocation failure is an explicit input. */
module RBMap {
  import opened Entries
  import opened RBTree
  import opened Zipper
  import opened Search
  import opened Insertion
  import opened Removal

  /** Status codes of the interface. */
  const Success: int := 0
  const NullMap: int := -1
  /** Key absent, or (for `MapInsert`) the allocation of a new node failed. */
  const Failure: int := -2

  /** A map handle; `None` is the NULL map pointer. */
  type Handle<V> = Option<Tree<V>>

  /** Every non-NULL handle holds a valid red-black search tree. */
  ghost predicate Wf<V>(m: Handle<V>) {
    m.Some? ==> Valid(m.value)
  }

  /** The map a non-NULL handle stands for. */
  ghost function Stored<V>(m: Handle<V>): map<int, V>
    requires m.Some?
  {
    Contents(m.value)
  }

  /** `MapNew`: a map holding only the root sentinel, or NULL when an
      allocation fails. */
  method MapNew<V>(allocFails: bool) returns (m: Handle<V>)
    ensures m.None? <==> allocFails
    ensures Wf(m)
    ensures m.Some? ==> Stored(m) == map[] && Size(m.value) == 0
  {
    if allocFails {
      return None;
    }
    return Some(NewNil());
  }

  /** `MapInsert`: -1 on NULL; -2 when the key is new and its node cannot be
      allocated, the map unchanged; otherwise 0 with the map updated at
      `k`. Overwriting a present key allocates nothing and cannot fail. */
  method MapInsert<V>(m: Handle<V>, k: int, v: V, allocFails: bool) returns (code: int, m': Handle<V>)
    requires Wf(m)
    ensures code in {Success, NullMap, Failure} && Wf(m')
    ensures code == NullMap <==> m.None?
    ensures m.Some? ==> (code == Failure <==> allocFails && k !in Stored(m))
    ensures code != Success ==> m' == m
    ensures code == Success ==> m'.Some? && Stored(m') == Stored(m)[k := v]
    ensures code == Success ==> Size(m'.value) == Size(m.value) + (if k in Stored(m) then 0 else 1)
  {
    if m.None? {
      return NullMap, m;
    }
    var t := m.value;
    AddCorrect(t, k, v);
    DescendFinds(t, k);
    if allocFails && Descend(t, k, Top).0.Leaf? {
      return Failure, m;
    }
    return Success, Some(Add(t, k, v));
  }

  /** `MapFind`: -1 on NULL, -2 when `k` is absent, otherwise 0 and the
      value stored under `k` (the source copies it into the caller's buffer). */
  method MapFind<V>(m: Handle<V>, k: int) returns (code: int, value: Option<V>)
    ensures code in {Success, NullMap, Failure}
    ensures code == NullMap <==> m.None?
    ensures code == Success <==> value.Some?
    ensures m.Some? && Wf(m) ==> (code == Success <==> k in Stored(m))
    ensures code == Success && Wf(m) ==> value.value == Stored(m)[k]
  {
    if m.None? {
      return NullMap, None;
    }
    var node := Find(m.value, k);
    if node.None? {
      return Failure, None;
    }
    return Success, Some(node.value.value);
  }

  /** `MapRemove`: -1 on NULL, -2 when `k` is absent with the map unchanged,
      otherwise 0 with `k` removed and every other entry kept. */
  method MapRemove<V>(m: Handle<V>, k: int) returns (code: int, m': Handle<V>)
    requires Wf(m)
    ensures code in {Success, NullMap, Failure} && Wf(m')
    ensures code == NullMap <==> m.None?
    ensures m.Some? ==> (code == Success <==> k in Stored(m))
    ensures code != Success ==> m' == m
    ensures code == Success ==> m'.Some? && Stored(m') == Stored(m) - {k}
    ensures code == Success ==> Size(m'.value) == Size(m.value) - 1
  {
    if m.None? {
      return NullMap, m;
    }
    var t := m.value;
    EraseCorrect(t, k);
    var r := Erase(t, k);
    if r.None? {
      return Failure, m;
    }
    return Success, r;
  }

  /** `MapPrint`: the entries handed to the print callback, in call order;
      nothing for NULL. Each data-bearing node is reported once; on a valid
      map they come in ascending key order and spell out the stored map. */
  method MapPrint<V>(m: Handle<V>) returns (out: seq<Entry<V>>)
    ensures m.None? ==> out == []
    ensures m.Some? ==> MapOf(out) == Stored(m) && |out| == Size(m.value)
    ensures Wf(m) ==> Sorted(out) && (m.Some? ==> |out| == |Stored(m)|)
  {
    if m.None? {
      return [];
    }
    var t := m.value;
    InOrderLength(t);
    if Valid(t) {
      SortedMapSize(InOrder(t));
    }
    return InOrder(t);
  }

  /** The traversal depends only on the stored map: two valid trees storing
      the same entries report the same sequence, whatever their shapes and
      colours. */
  lemma PrintCanonical<V>(a: Tree<V>, b: Tree<V>)
    requires Valid(a) && Valid(b) && Contents(a) == Contents(b)
    ensures InOrder(a) == InOrder(b)
  {
    SortedUnique(InOrder(a), InOrder(b));
  }

  /** Inserting a fresh key and erasing it again gives back the stored map. */
  lemma AddEraseRoundTrip<V>(t: Tree<V>, k: int, v: V)
    requires Valid(t) && k !in Contents(t)
    ensures Valid(Add(t, k, v))
    ensures Erase(Add(t, k, v), k).Some?
    ensures Contents(Erase(Add(t, k, v), k).value) == Contents(t)
  {
    AddCorrect(t, k, v);
    var t' := Add(t, k, v);
    EraseCorrect(t', k);
    MapUpdateMinus(Contents(t), k, v, k);
  }

  /** Erasing a present key and inserting it again with its old value gives
      back the stored map. */
  lemma EraseAddRoundTrip<V>(t: Tree<V>, k: int)
    requires Valid(t) && k in Contents(t)
    ensures Erase(t, k).Some? && Valid(Erase(t, k).value)
    ensures Contents(Add(Erase(t, k).value, k, Contents(t)[k])) == Contents(t)
  {
    EraseCorrect(t, k);
    var t' := Erase(t, k).value;
    var m, v := Contents(t), Contents(t)[k];
    AddCorrect(t', k, v);
    MinusUpdate(m, k);
  }

  lemma MinusUpdate<V>(m: map<int, V>, k: int)
    requires k in m
    ensures (m - {k})[k := m[k]] == m
  {
  }

  /** A session with integer values: insert (5,50), (3,30), (8,80), (1,10),
      (4,40) into a new map and print; remove 3, print, and look 3 up; then
      overwrite 5 with 99, look it up and print once more. `codes` collects
      the status of every insert, the removal and the lookup of 5, in call
      order. */
  method Session() returns (codes: seq<int>, first: seq<Entry<int>>, second: seq<Entry<int>>,
                            lookup3: int, found5: Option<int>, third: seq<Entry<int>>)
    ensures codes == [Success, Success, Success, Success, Success, Success, Success, Success]
    ensures first == [Entry(1, 10), Entry(3, 30), Entry(4, 40), Entry(5, 50), Entry(8, 80)]
    ensures second == [Entry(1, 10), Entry(4, 40), Entry(5, 50), Entry(8, 80)]
    ensures lookup3 == Failure
    ensures found5 == Some(99)
    ensures third == [Entry(1, 10), Entry(4, 40), Entry(5, 99), Entry(8, 80)]
  {
    var m, code;
    codes, m := InsertFive();
    first := MapPrint(m);
    FiveListed(first);
    code, m := MapRemove(m, 3);
    codes := codes + [code];
    second := MapPrint(m);
    FourListed(second);
    var unused;
    lookup3, unused := MapFind(m, 3);
    code, m := MapInsert(m, 5, 99, false);
    codes := codes + [code];
    code, found5 := MapFind(m, 5);
    codes := codes + [code];
    third := MapPrint(m);
    ThirdListed(third);
  }

  /** The first five insertions of the session into a new map, each with
      its status. */
  method InsertFive() returns (codes: seq<int>, m: Handle<int>)
    ensures codes == [Success, Success, Success, Success, Success]
    ensures Wf(m) && m.Some?
    ensures Stored(m) == map[][5 := 50][3 := 30][8 := 80][1 := 10][4 := 40]
  {
    m := MapNew<int>(false);
    var code;
    code, m := MapInsert(m, 5, 50, false);
    codes := [code];
    code, m := MapInsert(m, 3, 30, false);
    codes := codes + [code];
    code, m := MapInsert(m, 8, 80, false);
    codes := codes + [code];
    code, m := MapInsert(m, 1, 10, false);
    codes := codes + [code];
    code, m := MapInsert(m, 4, 40, false);
    codes := codes + [code];
  }

  /** The only sorted listing of the five entries of the session. */
  lemma FiveListed(out: seq<Entry<int>>)
    requires Sorted(out) && MapOf(out) == map[][5 := 50][3 := 30][8 := 80][1 := 10][4 := 40]
    ensures out == [Entry(1, 10), Entry(3, 30), Entry(4, 40), Entry(5, 50), Entry(8, 80)]
  {
    var w := [Entry(1, 10), Entry(3, 30), Entry(4, 40), Entry(5, 50), Entry(8, 80)];
    FiveMap(w);
    assert Sorted(w);
    SortedUnique(out, w);
  }

  lemma FiveMap(w: seq<Entry<int>>)
    requires w == [Entry(1, 10), Entry(3, 30), Entry(4, 40), Entry(5, 50), Entry(8, 80)]
    ensures MapOf(w) == map[][5 := 50][3 := 30][8 := 80][1 := 10][4 := 40]
  {
    Snoc(w, 4);
    Snoc(w, 3);
    Snoc(w, 2);
    Snoc(w, 1);
    Snoc(w, 0);
    assert w[..5] == w && w[..0] == [];
    var e: map<int, int> := map[];
    // reorder the updates 5 3 8 1 4 into 1 3 4 5 8, one swap at a time
    UpdateSwap(e, 5, 50, 3, 30);
    UpdateSwap(e[3 := 30][5 := 50], 8, 80, 1, 10);
    UpdateSwap(e[3 := 30], 5, 50, 1, 10);
    UpdateSwap(e, 3, 30, 1, 10);
    UpdateSwap(e[1 := 10][3 := 30][5 := 50], 8, 80, 4, 40);
    UpdateSwap(e[1 := 10][3 := 30], 5, 50, 4, 40);
  }

  /** The only sorted listing of the four entries left after removing 3. */
  lemma FourListed(out: seq<Entry<int>>)
    requires Sorted(out) && MapOf(out) == map[][5 := 50][3 := 30][8 := 80][1 := 10][4 := 40] - {3}
    ensures out == [Entry(1, 10), Entry(4, 40), Entry(5, 50), Entry(8, 80)]
  {
    var w := [Entry(1, 10), Entry(4, 40), Entry(5, 50), Entry(8, 80)];
    FourMap(w);
    assert Sorted(w);
    SortedUnique(out, w);
  }

  lemma FourMap(w: seq<Entry<int>>)
    requires w == [Entry(1, 10), Entry(4, 40), Entry(5, 50), Entry(8, 80)]
    ensures MapOf(w) == map[][5 := 50][3 := 30][8 := 80][1 := 10][4 := 40] - {3}
  {
    Snoc(w, 3);
    Snoc(w, 2);
    Snoc(w, 1);
    Snoc(w, 0);
    assert w[..4] == w && w[..0] == [];
    ThreeRemoved();
  }

  /** The session's map after removing 3, with its updates in key order. */
  lemma ThreeRemoved()
    ensures map[][5 := 50][3 := 30][8 := 80][1 := 10][4 := 40] - {3}
         == map[][1 := 10][4 := 40][5 := 50][8 := 80]
  {
    var e: map<int, int> := map[];
    // move the removal of 3 inwards until it meets the update of 3
    MapUpdateMinus(e[5 := 50][3 := 30][8 := 80][1 := 10], 4, 40, 3);
    MapUpdateMinus(e[5 := 50][3 := 30][8 := 80], 1, 10, 3);
    MapUpdateMinus(e[5 := 50][3 := 30], 8, 80, 3);
    MapUpdateMinus(e[5 := 50], 3, 30, 3);
    MapUpdateMinus(e, 5, 50, 3);
    assert e - {3} == e;
    // reorder the updates 5 8 1 4 into 1 4 5 8
    UpdateSwap(e[5 := 50], 8, 80, 1, 10);
    UpdateSwap(e, 5, 50, 1, 10);
    UpdateSwap(e[1 := 10][5 := 50], 8, 80, 4, 40);
    UpdateSwap(e[1 := 10], 5, 50, 4, 40);
  }

  /** The only sorted listing after 5 is overwritten with 99. */
  lemma ThirdListed(out: seq<Entry<int>>)
    requires Sorted(out)
    requires MapOf(out) == (map[][5 := 50][3 := 30][8 := 80][1 := 10][4 := 40] - {3})[5 := 99]
    ensures out == [Entry(1, 10), Entry(4, 40), Entry(5, 99), Entry(8, 80)]
  {
    var w := [Entry(1, 10), Entry(4, 40), Entry(5, 99), Entry(8, 80)];
    ThirdMap(w);
    assert Sorted(w);
    SortedUnique(out, w);
  }

  lemma ThirdMap(w: seq<Entry<int>>)
    requires w == [Entry(1, 10), Entry(4, 40), Entry(5, 99), Entry(8, 80)]
    ensures MapOf(w) == (map[][5 := 50][3 := 30][8 := 80][1 := 10][4 := 40] - {3})[5 := 99]
  {
    Snoc(w, 3);
    Snoc(w, 2);
    Snoc(w, 1);
    Snoc(w, 0);
    assert w[..4] == w && w[..0] == [];
    ThreeRemoved();
    var e: map<int, int> := map[];
    UpdateSwap(e[1 := 10][4 := 40][5 := 50], 8, 80, 5, 99);
    UpdateTwice(e[1 := 10][4 := 40], 5, 50, 99);
  }

  /** A second update at a key overrides the first. */
  lemma UpdateTwice<V>(m: map<int, V>, a: int, x: V, y: V)
    ensures m[a := x][a := y] == m[a := y]
  {
  }

  /** Updates at two different keys commute. */
  lemma UpdateSwap<V>(m: map<int, V>, a: int, x: V, b: int, y: V)
    requires a != b
    ensures m[a := x][b := y] == m[b := y][a := x]
  {
  }

  /** The map of a prefix one entry longer. */
  lemma Snoc<V>(w: seq<Entry<V>>, n: nat)
    requires n < |w|
    ensures MapOf(w[..n + 1]) == MapOf(w[..n])[w[n].key := w[n].value]
  {
    assert w[..n + 1] == w[..n] + [w[n]];
    MapOfSnoc(w[..n], w[n]);
  }
}
