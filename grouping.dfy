/**
 * `df.groupby(key).agg(...)` with pandas' default `sort=True`: one group per
 * distinct key, groups in ascending key order, each group carrying the
 * aggregate of the rows with its key.
 *
 * The groups are built the way a single pass over the rows builds them: every
 * row is inserted into a key-sorted association list, either opening a new
 * group (`first`) or folding into an existing one (`next`). `GroupBySpec`
 * connects that construction to the reference meaning of a group by: filter
 * the rows with one key (`WithKey`), then aggregate them (`Aggregate`).
 */
module Grouping {
  import opened Wrappers
  import Table
  import Order

  /** One output row of a group by: the group's key and its aggregated value. */
  datatype Group<K, V> = Group(key: K, acc: V)

  /** Keys strictly ascending, hence pairwise distinct: `Order.Sorted` of the key column. */
  ghost predicate Ascending<K, V>(gs: seq<Group<K, V>>, lt: (K, K) -> bool)
  {
    forall i, j :: 0 <= i < j < |gs| ==> lt(gs[i].key, gs[j].key)
  }

  /** Every key of `gs` lies strictly above `lo`. */
  ghost predicate Above<K, V>(lo: K, gs: seq<Group<K, V>>, lt: (K, K) -> bool)
  {
    forall i :: 0 <= i < |gs| ==> lt(lo, gs[i].key)
  }

  function KeySet<K, V>(gs: seq<Group<K, V>>): set<K>
  {
    set i | 0 <= i < |gs| :: gs[i].key
  }

  /** The distinct keys present among the rows of `s`. */
  function KeysPresent<T, K>(s: seq<T>, key: T -> K): set<K>
  {
    set i | 0 <= i < |s| :: key(s[i])
  }

  /** The value of the first group with key `k`, if there is one. */
  function Find<K(==), V>(gs: seq<Group<K, V>>, k: K): (r: Option<V>)
    ensures r.Some? <==> k in KeySet(gs)
  {
    if gs == [] then None
    else
      KeySetCons(gs);
      if gs[0].key == k then Some(gs[0].acc) else Find(gs[1..], k)
  }

  lemma KeySetCons<K, V>(gs: seq<Group<K, V>>)
    requires gs != []
    ensures KeySet(gs) == {gs[0].key} + KeySet(gs[1..])
  {
    forall k | k in KeySet(gs) ensures k in {gs[0].key} + KeySet(gs[1..]) {
      var i :| 0 <= i < |gs| && gs[i].key == k;
      if i > 0 {
        assert gs[1..][i - 1].key == k;
      }
    }
    forall k | k in KeySet(gs[1..]) ensures k in KeySet(gs) {
      var i :| 0 <= i < |gs[1..]| && gs[1..][i].key == k;
      assert gs[i + 1].key == k;
    }
  }

  lemma KeysPresentCons<T, K>(s: seq<T>, key: T -> K)
    requires s != []
    ensures KeysPresent(s, key) == {key(s[0])} + KeysPresent(s[1..], key)
  {
    forall k | k in KeysPresent(s, key) ensures k in {key(s[0])} + KeysPresent(s[1..], key) {
      var i :| 0 <= i < |s| && key(s[i]) == k;
      if i > 0 {
        assert key(s[1..][i - 1]) == k;
      }
    }
    forall k | k in KeysPresent(s[1..], key) ensures k in KeysPresent(s, key) {
      var i :| 0 <= i < |s[1..]| && key(s[1..][i]) == k;
      assert key(s[i + 1]) == k;
    }
  }

  /** The value a row contributes to its group: a fresh start or a fold into the old value. */
  function Step<T, V>(prior: Option<V>, x: T, first: T -> V, next: (V, T) -> V): V
  {
    match prior
    case None => first(x)
    case Some(v) => next(v, x)
  }

  /** Puts row `x` into the key-sorted groups `gs`. */
  function Insert<T, K(==), V>(gs: seq<Group<K, V>>, x: T, key: T -> K,
                               first: T -> V, next: (V, T) -> V, lt: (K, K) -> bool): seq<Group<K, V>>
  {
    if gs == [] then [Group(key(x), first(x))]
    else if gs[0].key == key(x) then [Group(key(x), next(gs[0].acc, x))] + gs[1..]
    else if lt(key(x), gs[0].key) then [Group(key(x), first(x))] + gs
    else [gs[0]] + Insert(gs[1..], x, key, first, next, lt)
  }

  /** The grouped frame: every row of `s` inserted into the groups of the rows after it. */
  function GroupBy<T, K(==), V>(s: seq<T>, key: T -> K, first: T -> V, next: (V, T) -> V,
                                lt: (K, K) -> bool): seq<Group<K, V>>
  {
    if s == [] then [] else Insert(GroupBy(s[1..], key, first, next, lt), s[0], key, first, next, lt)
  }

  /** The rows of one group: those whose key is `k`, in their original order. */
  function WithKey<T(!new), K(==)>(s: seq<T>, key: T -> K, k: K): seq<T>
  {
    Table.Where(s, x => key(x) == k)
  }

  lemma WithKeyCons<T(!new), K>(s: seq<T>, key: T -> K, k: K)
    requires s != []
    ensures WithKey(s, key, k) == (if key(s[0]) == k then [s[0]] else []) + WithKey(s[1..], key, k)
  {
  }

  /** The reference aggregate of a non-empty group of rows. */
  function Aggregate<T, V>(s: seq<T>, first: T -> V, next: (V, T) -> V): V
    requires s != []
  {
    if |s| == 1 then first(s[0]) else next(Aggregate(s[1..], first, next), s[0])
  }

  lemma {:induction false} InsertAbove<T, K, V>(gs: seq<Group<K, V>>, x: T, key: T -> K,
                                                     first: T -> V, next: (V, T) -> V, lt: (K, K) -> bool, lo: K)
    requires Above(lo, gs, lt) && lt(lo, key(x))
    ensures Above(lo, Insert(gs, x, key, first, next, lt), lt)
  {
    if gs != [] && gs[0].key != key(x) && !lt(key(x), gs[0].key) {
      InsertAbove(gs[1..], x, key, first, next, lt, lo);
    }
  }

  /** Inserting a row keeps the groups sorted, adds its key, and updates only its own group. */
  lemma {:induction false} InsertSpec<T, K(!new), V>(gs: seq<Group<K, V>>, x: T, key: T -> K,
                                                         first: T -> V, next: (V, T) -> V, lt: (K, K) -> bool)
    requires Order.StrictTotalOrder(lt)
    requires Ascending(gs, lt)
    ensures Ascending(Insert(gs, x, key, first, next, lt), lt)
    ensures KeySet(Insert(gs, x, key, first, next, lt)) == KeySet(gs) + {key(x)}
    ensures forall k :: Find(Insert(gs, x, key, first, next, lt), k) ==
                        if k == key(x) then Some(Step(Find(gs, k), x, first, next)) else Find(gs, k)
  {
    var r := Insert(gs, x, key, first, next, lt);
    var kx := key(x);
    if gs == [] {
      assert KeySet(r) == {kx} by { KeySetCons(r); }
    } else if gs[0].key == kx {
      KeySetCons(r);
      KeySetCons(gs);
      assert r[1..] == gs[1..];
    } else if lt(kx, gs[0].key) {
      KeySetCons(r);
      assert r[1..] == gs;
      assert kx !in KeySet(gs);
    } else {
      assert lt(gs[0].key, kx);
      var rest := gs[1..];
      assert Ascending(rest, lt);
      InsertSpec(rest, x, key, first, next, lt);
      assert Above(gs[0].key, rest, lt);
      InsertAbove(rest, x, key, first, next, lt, gs[0].key);
      var r' := Insert(rest, x, key, first, next, lt);
      assert r == [gs[0]] + r';
      assert r[1..] == r';
      KeySetCons(r);
      KeySetCons(gs);
    }
  }

  /** The group by is sorted, has a group exactly for each key present, and each
      group holds the aggregate of the rows with its key. */
  lemma {:induction false} GroupBySpec<T(!new), K(!new), V>(s: seq<T>, key: T -> K,
                                                               first: T -> V, next: (V, T) -> V, lt: (K, K) -> bool)
    requires Order.StrictTotalOrder(lt)
    ensures Ascending(GroupBy(s, key, first, next, lt), lt)
    ensures KeySet(GroupBy(s, key, first, next, lt)) == KeysPresent(s, key)
    ensures forall k :: Find(GroupBy(s, key, first, next, lt), k) ==
                        if WithKey(s, key, k) == [] then None
                        else Some(Aggregate(WithKey(s, key, k), first, next))
  {
    if s != [] {
      var gs' := GroupBy(s[1..], key, first, next, lt);
      GroupBySpec(s[1..], key, first, next, lt);
      InsertSpec(gs', s[0], key, first, next, lt);
      KeysPresentCons(s, key);
      forall k ensures Find(GroupBy(s, key, first, next, lt), k) ==
                       if WithKey(s, key, k) == [] then None
                       else Some(Aggregate(WithKey(s, key, k), first, next))
      {
        var w' := WithKey(s[1..], key, k);
        if key(s[0]) == k {
          assert WithKey(s, key, k) == [s[0]] + w';
          assert ([s[0]] + w')[1..] == w';
        } else {
          assert WithKey(s, key, k) == w';
        }
      }
    }
  }

  /** In sorted groups, looking up a group's own key finds that group. */
  lemma {:induction false} FindAt<K, V>(gs: seq<Group<K, V>>, lt: (K, K) -> bool, i: int)
    requires forall a :: !lt(a, a)
    requires Ascending(gs, lt)
    requires 0 <= i < |gs|
    ensures Find(gs, gs[i].key) == Some(gs[i].acc)
  {
    if i > 0 {
      assert lt(gs[0].key, gs[i].key);
      assert Ascending(gs[1..], lt);
      FindAt(gs[1..], lt, i - 1);
    }
  }

  /** Sorted groups have pairwise distinct keys: one group per key. */
  lemma {:induction false} AscendingDistinct<K, V>(gs: seq<Group<K, V>>, lt: (K, K) -> bool)
    requires forall a :: !lt(a, a)
    requires Ascending(gs, lt)
    ensures |KeySet(gs)| == |gs|
  {
    if gs != [] {
      assert Ascending(gs[1..], lt);
      AscendingDistinct(gs[1..], lt);
      KeySetCons(gs);
      assert gs[0].key !in KeySet(gs[1..]);
    }
  }

  /** Row by row: every group is non-empty and holds the aggregate of its rows,
      and there are exactly as many groups as distinct keys. */
  lemma GroupByRows<T(!new), K(!new), V>(s: seq<T>, key: T -> K,
                                            first: T -> V, next: (V, T) -> V, lt: (K, K) -> bool)
    requires Order.StrictTotalOrder(lt)
    ensures |GroupBy(s, key, first, next, lt)| == |KeysPresent(s, key)|
    ensures forall i :: 0 <= i < |GroupBy(s, key, first, next, lt)| ==>
              var g := GroupBy(s, key, first, next, lt)[i];
              WithKey(s, key, g.key) != [] && g.acc == Aggregate(WithKey(s, key, g.key), first, next)
  {
    var gs := GroupBy(s, key, first, next, lt);
    GroupBySpec(s, key, first, next, lt);
    AscendingDistinct(gs, lt);
    forall i | 0 <= i < |gs|
      ensures WithKey(s, key, gs[i].key) != [] && gs[i].acc == Aggregate(WithKey(s, key, gs[i].key), first, next)
    {
      FindAt(gs, lt, i);
    }
  }

  /** A non-empty frame has at least one and at most one key per row. */
  lemma {:induction false} KeysPresentBounds<T, K>(s: seq<T>, key: T -> K)
    requires s != []
    ensures 1 <= |KeysPresent(s, key)| <= |s|
  {
    KeysPresentCons(s, key);
    if |s| > 1 {
      KeysPresentBounds(s[1..], key);
    } else {
      assert KeysPresent(s[1..], key) == {};
    }
  }

  /** The key column of a grouped frame, as a function on its rows. */
  function KeyOf<K, V>(g: Group<K, V>): K
  {
    g.key
  }

  /** In sorted groups each key is held by exactly one group. */
  lemma {:induction false} UniqueMatch<K(!new), V(!new)>(gs: seq<Group<K, V>>, lt: (K, K) -> bool, i: int)
    requires forall a :: !lt(a, a)
    requires Ascending(gs, lt)
    requires 0 <= i < |gs|
    ensures WithKey(gs, KeyOf, gs[i].key) == [gs[i]]
  {
    var k := gs[i].key;
    assert Ascending(gs[1..], lt);
    WithKeyCons(gs, KeyOf, k);
    if i == 0 {
      forall j | 0 <= j < |gs[1..]| ensures gs[1..][j].key != k {
        assert lt(k, gs[j + 1].key);
      }
      assert forall x :: x in gs[1..] ==> KeyOf(x) != k;
      assert WithKey(gs[1..], KeyOf, k) == [];
    } else {
      assert lt(gs[0].key, k) && gs[0].key != k;
      UniqueMatch(gs[1..], lt, i - 1);
      assert gs[1..][i - 1] == gs[i];
    }
  }}
