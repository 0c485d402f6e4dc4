/**
 * The orders group keys are sorted by, and the uniqueness of a sorted
 * arrangement of a set of keys.
 */
module Order {
  /** `lt` is a strict total order: irreflexive, transitive and total on distinct keys. */
  ghost predicate StrictTotalOrder<K(!new)>(lt: (K, K) -> bool)
  {
    && (forall a :: !lt(a, a))
    && (forall a, b, c :: lt(a, b) && lt(b, c) ==> lt(a, c))
    && (forall a, b :: a == b || lt(a, b) || lt(b, a))
  }

  /** Strictly ascending, hence pairwise distinct. */
  ghost predicate Sorted<K>(ks: seq<K>, lt: (K, K) -> bool)
  {
    forall i, j :: 0 <= i < j < |ks| ==> lt(ks[i], ks[j])
  }

  /** A non-empty sequence holds its first element. */
  lemma HeadIsMember<K>(s: seq<K>)
    ensures s != [] ==> s[0] in s
  {
  }

  /** A finite set of keys has only one strictly ascending arrangement. */
  lemma {:induction false} SortedUnique<K(!new)>(a: seq<K>, b: seq<K>, lt: (K, K) -> bool)
    requires StrictTotalOrder(lt)
    requires Sorted(a, lt) && Sorted(b, lt)
    requires forall x :: x in a <==> x in b
    ensures a == b
  {
    if a == [] {
      HeadIsMember(b);
    } else {
      assert a[0] in a && a[0] in b;
      assert b[0] in b && b[0] in a;
      var i :| 0 <= i < |a| && a[i] == b[0];
      var j :| 0 <= j < |b| && b[j] == a[0];
      assert a[0] == b[0];
      forall x ensures x in a[1..] <==> x in b[1..] {
        if x in a[1..] {
          var p :| 0 <= p < |a[1..]| && a[1..][p] == x;
          assert lt(a[0], a[p + 1]);
          assert x in a;
          var q :| 0 <= q < |b| && b[q] == x;
          assert q != 0;
          assert b[1..][q - 1] == x;
        }
        if x in b[1..] {
          var q :| 0 <= q < |b[1..]| && b[1..][q] == x;
          assert lt(b[0], b[q + 1]);
          assert x in b;
          var p :| 0 <= p < |a| && a[p] == x;
          assert p != 0;
          assert a[1..][p - 1] == x;
        }
      }
      SortedUnique(a[1..], b[1..], lt);
      assert a == [a[0]] + a[1..] && b == [b[0]] + b[1..];
    }
  }
}
