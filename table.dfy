/**
 * Column-wise operations of a data frame, on a sequence of rows:
 * a boolean-mask filter (`df[mask]`) and the sum of one numeric column
 * (`df[col].sum()`).
 */
module Table {

  /** The rows of `s` for which `keep` holds, in their original order (`df[mask]`). */
  function Where<T(!new)>(s: seq<T>, keep: T -> bool): (r: seq<T>)
    ensures |r| <= |s|
    ensures forall x :: x in r <==> x in s && keep(x)
    ensures (forall x :: x in s ==> !keep(x)) ==> r == []
  {
    if s == [] then [] else (if keep(s[0]) then [s[0]] else []) + Where(s[1..], keep)
  }

  /** A filter keeps every copy of a kept row and no copy of a dropped one. */
  lemma {:induction false} WhereMultiplicity<T(!new)>(s: seq<T>, keep: T -> bool)
    ensures forall x :: multiset(Where(s, keep))[x] == if keep(x) then multiset(s)[x] else 0
  {
    if s != [] {
      WhereMultiplicity(s[1..], keep);
      assert s == [s[0]] + s[1..];
    }
  }

  /** `a` can be obtained from `b` by deleting elements (relative order is kept). */
  predicate IsSubsequence<T(==)>(a: seq<T>, b: seq<T>)
    decreases |b|
  {
    if a == [] then true
    else if b == [] then false
    else (a[0] == b[0] && IsSubsequence(a[1..], b[1..])) || IsSubsequence(a, b[1..])
  }

  /** A filter keeps the relative order of the rows it keeps. */
  lemma {:induction false} WhereIsSubsequence<T(!new)>(s: seq<T>, keep: T -> bool)
    ensures IsSubsequence(Where(s, keep), s)
  {
    if s != [] {
      var rest := Where(s[1..], keep);
      WhereIsSubsequence(s[1..], keep);
      if keep(s[0]) {
        var r := [s[0]] + rest;
        assert Where(s, keep) == r;
        assert r[0] == s[0] && r[1..] == rest;
      } else {
        assert Where(s, keep) == [] + rest == rest;
      }
    }
  }

  /** Filtering a concatenation filters each part: a filter is order-preserving. */
  lemma {:induction false} WhereAppend<T(!new)>(a: seq<T>, b: seq<T>, keep: T -> bool)
    ensures Where(a + b, keep) == Where(a, keep) + Where(b, keep)
  {
    if a == [] {
      assert a + b == b;
    } else {
      assert (a + b)[1..] == a[1..] + b;
      WhereAppend(a[1..], b, keep);
    }
  }

  /** A mask that holds on every row keeps the whole frame. */
  lemma {:induction false} WhereAll<T(!new)>(s: seq<T>, keep: T -> bool)
    requires forall i :: 0 <= i < |s| ==> keep(s[i])
    ensures Where(s, keep) == s
  {
    if s != [] {
      WhereAll(s[1..], keep);
    }
  }

  /** The sum of column `f` over the rows of `s`; 0 on an empty frame. */
  function Sum<T>(s: seq<T>, f: T -> nat): nat
  {
    if s == [] then 0 else f(s[0]) + Sum(s[1..], f)
  }

  lemma {:induction false} SumAppend<T>(a: seq<T>, b: seq<T>, f: T -> nat)
    ensures Sum(a + b, f) == Sum(a, f) + Sum(b, f)
  {
    if a == [] {
      assert a + b == b;
    } else {
      assert (a + b)[1..] == a[1..] + b;
      SumAppend(a[1..], b, f);
    }
  }

  /** A column that is the row-wise sum of two others sums to the sum of their sums. */
  lemma {:induction false} SumPointwise<T>(s: seq<T>, f: T -> nat, g: T -> nat, h: T -> nat)
    requires forall i :: 0 <= i < |s| ==> f(s[i]) == g(s[i]) + h(s[i])
    ensures Sum(s, f) == Sum(s, g) + Sum(s, h)
  {
    if s != [] {
      SumPointwise(s[1..], f, g, h);
    }
  }

  /** The complement of a mask (`~mask`). */
  function Not<T>(keep: T -> bool): T -> bool
  {
    x => !keep(x)
  }

  /** A filter and its complement split the column sum between them. */
  lemma {:induction false} SumWherePartition<T(!new)>(s: seq<T>, keep: T -> bool, f: T -> nat)
    ensures Sum(Where(s, keep), f) + Sum(Where(s, Not(keep)), f) == Sum(s, f)
  {
    if s != [] {
      SumWherePartition(s[1..], keep, f);
      var rest, restOut := Where(s[1..], keep), Where(s[1..], Not(keep));
      if keep(s[0]) {
        assert Where(s, keep) == [s[0]] + rest;
        assert Where(s, Not(keep)) == restOut;
        SumAppend([s[0]], rest, f);
      } else {
        assert Where(s, keep) == rest;
        assert Where(s, Not(keep)) == [s[0]] + restOut;
        SumAppend([s[0]], restOut, f);
      }
    }
  }
}
