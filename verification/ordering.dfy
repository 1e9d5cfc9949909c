/**
 * Orderings used by ORDER BY, and the sorted listing of a finite set that a
 * GROUP BY ... ORDER BY query produces (one entry per group, in order).
 */
module Ordering {

  /** less is irreflexive, transitive and relates any two distinct values. */
  ghost predicate StrictTotalOrder<T(!new)>(less: (T, T) -> bool) {
    && (forall a :: !less(a, a))
    && (forall a, b, c :: less(a, b) && less(b, c) ==> less(a, c))
    && (forall a, b :: a != b ==> less(a, b) || less(b, a))
  }

  ghost predicate IsLeast<T>(x: T, s: set<T>, less: (T, T) -> bool) {
    x in s && forall y :: y in s && y != x ==> less(x, y)
  }

  /** Some element of a non-empty set. */
  ghost function Pick<T>(s: set<T>): (x: T)
    requires |s| > 0
    ensures x in s
  {
    var x :| x in s; x
  }

  /** Every finite non-empty set has a least element under a strict total order. */
  lemma {:induction false} LeastExists<T(!new)>(s: set<T>, less: (T, T) -> bool)
    requires StrictTotalOrder(less)
    requires s != {}
    ensures exists x :: IsLeast(x, s, less)
    decreases |s|
  {
    var y :| y in s;
    if s == {y} {
      assert IsLeast(y, s, less);
    } else {
      LeastExists(s - {y}, less);
      var m :| IsLeast(m, s - {y}, less);
      if less(y, m) {
        forall z | z in s && z != y ensures less(y, z) {
          if z != m {
            assert less(m, z);
          }
        }
        assert IsLeast(y, s, less);
      } else {
        assert IsLeast(m, s, less);
      }
    }
  }

  /** The elements of s listed once each, in strictly increasing order. */
  ghost function SortedBy<T(!new)>(s: set<T>, less: (T, T) -> bool): (r: seq<T>)
    requires StrictTotalOrder(less)
    ensures |r| == |s|
    ensures forall x :: x in r <==> x in s
    ensures forall i, j :: 0 <= i < j < |r| ==> less(r[i], r[j])
    decreases |s|
  {
    if s == {} then []
    else
      LeastExists(s, less);
      var m :| IsLeast(m, s, less);
      [m] + SortedBy(s - {m}, less)
  }

  /** Rows built one per key, in key order, carry exactly those keys, in the same order. */
  lemma RowsFollowKeys<R, K>(rows: seq<R>, keys: seq<K>, key: R -> K, less: (K, K) -> bool)
    requires |rows| == |keys|
    requires forall i :: 0 <= i < |rows| ==> key(rows[i]) == keys[i]
    requires forall i, j :: 0 <= i < j < |keys| ==> less(keys[i], keys[j])
    ensures forall k :: (exists i :: 0 <= i < |rows| && key(rows[i]) == k) <==> k in keys
    ensures forall i, j :: 0 <= i < j < |rows| ==> less(key(rows[i]), key(rows[j]))
  {
    forall k | k in keys ensures exists i :: 0 <= i < |rows| && key(rows[i]) == k {
      var i :| 0 <= i < |keys| && keys[i] == k;
      assert key(rows[i]) == k;
    }
  }

  predicate IntLess(a: int, b: int) {
    a < b
  }

  lemma IntLessIsStrictTotal()
    ensures StrictTotalOrder(IntLess)
  {
  }

  /** A calendar month of a given year, the key of a per-(year, month) grouping. */
  datatype YearMonth = YearMonth(year: int, month: int)

  /** ORDER BY year, month. */
  predicate YearMonthLess(a: YearMonth, b: YearMonth) {
    a.year < b.year || (a.year == b.year && a.month < b.month)
  }

  lemma YearMonthLessIsStrictTotal()
    ensures StrictTotalOrder(YearMonthLess)
  {
  }

  /** Byte-wise (code point) lexicographic order on strings, as under the "C" collation. */
  predicate LexLess(a: string, b: string)
    ensures a < b ==> LexLess(a, b)
    ensures b <= a ==> !LexLess(a, b)
    decreases |a|
  {
    if |a| == 0 then |b| > 0
    else if |b| == 0 then false
    else if a[0] != b[0] then a[0] < b[0]
    else LexLess(a[1..], b[1..])
  }

  /** At the first position where a and b differ, that position decides the order. */
  lemma {:induction false} LexLessAtFirstDifference(a: string, b: string, i: nat)
    requires i < |a| && i < |b| && a[..i] == b[..i] && a[i] != b[i]
    ensures LexLess(a, b) <==> a[i] < b[i]
    decreases i
  {
    if i > 0 {
      assert a[0] == a[..i][0] && b[0] == b[..i][0];
      assert a[1..][..i - 1] == a[..i][1..] && b[1..][..i - 1] == b[..i][1..];
      LexLessAtFirstDifference(a[1..], b[1..], i - 1);
    }
  }

  lemma {:induction false} LexLessIrreflexive(a: string)
    ensures !LexLess(a, a)
    decreases |a|
  {
    if |a| > 0 {
      LexLessIrreflexive(a[1..]);
    }
  }

  lemma {:induction false} LexLessTransitive(a: string, b: string, c: string)
    requires LexLess(a, b) && LexLess(b, c)
    ensures LexLess(a, c)
    decreases |a|
  {
    if |a| > 0 && |b| > 0 && |c| > 0 && a[0] == b[0] && b[0] == c[0] {
      LexLessTransitive(a[1..], b[1..], c[1..]);
    }
  }

  lemma {:induction false} LexLessTotal(a: string, b: string)
    requires a != b
    ensures LexLess(a, b) || LexLess(b, a)
    decreases |a|
  {
    if |a| > 0 && |b| > 0 && a[0] == b[0] {
      assert a == [a[0]] + a[1..] && b == [b[0]] + b[1..];
      LexLessTotal(a[1..], b[1..]);
    }
  }

  lemma LexLessIsStrictTotal()
    ensures StrictTotalOrder(LexLess)
  {
    forall a: string ensures !LexLess(a, a) {
      LexLessIrreflexive(a);
    }
    forall a: string, b: string, c: string | LexLess(a, b) && LexLess(b, c)
      ensures LexLess(a, c)
    {
      LexLessTransitive(a, b, c);
    }
    forall a: string, b: string | a != b ensures LexLess(a, b) || LexLess(b, a) {
      LexLessTotal(a, b);
    }
  }
}
