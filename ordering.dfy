/**
 * Three-way comparisons, as returned by Java's compareTo: negative for "less",
 * zero for "equal", positive for "greater".
 */
module Ordering {

  /** `cmp` is a total order whose zero means equality of the compared values. */
  ghost predicate TotalOrder<K(!new)>(cmp: (K, K) -> int) {
    && (forall a, b :: cmp(a, b) == 0 <==> a == b)
    && (forall a, b :: cmp(a, b) < 0 <==> cmp(b, a) > 0)
    && (forall a, b, c :: cmp(a, b) < 0 && cmp(b, c) < 0 ==> cmp(a, c) < 0)
  }

  /** Integer.compareTo: -1, 0 or 1. */
  function IntCompare(a: int, b: int): (r: int)
    ensures -1 <= r <= 1
    ensures r < 0 <==> a < b
    ensures r == 0 <==> a == b
  {
    if a < b then -1 else if a == b then 0 else 1
  }

  /** Integers compared by Integer.compareTo are totally ordered. */
  lemma IntCompareIsTotal()
    ensures TotalOrder(IntCompare)
  {
  }

  /** The values of `s` are strictly increasing under `cmp`. */
  ghost predicate Increasing<K(!new)>(cmp: (K, K) -> int, s: seq<K>) {
    forall i, j | 0 <= i < j < |s| :: cmp(s[i], s[j]) < 0
  }

  /** In an increasing sequence every later value is above the first, and the
      tail holds exactly the values other than the first. */
  lemma IncreasingHead<K(!new)>(cmp: (K, K) -> int, s: seq<K>, k: K)
    requires TotalOrder(cmp) && Increasing(cmp, s) && s != []
    ensures k in s && k != s[0] ==> cmp(s[0], k) < 0
    ensures k in s[1..] <==> (k in s && k != s[0])
    ensures Increasing(cmp, s[1..])
  {
    if k in s && k != s[0] {
      var i :| 0 <= i < |s| && s[i] == k;
      assert s[1..][i - 1] == k;
    }
    if k in s[1..] {
      var i :| 0 <= i < |s| - 1 && s[1..][i] == k;
      assert s[i + 1] == k && cmp(s[0], s[i + 1]) < 0;
    }
  }

  /** Two strictly increasing sequences holding the same values are equal. */
  lemma {:induction false} IncreasingIsUnique<K(!new)>(cmp: (K, K) -> int, a: seq<K>, b: seq<K>)
    requires TotalOrder(cmp) && Increasing(cmp, a) && Increasing(cmp, b)
    requires forall k | k in a :: k in b
    requires forall k | k in b :: k in a
    ensures a == b
  {
    assert a != [] ==> a[0] in b;
    assert b != [] ==> b[0] in a;
    if a == [] || b == [] {
    } else {
      assert a[0] in b && b[0] in a;
      IncreasingHead(cmp, a, b[0]);
      IncreasingHead(cmp, b, a[0]);
      assert a[0] == b[0];
      forall k | k in a[1..] ensures k in b[1..] {
        IncreasingHead(cmp, a, k);
        IncreasingHead(cmp, b, k);
      }
      forall k | k in b[1..] ensures k in a[1..] {
        IncreasingHead(cmp, a, k);
        IncreasingHead(cmp, b, k);
      }
      IncreasingHead(cmp, a, a[0]);
      IncreasingHead(cmp, b, b[0]);
      IncreasingIsUnique(cmp, a[1..], b[1..]);
      assert a == [a[0]] + a[1..] && b == [b[0]] + b[1..];
    }
  }
}
