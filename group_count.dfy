/** The number of routes asked of the clustering step: the point count
    divided by the cap on points per route, rounded up. */
module GroupCount {

  /** ceil(n / cap): the least number of groups of at most `cap` points that
      could hold `n` points. */
  function NumGroups(n: nat, cap: nat): (k: nat)
    requires cap >= 1
    ensures k * cap >= n
    ensures k > 0 ==> (k - 1) * cap < n
  {
    CeilDivBounds(n, cap);
    (n + cap - 1) / cap
  }

  /** The Euclidean quotient of n + cap - 1 by cap rounds n / cap up. */
  lemma CeilDivBounds(n: nat, cap: nat)
    requires cap >= 1
    ensures ((n + cap - 1) / cap) * cap >= n
    ensures (n + cap - 1) / cap > 0 ==> ((n + cap - 1) / cap - 1) * cap < n
  {
    var q, r := (n + cap - 1) / cap, (n + cap - 1) % cap;
    assert q * cap + r == n + cap - 1;
    assert 0 <= r < cap;
    if q > 0 {
      assert (q - 1) * cap == q * cap - cap;
    }
  }

  /** NumGroups is the least count that covers n: no smaller k has k * cap >= n. */
  lemma NumGroupsIsLeast(n: nat, cap: nat, k: nat)
    requires cap >= 1
    requires k * cap >= n
    ensures NumGroups(n, cap) <= k
  {
    var g := NumGroups(n, cap);
    if g > k {
      assert k <= g - 1;
      MulMonotone(k, g - 1, cap);
    }
  }

  lemma MulMonotone(a: nat, b: nat, c: nat)
    requires a <= b
    ensures a * c <= b * c
  {
    assert b * c == a * c + (b - a) * c;
  }

  /** When the cap admits every point there is exactly one group. */
  lemma SingleGroup(n: nat, cap: nat)
    requires cap >= 1
    requires 1 <= n <= cap
    ensures NumGroups(n, cap) == 1
  {
    NumGroupsIsLeast(n, cap, 1);
  }

  /** There are never more groups than points, and at least one group for a
      non-empty point set, so the clustering call always gets a valid count
      once the point set is non-empty; with no points the count is zero. */
  lemma NumGroupsRange(n: nat, cap: nat)
    requires cap >= 1
    ensures NumGroups(n, cap) <= n
    ensures n >= 1 ==> NumGroups(n, cap) >= 1
    ensures n == 0 ==> NumGroups(n, cap) == 0
  {
    MulMonotone(1, cap, n);
    NumGroupsIsLeast(n, cap, n);
  }

  /** Nine points with at most four per route give three routes. */
  lemma NineByFour()
    ensures NumGroups(9, 4) == 3
  {
  }
}
