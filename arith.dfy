/** Facts about multiplication, Euclidean division and remainder by a
    positive unit length, proved once so that the repeat proofs stay linear. */
module Arith {

  lemma {:induction false} MulAtLeast(a: int, k: nat)
    requires a >= 1 && k >= 1
    ensures a * k >= k
  {
    if a > 1 {
      MulAtLeast(a - 1, k);
      assert a * k == (a - 1) * k + k;
    }
  }

  lemma MulSucc(i: int, k: int)
    ensures (i + 1) * k == i * k + k
  {
  }

  lemma MulMonotone(i: nat, j: nat, k: nat)
    requires i <= j
    ensures i * k <= j * k
  {
    assert j * k - i * k == (j - i) * k;
  }

  /** Euclidean division is the unique quotient and remainder. */
  lemma DivModUnique(n: int, k: nat, q: int, r: int)
    requires 1 <= k && n == q * k + r && 0 <= r < k
    ensures n / k == q && n % k == r
  {
    var q', r' := n / k, n % k;
    assert n == q' * k + r';
    var d := q - q';
    assert d * k == r' - r by {
      assert q * k - q' * k == (q - q') * k;
    }
    if d >= 1 {
      MulAtLeast(d, k);
    } else if d <= -1 {
      assert (-d) * k == -(d * k);
      MulAtLeast(-d, k);
    }
  }

  /** Adding u whole units moves the quotient by u and keeps the remainder. */
  lemma AddUnits(x: int, u: int, k: nat)
    requires 1 <= k
    ensures (x + u * k) / k == x / k + u
    ensures (x + u * k) % k == x % k
  {
    assert x + u * k == (x / k + u) * k + x % k;
    DivModUnique(x + u * k, k, x / k + u, x % k);
  }

  /** One more match either finishes a cycle or extends the current one. */
  lemma DivModSucc(m: nat, k: nat)
    requires 1 <= k
    ensures m % k + 1 == k ==> (m + 1) % k == 0 && (m + 1) / k == m / k + 1
    ensures m % k + 1 < k ==> (m + 1) % k == m % k + 1 && (m + 1) / k == m / k
  {
    if m % k + 1 == k {
      DivModUnique(m + 1, k, m / k + 1, 0);
    } else {
      DivModUnique(m + 1, k, m / k, m % k + 1);
    }
  }

  lemma DivMonotone(x: nat, y: nat, k: nat)
    requires 1 <= k && x <= y
    ensures x / k <= y / k
  {
    if x / k > y / k {
      assert x / k * k - y / k * k == (x / k - y / k) * k;
      MulAtLeast(x / k - y / k, k);
    }
  }

  lemma QuotientBelow(m: nat, k: nat)
    requires 1 <= k
    ensures (m / k) * k <= m
  {
  }

  /** Two positions with the same remainder differ by a whole number of units. */
  lemma SameRemainder(x: nat, y: nat, k: nat)
    requires 1 <= k && x <= y && x % k == y % k
    ensures (y - x) % k == 0
    ensures x < y ==> y - x >= k
  {
    var d := y / k - x / k;
    assert y - x == d * k by {
      assert y == (y / k) * k + y % k;
      assert x == (x / k) * k + x % k;
      assert (y / k) * k - (x / k) * k == d * k;
    }
    DivModUnique(y - x, k, d, 0);
    if x < y {
      if d <= 0 {
        assert (-d) * k == -(d * k);
        MulMonotone(0, -d, k);
      } else {
        MulAtLeast(d, k);
      }
    }
  }

  lemma ModIdempotent(x: int, k: nat)
    requires 1 <= k
    ensures (x % k) % k == x % k
  {
    DivModUnique(x % k, k, 0, x % k);
  }

  /** A remainder never exceeds the number it is taken of. */
  lemma ModAtMost(x: nat, k: nat)
    requires 1 <= k
    ensures x % k <= x
  {
    if x < k {
      DivModUnique(x, k, 0, x);
    }
  }

  /** A position c + u * k lies in phase c. */
  lemma PhaseOf(c: nat, h: nat, k: nat)
    requires c < k && c <= h && (h - c) % k == 0
    ensures h % k == c
  {
    assert h - c == ((h - c) / k) * k;
    DivModUnique(h, k, (h - c) / k, c);
  }

  /** No position strictly between x and x + k shares the phase of x. */
  lemma GapBetweenUnits(x: nat, k: nat)
    requires 1 <= k
    ensures forall q: nat :: x < q < x + k ==> q % k != x % k
  {
    forall q: nat | x < q < x + k && q % k == x % k
      ensures false
    {
      SameRemainder(x, q, k);
    }
  }

  /** A positive multiple of k is at least k. */
  lemma MultipleAtLeast(x: int, k: nat)
    requires 1 <= k && x > 0 && x % k == 0
    ensures x == (x / k) * k && x / k >= 1
    ensures x >= k
  {
    assert x == (x / k) * k;
    MulAtLeast(x / k, k);
  }

  /** Splitting into units of 2 or more leaves fewer parts than elements. */
  lemma DivLess(n: nat, b: nat)
    requires 1 <= n && 2 <= b
    ensures n / b < n
  {
    if n / b >= n {
      MulMonotone(n, n / b, b);
      MulMonotone(2, b, n);
    }
  }
}
