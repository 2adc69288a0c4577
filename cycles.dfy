/** Repeat units of period k >= 2: what the reverse cycle scan stores at each
    position, and how the forward propagation spreads a run's total along the
    positions k apart that belong to the same run. */
module Cycles {
  import opened Base
  import opened Runs
  import opened Arith

  /** The symbol at j equals the one k positions ahead. */
  predicate MatchAt(s: seq<byte>, k: nat, j: nat)
  {
    j + k < |s| && s[j] == s[j + k]
  }

  /** The number of consecutive positions j >= q (with j + k inside s) where
      the symbol equals the one k positions ahead. */
  function Matches(s: seq<byte>, k: nat, q: nat): (m: nat)
    requires q <= |s|
    ensures q + k >= |s| ==> m == 0
    ensures q + k < |s| ==> q + m + k <= |s|
    ensures forall j :: q <= j < q + m ==> MatchAt(s, k, j)
    ensures q + m + k < |s| ==> s[q + m] != s[q + m + k]
    decreases |s| - q
  {
    if q + k < |s| && s[q] == s[q + k] then 1 + Matches(s, k, q + 1) else 0
  }

  /** The state of the reverse scan once it has processed q: the matched
      symbols of the cycle in progress and the value it stores at q. The scan
      starts with value 1 at the last unit that fits, |s| - k; a match
      completes a cycle after k matches and then adds one unit, a mismatch
      resets both. */
  datatype Scan = Scan(matchedCycles: nat, value: nat)

  function ScanAt(s: seq<byte>, k: nat, q: nat): (r: Scan)
    requires 1 <= k && q + k <= |s|
    ensures r.matchedCycles < k && r.value >= 1
    decreases |s| - q
  {
    if q + k == |s| then Scan(0, 1)
    else
      var next := ScanAt(s, k, q + 1);
      if s[q] == s[q + k] then
        if next.matchedCycles + 1 == k then Scan(0, next.value + 1)
        else Scan(next.matchedCycles + 1, next.value)
      else Scan(0, 1)
  }

  /** The value the reverse scan leaves at q: 0 when a unit starting at q
      falls off the end. */
  function Copies(s: seq<byte>, k: nat, q: nat): (c: nat)
    requires 1 <= k && q < |s|
  {
    if q + k > |s| then 0 else ScanAt(s, k, q).value
  }

  /** The scan's state is the number of matches from q split into completed
      cycles of k and the remainder. */
  lemma {:induction false} ScanCounts(s: seq<byte>, k: nat, q: nat)
    requires 1 <= k && q + k <= |s|
    ensures ScanAt(s, k, q) == Scan(Matches(s, k, q) % k, 1 + Matches(s, k, q) / k)
    decreases |s| - q
  {
    if q + k == |s| {
      DivModUnique(0, k, 0, 0);
    } else {
      ScanCounts(s, k, q + 1);
      if s[q] == s[q + k] {
        DivModSucc(Matches(s, k, q + 1), k);
      } else {
        DivModUnique(0, k, 0, 0);
      }
    }
  }

  /** Closed form of a reverse-scan value: one plus the completed cycles. */
  lemma CopiesClosed(s: seq<byte>, k: nat, q: nat)
    requires 1 <= k && q + k <= |s|
    ensures Copies(s, k, q) == 1 + Matches(s, k, q) / k
  {
    ScanCounts(s, k, q);
  }

  /** The i-th unit of length k after q (counting from 0) lies inside s and
      spells the same symbols as the unit at q. */
  ghost predicate UnitAt(s: seq<byte>, k: nat, q: nat, i: nat)
  {
    var start := q + i * k;
    start + k <= |s| && s[start .. start + k] == s[q .. q + k]
  }

  /** Within a stretch of m matches at distance k from q, every symbol
      equals the one a whole number of units earlier. */
  lemma {:induction false} Periodic(s: seq<byte>, k: nat, q: nat, m: nat, i: nat, d: nat)
    requires 1 <= k && d < k && q + m + k <= |s|
    requires forall j :: q <= j < q + m ==> MatchAt(s, k, j)
    requires q + i * k + d < q + m + k
    ensures s[q + i * k + d] == s[q + d]
    decreases i
  {
    if i > 0 {
      var j := q + (i - 1) * k + d;
      assert j + k == q + i * k + d;
      Periodic(s, k, q, m, i - 1, d);
      assert MatchAt(s, k, j);
    }
  }

  /** Unit i after q repeats the unit at q while it starts within the
      stretch of m matches. */
  lemma UnitRepeats(s: seq<byte>, k: nat, q: nat, m: nat, i: nat)
    requires 1 <= k && q + m + k <= |s| && i * k <= m
    requires forall j :: q <= j < q + m ==> MatchAt(s, k, j)
    ensures UnitAt(s, k, q, i)
  {
    var u, w := s[q + i * k .. q + i * k + k], s[q .. q + k];
    forall e | 0 <= e < k
      ensures u[e] == w[e]
    {
      Periodic(s, k, q, m, i, e);
    }
    assert u == w;
  }

  /** The unit after the last complete cycle of the m = a * k + d matches
      differs from the unit at q at offset d, where the matches stop. */
  lemma UnitBreaks(s: seq<byte>, k: nat, q: nat, m: nat, a: nat, d: nat)
    requires 1 <= k && d < k && m == a * k + d && q + m + k <= |s|
    requires forall j :: q <= j < q + m ==> MatchAt(s, k, j)
    requires q + m + k < |s| ==> s[q + m] != s[q + m + k]
    ensures !UnitAt(s, k, q, a + 1)
  {
    MulSucc(a, k);
    var start := q + (a + 1) * k;
    if start + k <= |s| {
      Periodic(s, k, q, m, a, d);
      var u, w := s[start .. start + k], s[q .. q + k];
      assert u[d] == s[q + m + k];
      assert u[d] != w[d];
    }
  }

  /** With m = a * k + d matches after q, units 0 .. c - 1, where c = a + 1,
      repeat the unit at q and unit c does not. */
  lemma RepeatsFromMatches(s: seq<byte>, k: nat, q: nat, m: nat, a: nat, d: nat, c: nat)
    requires 1 <= k && d < k && m == a * k + d && q + m + k <= |s| && c == a + 1
    requires forall j :: q <= j < q + m ==> MatchAt(s, k, j)
    requires q + m + k < |s| ==> s[q + m] != s[q + m + k]
    ensures forall i :: 0 <= i < c ==> UnitAt(s, k, q, i)
    ensures !UnitAt(s, k, q, c)
  {
    forall i | 0 <= i < c
      ensures UnitAt(s, k, q, i)
    {
      MulMonotone(i, a, k);
      UnitRepeats(s, k, q, m, i);
    }
    UnitBreaks(s, k, q, m, a, d);
  }

  /** The reverse-scan value at q is the number of consecutive copies of
      s[q .. q + k) that start at q: units 0 .. c-1 repeat it, unit c does not. */
  lemma CopiesAreRepeats(s: seq<byte>, k: nat, q: nat)
    requires 1 <= k && q + k <= |s|
    ensures Copies(s, k, q) >= 1
    ensures forall i :: 0 <= i < Copies(s, k, q) ==> UnitAt(s, k, q, i)
    ensures !UnitAt(s, k, q, Copies(s, k, q))
  {
    var m := Matches(s, k, q);
    var a, d := m / k, m % k;
    assert Copies(s, k, q) == a + 1 by {
      CopiesClosed(s, k, q);
    }
    assert m == a * k + d && d < k;
    assert q + m + k <= |s| by {
      if q + k == |s| {
        assert m == 0;
      }
    }
    RepeatsFromMatches(s, k, q, m, a, d, Copies(s, k, q));
  }

  /** A reverse-scan value never exceeds the number of whole units in s. */
  lemma CopiesBound(s: seq<byte>, k: nat, q: nat)
    requires 1 <= k && q < |s|
    ensures Copies(s, k, q) <= |s| / k
    ensures q + k <= |s| ==> Copies(s, k, q) >= 1
  {
    if q + k <= |s| {
      var m := Matches(s, k, q);
      CopiesClosed(s, k, q);
      DivMonotone(m, |s| - k, k);
      AddUnits(|s| - k, 1, k);
    } else {
      DivMonotone(0, |s|, k);
    }
  }

  /** The units of the last copy of a run stay inside s: the forward
      propagation from a head q writes at most at q + (c - 1) * k <= |s| - k. */
  lemma ChainWithinBounds(s: seq<byte>, k: nat, q: nat)
    requires 1 <= k && q < |s| && Copies(s, k, q) >= 1
    ensures q + (Copies(s, k, q) - 1) * k <= |s| - k
  {
    var m := Matches(s, k, q);
    CopiesClosed(s, k, q);
    QuotientBelow(m, k);
  }

  /** The number of units the forward propagation advances past a head. */
  function ChainUnits(s: seq<byte>, k: nat, h: nat): (u: nat)
    requires 1 <= k && h < |s|
    ensures u >= 1
    ensures Copies(s, k, h) >= 1 ==> u == Copies(s, k, h)
  {
    var t := Copies(s, k, h);
    if t == 0 then 1 else t
  }

  /** How far the forward propagation moves past the head h: one unit per
      copy, and one unit when h holds no copy. */
  function Stride(s: seq<byte>, k: nat, h: nat): (d: nat)
    requires 1 <= k && h < |s|
    ensures d >= k
  {
    MulAtLeast(ChainUnits(s, k, h), k);
    ChainUnits(s, k, h) * k
  }

  /** The head of the propagation chain that covers q, the walk starting at
      the head h and visiting h, h + Stride(h), ... as the propagation loop
      does. */
  function ChainHead(s: seq<byte>, k: nat, h: nat, q: nat): (r: nat)
    requires 1 <= k && h <= q < |s|
    ensures h <= r <= q < r + Stride(s, k, r)
    decreases q - h
  {
    var next := h + Stride(s, k, h);
    if q < next then h else ChainHead(s, k, next, q)
  }

  /** The walk only visits positions a whole number of units after its start. */
  lemma {:induction false} ChainHeadInPhase(s: seq<byte>, k: nat, h: nat, q: nat)
    requires 1 <= k && h <= q < |s| && (q - h) % k == 0
    ensures (q - ChainHead(s, k, h, q)) % k == 0
    decreases q - h
  {
    var next := h + Stride(s, k, h);
    if next <= q {
      AddUnits(q - next, ChainUnits(s, k, h), k);
      ChainHeadInPhase(s, k, next, q);
    }
  }

  /** The value at q after the forward propagation: the total of the chain
      whose head covers q, the walk starting at the phase q % k. */
  function Propagated(s: seq<byte>, k: nat, q: nat): (v: nat)
    requires 1 <= k && q < |s|
  {
    Copies(s, k, ChainHead(s, k, q % k, q))
  }

  /** The row of propagated values, built left to right. */
  function PropRow(s: seq<byte>, k: nat): (row: seq<int>)
    requires 1 <= k
    ensures |row| == |s|
  {
    PropPrefix(s, k, |s|)
  }

  /** The first n propagated values. */
  function PropPrefix(s: seq<byte>, k: nat, n: nat): (row: seq<int>)
    requires 1 <= k && n <= |s|
    ensures |row| == n
    decreases n
  {
    if n == 0 then [] else PropPrefix(s, k, n - 1) + [Propagated(s, k, n - 1)]
  }

  /** Entry q of the row is the propagated value at q. */
  lemma PropRowAt(s: seq<byte>, k: nat, q: nat)
    requires 1 <= k && q < |s|
    ensures PropRow(s, k)[q] == Propagated(s, k, q)
  {
    PrefixAt(s, k, |s|, q);
  }

  lemma {:induction false} PrefixAt(s: seq<byte>, k: nat, n: nat, q: nat)
    requires 1 <= k && q < n <= |s|
    ensures PropPrefix(s, k, n)[q] == Propagated(s, k, q)
    decreases n
  {
    if q < n - 1 {
      PrefixAt(s, k, n - 1, q);
    }
  }

  /** Walking from an earlier head reaches the same head as walking from a
      head met on the way. */
  lemma {:induction false} ChainHeadFrom(s: seq<byte>, k: nat, c: nat, h: nat, q: nat)
    requires 1 <= k && c <= h <= q < |s|
    requires (h - c) % k == 0
    requires ChainHead(s, k, c, h) == h
    ensures ChainHead(s, k, c, q) == ChainHead(s, k, h, q)
    decreases h - c
  {
    if c < h {
      var u := ChainUnits(s, k, c);
      var next := c + u * k;
      assert next <= h;
      AddUnits(h - next, u, k);
      ChainHeadFrom(s, k, next, h, q);
    }
  }

  /** The phase q % k is where the walk to q starts. */
  lemma PhaseStart(k: nat, q: nat)
    requires 1 <= k
    ensures q % k <= q && (q - q % k) % k == 0
  {
    ModIdempotent(q, k);
    SameRemainder(q % k, q, k);
  }

  /** A chain headed by h with total t gives t to each of its t units. */
  lemma ChainCarriesTotal(s: seq<byte>, k: nat, h: nat, i: nat, q: nat)
    requires 1 <= k && q == h + i * k && q < |s|
    requires i < Copies(s, k, h)
    requires ChainHead(s, k, h % k, h) == h
    ensures Propagated(s, k, q) == Copies(s, k, h)
  {
    var t := Copies(s, k, h);
    assert q % k == h % k by {
      AddUnits(h, i, k);
    }
    assert q < h + Stride(s, k, h) by {
      MulMonotone(i + 1, t, k);
      MulSucc(i, k);
      assert Stride(s, k, h) == t * k;
    }
    PhaseStart(k, h);
    ChainHeadFrom(s, k, h % k, h, q);
    assert ChainHead(s, k, h, q) == h;
  }

  /** A position past the head of its chain lies on the chain's units, all of
      which stay at or below |s| - k. */
  lemma ChainCover(s: seq<byte>, k: nat, q: nat)
    requires 1 <= k && q < |s|
    ensures var r := ChainHead(s, k, q % k, q);
      r == q || (Copies(s, k, r) >= 2 && q <= r + (Copies(s, k, r) - 1) * k)
  {
    var r := ChainHead(s, k, q % k, q);
    if r < q {
      assert (q - r) % k == 0 by {
        PhaseStart(k, q);
        ChainHeadInPhase(s, k, q % k, q);
      }
      var u := ChainUnits(s, k, r);
      var j := (q - r) / k;
      MultipleAtLeast(q - r, k);
      assert j < u by {
        assert Stride(s, k, r) == u * k;
        if u <= j {
          MulMonotone(u, j, k);
        }
      }
      assert Copies(s, k, r) == u;
      MulMonotone(j, u - 1, k);
    }
  }

  /** Past |s| - k no propagation write reaches, so the value stays 0. */
  lemma PropagatedTail(s: seq<byte>, k: nat, q: nat)
    requires 1 <= k <= |s| && |s| - k < q < |s|
    ensures Propagated(s, k, q) == 0
  {
    ChainCover(s, k, q);
    var r := ChainHead(s, k, q % k, q);
    if r < q {
      ChainWithinBounds(s, k, r);
    }
  }

  /** Every propagated value is a reverse-scan value of a head, hence at most
      |s| / k, and at least 1 where a unit fits. */
  lemma PropagatedBounds(s: seq<byte>, k: nat, q: nat)
    requires 1 <= k && q < |s|
    ensures Propagated(s, k, q) <= |s| / k
    ensures q + k <= |s| ==> Propagated(s, k, q) >= 1
  {
    var r := ChainHead(s, k, q % k, q);
    CopiesBound(s, k, r);
  }

  /** For period 1 the matches are the rest of the run. */
  lemma {:induction false} MatchesPeriodOne(s: seq<byte>, q: nat)
    requires q < |s|
    ensures Matches(s, 1, q) == RunEnd(s, q) - q - 1
    decreases |s| - q
  {
    if q + 1 < |s| && s[q] == s[q + 1] {
      MatchesPeriodOne(s, q + 1);
    }
  }
}
