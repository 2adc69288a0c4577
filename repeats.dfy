/** What the analyzer's tables hold once a sequence is loaded: the repeat
    count of every period at every position and the period with the most
    repeats, with the properties the queries rely on. */
module Repeats {
  import opened Base
  import opened Runs
  import opened Arith
  import opened Cycles
  import opened Window

  /** The count stored for period k at position p of the loaded sequence s:
      0 when k exceeds |s|, the period-1 count for k == 1, and otherwise the
      window maximum of the propagated reverse-scan values. */
  function RepeatCount(s: seq<byte>, k: nat, p: nat): (c: int)
    requires 1 <= k && p < |s|
  {
    if k > |s| then 0
    else if k == 1 then PeriodOneCount(s, p)
    else Windowed(PropRow(s, k), k, p)
  }

  /** Count bounds: a period longer than the sequence has count 0; any other
      period has a count between 1 and the number of its units that fit. */
  lemma CountBounds(s: seq<byte>, k: nat, p: nat)
    requires 1 <= k && p < |s|
    ensures k > |s| ==> RepeatCount(s, k, p) == 0
    ensures k <= |s| ==> 1 <= RepeatCount(s, k, p) <= |s| / k
  {
    if k == 1 {
      PeriodOneBounds(s, p);
    } else if k <= |s| {
      WindowedBounds(s, k, p);
    }
  }

  /** Every window holds a propagated value of at least 1 (the one at p, or at
      |s| - k near the end) and none above |s| / k. */
  lemma WindowedBounds(s: seq<byte>, k: nat, p: nat)
    requires 1 <= k <= |s| && p < |s|
    ensures 1 <= Windowed(PropRow(s, k), k, p) <= |s| / k
  {
    var n := |s|;
    var row := PropRow(s, k);
    var lo := if p >= k then p - k else 0;
    var c := MaxOf(row, lo, p + 1);
    MaxOfIsMax(row, lo, p + 1);
    var j :| lo <= j < p + 1 && row[j] == c;
    assert c <= n / k by {
      PropRowAt(s, k, j);
      PropagatedBounds(s, k, j);
    }
    var w := if p + k <= n then p else n - k;
    assert 1 <= c by {
      PropRowAt(s, k, w);
      PropagatedBounds(s, k, w);
      assert row[w] <= c;
    }
  }

  /** Slot 0 is never rewritten by the window sweep, so the count of period k
      at position 0 is the number of consecutive copies of s[0 .. k) that start
      the sequence. */
  lemma LeadingCopies(s: seq<byte>, k: nat)
    requires 1 <= k <= |s|
    ensures RepeatCount(s, k, 0) == Copies(s, k, 0)
    ensures forall i :: 0 <= i < RepeatCount(s, k, 0) ==> UnitAt(s, k, 0, i)
    ensures !UnitAt(s, k, 0, RepeatCount(s, k, 0))
  {
    CopiesClosed(s, k, 0);
    if k == 1 {
      MatchesPeriodOne(s, 0);
    } else {
      WindowedAtZero(PropRow(s, k), k);
      PropRowAt(s, k, 0);
    }
    CopiesAreRepeats(s, k, 0);
  }

  /** The period with the most repeats at p among 1 .. K, the smallest one on
      a tie: period 1 seeds the running maximum and a later period replaces it
      only on a strictly greater count. */
  function BestPeriod(s: seq<byte>, K: nat, p: nat): (b: nat)
    requires 1 <= K && p < |s|
    ensures 1 <= b <= K
    decreases K
  {
    if K == 1 then 1
    else
      var b := BestPeriod(s, K - 1, p);
      if RepeatCount(s, K, p) > RepeatCount(s, b, p) then K else b
  }

  /** BestPeriod is an argmax: no period in 1 .. K has more repeats, and every
      smaller period has strictly fewer. */
  lemma {:induction false} BestPeriodIsBest(s: seq<byte>, K: nat, p: nat)
    requires 1 <= K && p < |s|
    ensures forall k :: 1 <= k <= K ==> RepeatCount(s, k, p) <= RepeatCount(s, BestPeriod(s, K, p), p)
    ensures forall k :: 1 <= k < BestPeriod(s, K, p) ==> RepeatCount(s, k, p) < RepeatCount(s, BestPeriod(s, K, p), p)
    decreases K
  {
    if K > 1 {
      BestPeriodIsBest(s, K - 1, p);
      var b, c := BestPeriod(s, K - 1, p), RepeatCount(s, K, p);
      var cb := RepeatCount(s, b, p);
      assert forall k :: 1 <= k <= K - 1 ==> RepeatCount(s, k, p) <= cb;
      if c > cb {
        assert BestPeriod(s, K, p) == K;
      } else {
        assert BestPeriod(s, K, p) == b;
      }
    }
  }

  /** On a homopolymer (n copies of one symbol) period 1 counts n everywhere,
      and it is the best period whatever the largest period is. */
  lemma HomopolymerBestPeriod(s: seq<byte>, K: nat, p: nat)
    requires 1 <= K && p < |s|
    requires forall j :: 0 <= j < |s| ==> s[j] == s[0]
    ensures RepeatCount(s, 1, p) == |s|
    ensures BestPeriod(s, K, p) == 1
  {
    Homopolymer(s, p);
    var b := BestPeriod(s, K, p);
    if b > 1 {
      CountBounds(s, b, p);
      DivLess(|s|, b);
    }
  }
}
