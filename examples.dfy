/** Worked reads (A = 65, C = 67, T = 84), with the counts the analyzer
    stores for them. */
module Examples {
  import opened Base
  import opened Runs
  import opened Cycles
  import opened Repeats

  /** "ACCC": in a run other than the leading one, the raw values after the
      run's first position are one less than the run length (1, 3, 2, 2); the
      maximum with the left neighbour's raw value lifts position 2 back to 3,
      and only position 3 keeps the smaller value. */
  lemma PeriodOneACCC()
    ensures RepeatCount([65, 67, 67, 67], 1, 0) == 1
    ensures RepeatCount([65, 67, 67, 67], 1, 1) == 3
    ensures RepeatCount([65, 67, 67, 67], 1, 2) == 3
    ensures RepeatCount([65, 67, 67, 67], 1, 3) == 2
  {
  }

  /** "AAAB": the lone B at position 3 stores 3, the raw value of its left
      neighbour, not the 1 of its own run. */
  lemma PeriodOneAAAB()
    ensures RunEnd([65, 65, 65, 66], 3) - RunStart([65, 65, 65, 66], 3) == 1
    ensures RepeatCount([65, 65, 65, 66], 1, 3) == 3
  {
  }

  /** "ATATAT" with period 2: three copies of "AT" open the read, and slot 0
      keeps that count. */
  lemma PeriodTwoATATAT(s: seq<byte>)
    requires s == [65, 84, 65, 84, 65, 84]
    ensures RepeatCount(s, 2, 0) == 3
  {
    LeadingCopies(s, 2);
    assert ScanAt(s, 2, 4) == Scan(0, 1);
    assert ScanAt(s, 2, 3) == Scan(1, 1);
    assert ScanAt(s, 2, 2) == Scan(0, 2);
    assert ScanAt(s, 2, 1) == Scan(1, 2);
    assert ScanAt(s, 2, 0) == Scan(0, 3);
  }

  /** "ATATAT": period 2, with three repeats, beats period 1 (one repeat) and
      every longer period (at most 6 / 3 = 2 repeats), so it is the best period
      at position 0 whenever the largest period is at least 2. */
  lemma PeriodTwoATATATBest(s: seq<byte>, K: nat)
    requires s == [65, 84, 65, 84, 65, 84] && 2 <= K
    ensures BestPeriod(s, K, 0) == 2
  {
    PeriodTwoATATAT(s);
    BestPeriodIsBest(s, K, 0);
    var b := BestPeriod(s, K, 0);
    assert RunEnd(s, 0) == 1;
    assert RepeatCount(s, 1, 0) == 1;
    CountBounds(s, b, 0);
  }

  /** "AAAA": two copies of "AA" open the read, and period 1, with four
      repeats, is the best period at every position whatever the largest
      period. */
  lemma PeriodTwoAAAA(s: seq<byte>, K: nat, p: nat)
    requires s == [65, 65, 65, 65] && 1 <= K && p < 4
    ensures RepeatCount(s, 2, 0) == 2
    ensures RepeatCount(s, 1, p) == 4
    ensures BestPeriod(s, K, p) == 1
  {
    LeadingCopies(s, 2);
    assert ScanAt(s, 2, 2) == Scan(0, 1);
    assert ScanAt(s, 2, 1) == Scan(1, 1);
    assert Copies(s, 2, 0) == 2;
    HomopolymerBestPeriod(s, K, p);
  }
}
