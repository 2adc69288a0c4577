/** Runs of identical symbols and the period-1 repeat count.
    The period-1 row of the analyzer is computed by a backward countdown of
    equal-symbol runs followed by a forward pass with a carry; this module
    gives the closed form of what those two passes produce. */
module Runs {
  import opened Base

  /** Exclusive end of the maximal run of symbols equal to s[p] that contains p. */
  function RunEnd(s: seq<byte>, p: nat): (e: nat)
    requires p < |s|
    ensures p < e <= |s|
    ensures e == |s| || s[e] != s[p]
    decreases |s| - p
  {
    if p + 1 < |s| && s[p + 1] == s[p] then RunEnd(s, p + 1) else p + 1
  }

  /** First position of the maximal run of symbols equal to s[p] that contains p. */
  function RunStart(s: seq<byte>, p: nat): (b: nat)
    requires p < |s|
    ensures b <= p
    ensures b == 0 || s[b - 1] != s[p]
    decreases p
  {
    if p > 0 && s[p - 1] == s[p] then RunStart(s, p - 1) else p
  }

  /** Every symbol from p up to the run end equals s[p]. */
  lemma {:induction false} RunEndSpans(s: seq<byte>, p: nat)
    requires p < |s|
    ensures forall j :: p <= j < RunEnd(s, p) ==> s[j] == s[p]
    decreases |s| - p
  {
    if p + 1 < |s| && s[p + 1] == s[p] {
      RunEndSpans(s, p + 1);
    }
  }

  /** Whether the forward pass finds s[p] equal to the symbol before it
      (position 0 counts as equal: the pass starts with last == s[0]). */
  predicate Same(s: seq<byte>, p: nat)
    requires p < |s|
  {
    p == 0 || s[p] == s[p - 1]
  }

  /** The carry of the forward pass when it reaches p: it grows by one after
      every equal position and restarts from 0 after a mismatch. */
  function Carry(s: seq<byte>, p: nat): (c: nat)
    requires p < |s|
  {
    if p == 0 then 0 else if Same(s, p - 1) then Carry(s, p - 1) + 1 else 0
  }

  /** The value the forward pass computes at p before taking the maximum with
      its left neighbour: the countdown value plus the carry where the symbol
      repeats (the carry is added before it is incremented). */
  function RawOne(s: seq<byte>, p: nat): (r: int)
    requires p < |s|
  {
    RunEnd(s, p) - p + (if Same(s, p) then Carry(s, p) else 0)
  }

  /** The carry counts the positions of the run before p - 1 that the pass
      has seen equal: all of them in the leading run, all but the first in any
      other run. */
  lemma {:induction false} CarryClosed(s: seq<byte>, p: nat)
    requires 0 < p < |s|
    ensures Carry(s, p) == if RunStart(s, p - 1) == 0 then p else p - 1 - RunStart(s, p - 1)
    decreases p
  {
    if p > 1 && Same(s, p - 1) {
      CarryClosed(s, p - 1);
    }
  }

  /** Closed form of the raw value: the full run length in the leading run and
      at the first position of every other run, and one less than the run
      length at the later positions of a non-leading run. */
  lemma RawOneClosed(s: seq<byte>, p: nat)
    requires p < |s|
    ensures var b, e := RunStart(s, p), RunEnd(s, p);
      RawOne(s, p) == if b == 0 then e else if b == p then e - p else e - b - 1
  {
    if p > 0 {
      CarryClosed(s, p);
    }
  }

  /** The period-1 repeat count the analyzer stores at p. */
  function PeriodOneCount(s: seq<byte>, p: nat): (c: int)
    requires p < |s|
  {
    Max(RawOne(s, p), if p == 0 then 0 else RawOne(s, p - 1))
  }

  /** Two positions of one run share its start and its end. */
  lemma {:induction false} SameRun(s: seq<byte>, i: nat, j: nat)
    requires i < |s| && i <= j < RunEnd(s, i)
    ensures RunEnd(s, j) == RunEnd(s, i)
    ensures RunStart(s, j) == RunStart(s, i)
    decreases j - i
  {
    if i < j {
      SameRun(s, i, j - 1);
      RunEndSpans(s, i);
      assert s[j - 1] == s[j];
    }
  }

  /** Every count lies between 1 and the sequence length. */
  lemma PeriodOneBounds(s: seq<byte>, p: nat)
    requires p < |s|
    ensures 1 <= PeriodOneCount(s, p) <= |s|
  {
    RawOneClosed(s, p);
    if p > 0 {
      RawOneClosed(s, p - 1);
    }
  }

  /** Every position of the leading run gets that run's full length. */
  lemma LeadingRun(s: seq<byte>, p: nat)
    requires 0 < |s| && p < RunEnd(s, 0)
    ensures PeriodOneCount(s, p) == RunEnd(s, 0)
  {
    SameRun(s, 0, p);
    RawOneClosed(s, p);
    if p > 0 {
      SameRun(s, 0, p - 1);
      RawOneClosed(s, p - 1);
    }
  }

  /** A sequence of n identical symbols has period-1 count n everywhere. */
  lemma Homopolymer(s: seq<byte>, p: nat)
    requires p < |s|
    requires forall j :: 0 <= j < |s| ==> s[j] == s[0]
    ensures PeriodOneCount(s, p) == |s|
  {
    LeadingRun(s, p);
  }
}
