/** DragstrReadSTRAnalyzer: a fixed-capacity table of repeat counts by period
    and position for one read, refilled in place by Load, and three queries
    on the loaded read. */
module Analyzer {
  import opened Base
  import opened Cycles
  import opened Repeats
  import opened Phases

  /** Why a call did not complete: an argument the source rejects with an
      IllegalArgumentException, or the empty read, on which loadPeriodOne
      indexes position -1. */
  datatype Error = OutsideBoundaries | SequenceTooLong | EmptyInput

  datatype Result<T> = Ok(value: T) | Err(error: Error)

  datatype Outcome = Success | Failure(error: Error)

  class DragstrReadSTRAnalyzer {
    /** Row k - 1 holds the repeat counts of period k. */
    const repeatsByPeriodAndPosition: seq<array<int>>
    const periodWithMostRepeats: array<int>
    const maxPeriod: nat
    var seqLength: nat
    /** The read whose counts the tables hold. */
    ghost var sequence: seq<byte>

    /** The table shape the constructor builds, and every cell below
        seqLength holding the count the model assigns to the loaded read. */
    ghost predicate Valid()
      reads this, repeatsByPeriodAndPosition, periodWithMostRepeats
    {
      1 <= maxPeriod && |repeatsByPeriodAndPosition| == maxPeriod
      && (forall i :: 0 <= i < maxPeriod ==> repeatsByPeriodAndPosition[i].Length == periodWithMostRepeats.Length)
      && (forall i, j :: 0 <= i < j < maxPeriod ==> repeatsByPeriodAndPosition[i] != repeatsByPeriodAndPosition[j])
      && (forall i :: 0 <= i < maxPeriod ==> repeatsByPeriodAndPosition[i] != periodWithMostRepeats)
      && seqLength == |sequence| <= periodWithMostRepeats.Length
      && (forall k, p :: 1 <= k <= maxPeriod && 0 <= p < seqLength ==>
            repeatsByPeriodAndPosition[k - 1][p] == RepeatCount(sequence, k, p))
      && (forall p :: 0 <= p < seqLength ==> periodWithMostRepeats[p] == BestPeriod(sequence, maxPeriod, p))
    }

    /** The largest read Load accepts: the length of the first row. */
    function Capacity(): (c: nat)
      requires Valid()
      reads this, repeatsByPeriodAndPosition, periodWithMostRepeats
    {
      repeatsByPeriodAndPosition[0].Length
    }

    /** Lines 13-17: maxPeriod rows and one best-period row, all of
        maxSequenceLength zeroes, and nothing loaded. */
    constructor (maxSequenceLength: nat, maxPeriod: nat)
      requires 1 <= maxPeriod
      ensures Valid() && this.maxPeriod == maxPeriod && seqLength == 0 && sequence == []
      ensures Capacity() == maxSequenceLength && periodWithMostRepeats.Length == maxSequenceLength
      ensures fresh(periodWithMostRepeats)
      ensures forall i :: 0 <= i < maxPeriod ==> fresh(repeatsByPeriodAndPosition[i])
      ensures forall i, j :: 0 <= i < maxPeriod && 0 <= j < maxSequenceLength ==> repeatsByPeriodAndPosition[i][j] == 0
      ensures forall j :: 0 <= j < maxSequenceLength ==> periodWithMostRepeats[j] == 0
    {
      var rows: seq<array<int>> := [];
      while |rows| < maxPeriod
        invariant |rows| <= maxPeriod
        invariant forall i :: 0 <= i < |rows| ==> fresh(rows[i]) && rows[i].Length == maxSequenceLength
        invariant forall i, j :: 0 <= i < j < |rows| ==> rows[i] != rows[j]
        invariant forall i, j :: 0 <= i < |rows| && 0 <= j < maxSequenceLength ==> rows[i][j] == 0
      {
        var row := new int[maxSequenceLength](_ => 0);
        rows := rows + [row];
      }
      repeatsByPeriodAndPosition := rows;
      this.maxPeriod := maxPeriod;
      periodWithMostRepeats := new int[maxSequenceLength](_ => 0);
      seqLength := 0;
      sequence := [];
    }

    /** numberOfRepeats (lines 19-27): 0 for a period outside 1 .. maxPeriod,
        whatever the position; otherwise the period's count at the position,
        or an error outside the loaded read. */
    function NumberOfRepeats(position: int, period: int): (r: Result<int>)
      requires Valid()
      reads this, repeatsByPeriodAndPosition, periodWithMostRepeats
      ensures period <= 0 || period > maxPeriod ==> r == Ok(0)
      ensures 1 <= period <= maxPeriod && (position < 0 || position >= seqLength) ==> r == Err(OutsideBoundaries)
      ensures 1 <= period <= maxPeriod && 0 <= position < seqLength ==> r == Ok(RepeatCount(sequence, period, position))
    {
      if period <= 0 || period > maxPeriod then Ok(0)
      else if position < 0 || position >= seqLength then Err(OutsideBoundaries)
      else Ok(repeatsByPeriodAndPosition[period - 1][position])
    }

    /** mostRepeatedPeriod (lines 29-35): the best period at the position, or
        an error outside the loaded read. */
    function MostRepeatedPeriod(position: int): (r: Result<int>)
      requires Valid()
      reads this, repeatsByPeriodAndPosition, periodWithMostRepeats
      ensures (position < 0 || position >= seqLength) ==> r == Err(OutsideBoundaries)
      ensures 0 <= position < seqLength ==> r == Ok(BestPeriod(sequence, maxPeriod, position))
    {
      if 0 <= position < seqLength then Ok(periodWithMostRepeats[position])
      else Err(OutsideBoundaries)
    }

    /** numberOfMostRepeats (lines 37-43): the count of the best period at the
        position, or an error outside the loaded read. */
    function NumberOfMostRepeats(position: int): (r: Result<int>)
      requires Valid()
      reads this, repeatsByPeriodAndPosition, periodWithMostRepeats
      ensures (position < 0 || position >= seqLength) ==> r == Err(OutsideBoundaries)
      ensures 0 <= position < seqLength ==> r == Ok(RepeatCount(sequence, BestPeriod(sequence, maxPeriod, position), position))
    {
      if 0 <= position < seqLength then
        Ok(repeatsByPeriodAndPosition[periodWithMostRepeats[position] - 1][position])
      else Err(OutsideBoundaries)
    }

    /** load (lines 45-152). A read longer than the capacity is rejected before
        anything changes. Otherwise seqLength becomes the read's length; the
        empty read then stops with the tables untouched, and any other read
        leaves every row and the best-period row holding its counts below
        |s|. No cell at or past |s| is written. */
    method Load(s: seq<byte>) returns (outcome: Outcome)
      requires Valid()
      modifies this, repeatsByPeriodAndPosition, periodWithMostRepeats
      ensures Valid()
      ensures |s| > old(Capacity()) ==>
        && outcome == Failure(SequenceTooLong)
        && seqLength == old(seqLength) && sequence == old(sequence)
        && (forall i, j :: 0 <= i < maxPeriod && 0 <= j < Capacity() ==>
              repeatsByPeriodAndPosition[i][j] == old(repeatsByPeriodAndPosition[i][j]))
        && (forall j :: 0 <= j < periodWithMostRepeats.Length ==> periodWithMostRepeats[j] == old(periodWithMostRepeats[j]))
      ensures |s| == 0 ==> outcome == Failure(EmptyInput) && seqLength == 0 && sequence == []
      ensures 0 < |s| <= old(Capacity()) ==> outcome == Success && seqLength == |s| && sequence == s
      ensures |s| <= old(Capacity()) ==>
        && (forall i, j :: 0 <= i < maxPeriod && |s| <= j < Capacity() ==>
           repeatsByPeriodAndPosition[i][j] == old(repeatsByPeriodAndPosition[i][j]))
        && (forall j :: |s| <= j < periodWithMostRepeats.Length ==> periodWithMostRepeats[j] == old(periodWithMostRepeats[j]))
    {
      if |s| > repeatsByPeriodAndPosition[0].Length {
        return Failure(SequenceTooLong);
      }
      seqLength := |s|;
      sequence := s;
      if |s| == 0 {
        return Failure(EmptyInput);
      }
      LoadTable(repeatsByPeriodAndPosition, s);
      ReduceBestPeriod(repeatsByPeriodAndPosition, periodWithMostRepeats, s);
      outcome := Success;
    }
 
    /** Count bounds as the queries report them: 0 for a period longer than
        the loaded read, otherwise between 1 and the number of whole units
        that fit in the read. */
    lemma RepeatsBounds(position: int, period: int)
      requires Valid() && 0 <= position < seqLength && 1 <= period <= maxPeriod
      ensures period > seqLength ==> NumberOfRepeats(position, period) == Ok(0)
      ensures period <= seqLength ==>
        && NumberOfRepeats(position, period).Ok?
        && 1 <= NumberOfRepeats(position, period).value <= seqLength / period
    {
      CountBounds(sequence, period, position);
    }

    /** The best-period queries: the period lies in 1 .. maxPeriod, no period
        has more repeats at the position, every smaller period has strictly
        fewer, and numberOfMostRepeats is the count of that period. */
    lemma MostRepeatedPeriodIsBest(position: int)
      requires Valid() && 0 <= position < seqLength
      ensures MostRepeatedPeriod(position).Ok? && NumberOfMostRepeats(position).Ok?
      ensures 1 <= MostRepeatedPeriod(position).value <= maxPeriod
      ensures NumberOfMostRepeats(position) == NumberOfRepeats(position, MostRepeatedPeriod(position).value)
      ensures forall k :: 1 <= k <= maxPeriod ==>
        NumberOfRepeats(position, k).value <= NumberOfMostRepeats(position).value
      ensures forall k :: 1 <= k < MostRepeatedPeriod(position).value ==>
        NumberOfRepeats(position, k).value < NumberOfMostRepeats(position).value
    {
      BestPeriodIsBest(sequence, maxPeriod, position);
    }

    /** Slot 0 is never rewritten by the window sweep: the count of a period
        that fits at position 0 is the number of consecutive copies of the
        read's first unit that open the read. */
    lemma RepeatsAtStart(period: int)
      requires Valid() && 1 <= period <= maxPeriod && period <= seqLength
      ensures NumberOfRepeats(0, period) == Ok(Copies(sequence, period, 0))
      ensures forall i :: 0 <= i < NumberOfRepeats(0, period).value ==> UnitAt(sequence, period, 0, i)
      ensures !UnitAt(sequence, period, 0, NumberOfRepeats(0, period).value)
    {
      LeadingCopies(sequence, period);
    }

    /** A read of one repeated symbol has period-1 count equal to its length
        at every position, and period 1 is the best period there. */
    lemma HomopolymerQueries(position: int)
      requires Valid() && 0 <= position < seqLength
      requires forall j :: 0 <= j < seqLength ==> sequence[j] == sequence[0]
      ensures NumberOfRepeats(position, 1) == Ok(seqLength)
      ensures MostRepeatedPeriod(position) == Ok(1)
      ensures NumberOfMostRepeats(position) == Ok(seqLength)
    {
      HomopolymerBestPeriod(sequence, maxPeriod, position);
    }

    /** The answers depend on the loaded read alone: two analyzers with the
        same maximum period that hold the same read answer every query alike,
        so loading the same read twice leaves the same tables. */
    lemma SameReadSameAnswers(other: DragstrReadSTRAnalyzer, position: int, period: int)
      requires Valid() && other.Valid()
      requires maxPeriod == other.maxPeriod && sequence == other.sequence
      ensures NumberOfRepeats(position, period) == other.NumberOfRepeats(position, period)
      ensures MostRepeatedPeriod(position) == other.MostRepeatedPeriod(position)
      ensures NumberOfMostRepeats(position) == other.NumberOfMostRepeats(position)
    {
    }
  }
}
