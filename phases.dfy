/** The in-place passes of DragstrReadSTRAnalyzer.load, each on one row of the
    table, each proved to leave the row equal to the specification function of
    its phase and to leave the cells at and past the sequence length alone. */
module Phases {
  import opened Base
  import opened Runs
  import opened Arith
  import opened Cycles
  import opened Window
  import opened Repeats

  /** Arrays.fill(a, from, to, value). */
  method Fill(a: array<int>, from: nat, to: nat, value: int)
    requires from <= to <= a.Length
    modifies a
    ensures forall i :: 0 <= i < a.Length ==> a[i] == if from <= i < to then value else old(a[i])
  {
    var i := from;
    while i < to
      invariant from <= i <= to
      invariant forall j :: 0 <= j < a.Length ==> a[j] == if from <= j < i then value else old(a[j])
    {
      a[i] := value;
      i := i + 1;
    }
  }

  /** loadPeriodOne: the backward countdown leaves at p the distance to the end
      of its run; the forward pass adds the carry and takes the maximum with
      the left neighbour's value before that maximum. */
  method LoadPeriodOne(runLengths: array<int>, sequence: seq<byte>)
    requires 1 <= |sequence| <= runLengths.Length
    modifies runLengths
    ensures forall p :: 0 <= p < |sequence| ==> runLengths[p] == PeriodOneCount(sequence, p)
    ensures forall j :: |sequence| <= j < runLengths.Length ==> runLengths[j] == old(runLengths[j])
  {
    CountDown(runLengths, sequence);
    CarryForwardPass(runLengths, sequence);
  }

  /** The backward pass of loadPeriodOne: the distance from p to the end of
      its run. */
  method CountDown(runLengths: array<int>, sequence: seq<byte>)
    requires 1 <= |sequence| <= runLengths.Length
    modifies runLengths
    ensures forall j :: 0 <= j < |sequence| ==> runLengths[j] == RunEnd(sequence, j) - j
    ensures forall j :: |sequence| <= j < runLengths.Length ==> runLengths[j] == old(runLengths[j])
  {
    var n := |sequence|;
    var rightMargin := n - 1;
    var last := sequence[rightMargin];
    runLengths[rightMargin] := 1;
    var carryBack := 1;
    var position: int := rightMargin - 1;
    while position >= 0
      invariant -1 <= position < rightMargin
      invariant last == sequence[position + 1]
      invariant carryBack == RunEnd(sequence, position + 1) - (position + 1)
      invariant forall j :: position < j < n ==> runLengths[j] == RunEnd(sequence, j) - j
      invariant forall j :: n <= j < runLengths.Length ==> runLengths[j] == old(runLengths[j])
    {
      var next := sequence[position];
      if next == last {
        carryBack := carryBack + 1;
        runLengths[position] := carryBack;
      } else {
        carryBack := 1;
        runLengths[position] := carryBack;
      }
      last := next;
      position := position - 1;
    }
  }

  /** The forward pass of loadPeriodOne over the countdown values. The raw
      value (countdown plus carry) is kept in thisRunLength rather than being
      written to the array and read back, which leaves the same final row. */
  method CarryForwardPass(runLengths: array<int>, sequence: seq<byte>)
    requires 1 <= |sequence| <= runLengths.Length
    requires forall j :: 0 <= j < |sequence| ==> runLengths[j] == RunEnd(sequence, j) - j
    modifies runLengths
    ensures forall p :: 0 <= p < |sequence| ==> runLengths[p] == PeriodOneCount(sequence, p)
    ensures forall j :: |sequence| <= j < runLengths.Length ==> runLengths[j] == old(runLengths[j])
  {
    var n := |sequence|;
    var rightMargin := n - 1;
    var last := sequence[0];
    var prevRunLength := 0;
    var carryForward := 0;
    var position := 0;
    while position <= rightMargin
      invariant 0 <= position <= n
      invariant last == sequence[if position == 0 then 0 else position - 1]
      invariant position < n ==> carryForward == Carry(sequence, position)
      invariant prevRunLength == if position == 0 then 0 else RawOne(sequence, position - 1)
      invariant forall j :: 0 <= j < position ==> runLengths[j] == PeriodOneCount(sequence, j)
      invariant forall j :: position <= j < runLengths.Length ==> runLengths[j] == old(runLengths[j])
    {
      var next := sequence[position];
      var thisRunLength := runLengths[position];
      if next == last {
        thisRunLength := thisRunLength + carryForward;
        carryForward := carryForward + 1;
      } else {
        carryForward := 0;
      }
      last := next;
      runLengths[position] := Max(thisRunLength, prevRunLength);
      prevRunLength := thisRunLength;
      position := position + 1;
    }
  }

  /** The reverse scan of lines 66-89 for period k: slot q becomes the number
      of consecutive copies of the unit at q, and the last k - 1 slots 0. */
  method ReverseScan(runLength: array<int>, sequence: seq<byte>, periodLength: nat)
    requires 2 <= periodLength <= |sequence| <= runLength.Length
    modifies runLength
    ensures forall q :: 0 <= q < |sequence| ==> runLength[q] == Copies(sequence, periodLength, q)
    ensures forall j :: |sequence| <= j < runLength.Length ==> runLength[j] == old(runLength[j])
  {
    ZeroTail(runLength, sequence, periodLength);
    ScanCycles(runLength, sequence, periodLength);
  }

  /** The last k - 1 slots, where a unit would fall off the end, become 0. */
  method ZeroTail(runLength: array<int>, sequence: seq<byte>, periodLength: nat)
    requires 2 <= periodLength <= |sequence| <= runLength.Length
    modifies runLength
    ensures forall q :: |sequence| - periodLength < q < |sequence| ==> runLength[q] == Copies(sequence, periodLength, q)
    ensures forall j :: |sequence| <= j < runLength.Length ==> runLength[j] == old(runLength[j])
  {
    var n := |sequence|;
    var k := periodLength;
    var position := n - 1;
    var cycleIndex := 1;
    while cycleIndex < k
      invariant 1 <= cycleIndex <= k
      invariant position == n - cycleIndex
      invariant forall q :: position < q < n ==> runLength[q] == Copies(sequence, k, q)
      invariant forall j :: n <= j < runLength.Length ==> runLength[j] == old(runLength[j])
    {
      runLength[position] := 0;
      position := position - 1;
      cycleIndex := cycleIndex + 1;
    }
  }

  /** The main loop of the reverse scan, from the last unit that fits down to
      position 0, counting matched symbols in cycles of k. */
  method ScanCycles(runLength: array<int>, sequence: seq<byte>, periodLength: nat)
    requires 2 <= periodLength <= |sequence| <= runLength.Length
    requires forall q :: |sequence| - periodLength < q < |sequence| ==> runLength[q] == Copies(sequence, periodLength, q)
    modifies runLength
    ensures forall q :: 0 <= q < |sequence| ==> runLength[q] == Copies(sequence, periodLength, q)
    ensures forall j :: |sequence| <= j < runLength.Length ==> runLength[j] == old(runLength[j])
  {
    var n := |sequence|;
    var k := periodLength;
    var position := n - k;
    runLength[position] := 1;
    var prevValue := 1;
    position := position - 1;
    var positionPlusPeriod := position + k;
    var matchedCycles := 0;
    while position >= 0
      invariant -1 <= position < n - k
      invariant positionPlusPeriod == position + k
      invariant ScanAt(sequence, k, position + 1) == Scan(matchedCycles, prevValue)
      invariant forall q :: position < q < n ==> runLength[q] == Copies(sequence, k, q)
      invariant forall j :: n <= j < runLength.Length ==> runLength[j] == old(runLength[j])
    {
      if sequence[position] == sequence[positionPlusPeriod] {
        matchedCycles := matchedCycles + 1;
        if matchedCycles == k {
          prevValue := prevValue + 1;
          runLength[position] := prevValue;
          matchedCycles := 0;
        } else {
          runLength[position] := prevValue;
        }
      } else {
        prevValue := 1;
        runLength[position] := prevValue;
        matchedCycles := 0;
      }
      position := position - 1;
      positionPlusPeriod := positionPlusPeriod - 1;
    }
  }

  /** The array a after the copy loop has written v at h + k, h + 2k, ..., e. */
  ghost function Filled(a: seq<int>, k: nat, h: nat, e: nat, v: int): (r: seq<int>)
    requires 1 <= k && e < |a|
    ensures |r| == |a|
    decreases e
  {
    if e < h + k then a else Filled(a, k, h, e - k, v)[e := v]
  }

  /** Filled changes exactly the positions after h, up to e, in the phase of h. */
  lemma {:induction false} FilledAt(a: seq<int>, k: nat, h: nat, e: nat, v: int, q: nat)
    requires 1 <= k && h <= e < |a| && e % k == h % k && q < |a|
    ensures Filled(a, k, h, e, v)[q] == if h < q <= e && q % k == h % k then v else a[q]
    decreases e
  {
    if e < h + k {
      SameRemainder(h, e, k);
    } else {
      AddUnits(e - k, 1, k);
      FilledAt(a, k, h, e - k, v, q);
      GapBetweenUnits(e - k, k);
    }
  }

  /** The copy loop of lines 99-101 for the chain headed by h: it writes the
      chain's total t at the t - 1 units after h and returns the position of
      the last unit written (h when none is). */
  method CopyForward(runLength: array<int>, ghost sequence: seq<byte>, periodLength: nat, h: nat, totalRunLength: int)
    returns (position: nat)
    requires 1 <= periodLength && |sequence| <= runLength.Length && h < |sequence|
    requires totalRunLength == Copies(sequence, periodLength, h)
    modifies runLength
    ensures h <= position < |sequence|
    ensures position + periodLength == h + Stride(sequence, periodLength, h)
    ensures runLength[..] == Filled(old(runLength[..]), periodLength, h, position, totalRunLength)
  {
    var k := periodLength;
    position := h;
    var repeatInRun := 1;
    while repeatInRun < totalRunLength
      invariant 1 <= repeatInRun <= Max(totalRunLength, 1)
      invariant h <= position < |sequence|
      invariant position - h == (repeatInRun - 1) * k
      invariant runLength[..] == Filled(old(runLength[..]), k, h, position, totalRunLength)
    {
      assert position + k <= |sequence| - k by {
        MulSucc(repeatInRun - 1, k);
        ChainWithinBounds(sequence, k, h);
        MulMonotone(repeatInRun, totalRunLength - 1, k);
      }
      position := position + k;
      runLength[position] := totalRunLength;
      repeatInRun := repeatInRun + 1;
    }
    MulSucc(repeatInRun - 1, k);
  }

  /** Whether the propagation over phase c, with its walk at position, has
      already settled q. */
  ghost predicate Settled(k: nat, c: nat, position: int, q: nat)
    requires 1 <= k
  {
    q % k < c || (q % k == c && q < position)
  }

  /** The row during the walk over phase c: settled positions hold their
      propagated value, the others their reverse-scan value. */
  ghost predicate PhaseState(r: seq<int>, s: seq<byte>, k: nat, c: nat, position: int)
    requires 1 <= k && |s| <= |r|
  {
    forall q :: 0 <= q < |s| ==>
      r[q] == if Settled(k, c, position, q) then Propagated(s, k, q) else Copies(s, k, q)
  }

  /** A unit after the head h, up to the last one the copy loop writes, lies
      on h's chain and so receives h's total. */
  lemma OnChain(s: seq<byte>, k: nat, c: nat, h: nat, e: nat, q: nat)
    requires 1 <= k && c <= h < q <= e < |s| && h % k == c && q % k == c
    requires e + k == h + Stride(s, k, h)
    requires ChainHead(s, k, c, h) == h
    ensures Propagated(s, k, q) == Copies(s, k, h)
  {
    var u := ChainUnits(s, k, h);
    var i := (q - h) / k;
    assert q == h + i * k && 1 <= i by {
      SameRemainder(h, q, k);
      MultipleAtLeast(q - h, k);
    }
    assert i < u by {
      assert Stride(s, k, h) == u * k;
      if u <= i {
        MulMonotone(u, i, k);
      }
    }
    ChainCarriesTotal(s, k, h, i, q);
  }

  /** The last unit a chain writes, and the next head after it, stay in the
      phase of the chain's head. */
  lemma LastUnit(s: seq<byte>, k: nat, c: nat, h: nat, e: nat)
    requires 1 <= k && c <= h < |s| && h % k == c
    requires e + k == h + Stride(s, k, h)
    ensures e % k == c && (e + k - c) % k == 0
  {
    var u := ChainUnits(s, k, h);
    assert e == h + (u - 1) * k by {
      assert Stride(s, k, h) == u * k;
      MulSucc(u - 1, k);
    }
    assert e % k == c by {
      AddUnits(h, u - 1, k);
    }
    assert e + k - c == (h - c) + u * k by {
      MulSucc(u - 1, k);
    }
    assert (e + k - c) % k == 0 by {
      PhaseStart(k, h);
      AddUnits(h - c, u, k);
    }
  }

  /** One chain of the walk: copying the total of the head h over its units
      settles every position of phase c before the next head. */
  lemma PhaseStep(a: seq<int>, s: seq<byte>, k: nat, c: nat, h: nat, e: nat)
    requires 1 <= k && c < k && |s| <= |a| && c <= h <= e < |s|
    requires h % k == c && e % k == c && ChainHead(s, k, c, h) == h
    requires PhaseState(a, s, k, c, h)
    requires e + k == h + Stride(s, k, h)
    ensures PhaseState(Filled(a, k, h, e, Copies(s, k, h)), s, k, c, e + k)
    ensures forall j :: |s| <= j < |a| ==> Filled(a, k, h, e, Copies(s, k, h))[j] == a[j]
  {
    var t := Copies(s, k, h);
    GapBetweenUnits(e, k);
    var r := Filled(a, k, h, e, t);
    forall q | 0 <= q < |a|
      ensures q < |s| ==> r[q] == if Settled(k, c, e + k, q) then Propagated(s, k, q) else Copies(s, k, q)
      ensures |s| <= q ==> r[q] == a[q]
    {
      FilledAt(a, k, h, e, t, q);
      if q < |s| && q % k == c && h < q <= e {
        OnChain(s, k, c, h, e, q);
      }
    }
  }

  /** The middle loop of lines 97-102: the walk over phase c, from one chain
      head to the next. */
  method PropagatePhase(runLength: array<int>, sequence: seq<byte>, periodLength: nat, cycleIndex: nat)
    requires 1 <= periodLength && cycleIndex < periodLength && |sequence| <= runLength.Length
    requires forall q :: 0 <= q < |sequence| ==>
      runLength[q] == if q % periodLength < cycleIndex then Propagated(sequence, periodLength, q) else Copies(sequence, periodLength, q)
    modifies runLength
    ensures forall q :: 0 <= q < |sequence| ==>
      runLength[q] == if q % periodLength <= cycleIndex then Propagated(sequence, periodLength, q) else Copies(sequence, periodLength, q)
    ensures forall j :: |sequence| <= j < runLength.Length ==> runLength[j] == old(runLength[j])
  {
    var n, k, c := |sequence|, periodLength, cycleIndex;
    forall q | 0 <= q < n
      ensures Settled(k, c, c, q) == (q % k < c)
    {
      ModAtMost(q, k);
    }
    DivModUnique(0, k, 0, 0);
    var position: nat := c;
    while position < n
      invariant c <= position && (position - c) % k == 0
      invariant position < n ==> ChainHead(sequence, k, c, position) == position
      invariant PhaseState(runLength[..], sequence, k, c, position)
      invariant forall j :: n <= j < runLength.Length ==> runLength[j] == old(runLength[j])
    {
      var h := position;
      PhaseOf(c, h, k);
      ghost var before := runLength[..];
      var totalRunLength := runLength[h];
      position := CopyForward(runLength, sequence, k, h, totalRunLength);
      LastUnit(sequence, k, c, h, position);
      PhaseStep(before, sequence, k, c, h, position);
      position := position + k;
      if position < n {
        ChainHeadFrom(sequence, k, c, h, position);
      }
    }
  }

  /** The forward propagation of lines 93-103, one phase after the other. */
  method PropagateRunTotals(runLength: array<int>, sequence: seq<byte>, periodLength: nat)
    requires 1 <= periodLength && |sequence| <= runLength.Length
    requires forall q :: 0 <= q < |sequence| ==> runLength[q] == Copies(sequence, periodLength, q)
    modifies runLength
    ensures forall q :: 0 <= q < |sequence| ==> runLength[q] == Propagated(sequence, periodLength, q)
    ensures forall j :: |sequence| <= j < runLength.Length ==> runLength[j] == old(runLength[j])
  {
    var n, k := |sequence|, periodLength;
    var cycleIndex := 0;
    while cycleIndex < k
      invariant 0 <= cycleIndex <= k
      invariant forall q :: 0 <= q < n ==>
        runLength[q] == if q % k < cycleIndex then Propagated(sequence, k, q) else Copies(sequence, k, q)
      invariant forall j :: n <= j < runLength.Length ==> runLength[j] == old(runLength[j])
    {
      PropagatePhase(runLength, sequence, k, cycleIndex);
      cycleIndex := cycleIndex + 1;
    }
  }

  /** One iteration of the period loop of lines 53-135 for period k >= 2: a
      sequence shorter than k gets 0 everywhere; otherwise the reverse scan,
      the forward propagation and the window sweep leave the repeat count of
      period k at every position. */
  method LoadPeriod(runLength: array<int>, sequence: seq<byte>, periodLength: nat)
    requires 2 <= periodLength && |sequence| <= runLength.Length
    modifies runLength
    ensures forall q :: 0 <= q < |sequence| ==> runLength[q] == RepeatCount(sequence, periodLength, q)
    ensures forall j :: |sequence| <= j < runLength.Length ==> runLength[j] == old(runLength[j])
  {
    var n, k := |sequence|, periodLength;
    if n < k {
      Fill(runLength, 0, n, 0);
      return;
    }
    ReverseScan(runLength, sequence, k);
    PropagateRunTotals(runLength, sequence, k);
    ghost var xs := PropRow(sequence, k);
    forall q | 0 <= q < n
      ensures runLength[q] == xs[q] && xs[q] >= 0
      ensures n - k < q ==> xs[q] == 0
    {
      PropRowAt(sequence, k, q);
      if n - k < q {
        PropagatedTail(sequence, k, q);
      }
    }
    assert runLength[..n] == xs;
    SlidingMax(runLength, n, k, xs);
  }

  /** Lines 52-135: period 1 by loadPeriodOne, then every longer period in
      turn, each on its own row. */
  method LoadTable(rows: seq<array<int>>, sequence: seq<byte>)
    requires 1 <= |rows| && 1 <= |sequence|
    requires forall i :: 0 <= i < |rows| ==> |sequence| <= rows[i].Length
    requires forall i, j :: 0 <= i < j < |rows| ==> rows[i] != rows[j]
    modifies rows
    ensures forall i, p :: 0 <= i < |rows| && 0 <= p < |sequence| ==> rows[i][p] == RepeatCount(sequence, i + 1, p)
    ensures forall i, j :: 0 <= i < |rows| && |sequence| <= j < rows[i].Length ==> rows[i][j] == old(rows[i][j])
  {
    LoadPeriodOne(rows[0], sequence);
    var periodIndex := 1;
    while periodIndex < |rows|
      invariant 1 <= periodIndex <= |rows|
      invariant forall i, p :: 0 <= i < periodIndex && 0 <= p < |sequence| ==> rows[i][p] == RepeatCount(sequence, i + 1, p)
      invariant forall i, j :: 0 <= i < |rows| && |sequence| <= j < rows[i].Length ==> rows[i][j] == old(rows[i][j])
      invariant forall i, j :: periodIndex <= i < |rows| && 0 <= j < rows[i].Length ==> rows[i][j] == old(rows[i][j])
    {
      LoadPeriod(rows[periodIndex], sequence, periodIndex + 1);
      periodIndex := periodIndex + 1;
    }
  }

  /** Java's clone() of an int array: a fresh array with the same contents. */
  method Clone(a: array<int>) returns (b: array<int>)
    ensures fresh(b) && b.Length == a.Length && b[..] == a[..]
  {
    b := new int[a.Length](i requires 0 <= i < a.Length reads a => a[i]);
  }

  /** The best-period reduction of lines 139-151 over the loaded rows: every
      position starts at period 1 with the period-1 count as the running
      maximum, and a longer period replaces it only on a strictly greater
      count. */
  method ReduceBestPeriod(rows: seq<array<int>>, periodWithMostRepeats: array<int>, sequence: seq<byte>)
    requires 1 <= |rows| && |sequence| <= periodWithMostRepeats.Length
    requires forall i :: 0 <= i < |rows| ==> rows[i] != periodWithMostRepeats && |sequence| <= rows[i].Length
    requires forall i, p :: 0 <= i < |rows| && 0 <= p < |sequence| ==> rows[i][p] == RepeatCount(sequence, i + 1, p)
    modifies periodWithMostRepeats
    ensures forall p :: 0 <= p < |sequence| ==> periodWithMostRepeats[p] == BestPeriod(sequence, |rows|, p)
    ensures forall j :: |sequence| <= j < periodWithMostRepeats.Length ==> periodWithMostRepeats[j] == old(periodWithMostRepeats[j])
  {
    var n, maxPeriod := |sequence|, |rows|;
    Fill(periodWithMostRepeats, 0, n, 1);
    var mostRepeats := Clone(rows[0]);
    var periodIndex := 1;
    while periodIndex < maxPeriod
      invariant 1 <= periodIndex <= maxPeriod
      invariant forall p :: 0 <= p < n ==> periodWithMostRepeats[p] == BestPeriod(sequence, periodIndex, p)
      invariant forall p :: 0 <= p < n ==> mostRepeats[p] == RepeatCount(sequence, BestPeriod(sequence, periodIndex, p), p)
      invariant forall j :: n <= j < periodWithMostRepeats.Length ==> periodWithMostRepeats[j] == old(periodWithMostRepeats[j])
    {
      ghost var mostBefore := mostRepeats[..];
      BestPeriodStep(rows[periodIndex], periodWithMostRepeats, mostRepeats, n, periodIndex + 1);
      forall p | 0 <= p < n
        ensures periodWithMostRepeats[p] == BestPeriod(sequence, periodIndex + 1, p)
        ensures mostRepeats[p] == RepeatCount(sequence, BestPeriod(sequence, periodIndex + 1, p), p)
      {
        BestPeriodNext(sequence, periodIndex + 1, p, rows[periodIndex][p], mostBefore[p]);
      }
      periodIndex := periodIndex + 1;
    }
  }

  /** One more period in the reduction, stated on the two counts compared. */
  lemma BestPeriodNext(s: seq<byte>, K: nat, p: nat, c: int, cb: int)
    requires 2 <= K && p < |s|
    requires c == RepeatCount(s, K, p) && cb == RepeatCount(s, BestPeriod(s, K - 1, p), p)
    ensures BestPeriod(s, K, p) == if c > cb then K else BestPeriod(s, K - 1, p)
    ensures RepeatCount(s, BestPeriod(s, K, p), p) == if c > cb then c else cb
  {
  }

  /** The inner loop of lines 144-150 for period K: wherever the row of K
      beats the running maximum, the maximum becomes that count and K the best
      period; every other position is left as it was. */
  method BestPeriodStep(periodValues: array<int>, periodWithMostRepeats: array<int>, mostRepeats: array<int>, seqLength: nat, periodLength: nat)
    requires seqLength <= periodValues.Length && seqLength <= periodWithMostRepeats.Length && seqLength <= mostRepeats.Length
    requires periodValues != periodWithMostRepeats && periodValues != mostRepeats && periodWithMostRepeats != mostRepeats
    modifies periodWithMostRepeats, mostRepeats
    ensures forall p :: 0 <= p < seqLength ==>
      if periodValues[p] > old(mostRepeats[p])
      then periodWithMostRepeats[p] == periodLength && mostRepeats[p] == periodValues[p]
      else periodWithMostRepeats[p] == old(periodWithMostRepeats[p]) && mostRepeats[p] == old(mostRepeats[p])
    ensures forall j :: seqLength <= j < periodWithMostRepeats.Length ==> periodWithMostRepeats[j] == old(periodWithMostRepeats[j])
  {
    var position := 0;
    while position < seqLength
      invariant 0 <= position <= seqLength
      invariant forall p :: 0 <= p < periodWithMostRepeats.Length ==>
        if p < position && periodValues[p] > old(mostRepeats[p])
        then periodWithMostRepeats[p] == periodLength
        else periodWithMostRepeats[p] == old(periodWithMostRepeats[p])
      invariant forall p :: 0 <= p < mostRepeats.Length ==>
        if p < position && periodValues[p] > old(mostRepeats[p])
        then mostRepeats[p] == periodValues[p]
        else mostRepeats[p] == old(mostRepeats[p])
    {
      var repeats := periodValues[position];
      if repeats > mostRepeats[position] {
        mostRepeats[position] := repeats;
        periodWithMostRepeats[position] := periodLength;
      }
      position := position + 1;
    }
  }
}
