/** The sliding-window maximum sweep of the period >= 2 rows, and the range
    maximum helper (MathUtils.arrayMax) it rescans with. */
module Window {
  import opened Base

  /** The largest of xs[lo .. hi), a non-empty range. */
  function MaxOf(xs: seq<int>, lo: nat, hi: nat): (m: int)
    requires lo < hi <= |xs|
    decreases hi - lo
  {
    if lo + 1 == hi then xs[lo] else Max(MaxOf(xs, lo, hi - 1), xs[hi - 1])
  }

  /** MaxOf bounds every element of the range and is one of them. */
  lemma {:induction false} MaxOfIsMax(xs: seq<int>, lo: nat, hi: nat)
    requires lo < hi <= |xs|
    ensures forall j :: lo <= j < hi ==> xs[j] <= MaxOf(xs, lo, hi)
    ensures exists j :: lo <= j < hi && xs[j] == MaxOf(xs, lo, hi)
    decreases hi - lo
  {
    if lo + 1 < hi {
      MaxOfIsMax(xs, lo, hi - 1);
      if xs[hi - 1] < MaxOf(xs, lo, hi - 1) {
        var j :| lo <= j < hi - 1 && xs[j] == MaxOf(xs, lo, hi - 1);
        assert xs[j] == MaxOf(xs, lo, hi);
      } else {
        assert xs[hi - 1] == MaxOf(xs, lo, hi);
      }
    } else {
      assert xs[lo] == MaxOf(xs, lo, hi);
    }
  }

  /** A value that bounds the range and occurs in it is its maximum. */
  lemma MaxOfIs(xs: seq<int>, lo: nat, hi: nat, m: int, w: nat)
    requires lo <= w < hi <= |xs| && xs[w] == m
    requires forall j :: lo <= j < hi ==> xs[j] <= m
    ensures MaxOf(xs, lo, hi) == m
  {
    MaxOfIsMax(xs, lo, hi);
  }

  /** The maximum depends only on the elements inside the range. */
  lemma MaxOfSameRange(xs: seq<int>, ys: seq<int>, lo: nat, hi: nat)
    requires lo < hi <= |xs| && hi <= |ys|
    requires forall j :: lo <= j < hi ==> xs[j] == ys[j]
    ensures MaxOf(xs, lo, hi) == MaxOf(ys, lo, hi)
  {
    MaxOfIsMax(xs, lo, hi);
    var j :| lo <= j < hi && xs[j] == MaxOf(xs, lo, hi);
    MaxOfIs(ys, lo, hi, MaxOf(xs, lo, hi), j);
  }

  /** Admitting one element on the left of a range. */
  lemma MaxOfExtendLeft(xs: seq<int>, lo: nat, hi: nat)
    requires 0 < lo < hi <= |xs|
    ensures MaxOf(xs, lo - 1, hi) == Max(xs[lo - 1], MaxOf(xs, lo, hi))
  {
    var m := Max(xs[lo - 1], MaxOf(xs, lo, hi));
    MaxOfIsMax(xs, lo, hi);
    if m == xs[lo - 1] {
      MaxOfIs(xs, lo - 1, hi, m, lo - 1);
    } else {
      var j :| lo <= j < hi && xs[j] == MaxOf(xs, lo, hi);
      MaxOfIs(xs, lo - 1, hi, m, j);
    }
  }

  /** The value the sweep leaves at q: the largest input value at positions
      max(0, q - k) .. q, the k + 1 slots that end at q. */
  function Windowed(xs: seq<int>, k: nat, q: nat): (m: int)
    requires q < |xs|
  {
    MaxOf(xs, if q >= k then q - k else 0, q + 1)
  }

  /** Slot 0 keeps its value: its window holds only itself. */
  lemma WindowedAtZero(xs: seq<int>, k: nat)
    requires 0 < |xs|
    ensures Windowed(xs, k, 0) == xs[0]
  {
  }

  /** MathUtils.arrayMax: the maximum of a[from .. to), or defaultValue when
      the range is empty. */
  method ArrayMax(a: array<int>, from: nat, to: nat, defaultValue: int) returns (r: int)
    requires from <= to <= a.Length
    ensures from == to ==> r == defaultValue
    ensures from < to ==> r == MaxOf(a[..], from, to)
  {
    if to == from {
      return defaultValue;
    }
    r := a[from];
    var i := from + 1;
    while i < to
      invariant from < i <= to
      invariant r == MaxOf(a[..], from, i)
    {
      if a[i] > r {
        r := a[i];
      }
      i := i + 1;
    }
  }

  /** One step of the sweep keeps maxInWindow exact: the window
      [max(0, ws + 1), we + 1) loses its right end we and, when ws >= 0, gains
      ws; the rule of the sweep either rescans or uses the shortcut below. */
  lemma NextWindowMax(xs: seq<int>, ws: int, we: nat, m: int, valueIn: int)
    requires 1 <= we < |xs| && ws < we
    requires forall j :: 0 <= j < |xs| ==> xs[j] >= 0
    requires m == MaxOf(xs, Max(0, ws + 1), we + 1)
    requires valueIn == if ws < 0 then -1 else xs[ws]
    requires !(valueIn < xs[we] && xs[we] >= m)
    ensures MaxOf(xs, Max(0, ws), we) == if valueIn > m then valueIn else m
  {
    var lo := Max(0, ws + 1);
    MaxOfIsMax(xs, lo, we + 1);
    var j :| lo <= j < we + 1 && xs[j] == m;
    if valueIn > m {
      MaxOfIs(xs, Max(0, ws), we, valueIn, ws);
    } else if j < we {
      MaxOfIs(xs, Max(0, ws), we, m, j);
    } else {
      MaxOfIs(xs, Max(0, ws), we, m, ws);
    }
  }

  /** The value written at we is the window maximum over max(0, we - k) .. we. */
  lemma WrittenValue(xs: seq<int>, k: nat, we: nat, m: int, valueIn: int)
    requires 1 <= k && 1 <= we < |xs|
    requires forall j :: 0 <= j < |xs| ==> xs[j] >= 0
    requires m == MaxOf(xs, Max(0, we - k + 1), we + 1)
    requires valueIn == if we < k then -1 else xs[we - k]
    ensures Windowed(xs, k, we) == Max(m, valueIn)
  {
    if we >= k {
      MaxOfExtendLeft(xs, we - k + 1, we + 1);
    } else {
      MaxOfIsMax(xs, 0, we + 1);
    }
  }

  /** The sweep of lines 114-134: every slot p >= 1 becomes the maximum of the
      input over max(0, p - k) .. p; slot 0 is never written. The input's last
      k - 1 entries must not exceed the one at n - k (they are 0 in the
      analyzer), since the sweep starts with that single value as the maximum
      of the first window. */
  method SlidingMax(periodValues: array<int>, seqLength: nat, periodLength: nat, ghost xs: seq<int>)
    requires 1 <= periodLength <= seqLength <= periodValues.Length
    requires |xs| == seqLength && periodValues[..seqLength] == xs
    requires forall q :: 0 <= q < seqLength ==> xs[q] >= 0
    requires forall q :: seqLength - periodLength < q < seqLength ==> xs[q] <= xs[seqLength - periodLength]
    modifies periodValues
    ensures forall q :: 0 <= q < seqLength ==> periodValues[q] == Windowed(xs, periodLength, q)
    ensures forall q :: seqLength <= q < periodValues.Length ==> periodValues[q] == old(periodValues[q])
  {
    var windowStart: int := seqLength - periodLength;
    var windowEnd := seqLength;
    var maxInWindow := periodValues[windowStart];
    MaxOfIs(xs, windowStart, windowEnd, maxInWindow, windowStart);
    while windowEnd > 1
      invariant 1 <= windowEnd <= seqLength
      invariant windowStart == windowEnd - periodLength
      invariant forall q :: 0 <= q < windowEnd ==> periodValues[q] == xs[q]
      invariant forall q :: windowEnd <= q < seqLength ==> periodValues[q] == Windowed(xs, periodLength, q)
      invariant periodValues[seqLength..] == old(periodValues[seqLength..])
      invariant maxInWindow == MaxOf(xs, Max(0, windowStart), windowEnd)
    {
      windowEnd := windowEnd - 1;
      var valueOut := periodValues[windowEnd];
      windowStart := windowStart - 1;
      var valueIn := if windowStart < 0 then -1 else periodValues[windowStart];
      WrittenValue(xs, periodLength, windowEnd, maxInWindow, valueIn);
      periodValues[windowEnd] := Max(maxInWindow, valueIn);
      if valueIn < valueOut && valueOut >= maxInWindow {
        maxInWindow := ArrayMax(periodValues, Max(0, windowStart), windowEnd, -1);
        MaxOfSameRange(periodValues[..], xs, Max(0, windowStart), windowEnd);
      } else {
        NextWindowMax(xs, windowStart, windowEnd, maxInWindow, valueIn);
        if valueIn > maxInWindow {
          maxInWindow := valueIn;
        }
      }
    }
  }
}
