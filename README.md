# DragstrReadSTRAnalyzer in Dafny

This project models `DragstrReadSTRAnalyzer`, the short-tandem-repeat analyzer
of one read in GATK's DRAGstr pair-HMM support, and proves properties of it.

The analyzer owns a fixed-capacity table of `maxPeriod` rows, one row per
repeat-unit length ("period") `k = 1 .. maxPeriod`. Each row has one slot per
read position. Beside the table it keeps a best-period row. `load` refills
both in place for a new read. Three queries then read them:

- `numberOfRepeats(position, period)`: the repeat count the tables store for
  the period at the position. For `k >= 2` it is the largest run total
  (consecutive copies of a unit) among the units that start at
  `max(0, p - k) .. p`. For `k = 1` it is the value of the period-1 forward
  pass. Neither is always a count of copies that cover the position (see
  below);
- `mostRepeatedPeriod(position)`: the period with the most repeats there,
  the smallest one on a tie;
- `numberOfMostRepeats(position)`: that period's count.

The model is imperative, like the Java code. `Analyzer.DragstrReadSTRAnalyzer`
is a class. Its fields are the sequence of row arrays, the best-period array,
`maxPeriod` and `seqLength`, plus a ghost field for the loaded read. Its
invariant `Valid()` ties every cell below `seqLength` to a specification
function of the read:

- `Repeats.RepeatCount` gives the count of period `k` at position `p`;
- `Repeats.BestPeriod` gives the best period.

`Load` runs each pass of the Java method as its own method over one row
array, with the same loops and the same counters:

- period 1: a backward count-down, then a forward pass with a carry
  (`Phases.LoadPeriodOne`);
- the reverse cycle scan (`Phases.ReverseScan`);
- the forward propagation of run totals along each phase
  (`Phases.PropagateRunTotals`);
- the right-to-left sliding-window maximum (`Window.SlidingMax`);
- the best-period reduction (`Phases.ReduceBestPeriod`).

Each pass is proved to leave its row equal to the specification function of
that phase, and to leave every slot at or past the read's length alone. The
phases are specified as follows:

- `Runs`: runs of equal symbols and the closed form of the period-1 count.
- `Cycles`: for `k >= 2`, the matches at distance `k` and the reverse-scan
  value `Copies`, which is `1 + matches / k`. It also holds the propagation
  chains (`ChainHead`, `Propagated`) and the row they produce (`PropRow`).
- `Window`: the maximum over a range and the window of the sweep.
- `Repeats`: the count and the best period, and their bounds.

`Arith` holds the facts about division by the unit length.

All source references are to
`src/main/java/org/broadinstitute/hellbender/utils/pairhmm/DragstrReadSTRAnalyzer.java`.

## Behaviour worth knowing

- **Window direction.** The sweep at lines 114-134 walks `windowEnd` from
  the read's end down to 1. It writes slot `windowEnd` with the maximum of
  the propagated values at `windowEnd - k .. windowEnd`. So the window of
  slot `p` is the `k + 1` positions `max(0, p - k) .. p`, all at or to the
  left of `p`. Slot 0 is never written (line 121), so it keeps its
  reverse-scan value. `Window.Windowed` states this window, and
  `Window.SlidingMax` proves the sweep computes it.
- **Period-1 carry.** In `loadPeriodOne` the carry resets to 0 on a mismatch
  (line 174). It is added before it is incremented (line 172). In the
  leading run every raw value is the run length. In any other run the first
  position's raw value is the run length `L`, and the raw values after it are
  `L - 1`. The stored count is the maximum with the left neighbour's raw value
  (lines 177-179). So the run's second position stores the full `L`, and only
  the third and later positions keep `L - 1`. The first position of a run can
  also take the previous run's raw value, when that is larger. "ACCC" has raw
  values 1, 3, 2, 2 and stores 1, 3, 3, 2. `Runs.RawOneClosed` and
  `Examples.PeriodOneACCC` state this.
- **Counts at positions no copy covers.** Both rules can credit a position
  with a run that ends before it. In "GACACACT" with `k = 2`, the run of three
  "AC" units starts at position 1, so the window of position 7 (positions
  5 .. 7) sees the total 3 at position 5. The final T, which no "AC" copy
  covers, stores 3. For `k = 1`, "AAAB" stores 3 at the lone B, the raw value
  of the A before it (`Examples.PeriodOneAAAB`).

## Model

| member | source | states |
|---|---|---|
| Analyzer.DragstrReadSTRAnalyzer.constructor | src/main/java/org/broadinstitute/hellbender/utils/pairhmm/DragstrReadSTRAnalyzer.java:13-17 | `maxPeriod` fresh rows and a fresh best-period row, each of `maxSequenceLength` zeroes; nothing is loaded; the invariant holds |
| Analyzer.DragstrReadSTRAnalyzer.NumberOfRepeats | src/main/java/org/broadinstitute/hellbender/utils/pairhmm/DragstrReadSTRAnalyzer.java:19-27 | a period outside `1 .. maxPeriod` gives 0 at any position, even one outside the read; otherwise a position outside `[0, seqLength)` is an error, and any other position gives the repeat count of the loaded read |
| Analyzer.DragstrReadSTRAnalyzer.MostRepeatedPeriod | src/main/java/org/broadinstitute/hellbender/utils/pairhmm/DragstrReadSTRAnalyzer.java:29-35 | an error outside `[0, seqLength)`; otherwise the best period of the loaded read at the position |
| Analyzer.DragstrReadSTRAnalyzer.NumberOfMostRepeats | src/main/java/org/broadinstitute/hellbender/utils/pairhmm/DragstrReadSTRAnalyzer.java:37-43 | an error outside `[0, seqLength)`; otherwise the repeat count of the best period at the position |
| Analyzer.DragstrReadSTRAnalyzer.Load | src/main/java/org/broadinstitute/hellbender/utils/pairhmm/DragstrReadSTRAnalyzer.java:45-152 | a read longer than the first row fails and changes nothing; the empty read sets `seqLength` to 0 and fails with the tables untouched; any other read becomes the loaded read with `seqLength` its length; in every case no cell at or past the read's length changes and the invariant (every cell below `seqLength` holds the model's count and best period) holds |
| Analyzer.DragstrReadSTRAnalyzer.RepeatsBounds | src/main/java/org/broadinstitute/hellbender/utils/pairhmm/DragstrReadSTRAnalyzer.java:53-135 | through the query: a period longer than the read counts 0, and any other period counts between 1 and `seqLength / period` |
| Analyzer.DragstrReadSTRAnalyzer.MostRepeatedPeriodIsBest | src/main/java/org/broadinstitute/hellbender/utils/pairhmm/DragstrReadSTRAnalyzer.java:139-151 | the best period lies in `1 .. maxPeriod`; `numberOfMostRepeats` equals `numberOfRepeats` of that period; no period counts more, and every smaller period counts strictly less |
| Analyzer.DragstrReadSTRAnalyzer.RepeatsAtStart | src/main/java/org/broadinstitute/hellbender/utils/pairhmm/DragstrReadSTRAnalyzer.java:66-134 | for a period that fits in the read, the count at position 0 is the number of consecutive copies of the read's first unit that open the read: units `0 .. c-1` repeat it and unit `c` does not |
| Analyzer.DragstrReadSTRAnalyzer.HomopolymerQueries | src/main/java/org/broadinstitute/hellbender/utils/pairhmm/DragstrReadSTRAnalyzer.java:154-180 | on a read of one repeated symbol, period 1 counts the read length everywhere and is the best period with that count |
| Analyzer.DragstrReadSTRAnalyzer.SameReadSameAnswers | src/main/java/org/broadinstitute/hellbender/utils/pairhmm/DragstrReadSTRAnalyzer.java:45-152 | two analyzers with the same `maxPeriod` holding the same read give the same answer to every query, so loading a read twice leaves the same tables below `seqLength` |
| Phases.Fill | src/main/java/org/broadinstitute/hellbender/utils/pairhmm/DragstrReadSTRAnalyzer.java:57 | `Arrays.fill`: exactly the slots of `[from, to)` get the value |
| Phases.LoadPeriodOne | src/main/java/org/broadinstitute/hellbender/utils/pairhmm/DragstrReadSTRAnalyzer.java:154-180 | on a non-empty read, every slot below its length gets the period-1 count and the slots past it keep their values |
| Phases.CountDown | src/main/java/org/broadinstitute/hellbender/utils/pairhmm/DragstrReadSTRAnalyzer.java:156-164 | the backward pass leaves at `p` the distance from `p` to the end of its run |
| Phases.CarryForwardPass | src/main/java/org/broadinstitute/hellbender/utils/pairhmm/DragstrReadSTRAnalyzer.java:165-180 | over the count-down values, the forward pass leaves the period-1 count at every position |
| Phases.ReverseScan | src/main/java/org/broadinstitute/hellbender/utils/pairhmm/DragstrReadSTRAnalyzer.java:66-89 | slot `q` becomes the number of consecutive copies of the unit at `q`, and the last `k - 1` slots get 0 |
| Phases.ZeroTail | src/main/java/org/broadinstitute/hellbender/utils/pairhmm/DragstrReadSTRAnalyzer.java:68-70 | the last `k - 1` slots, where a unit falls off the end, get 0 |
| Phases.ScanCycles | src/main/java/org/broadinstitute/hellbender/utils/pairhmm/DragstrReadSTRAnalyzer.java:76-89 | the main reverse loop leaves the copy count at every position up to `n - k` |
| Phases.CopyForward | src/main/java/org/broadinstitute/hellbender/utils/pairhmm/DragstrReadSTRAnalyzer.java:98-101 | the copy loop writes the head's total `t` at the `t - 1` units after the head and nowhere else; it returns the last unit written, one unit before the next head |
| Phases.FilledAt | src/main/java/org/broadinstitute/hellbender/utils/pairhmm/DragstrReadSTRAnalyzer.java:99-101 | the copy loop changes exactly the positions after the head, up to its last write, that lie in the head's phase |
| Phases.OnChain | src/main/java/org/broadinstitute/hellbender/utils/pairhmm/DragstrReadSTRAnalyzer.java:98-101 | each unit the copy loop writes lies on the head's chain, so its propagated value is the head's total |
| Phases.LastUnit | src/main/java/org/broadinstitute/hellbender/utils/pairhmm/DragstrReadSTRAnalyzer.java:97-101 | the last unit written and the next head stay in the phase of the current head |
| Phases.PhaseStep | src/main/java/org/broadinstitute/hellbender/utils/pairhmm/DragstrReadSTRAnalyzer.java:97-102 | one chain of the walk settles every position of the phase before the next head, and touches nothing past the read |
| Phases.PropagatePhase | src/main/java/org/broadinstitute/hellbender/utils/pairhmm/DragstrReadSTRAnalyzer.java:97-102 | the walk over phase `c` gives every position of that phase its propagated value and leaves the other phases alone |
| Phases.PropagateRunTotals | src/main/java/org/broadinstitute/hellbender/utils/pairhmm/DragstrReadSTRAnalyzer.java:93-103 | over the reverse-scan values, every position gets the total of the chain that covers it |
| Phases.LoadPeriod | src/main/java/org/broadinstitute/hellbender/utils/pairhmm/DragstrReadSTRAnalyzer.java:53-135 | for period `k >= 2`, every slot below the read's length gets the repeat count of `k`: 0 everywhere when the read is shorter than `k`; the slots past the read keep their values |
| Phases.LoadTable | src/main/java/org/broadinstitute/hellbender/utils/pairhmm/DragstrReadSTRAnalyzer.java:52-135 | row `i` gets the repeat counts of period `i + 1` below the read's length and keeps its values past it |
| Phases.Clone | src/main/java/org/broadinstitute/hellbender/utils/pairhmm/DragstrReadSTRAnalyzer.java:140 | `clone()`: a fresh array with the same contents |
| Phases.ReduceBestPeriod | src/main/java/org/broadinstitute/hellbender/utils/pairhmm/DragstrReadSTRAnalyzer.java:139-151 | from rows that hold the counts, every slot below the read's length gets the best period, and the slots past it keep their values; each period step (through `Phases.BestPeriodNext`) replaces the best-so-far exactly on a strictly greater count |
| Phases.BestPeriodStep | src/main/java/org/broadinstitute/hellbender/utils/pairhmm/DragstrReadSTRAnalyzer.java:144-150 | where the period's count is strictly greater than the running maximum, the period and its count replace them; every other position is unchanged |
| Window.ArrayMax | src/main/java/org/broadinstitute/hellbender/utils/pairhmm/DragstrReadSTRAnalyzer.java:129 | `MathUtils.arrayMax`: the default for an empty range, otherwise the maximum of `a[from .. to)` |
| Window.SlidingMax | src/main/java/org/broadinstitute/hellbender/utils/pairhmm/DragstrReadSTRAnalyzer.java:114-134 | every slot `p` below the read's length becomes the maximum of the input over `max(0, p - k) .. p`, and slot 0 keeps its value; the maximum the loop carries is exact after both the rescan and the shortcut |
| Window.NextWindowMax | src/main/java/org/broadinstitute/hellbender/utils/pairhmm/DragstrReadSTRAnalyzer.java:125-133 | when no rescan is needed, the shortcut update gives the exact maximum of the next window |
| Window.WrittenValue | src/main/java/org/broadinstitute/hellbender/utils/pairhmm/DragstrReadSTRAnalyzer.java:122-124 | the value written at `windowEnd` is the maximum over its window of `k + 1` slots |
| Window.WindowedAtZero | src/main/java/org/broadinstitute/hellbender/utils/pairhmm/DragstrReadSTRAnalyzer.java:121 | the window of slot 0 holds only slot 0 |
| Runs.RunEnd | src/main/java/org/broadinstitute/hellbender/utils/pairhmm/DragstrReadSTRAnalyzer.java:160-164 | the end of the run of `p` lies past `p`, inside the read, and is the read's end or a different symbol |
| Runs.RunEndSpans | src/main/java/org/broadinstitute/hellbender/utils/pairhmm/DragstrReadSTRAnalyzer.java:160-164 | every symbol from `p` up to the run end equals `s[p]` |
| Runs.CarryClosed | src/main/java/org/broadinstitute/hellbender/utils/pairhmm/DragstrReadSTRAnalyzer.java:169-176 | the forward carry counts the earlier positions of the run: all of them in the leading run, all but the first in any other run |
| Runs.RawOneClosed | src/main/java/org/broadinstitute/hellbender/utils/pairhmm/DragstrReadSTRAnalyzer.java:169-179 | the raw forward value is the full run length in the leading run and at the first position of every other run, and one less at the later positions of a non-leading run |
| Runs.PeriodOneBounds | src/main/java/org/broadinstitute/hellbender/utils/pairhmm/DragstrReadSTRAnalyzer.java:154-180 | every period-1 count lies between 1 and the read length |
| Runs.LeadingRun | src/main/java/org/broadinstitute/hellbender/utils/pairhmm/DragstrReadSTRAnalyzer.java:154-180 | every position of the leading run gets that run's length |
| Runs.Homopolymer | src/main/java/org/broadinstitute/hellbender/utils/pairhmm/DragstrReadSTRAnalyzer.java:154-180 | a read of `n` equal symbols gets period-1 count `n` everywhere |
| Cycles.Matches | src/main/java/org/broadinstitute/hellbender/utils/pairhmm/DragstrReadSTRAnalyzer.java:77-78 | the stretch of matches at distance `k` stays inside the read, matches throughout, and ends at a mismatch or the end |
| Cycles.ScanAt | src/main/java/org/broadinstitute/hellbender/utils/pairhmm/DragstrReadSTRAnalyzer.java:76-89 | the state of the reverse scan keeps `matchedCycles` below `k` and a stored value of at least 1 |
| Cycles.ScanCounts | src/main/java/org/broadinstitute/hellbender/utils/pairhmm/DragstrReadSTRAnalyzer.java:76-89 | the state of the reverse scan at `q` is the matches from `q` split into cycles of `k` and the remainder |
| Cycles.CopiesClosed | src/main/java/org/broadinstitute/hellbender/utils/pairhmm/DragstrReadSTRAnalyzer.java:76-89 | the reverse-scan value is one plus the completed cycles of matches |
| Cycles.CopiesAreRepeats | src/main/java/org/broadinstitute/hellbender/utils/pairhmm/DragstrReadSTRAnalyzer.java:66-89 | the reverse-scan value at `q` is at least 1 and is the number of consecutive copies of `s[q .. q + k)` from `q` |
| Cycles.CopiesBound | src/main/java/org/broadinstitute/hellbender/utils/pairhmm/DragstrReadSTRAnalyzer.java:76-89 | a reverse-scan value is at most the number of whole units in the read, and at least 1 where a unit fits |
| Cycles.ChainWithinBounds | src/main/java/org/broadinstitute/hellbender/utils/pairhmm/DragstrReadSTRAnalyzer.java:99-101 | the last unit the copy loop writes from a head lies at or below `seqLength - k` |
| Cycles.ChainHead | src/main/java/org/broadinstitute/hellbender/utils/pairhmm/DragstrReadSTRAnalyzer.java:97-102 | the walk from a head reaches the head whose stride covers `q` |
| Cycles.ChainCarriesTotal | src/main/java/org/broadinstitute/hellbender/utils/pairhmm/DragstrReadSTRAnalyzer.java:93-103 | every unit of a chain headed by total `t` ends up carrying `t` |
| Cycles.ChainCover | src/main/java/org/broadinstitute/hellbender/utils/pairhmm/DragstrReadSTRAnalyzer.java:97-102 | a position is its own chain head or lies on one of its head's units |
| Cycles.PropagatedTail | src/main/java/org/broadinstitute/hellbender/utils/pairhmm/DragstrReadSTRAnalyzer.java:115-120 | past `seqLength - k` the propagated value stays 0, so the sweep may start from the value at `seqLength - k` |
| Cycles.PropagatedBounds | src/main/java/org/broadinstitute/hellbender/utils/pairhmm/DragstrReadSTRAnalyzer.java:93-103 | a propagated value is at most the number of whole units, and at least 1 where a unit fits |
| Repeats.CountBounds | src/main/java/org/broadinstitute/hellbender/utils/pairhmm/DragstrReadSTRAnalyzer.java:53-135 | a period longer than the read counts 0; any other counts between 1 and `|s| / k` |
| Repeats.WindowedBounds | src/main/java/org/broadinstitute/hellbender/utils/pairhmm/DragstrReadSTRAnalyzer.java:114-134 | every window maximum of a period `k >= 2` lies between 1 and `|s| / k` |
| Repeats.LeadingCopies | src/main/java/org/broadinstitute/hellbender/utils/pairhmm/DragstrReadSTRAnalyzer.java:66-134 | the count at position 0 is the number of consecutive copies of the first unit that open the read |
| Repeats.BestPeriod | src/main/java/org/broadinstitute/hellbender/utils/pairhmm/DragstrReadSTRAnalyzer.java:139-151 | the best period lies in `1 .. K` |
| Repeats.BestPeriodIsBest | src/main/java/org/broadinstitute/hellbender/utils/pairhmm/DragstrReadSTRAnalyzer.java:139-151 | no period in `1 .. K` counts more than the best period, and every smaller period counts strictly less |
| Repeats.HomopolymerBestPeriod | src/main/java/org/broadinstitute/hellbender/utils/pairhmm/DragstrReadSTRAnalyzer.java:139-151 | on a read of one repeated symbol, period 1 counts the read length and is the best period |
| Examples.PeriodOneACCC | src/main/java/org/broadinstitute/hellbender/utils/pairhmm/DragstrReadSTRAnalyzer.java:154-180 | "ACCC" gets period-1 counts 1, 3, 3, 2 |
| Examples.PeriodOneAAAB | src/main/java/org/broadinstitute/hellbender/utils/pairhmm/DragstrReadSTRAnalyzer.java:154-180 | in "AAAB" the lone B, a run of length 1, stores period-1 count 3 |
| Examples.PeriodTwoATATAT | src/main/java/org/broadinstitute/hellbender/utils/pairhmm/DragstrReadSTRAnalyzer.java:66-134 | "ATATAT" gets count 3 for period 2 at position 0 |
| Examples.PeriodTwoATATATBest | src/main/java/org/broadinstitute/hellbender/utils/pairhmm/DragstrReadSTRAnalyzer.java:139-151 | for "ATATAT" and any largest period of at least 2, period 2 is the best period at position 0 |
| Examples.PeriodTwoAAAA | src/main/java/org/broadinstitute/hellbender/utils/pairhmm/DragstrReadSTRAnalyzer.java:53-151 | "AAAA" gets count 2 for period 2 at position 0, period-1 count 4 everywhere, and best period 1 whatever the largest period |

## Left out

- Exceptions are results. `numberOfRepeats`, `mostRepeatedPeriod` and
  `numberOfMostRepeats` return `Err(OutsideBoundaries)` where Java throws
  `IllegalArgumentException`. `Load` returns `Failure(SequenceTooLong)` for
  the too-long read.
- The empty read is an error result, not a crash. In Java, `load` sets
  `seqLength` to 0 and then indexes `sequence[-1]` in `loadPeriodOne`
  (lines 156-157). The model returns `Failure(EmptyInput)` with the same
  state: `seqLength` is 0 and the tables are untouched.
- Analyzer.DragstrReadSTRAnalyzer.constructor: requires `maxPeriod >= 1`,
  because with 0 rows every `load` fails at row 0 (line 46) and a negative
  size throws at allocation. `maxSequenceLength` is a `nat`, so a negative
  capacity cannot be expressed.
- 32-bit wrap-around is not modelled: integers are unbounded. Every count is
  at most the read length, and every array index is below the capacity. But
  the propagation counter at line 97 steps past the last head to as much as
  `seqLength - 1 + periodLength`. A Java `int` holds that only while the
  capacity is at most `2^31 - maxPeriod`. Past that, on a read that long,
  the counter wraps negative, passes the `position < seqLength` test and
  line 98 throws. The model covers only capacities within that bound.
- `MathUtils.arrayMax` lives outside this class. `Window.ArrayMax` models it
  from its use at line 129: the maximum over `[from, to)`, or the
  default when the range is empty.
- Phases.CarryForwardPass: Java adds the carry in the array slot (line 172)
  and reads it back (line 177). The model keeps that raw value in the local
  `thisRunLength` and writes the slot once. The final row is the same.
- Window.SlidingMax: its precondition says the input's last `k - 1` values do
  not exceed the value at `n - k`. The Java code relies on this at line 120,
  and `Phases.LoadPeriod` establishes it from `Cycles.PropagatedTail`.
- The read is a value (`seq<byte>`). The Java method only reads its
  `byte[]`, so aliasing of the input array is not modelled.
- The cost of the rescan heuristic (lines 112-113, 125-129) is not modelled;
  only its result is.
- No concurrency is modelled; the class has none.
- `AS_RankSumTest` is not part of this model. It is annotation code over
  floating point and external types.
