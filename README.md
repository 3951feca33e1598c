# CCGEngine — a verified model of the cross-correlogram engine

`CCGEngine` computes multi-unit cross-correlograms. It takes:

- spike times, sorted ascending;
- marks, which label the unit that fired each spike and start at 1;
- a bin size and `HalfBins`.

It works in three steps:

1. A first pass sets `nMarks` to the largest mark. A zero mark aborts.
2. For every centre spike, a backward scan and a forward scan walk through the neighbouring spikes. Each scan stops at the first spike whose lag leaves the window `BinSize * (HalfBins + 1/2)`. The backward exit test is `>`; the forward exit test is `>=`.
3. Every spike inside the window adds one to `Count[nBins*nMarks*(Mark1-1) + nBins*(Mark2-1) + Bin]`. `AddPair` then appends the two spike indices to a global pair buffer (`Pairs`, `PairCnt`, `PairSz`).

The model has five modules:

- `Lag` covers binning, the window tests and the layout of the flat count array.
  - Times are integer ticks, so every comparison is exact.
  - The window half-width is never formed. Both sides of each window test are doubled.
  - `Bin` is `HalfBins + round-half-up(lag / BinSize)`, written as a floor division.
- `Sums` holds finite sums and double sums over a grid, with exchange of summation order.
- `Histogram` is the loop-free specification:
  - the visits the scans make, in scan order;
  - the tally of visits per count cell;
  - the reference histogram `PairHistogram`, which counts ordered pairs of distinct spikes by marks and bin;
  - lemmas relating these (exits, window = bins, mirror symmetry, totals).
- `PairBuffers` models the global pair buffer as a class with the fields `pairs` (an array of `PairBlockSize` entries), `pairCnt` and `pairSz`.
  - It also has an `overflowed` flag and a ghost log `Added` of every pair handed to `AddPair`.
- `Engine` holds the imperative engine: the marks pass, the two scans as loops, and the whole call.
  - Each method is proved against the `Histogram` specification through the invariant `Accumulated`. It says that every count cell has grown by the tally of the visits so far, and that the buffer has been handed exactly those visits.

`CCGEngine` ends in one of two ways:

- It returns `ZeroMarkAbort` exactly when a mark is 0, with the count array unchanged.
- Otherwise every cell `[mark1][mark2][bin]` has grown by `PairHistogram(mark1, mark2, bin)`. The buffer then holds the retained prefix of the visits' spike indices, and the overflow flag is raised exactly when `2 × visits > PairBlockSize`.

## Model

| member | source | states |
|---|---|---|
| Lag.BinRange | CCGEngine.c:103 | For `j = Bin - HalfBins`, the lag `time2 - time1` lies in `[(j - 1/2)·BinSize, (j + 1/2)·BinSize)`. So `Bin` rounds the lag to the nearest bin, and a half-way lag rounds up. |
| Lag.CountIndex | CCGEngine.c:106 | For marks in `1..nMarks` and a bin in `0..nBins-1`, the flat index lies in `[0, CountArraySize)`. |
| Lag.CellOfCountIndex | CCGEngine.c:106 | Decoding the index of an in-range cell gives back `(Mark1, Mark2, Bin)`, so distinct cells never share an index. |
| Lag.CountIndexOfCell | CCGEngine.c:87 | Every index in `[0, nMarks·nMarks·nBins)` is the index of an in-range cell. The array has exactly one slot per cell. |
| Lag.BackwardWindow | CCGEngine.c:100-103 | For an earlier partner, `Bin <= HalfBins`. The backward exit test `abs(lag) > FurthestEdge` fails exactly when `Bin >= 0`. |
| Lag.ForwardWindow | CCGEngine.c:128-130 | For a later partner, `Bin >= HalfBins`. The forward exit test `abs(lag) >= FurthestEdge` fails exactly when `Bin <= 2·HalfBins`. |
| Lag.BinMirror | CCGEngine.c:110 | When the lag is not an odd multiple of half a bin, swapping the two times maps `Bin` to `2·HalfBins - Bin`. |
| Histogram.MaxMark | CCGEngine.c:75-77 | `nMarks` bounds every mark and equals one of them. It is 0 when there is no spike. |
| Histogram.ForwardPartnersLast | CCGEngine.c:125 | When the forward scan reaches spike `s`, the visit of `s`, if any, comes last. |
| Histogram.BackwardExit | CCGEngine.c:100 | Once the backward scan meets a spike outside the window, every earlier spike is outside too. The `break` loses no partner, including one exactly at the `<=` edge. |
| Histogram.ForwardExit | CCGEngine.c:128 | Once the forward scan meets a spike outside the window, every later spike is outside too. The `break` loses no partner below the `<` edge. |
| Histogram.VisitsExactly | CCGEngine.c:90-143 | `(c, s)` is visited exactly when `c != s` and `s` is inside the window: an earlier `s` with `abs(lag) <= FurthestEdge`, or a later `s` with `abs(lag) < FurthestEdge`. No spike is paired with itself. |
| Histogram.VisitsBeforeVisited | CCGEngine.c:95-143 | Every pair the scans record is a pair of distinct spikes inside the window. |
| Histogram.WindowIsBins | CCGEngine.c:100-130 | For sorted times, backward partners land in bins `0..HalfBins` and forward partners in `HalfBins..2·HalfBins`. A pair is visited exactly when its bin is in `0..2·HalfBins`. |
| Histogram.VisitInCountArray | CCGEngine.c:113-119 | Every visited pair's index lies in `[0, CountArraySize)`, so the bounds-check abort cannot fire for sorted times. |
| Histogram.VisitsOutsideArray | CCGEngine.c:113-121 | For sorted times, no visit hits a cell below 0 or at or above `CountArraySize`. The tally of every such cell is 0, so a longer count array keeps its tail. |
| Histogram.VisitsMakeHistogram | CCGEngine.c:90-143 | The visits add to cell `[mark1][mark2][bin]` exactly the number of ordered pairs of distinct spikes with those marks whose lag falls in that bin. |
| Histogram.HistogramMirror | CCGEngine.c:110 | Away from half-bin ties, the histogram of `(mark1, mark2)` at `bin` equals the histogram of `(mark2, mark1)` at `2·HalfBins - bin`. |
| Histogram.CountMirror | CCGEngine.c:120-142 | Away from half-bin ties, the scans add the same amount to `Count[m1][m2][HalfBins + k]` as to `Count[m2][m1][HalfBins - k]`. |
| Histogram.VisitsTotal | CCGEngine.c:120-142 | Summed over the whole count array, the increments equal the number of visits, one per visit. |
| PairBuffers.FlattenEntries | CCGEngine.c:58-59 | The flattened list has two entries per pair. Entry `2i` is pair `i`'s centre spike and entry `2i + 1` its partner. |
| PairBuffers.PairBuffer.ContentsRetained | CCGEngine.c:58-59 | The stored entries are the retained prefix of the flattened list of every pair handed to `AddPair` since the reset. |
| PairBuffers.PairBuffer.constructor | CCGEngine.c:45-46 | At program start nothing is allocated or stored. |
| PairBuffers.PairBuffer.Reset | CCGEngine.c:72 | `PairCnt = 0; PairSz = 0`: the buffer is empty and holds no pairs. |
| PairBuffers.PairBuffer.Allocate | CCGEngine.c:50-54 | The first append after a reset allocates an empty block of `PairBlockSize` entries, and sets `PairSz` to that size. |
| PairBuffers.PairBuffer.AddPair | CCGEngine.c:48-60 | Appends `n1` and then `n2` and logs the pair. When the block is already full, the entries are kept and the warning is recorded in the overflow flag. |
| Engine.CountMarks | CCGEngine.c:74-83 | Returns `None` exactly when some mark is 0. Otherwise it returns the largest mark. |
| Engine.RecordPair | CCGEngine.c:120-121 | `Count[CountIndex]++` and `AddPair(CenterSpike, SecondSpike)` extend the accumulated visits by that one pair. |
| Engine.CountPair | CCGEngine.c:103-121 | For a partner inside the window, the bin, the index, the (unreachable) bounds check and the visit together extend the accumulated visits by that pair. |
| Engine.BackwardStop | CCGEngine.c:100 | Breaking at the first spike beyond the backward window has produced all backward visits of the centre. |
| Engine.ForwardStop | CCGEngine.c:128 | Breaking at the first spike beyond the forward window, or running off the end, has produced all visits of the centre. |
| Engine.ScanBackward | CCGEngine.c:95-122 | The backward loop visits exactly the backward partners of the centre, in descending order. |
| Engine.ScanForward | CCGEngine.c:125-143 | The forward loop visits exactly the forward partners of the centre, in ascending order. |
| Engine.FinishedScans | CCGEngine.c:90-145 | After every centre, each cell `[mark1][mark2][bin]` has grown by the reference histogram's count. Every cell at or above `CountArraySize` is unchanged. |
| Engine.CCGEngine | CCGEngine.c:63-150 | On a zero mark it aborts, leaving the count array unchanged and the buffer empty. Otherwise every count cell has grown by its tally of visits, which is the reference histogram for every in-range cell and 0 for every cell at or above `CountArraySize`. The buffer holds the retained prefix of the visits' spike indices, and the overflow flag says whether any were lost. |

## Left out

- Floating point: times and `BinSize` are doubles in the original. The model uses integer ticks with doubled comparisons, so rounding error in `(Time2-Time1)/BinSize` and in `FurthestEdge` is not modelled.
- Integer widths: the indices, `PairCnt` and the counts are `unsigned int` or `unsigned long`, but in the model they are unbounded naturals, so wrap-around is not modelled.
- `printf` and `abort`:
  - The zero-mark abort (lines 78-81) is the status `ZeroMarkAbort`, returned before any counting.
  - The bounds-check abort (lines 113-119) is proved unreachable for sorted times.
- `malloc` failure in `AddPair` (lines 51-53) is not modelled; allocation always succeeds.
- `PairBuffers.PairBuffer.AddPair`: on a full block the original prints a warning and writes past the end. The model stores nothing and raises `overflowed`.
- The `memcpy(Pairs, Pairs, …)` at line 147 copies the caller's array onto itself, because the parameter shadows the global. It has no effect and is not modelled.
- The second computation of `Time2`, the exit test, `Bin`, `Mark2` and `CountIndex` in the backward loop (lines 107-112) repeats the first with the same values. The model performs it once.
- `nSpikes` is the length of the times sequence, and the marks sequence has the same length.
- Sorted times and a count array of at least `CountArraySize` cells are preconditions, as the header comment (line 21) and the bounds check demand of callers.
- `BinSize > 0` is a precondition that the original never checks. The model takes `BinSize` as a positive whole number of ticks, as every visible caller passes a positive bin size (test_CCGEngine1.py:15). With a negative `BinSize`, `FurthestEdge` is negative, so both exit tests (lines 100 and 128) fire on the first partner and nothing is counted.
- The index layout follows the code at lines 106 and 132, `[Mark1-1][Mark2-1][Bin]` with `Bin` fastest. The header comment (line 14) omits the `-1`, and the Python wrapper reshapes to `[nBins, n, n]` (CCGEngine.py:47).
- The Python wrapper and the test script are not part of this model.
- The scans are factored into the methods `ScanBackward`, `ScanForward` and `CountPair`; the loop structure and the order of visits are those of the original.
