/** The cross-correlogram engine: the pass that finds the number of marks,
    then, for every centre spike, a backward and a forward scan through the
    sorted times that stop at the first spike outside the window and add one
    to a cell of the flat count array for every spike inside it. */
module Engine {
  import opened Lag
  import opened Histogram
  import opened PairBuffers

  datatype Option<T> = None | Some(value: T)

  /** How an engine call ends: normally, or aborted because a mark is 0. */
  datatype Status = Done | ZeroMarkAbort

  /** The first pass: nMarks is the largest mark; a zero mark aborts. */
  method CountMarks(marks: seq<nat>) returns (nMarks: Option<nat>)
    ensures nMarks.None? <==> !NoZeroMark(marks)
    ensures nMarks.Some? ==> nMarks.value == MaxMark(marks)
  {
    var n: nat := 0;
    for i := 0 to |marks|
      invariant n == MaxMark(marks[..i])
      invariant NoZeroMark(marks[..i])
    {
      var mark := marks[i];
      if mark > n {
        n := mark;
      }
      if mark == 0 {
        return None;
      }
      assert marks[..i + 1][..i] == marks[..i];
    }
    assert marks[..|marks|] == marks;
    return Some(n);
  }

  /** What the engine has done after the visits so far: each count cell has
      grown by the number of visits that hit it, and the pair buffer has been
      handed exactly these visits, in order. */
  ghost predicate Accumulated(inp: Input, initial: seq<nat>, visits: seq<Pair>, count: array<nat>, buffer: PairBuffer)
    reads count, buffer, buffer.Repr
  {
    inp.Valid() && |initial| == count.Length &&
    buffer.Valid() && count !in buffer.Repr &&
    buffer.Added == visits &&
    forall k {:trigger count[k]} :: 0 <= k < count.Length ==> count[k] == initial[k] + Tally(inp, visits, k)
  }

  /** One visit: Count[CountIndex]++ and AddPair(CenterSpike, SecondSpike). */
  method RecordPair(count: array<nat>, buffer: PairBuffer, countIndex: int, centerSpike: nat, secondSpike: nat,
                    ghost inp: Input, ghost initial: seq<nat>, ghost visits: seq<Pair>)
    requires Accumulated(inp, initial, visits, count, buffer)
    requires centerSpike < |inp.times| && secondSpike < |inp.times|
    requires countIndex == PairIndex(inp, Pair(centerSpike, secondSpike)) && 0 <= countIndex < count.Length
    modifies count, buffer.Repr
    ensures fresh(buffer.Repr - old(buffer.Repr))
    ensures Accumulated(inp, initial, visits + [Pair(centerSpike, secondSpike)], count, buffer)
  {
    count[countIndex] := count[countIndex] + 1;
    buffer.AddPair(centerSpike, secondSpike);
    TallyExtend(inp, visits, Pair(centerSpike, secondSpike));
  }

  /** The requirements both scans share: the engine's locals as CCGEngine
      sets them after the first pass, for an input with no zero mark. */
  ghost predicate ScanReady(inp: Input, times: seq<int>, marks: seq<nat>, binSize: int, halfBins: nat,
                            nBins: nat, nMarks: nat, countArraySize: nat, centerSpike: nat, count: array<nat>)
  {
    inp == Input(times, marks, binSize, halfBins) && inp.Valid() && Sorted(times) &&
    NoZeroMark(marks) && nMarks == MaxMark(marks) && nBins == NumBins(halfBins) &&
    countArraySize == CountArraySize(nBins, nMarks) && count.Length >= countArraySize &&
    centerSpike < |times|
  }

  /** The body of both scans for a partner inside the window: the bin of the
      lag, the index of the cell, the bounds check on it (which cannot fail
      for sorted times) and the visit itself. */
  method CountPair(times: seq<int>, marks: seq<nat>, binSize: int, halfBins: nat,
                   nBins: nat, nMarks: nat, countArraySize: nat, centerSpike: nat, secondSpike: nat,
                   count: array<nat>, buffer: PairBuffer,
                   ghost inp: Input, ghost initial: seq<nat>, ghost visits: seq<Pair>)
    requires ScanReady(inp, times, marks, binSize, halfBins, nBins, nMarks, countArraySize, centerSpike, count)
    requires secondSpike < |times| && Visited(inp, centerSpike, secondSpike)
    requires Accumulated(inp, initial, visits, count, buffer)
    modifies count, buffer.Repr
    ensures fresh(buffer.Repr - old(buffer.Repr))
    ensures Accumulated(inp, initial, visits + [Pair(centerSpike, secondSpike)], count, buffer)
  {
    var bin := Bin(binSize, halfBins, times[centerSpike], times[secondSpike]);
    var countIndex := CountIndex(nBins, nMarks, marks[centerSpike], marks[secondSpike], bin);
    assert countIndex == PairIndex(inp, Pair(centerSpike, secondSpike));
    VisitInCountArray(inp, Pair(centerSpike, secondSpike));
    if countIndex >= countArraySize {
      // the bounds-check abort: unreachable for sorted times
      assert false;
    }
    RecordPair(count, buffer, countIndex, centerSpike, secondSpike, inp, initial, visits);
  }

  // How the scans move from one stage of the visits to the next; each of
  // these restates Accumulated for an equal list of visits.

  lemma BackwardStart(inp: Input, initial: seq<nat>, c: nat, count: array<nat>, buffer: PairBuffer)
    requires c < |inp.times| && Accumulated(inp, initial, VisitsBefore(inp, c), count, buffer)
    ensures Accumulated(inp, initial, BackwardScanned(inp, c, c), count, buffer)
  {
    ScanHandover(inp, c);
  }

  lemma BackwardAdvance(inp: Input, initial: seq<nat>, c: nat, s: nat, count: array<nat>, buffer: PairBuffer)
    requires s < c < |inp.times| && Visited(inp, c, s)
    requires Accumulated(inp, initial, BackwardScanned(inp, c, s + 1) + [Pair(c, s)], count, buffer)
    ensures Accumulated(inp, initial, BackwardScanned(inp, c, s), count, buffer)
  {
    BackwardScanStep(inp, c, s);
  }

  lemma BackwardStop(inp: Input, initial: seq<nat>, c: nat, s: nat, count: array<nat>, buffer: PairBuffer)
    requires inp.Valid() && Sorted(inp.times) && s <= c < |inp.times|
    requires s == 0 || BeyondBackward(inp.binSize, inp.halfBins, inp.times[c], inp.times[s - 1])
    requires Accumulated(inp, initial, BackwardScanned(inp, c, s), count, buffer)
    ensures Accumulated(inp, initial, BackwardScanned(inp, c, 0), count, buffer)
  {
    if s > 0 {
      BackwardExit(inp, c, s - 1, 0);
    }
  }

  lemma ForwardStart(inp: Input, initial: seq<nat>, c: nat, count: array<nat>, buffer: PairBuffer)
    requires c < |inp.times| && Accumulated(inp, initial, BackwardScanned(inp, c, 0), count, buffer)
    ensures Accumulated(inp, initial, ForwardScanned(inp, c, c + 1), count, buffer)
  {
    ScanHandover(inp, c);
  }

  lemma ForwardAdvance(inp: Input, initial: seq<nat>, c: nat, s: nat, count: array<nat>, buffer: PairBuffer)
    requires c < s < |inp.times| && Visited(inp, c, s)
    requires Accumulated(inp, initial, ForwardScanned(inp, c, s) + [Pair(c, s)], count, buffer)
    ensures Accumulated(inp, initial, ForwardScanned(inp, c, s + 1), count, buffer)
  {
    ForwardScanStep(inp, c, s);
  }

  lemma ForwardStop(inp: Input, initial: seq<nat>, c: nat, s: nat, count: array<nat>, buffer: PairBuffer)
    requires inp.Valid() && Sorted(inp.times) && c < s <= |inp.times|
    requires s == |inp.times| || BeyondForward(inp.binSize, inp.halfBins, inp.times[c], inp.times[s])
    requires Accumulated(inp, initial, ForwardScanned(inp, c, s), count, buffer)
    ensures Accumulated(inp, initial, VisitsBefore(inp, c + 1), count, buffer)
  {
    ScanHandover(inp, c);
    if s < |inp.times| {
      ForwardExit(inp, c, s, |inp.times|);
    }
  }

  /** The backward scan from one centre spike: visits SecondSpike =
      CenterSpike - 1, CenterSpike - 2, ... until the first spike beyond the
      window, exactly the backward partners in descending order. */
  method ScanBackward(times: seq<int>, marks: seq<nat>, binSize: int, halfBins: nat,
                      nBins: nat, nMarks: nat, countArraySize: nat, centerSpike: nat,
                      count: array<nat>, buffer: PairBuffer, ghost inp: Input, ghost initial: seq<nat>)
    requires ScanReady(inp, times, marks, binSize, halfBins, nBins, nMarks, countArraySize, centerSpike, count)
    requires Accumulated(inp, initial, VisitsBefore(inp, centerSpike), count, buffer)
    modifies count, buffer.Repr
    ensures fresh(buffer.Repr - old(buffer.Repr))
    ensures Accumulated(inp, initial, BackwardScanned(inp, centerSpike, 0), count, buffer)
  {
    var time1 := times[centerSpike];
    var secondSpike: int := centerSpike - 1;
    ghost var next: nat := centerSpike;
    BackwardStart(inp, initial, centerSpike, count, buffer);
    while secondSpike >= 0
      invariant next <= centerSpike && secondSpike == next - 1
      invariant Accumulated(inp, initial, BackwardScanned(inp, centerSpike, next), count, buffer)
      invariant fresh(buffer.Repr - old(buffer.Repr))
    {
      var time2 := times[secondSpike];
      if BeyondBackward(binSize, halfBins, time1, time2) {
        break;
      }
      CountPair(times, marks, binSize, halfBins, nBins, nMarks, countArraySize, centerSpike, secondSpike,
                count, buffer, inp, initial, BackwardScanned(inp, centerSpike, next));
      BackwardAdvance(inp, initial, centerSpike, secondSpike, count, buffer);
      secondSpike, next := secondSpike - 1, secondSpike;
    }
    BackwardStop(inp, initial, centerSpike, next, count, buffer);
  }

  /** The forward scan from one centre spike: visits SecondSpike =
      CenterSpike + 1, CenterSpike + 2, ... until the first spike beyond the
      window or the last spike, exactly the forward partners in ascending
      order. */
  method ScanForward(times: seq<int>, marks: seq<nat>, binSize: int, halfBins: nat,
                     nBins: nat, nMarks: nat, countArraySize: nat, centerSpike: nat,
                     count: array<nat>, buffer: PairBuffer, ghost inp: Input, ghost initial: seq<nat>)
    requires ScanReady(inp, times, marks, binSize, halfBins, nBins, nMarks, countArraySize, centerSpike, count)
    requires Accumulated(inp, initial, BackwardScanned(inp, centerSpike, 0), count, buffer)
    modifies count, buffer.Repr
    ensures fresh(buffer.Repr - old(buffer.Repr))
    ensures Accumulated(inp, initial, VisitsBefore(inp, centerSpike + 1), count, buffer)
  {
    var time1 := times[centerSpike];
    var secondSpike: nat := centerSpike + 1;
    ForwardStart(inp, initial, centerSpike, count, buffer);
    while secondSpike < |times|
      invariant centerSpike < secondSpike <= |times|
      invariant Accumulated(inp, initial, ForwardScanned(inp, centerSpike, secondSpike), count, buffer)
      invariant fresh(buffer.Repr - old(buffer.Repr))
    {
      var time2 := times[secondSpike];
      if BeyondForward(binSize, halfBins, time1, time2) {
        break;
      }
      CountPair(times, marks, binSize, halfBins, nBins, nMarks, countArraySize, centerSpike, secondSpike,
                count, buffer, inp, initial, ForwardScanned(inp, centerSpike, secondSpike));
      ForwardAdvance(inp, initial, centerSpike, secondSpike, count, buffer);
      secondSpike := secondSpike + 1;
    }
    ForwardStop(inp, initial, centerSpike, secondSpike, count, buffer);
  }

  /** Once every centre has been scanned, each cell [mark1][mark2][bin] has
      grown by the reference histogram's count. */
  lemma FinishedScans(inp: Input, initial: seq<nat>, count: array<nat>, buffer: PairBuffer)
    requires Sorted(inp.times) && NoZeroMark(inp.marks)
    requires count.Length >= CountArraySize(NumBins(inp.halfBins), MaxMark(inp.marks))
    requires Accumulated(inp, initial, Visits(inp), count, buffer)
    ensures var nBins, nMarks := NumBins(inp.halfBins), MaxMark(inp.marks);
      forall mark1, mark2, bin :: 1 <= mark1 <= nMarks && 1 <= mark2 <= nMarks && 0 <= bin < nBins ==>
        count[CountIndex(nBins, nMarks, mark1, mark2, bin)]
        == initial[CountIndex(nBins, nMarks, mark1, mark2, bin)] + PairHistogram(inp, mark1, mark2, bin)
    ensures forall k :: CountArraySize(NumBins(inp.halfBins), MaxMark(inp.marks)) <= k < count.Length ==>
      count[k] == initial[k]
  {
    var nBins, nMarks := NumBins(inp.halfBins), MaxMark(inp.marks);
    forall k | CountArraySize(nBins, nMarks) <= k < count.Length
      ensures count[k] == initial[k]
    {
      VisitsOutsideArray(inp, k);
    }
    forall mark1, mark2, bin | 1 <= mark1 <= nMarks && 1 <= mark2 <= nMarks && 0 <= bin < nBins
      ensures Tally(inp, Visits(inp), CountIndex(nBins, nMarks, mark1, mark2, bin))
              == PairHistogram(inp, mark1, mark2, bin)
    {
      VisitsMakeHistogram(inp, mark1, mark2, bin);
    }
  }

  /** CCGEngine: adds to count[CountIndex(Mark1, Mark2, Bin)] one for every
      visited pair and stores the pair's spike indices in the pair buffer.
      times must be sorted; count must hold at least CountArraySize cells. */
  method CCGEngine(times: seq<int>, marks: seq<nat>, binSize: int, halfBins: nat,
                   count: array<nat>, buffer: PairBuffer)
    returns (status: Status)
    requires |times| == |marks| && binSize > 0 && Sorted(times)
    requires count.Length >= CountArraySize(NumBins(halfBins), MaxMark(marks))
    requires buffer.Valid() && count !in buffer.Repr
    modifies count, buffer.Repr
    ensures buffer.Valid() && fresh(buffer.Repr - old(buffer.Repr))
    ensures status == ZeroMarkAbort <==> !NoZeroMark(marks)
    ensures status == ZeroMarkAbort ==>
      count[..] == old(count[..]) && buffer.Contents() == [] && !buffer.overflowed
    ensures status == Done ==>
      var inp := Input(times, marks, binSize, halfBins);
      (forall k :: 0 <= k < count.Length ==> count[k] == old(count[k]) + Tally(inp, Visits(inp), k)) &&
      buffer.Added == Visits(inp) && buffer.Contents() == Retained(Flatten(Visits(inp))) &&
      buffer.overflowed == (2 * |Visits(inp)| > PairBlockSize)
    ensures status == Done ==>
      var inp, nBins, nMarks := Input(times, marks, binSize, halfBins), NumBins(halfBins), MaxMark(marks);
      forall mark1, mark2, bin :: 1 <= mark1 <= nMarks && 1 <= mark2 <= nMarks && 0 <= bin < nBins ==>
        count[CountIndex(nBins, nMarks, mark1, mark2, bin)]
        == old(count[CountIndex(nBins, nMarks, mark1, mark2, bin)]) + PairHistogram(inp, mark1, mark2, bin)
    ensures status == Done ==>
      forall k :: CountArraySize(NumBins(halfBins), MaxMark(marks)) <= k < count.Length ==> count[k] == old(count[k])
  {
    buffer.Reset();
    var maxMark := CountMarks(marks);
    if maxMark.None? {
      return ZeroMarkAbort;
    }
    var nMarks := maxMark.value;
    var nBins := NumBins(halfBins);
    var countArraySize := CountArraySize(nBins, nMarks);
    ghost var inp := Input(times, marks, binSize, halfBins);
    ghost var initial := count[..];

    for centerSpike := 0 to |times|
      invariant Accumulated(inp, initial, VisitsBefore(inp, centerSpike), count, buffer)
      invariant fresh(buffer.Repr - old(buffer.Repr))
    {
      ScanBackward(times, marks, binSize, halfBins, nBins, nMarks, countArraySize, centerSpike,
                   count, buffer, inp, initial);
      ScanForward(times, marks, binSize, halfBins, nBins, nMarks, countArraySize, centerSpike,
                  count, buffer, inp, initial);
    }

    FinishedScans(inp, initial, count, buffer);
    buffer.ContentsRetained();
    return Done;
  }
}
