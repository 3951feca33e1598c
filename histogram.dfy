/** What one call of the engine computes, stated without loops.

    The scans visit, for each centre spike c in ascending order, first its
    earlier partners (from c - 1 down to 0) and then its later partners (from
    c + 1 up), keeping a partner exactly when its lag lies inside the window.
    Every visit adds 1 to the cell [mark of c][mark of the partner][bin of the
    lag]. The lemmas below show that, for time-sorted input,
      - stopping a scan at the first spike outside the window loses nothing;
      - the window is exactly the set of lags whose bin is in 0..2*HalfBins;
      - the visits add up to the reference histogram PairHistogram, which
        counts ordered pairs of distinct spikes by marks and bin;
      - the histogram is mirror-symmetric when no lag sits on a bin edge;
      - every visit lands in the count array, one cell per visit. */
module Histogram {
  import opened Lag
  import opened Sums
  import opened PairBuffers

  /** The read-only inputs of one engine call: spike times (ticks), marks
      (source labels, starting at 1), the bin size (ticks) and HalfBins. */
  datatype Input = Input(times: seq<int>, marks: seq<nat>, binSize: int, halfBins: nat) {
    predicate Valid() {
      |times| == |marks| && binSize > 0
    }
  }

  predicate Sorted(times: seq<int>) {
    forall i, j :: 0 <= i <= j < |times| ==> times[i] <= times[j]
  }

  /** The number of marks, nMarks: the largest mark present (0 when there is no spike). */
  function MaxMark(marks: seq<nat>): (m: nat)
    ensures forall i :: 0 <= i < |marks| ==> marks[i] <= m
    ensures |marks| == 0 ==> m == 0
    ensures |marks| > 0 ==> exists i :: 0 <= i < |marks| && marks[i] == m
  {
    if |marks| == 0 then 0
    else
      var m := MaxMark(marks[..|marks| - 1]);
      if marks[|marks| - 1] > m then marks[|marks| - 1] else m
  }

  predicate InBackwardWindow(inp: Input, c: nat, s: nat)
    requires c < |inp.times| && s < |inp.times|
  {
    !BeyondBackward(inp.binSize, inp.halfBins, inp.times[c], inp.times[s])
  }

  predicate InForwardWindow(inp: Input, c: nat, s: nat)
    requires c < |inp.times| && s < |inp.times|
  {
    !BeyondForward(inp.binSize, inp.halfBins, inp.times[c], inp.times[s])
  }

  /** Partner s of centre c is inside the window of the scan that reaches it. */
  predicate Visited(inp: Input, c: nat, s: nat)
    requires c < |inp.times| && s < |inp.times|
  {
    c != s && (if s < c then InBackwardWindow(inp, c, s) else InForwardWindow(inp, c, s))
  }

  /** The visit, if any, that the scan of centre c makes at spike s. */
  function VisitOf(inp: Input, c: nat, s: nat): seq<Pair>
    requires c < |inp.times| && s < |inp.times|
  {
    if Visited(inp, c, s) then [Pair(c, s)] else []
  }

  /** The earlier spikes s in [lo, hi) inside the backward window of c, from hi - 1 down to lo. */
  function BackwardPartners(inp: Input, c: nat, lo: nat, hi: nat): seq<Pair>
    requires hi <= c < |inp.times|
    decreases hi - lo
  {
    if lo >= hi then []
    else BackwardPartners(inp, c, lo + 1, hi) + VisitOf(inp, c, lo)
  }

  /** The later spikes s in [lo, hi) inside the forward window of c, from lo up to hi - 1. */
  function ForwardPartners(inp: Input, c: nat, lo: nat, hi: nat): seq<Pair>
    requires c < lo && hi <= |inp.times|
    decreases hi - lo
  {
    if hi <= lo then []
    else VisitOf(inp, c, lo) + ForwardPartners(inp, c, lo + 1, hi)
  }

  /** The visits made with c as centre spike: backward partners, then forward ones. */
  function CenterVisits(inp: Input, c: nat): seq<Pair>
    requires c < |inp.times|
  {
    BackwardPartners(inp, c, 0, c) + ForwardPartners(inp, c, c + 1, |inp.times|)
  }

  /** The visits made by the centre spikes 0 .. c - 1, in scan order. */
  function VisitsBefore(inp: Input, c: nat): seq<Pair>
    requires c <= |inp.times|
  {
    if c == 0 then [] else VisitsBefore(inp, c - 1) + CenterVisits(inp, c - 1)
  }

  /** The visits made once the backward scan of centre c has reached spike s:
      those of the earlier centres, then the backward partners of c in [s, c). */
  function BackwardScanned(inp: Input, c: nat, s: nat): seq<Pair>
    requires s <= c < |inp.times|
  {
    VisitsBefore(inp, c) + BackwardPartners(inp, c, s, c)
  }

  /** The visits made once the forward scan of centre c has reached spike s:
      those of the earlier centres, all backward partners of c, then the
      forward partners of c in (c, s). */
  function ForwardScanned(inp: Input, c: nat, s: nat): seq<Pair>
    requires c < s <= |inp.times|
  {
    VisitsBefore(inp, c) + BackwardPartners(inp, c, 0, c) + ForwardPartners(inp, c, c + 1, s)
  }

  /** Reaching spike s adds the visit of s, if any, at the end. */
  lemma BackwardScanStep(inp: Input, c: nat, s: nat)
    requires s < c < |inp.times|
    ensures BackwardScanned(inp, c, s) == BackwardScanned(inp, c, s + 1) + VisitOf(inp, c, s)
  {
    assert BackwardPartners(inp, c, s, c) == BackwardPartners(inp, c, s + 1, c) + VisitOf(inp, c, s);
  }

  /** Extending the forward range by one spike adds that spike's visit at the end. */
  lemma {:induction false} ForwardPartnersLast(inp: Input, c: nat, lo: nat, s: nat)
    requires c < lo <= s < |inp.times|
    ensures ForwardPartners(inp, c, lo, s + 1) == ForwardPartners(inp, c, lo, s) + VisitOf(inp, c, s)
    decreases s - lo
  {
    if lo < s {
      ForwardPartnersLast(inp, c, lo + 1, s);
      assert ForwardPartners(inp, c, lo, s + 1)
        == VisitOf(inp, c, lo) + (ForwardPartners(inp, c, lo + 1, s) + VisitOf(inp, c, s));
    } else {
      assert ForwardPartners(inp, c, lo, s) == [];
    }
  }

  lemma ForwardScanStep(inp: Input, c: nat, s: nat)
    requires c < s < |inp.times|
    ensures ForwardScanned(inp, c, s + 1) == ForwardScanned(inp, c, s) + VisitOf(inp, c, s)
  {
    ForwardPartnersLast(inp, c, c + 1, s);
  }

  /** The backward scan of c starts after the earlier centres, the forward
      scan starts where the backward one ended, and the end of the forward
      scan completes the visits of centres 0 .. c. */
  lemma ScanHandover(inp: Input, c: nat)
    requires c < |inp.times|
    ensures BackwardScanned(inp, c, c) == VisitsBefore(inp, c)
    ensures ForwardScanned(inp, c, c + 1) == BackwardScanned(inp, c, 0)
    ensures ForwardScanned(inp, c, |inp.times|) == VisitsBefore(inp, c + 1)
  {
    assert BackwardPartners(inp, c, c, c) == [];
    assert ForwardPartners(inp, c, c + 1, c + 1) == [];
    assert VisitsBefore(inp, c + 1) == VisitsBefore(inp, c) + CenterVisits(inp, c);
  }

  /** Every visit of a whole engine call, in scan order. */
  function Visits(inp: Input): seq<Pair> {
    VisitsBefore(inp, |inp.times|)
  }

  /** Index of the count cell a visit increments (-1 for a pair that is not
      one of the input's spikes). */
  function PairIndex(inp: Input, p: Pair): int {
    if inp.Valid() && p.center < |inp.times| && p.second < |inp.times| then
      CountIndex(NumBins(inp.halfBins), MaxMark(inp.marks), inp.marks[p.center], inp.marks[p.second],
                 Bin(inp.binSize, inp.halfBins, inp.times[p.center], inp.times[p.second]))
    else -1
  }

  /** The number of pairs of a list whose count cell is k. */
  function Tally(inp: Input, pairs: seq<Pair>, k: int): nat {
    if |pairs| == 0 then 0
    else
      Tally(inp, pairs[..|pairs| - 1], k) + (if PairIndex(inp, pairs[|pairs| - 1]) == k then 1 else 0)
  }

  /** The tally of every cell, as a function of the cell. */
  function TallyOf(inp: Input, pairs: seq<Pair>): int -> int {
    k => Tally(inp, pairs, k)
  }

  /** 1 when (c, s) is an ordered pair of distinct spikes with marks (mark1,
      mark2) whose lag times[s] - times[c] falls in bin; 0 otherwise. */
  function Indicator(inp: Input, mark1: int, mark2: int, bin: int): (int, int) -> int
    requires inp.Valid()
  {
    (c, s) =>
      if 0 <= c < |inp.times| && 0 <= s < |inp.times| && c != s
         && inp.marks[c] == mark1 && inp.marks[s] == mark2
         && Bin(inp.binSize, inp.halfBins, inp.times[c], inp.times[s]) == bin
      then 1 else 0
  }

  /** The reference cross-correlogram: for marks (mark1, mark2) and a bin, the
      number of ordered pairs of distinct spikes with those marks whose lag
      falls in that bin. */
  function PairHistogram(inp: Input, mark1: int, mark2: int, bin: int): int
    requires inp.Valid()
  {
    Grid(|inp.times|, |inp.times|, Indicator(inp, mark1, mark2, bin))
  }

  /** No spike has mark 0. */
  predicate NoZeroMark(marks: seq<nat>) {
    forall i :: 0 <= i < |marks| ==> marks[i] != 0
  }

  /** No lag between two spikes is an odd multiple of half a bin. */
  predicate NoLagOnBinEdge(inp: Input)
    requires inp.Valid()
  {
    forall c, s :: 0 <= c < |inp.times| && 0 <= s < |inp.times| ==>
      !OnBinEdge(inp.binSize, inp.times[s] - inp.times[c])
  }

  // ---------------------------------------------------------------------
  // Early exit of the scans

  /** Once the backward scan of c meets a spike s outside the window, every
      earlier spike is outside too, so the partners in [lo, c) are those in
      (s, c). */
  lemma {:induction false} BackwardExit(inp: Input, c: nat, s: nat, lo: nat)
    requires inp.Valid() && Sorted(inp.times)
    requires lo <= s < c < |inp.times| && !InBackwardWindow(inp, c, s)
    ensures BackwardPartners(inp, c, lo, c) == BackwardPartners(inp, c, s + 1, c)
    decreases s - lo
  {
    assert !InBackwardWindow(inp, c, lo);
    if lo < s {
      BackwardExit(inp, c, s, lo + 1);
    }
  }

  /** Once the forward scan of c meets a spike s outside the window, every
      later spike is outside too, so the partners in (c, hi) are those in
      (c, s). */
  lemma {:induction false} ForwardExit(inp: Input, c: nat, s: nat, hi: nat)
    requires inp.Valid() && Sorted(inp.times)
    requires c < s <= hi <= |inp.times| && s < |inp.times| && !InForwardWindow(inp, c, s)
    ensures ForwardPartners(inp, c, c + 1, hi) == ForwardPartners(inp, c, c + 1, s)
    decreases hi - s
  {
    if s < hi {
      assert !InForwardWindow(inp, c, hi - 1);
      ForwardExit(inp, c, s, hi - 1);
      ForwardPartnersLast(inp, c, c + 1, hi - 1);
    }
  }

  // ---------------------------------------------------------------------
  // Which pairs are visited

  lemma {:induction false} BackwardPartnersHas(inp: Input, c: nat, lo: nat, hi: nat, s: nat)
    requires hi <= c < |inp.times| && lo <= s < hi && InBackwardWindow(inp, c, s)
    ensures Pair(c, s) in BackwardPartners(inp, c, lo, hi)
    decreases s - lo
  {
    if lo < s {
      BackwardPartnersHas(inp, c, lo + 1, hi, s);
    }
  }

  lemma {:induction false} ForwardPartnersHas(inp: Input, c: nat, lo: nat, hi: nat, s: nat)
    requires c < lo <= s < hi <= |inp.times| && InForwardWindow(inp, c, s)
    ensures Pair(c, s) in ForwardPartners(inp, c, lo, hi)
    decreases s - lo
  {
    if lo < s {
      ForwardPartnersHas(inp, c, lo + 1, hi, s);
    }
  }

  lemma {:induction false} VisitsBeforeHas(inp: Input, n: nat, c: nat, s: nat)
    requires n <= |inp.times| && c < n && s < |inp.times| && Visited(inp, c, s)
    ensures Pair(c, s) in VisitsBefore(inp, n)
    decreases n
  {
    var before, center := VisitsBefore(inp, n - 1), CenterVisits(inp, n - 1);
    assert VisitsBefore(inp, n) == before + center;
    if c < n - 1 {
      VisitsBeforeHas(inp, n - 1, c, s);
      assert Pair(c, s) in before;
    } else {
      var backward, forward := BackwardPartners(inp, c, 0, c), ForwardPartners(inp, c, c + 1, |inp.times|);
      assert center == backward + forward;
      if s < c {
        BackwardPartnersHas(inp, c, 0, c, s);
        assert Pair(c, s) in backward;
      } else {
        ForwardPartnersHas(inp, c, c + 1, |inp.times|, s);
        assert Pair(c, s) in forward;
      }
      assert Pair(c, s) in center;
    }
  }

  /** Every pair of the list is a pair of spikes that its scan visits. */
  ghost predicate AllVisited(inp: Input, pairs: seq<Pair>) {
    forall i :: 0 <= i < |pairs| ==>
      pairs[i].center < |inp.times| && pairs[i].second < |inp.times| && Visited(inp, pairs[i].center, pairs[i].second)
  }

  lemma AllVisitedAppend(inp: Input, a: seq<Pair>, b: seq<Pair>)
    requires AllVisited(inp, a) && AllVisited(inp, b)
    ensures AllVisited(inp, a + b)
  {
    forall i | 0 <= i < |a + b|
      ensures (a + b)[i] == if i < |a| then a[i] else b[i - |a|]
    {
    }
  }

  /** The backward scan of c visits only spikes inside its window. */
  lemma {:induction false} BackwardPartnersVisited(inp: Input, c: nat, lo: nat, hi: nat)
    requires hi <= c < |inp.times|
    ensures AllVisited(inp, BackwardPartners(inp, c, lo, hi))
    decreases hi - lo
  {
    if lo < hi {
      BackwardPartnersVisited(inp, c, lo + 1, hi);
      AllVisitedAppend(inp, BackwardPartners(inp, c, lo + 1, hi), VisitOf(inp, c, lo));
    }
  }

  /** The forward scan of c visits only spikes inside its window. */
  lemma {:induction false} ForwardPartnersVisited(inp: Input, c: nat, lo: nat, hi: nat)
    requires c < lo && hi <= |inp.times|
    ensures AllVisited(inp, ForwardPartners(inp, c, lo, hi))
    decreases hi - lo
  {
    if lo < hi {
      ForwardPartnersVisited(inp, c, lo + 1, hi);
      AllVisitedAppend(inp, VisitOf(inp, c, lo), ForwardPartners(inp, c, lo + 1, hi));
    }
  }

  /** Every pair the scans of centres 0 .. c - 1 record is a visited pair. */
  lemma {:induction false} VisitsBeforeVisited(inp: Input, c: nat)
    requires c <= |inp.times|
    ensures AllVisited(inp, VisitsBefore(inp, c))
  {
    if c > 0 {
      VisitsBeforeVisited(inp, c - 1);
      BackwardPartnersVisited(inp, c - 1, 0, c - 1);
      ForwardPartnersVisited(inp, c - 1, c, |inp.times|);
      AllVisitedAppend(inp, BackwardPartners(inp, c - 1, 0, c - 1), ForwardPartners(inp, c - 1, c, |inp.times|));
      AllVisitedAppend(inp, VisitsBefore(inp, c - 1), CenterVisits(inp, c - 1));
    }
  }

  /** The visits are exactly the pairs (c, s) of distinct spikes where s is
      earlier with |lag| <= FurthestEdge or later with |lag| < FurthestEdge.
      In particular no spike is paired with itself. */
  lemma VisitsExactly(inp: Input, c: nat, s: nat)
    requires c < |inp.times| && s < |inp.times|
    ensures Pair(c, s) in Visits(inp) <==> Visited(inp, c, s)
  {
    if Visited(inp, c, s) {
      VisitsBeforeHas(inp, |inp.times|, c, s);
    }
    VisitsBeforeVisited(inp, |inp.times|);
  }

  /** For sorted times the window is exactly the set of lags whose bin is
      inside the count array: backward partners fall in bins 0..HalfBins,
      forward partners in HalfBins..2*HalfBins, and a pair is visited iff its
      bin is in 0..2*HalfBins. */
  lemma WindowIsBins(inp: Input, c: nat, s: nat)
    requires inp.Valid() && Sorted(inp.times)
    requires c < |inp.times| && s < |inp.times| && c != s
    ensures var bin := Bin(inp.binSize, inp.halfBins, inp.times[c], inp.times[s]);
      (s < c ==> bin <= inp.halfBins) && (c < s ==> inp.halfBins <= bin) &&
      (Visited(inp, c, s) <==> 0 <= bin <= 2 * inp.halfBins)
  {
    if s < c {
      BackwardWindow(inp.binSize, inp.halfBins, inp.times[c], inp.times[s]);
    } else {
      ForwardWindow(inp.binSize, inp.halfBins, inp.times[c], inp.times[s]);
    }
  }

  // ---------------------------------------------------------------------
  // The visits add up to the reference histogram

  /** One more pair adds one to the tally of its own cell and nothing elsewhere. */
  lemma TallyExtend(inp: Input, pairs: seq<Pair>, p: Pair)
    ensures forall k :: Tally(inp, pairs + [p], k) == Tally(inp, pairs, k) + (if PairIndex(inp, p) == k then 1 else 0)
  {
    assert (pairs + [p])[..|pairs|] == pairs;
  }

  lemma {:induction false} TallyAppend(inp: Input, a: seq<Pair>, b: seq<Pair>, k: int)
    ensures Tally(inp, a + b, k) == Tally(inp, a, k) + Tally(inp, b, k)
    decreases |b|
  {
    if |b| == 0 {
      assert a + b == a;
    } else {
      var b' := b[..|b| - 1];
      assert (a + b)[..|a + b| - 1] == a + b';
      TallyAppend(inp, a, b', k);
    }
  }

  /** g(c, s) is what the visit of s from centre c adds to cell k, for every
      ordered pair of spikes (0 when there is no visit). */
  ghost predicate TallyMatches(inp: Input, k: int, g: (int, int) -> int) {
    forall c: nat, s: nat {:trigger VisitOf(inp, c, s)} :: c < |inp.times| && s < |inp.times| ==>
      Tally(inp, VisitOf(inp, c, s), k) == g(c, s)
  }

  /** One visit (c, s) hits the cell of (mark1, mark2, bin) exactly when the
      reference histogram's indicator counts (c, s) there. */
  lemma VisitHitsCell(inp: Input, c: nat, s: nat, mark1: int, mark2: int, bin: int)
    requires inp.Valid() && Sorted(inp.times) && NoZeroMark(inp.marks)
    requires c < |inp.times| && s < |inp.times| && c != s
    requires 1 <= mark1 <= MaxMark(inp.marks) && 1 <= mark2 <= MaxMark(inp.marks)
    requires 0 <= bin < NumBins(inp.halfBins)
    ensures (Visited(inp, c, s) && PairIndex(inp, Pair(c, s)) == CountIndex(NumBins(inp.halfBins), MaxMark(inp.marks), mark1, mark2, bin))
      <==> Indicator(inp, mark1, mark2, bin)(c, s) == 1
  {
    var nBins, nMarks := NumBins(inp.halfBins), MaxMark(inp.marks);
    var b := Bin(inp.binSize, inp.halfBins, inp.times[c], inp.times[s]);
    WindowIsBins(inp, c, s);
    if Visited(inp, c, s) {
      CellOfCountIndex(nBins, nMarks, inp.marks[c], inp.marks[s], b);
      CellOfCountIndex(nBins, nMarks, mark1, mark2, bin);
    }
  }

  /** The visits tally into the cell of (mark1, mark2, bin) exactly as the
      reference histogram's indicator counts. */
  lemma IndicatorMatches(inp: Input, mark1: int, mark2: int, bin: int)
    requires inp.Valid() && Sorted(inp.times) && NoZeroMark(inp.marks)
    requires 1 <= mark1 <= MaxMark(inp.marks) && 1 <= mark2 <= MaxMark(inp.marks)
    requires 0 <= bin < NumBins(inp.halfBins)
    ensures TallyMatches(inp, CountIndex(NumBins(inp.halfBins), MaxMark(inp.marks), mark1, mark2, bin),
                         Indicator(inp, mark1, mark2, bin))
  {
    var k := CountIndex(NumBins(inp.halfBins), MaxMark(inp.marks), mark1, mark2, bin);
    forall c: nat, s: nat | c < |inp.times| && s < |inp.times|
      ensures Tally(inp, VisitOf(inp, c, s), k) == Indicator(inp, mark1, mark2, bin)(c, s)
    {
      if c != s {
        VisitHitsCell(inp, c, s, mark1, mark2, bin);
        if Visited(inp, c, s) {
          assert [Pair(c, s)][..0] == [];
        }
      }
    }
  }

  lemma {:induction false} TallyBackward(inp: Input, c: nat, lo: nat, k: int, g: (int, int) -> int)
    requires inp.Valid() && lo <= c < |inp.times| && TallyMatches(inp, k, g)
    ensures Tally(inp, BackwardPartners(inp, c, lo, c), k) == Sum(lo, c, Row(g, c))
    decreases c - lo
  {
    if lo < c {
      var rest := BackwardPartners(inp, c, lo + 1, c);
      var visit := VisitOf(inp, c, lo);
      TallyBackward(inp, c, lo + 1, k, g);
      TallyAppend(inp, rest, visit, k);
      assert Tally(inp, visit, k) == Row(g, c)(lo);
    }
  }

  lemma {:induction false} TallyForward(inp: Input, c: nat, lo: nat, k: int, g: (int, int) -> int)
    requires inp.Valid() && c < lo <= |inp.times| && TallyMatches(inp, k, g)
    ensures Tally(inp, ForwardPartners(inp, c, lo, |inp.times|), k) == Sum(lo, |inp.times|, Row(g, c))
    decreases |inp.times| - lo
  {
    if lo < |inp.times| {
      var rest := ForwardPartners(inp, c, lo + 1, |inp.times|);
      var visit := VisitOf(inp, c, lo);
      TallyForward(inp, c, lo + 1, k, g);
      TallyAppend(inp, visit, rest, k);
      assert Tally(inp, visit, k) == Row(g, c)(lo);
    }
  }

  lemma TallyCenter(inp: Input, c: nat, k: int, g: (int, int) -> int)
    requires inp.Valid() && c < |inp.times| && TallyMatches(inp, k, g)
    ensures Tally(inp, CenterVisits(inp, c), k) == RowSums(g, |inp.times|)(c)
  {
    var row := Row(g, c);
    TallyBackward(inp, c, 0, k, g);
    TallyForward(inp, c, c + 1, k, g);
    TallyAppend(inp, BackwardPartners(inp, c, 0, c), ForwardPartners(inp, c, c + 1, |inp.times|), k);
    SumSplit(0, c, |inp.times|, row);
    assert VisitOf(inp, c, c) == [];
  }

  lemma {:induction false} TallyVisitsBefore(inp: Input, c: nat, k: int, g: (int, int) -> int)
    requires inp.Valid() && c <= |inp.times| && TallyMatches(inp, k, g)
    ensures Tally(inp, VisitsBefore(inp, c), k) == Sum(0, c, RowSums(g, |inp.times|))
  {
    if c > 0 {
      TallyVisitsBefore(inp, c - 1, k, g);
      TallyCenter(inp, c - 1, k, g);
      TallyAppend(inp, VisitsBefore(inp, c - 1), CenterVisits(inp, c - 1), k);
      assert VisitsBefore(inp, c) == VisitsBefore(inp, c - 1) + CenterVisits(inp, c - 1);
      SumLast(0, c, RowSums(g, |inp.times|));
    }
  }

  /** For sorted times with no zero mark, the visits put into cell
      [mark1][mark2][bin] exactly the reference histogram's count. */
  lemma VisitsMakeHistogram(inp: Input, mark1: int, mark2: int, bin: int)
    requires inp.Valid() && Sorted(inp.times) && NoZeroMark(inp.marks)
    requires 1 <= mark1 <= MaxMark(inp.marks) && 1 <= mark2 <= MaxMark(inp.marks)
    requires 0 <= bin < NumBins(inp.halfBins)
    ensures Tally(inp, Visits(inp), CountIndex(NumBins(inp.halfBins), MaxMark(inp.marks), mark1, mark2, bin))
      == PairHistogram(inp, mark1, mark2, bin)
  {
    IndicatorMatches(inp, mark1, mark2, bin);
    TallyVisitsBefore(inp, |inp.times|, CountIndex(NumBins(inp.halfBins), MaxMark(inp.marks), mark1, mark2, bin),
                      Indicator(inp, mark1, mark2, bin));
  }

  // ---------------------------------------------------------------------
  // Mirror symmetry

  /** Away from bin edges, the count of (mark1, mark2) at HalfBins + k equals
      the count of (mark2, mark1) at HalfBins - k. */
  lemma HistogramMirror(inp: Input, mark1: int, mark2: int, bin: int)
    requires inp.Valid() && NoLagOnBinEdge(inp)
    ensures PairHistogram(inp, mark1, mark2, bin) == PairHistogram(inp, mark2, mark1, 2 * inp.halfBins - bin)
  {
    var g := Indicator(inp, mark1, mark2, bin);
    var h := Indicator(inp, mark2, mark1, 2 * inp.halfBins - bin);
    forall c, s | 0 <= c < |inp.times| && 0 <= s < |inp.times|
      ensures h(c, s) == g(s, c)
    {
      BinMirror(inp.binSize, inp.halfBins, inp.times[s], inp.times[c]);
    }
    GridTranspose(|inp.times|, g, h);
  }

  /** The mirror relation for what the scans add to the count array:
      Count[m1][m2][HalfBins + k] and Count[m2][m1][HalfBins - k] grow alike. */
  lemma CountMirror(inp: Input, mark1: int, mark2: int, k: int)
    requires inp.Valid() && Sorted(inp.times) && NoZeroMark(inp.marks) && NoLagOnBinEdge(inp)
    requires 1 <= mark1 <= MaxMark(inp.marks) && 1 <= mark2 <= MaxMark(inp.marks)
    requires -k <= inp.halfBins && k <= inp.halfBins
    ensures var nBins, nMarks, h := NumBins(inp.halfBins), MaxMark(inp.marks), inp.halfBins;
      Tally(inp, Visits(inp), CountIndex(nBins, nMarks, mark1, mark2, h + k))
      == Tally(inp, Visits(inp), CountIndex(nBins, nMarks, mark2, mark1, h - k))
  {
    VisitsMakeHistogram(inp, mark1, mark2, inp.halfBins + k);
    VisitsMakeHistogram(inp, mark2, mark1, inp.halfBins - k);
    HistogramMirror(inp, mark1, mark2, inp.halfBins + k);
  }

  // ---------------------------------------------------------------------
  // Every visit adds one to exactly one cell of the count array

  lemma VisitInCountArray(inp: Input, p: Pair)
    requires inp.Valid() && Sorted(inp.times) && NoZeroMark(inp.marks)
    requires p.center < |inp.times| && p.second < |inp.times| && Visited(inp, p.center, p.second)
    ensures 0 <= PairIndex(inp, p) < CountArraySize(NumBins(inp.halfBins), MaxMark(inp.marks))
  {
    WindowIsBins(inp, p.center, p.second);
  }

  /** A cell that no pair of the list hits has tally 0. */
  lemma {:induction false} TallyMissed(inp: Input, pairs: seq<Pair>, k: int)
    requires forall i :: 0 <= i < |pairs| ==> PairIndex(inp, pairs[i]) != k
    ensures Tally(inp, pairs, k) == 0
    decreases |pairs|
  {
    if |pairs| > 0 {
      var front := pairs[..|pairs| - 1];
      assert forall i :: 0 <= i < |front| ==> front[i] == pairs[i];
      TallyMissed(inp, front, k);
    }
  }

  /** The scans add nothing to a cell outside [0, CountArraySize): a count
      array longer than CountArraySize keeps its tail unchanged. */
  lemma VisitsOutsideArray(inp: Input, k: int)
    requires inp.Valid() && Sorted(inp.times) && NoZeroMark(inp.marks)
    requires k < 0 || k >= CountArraySize(NumBins(inp.halfBins), MaxMark(inp.marks))
    ensures Tally(inp, Visits(inp), k) == 0
  {
    var visits := Visits(inp);
    VisitsBeforeVisited(inp, |inp.times|);
    forall i | 0 <= i < |visits|
      ensures PairIndex(inp, visits[i]) != k
    {
      VisitInCountArray(inp, visits[i]);
    }
    TallyMissed(inp, visits, k);
  }

  lemma {:induction false} TallyTotal(inp: Input, pairs: seq<Pair>, size: int)
    requires forall i :: 0 <= i < |pairs| ==> 0 <= PairIndex(inp, pairs[i]) < size
    ensures Sum(0, size, TallyOf(inp, pairs)) == |pairs|
    decreases |pairs|
  {
    if |pairs| == 0 {
      SumPointwise(0, size, TallyOf(inp, pairs), PointMass(-1));
      SumPointMass(0, size, -1);
    } else {
      var front := pairs[..|pairs| - 1];
      var j := PairIndex(inp, pairs[|pairs| - 1]);
      assert forall i :: 0 <= i < |front| ==> front[i] == pairs[i];
      TallyTotal(inp, front, size);
      SumAdd(0, size, TallyOf(inp, front), PointMass(j), TallyOf(inp, pairs));
      SumPointMass(0, size, j);
    }
  }

  /** Summed over the whole count array, the scans add exactly one per visit. */
  lemma VisitsTotal(inp: Input)
    requires inp.Valid() && Sorted(inp.times) && NoZeroMark(inp.marks)
    ensures Sum(0, CountArraySize(NumBins(inp.halfBins), MaxMark(inp.marks)), TallyOf(inp, Visits(inp)))
      == |Visits(inp)|
  {
    var visits := Visits(inp);
    VisitsBeforeVisited(inp, |inp.times|);
    forall i | 0 <= i < |visits|
      ensures 0 <= PairIndex(inp, visits[i]) < CountArraySize(NumBins(inp.halfBins), MaxMark(inp.marks))
    {
      VisitInCountArray(inp, visits[i]);
    }
    TallyTotal(inp, visits, CountArraySize(NumBins(inp.halfBins), MaxMark(inp.marks)));
  }
}
