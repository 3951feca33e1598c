/** Lag binning, window tests and the layout of the flat count array used by
    the cross-correlogram engine.

    Spike times are integer ticks and the bin size is a positive number of
    ticks, so every comparison and every rounding below is exact. The window
    half-width FurthestEdge = BinSize * (HalfBins + 1/2) is never formed
    directly: both sides of each comparison with it are doubled. */
module Lag {

  /** Total number of bins: HalfBins on each side of the zero-lag bin. */
  function NumBins(halfBins: nat): nat {
    1 + 2 * halfBins
  }

  /** Number of cells of the count array laid out as [Mark1][Mark2][Bin]. */
  function CountArraySize(nBins: nat, nMarks: nat): nat {
    nMarks * nMarks * nBins
  }

  function Abs(x: int): nat {
    if x < 0 then -x else x
  }

  /** The backward scan's exit test: |time1 - time2| > FurthestEdge. */
  predicate BeyondBackward(binSize: int, halfBins: nat, time1: int, time2: int) {
    2 * Abs(time1 - time2) > binSize * (2 * halfBins + 1)
  }

  /** The forward scan's exit test: |time1 - time2| >= FurthestEdge. */
  predicate BeyondForward(binSize: int, halfBins: nat, time1: int, time2: int) {
    2 * Abs(time1 - time2) >= binSize * (2 * halfBins + 1)
  }

  /** The bin of the lag time2 - time1: HalfBins plus the lag in bin units
      rounded to the nearest integer, a lag exactly half-way between two
      integers going up. Bin b collects the lags in
      [(b - HalfBins - 1/2) * BinSize, (b - HalfBins + 1/2) * BinSize). */
  function Bin(binSize: int, halfBins: nat, time1: int, time2: int): int
    requires binSize > 0
  {
    halfBins + (2 * (time2 - time1) + binSize) / (2 * binSize)
  }

  /** The lag time2 - time1 lies in the half-open range of its bin. */
  lemma BinRange(binSize: int, halfBins: nat, time1: int, time2: int)
    requires binSize > 0
    ensures var j := Bin(binSize, halfBins, time1, time2) - halfBins;
      binSize * (2 * j - 1) <= 2 * (time2 - time1) < binSize * (2 * j + 1)
  {
    var x, q := 2 * (time2 - time1) + binSize, 2 * binSize;
    DivMod(x, q);
    var j := x / q;
    assert q * j == binSize * (2 * j);
    assert binSize * (2 * j - 1) == q * j - binSize;
    assert binSize * (2 * j + 1) == q * j + binSize;
  }

  /** The lag is an odd multiple of half a bin: it lies exactly on the border
      between two bins, where rounding to the nearest bin is a tie. */
  predicate OnBinEdge(binSize: int, lag: int)
    requires binSize > 0
  {
    (2 * lag + binSize) % (2 * binSize) == 0
  }

  /** Flat index of cell [mark1][mark2][bin]; marks start at 1. */
  function CountIndex(nBins: nat, nMarks: nat, mark1: int, mark2: int, bin: int): (index: int)
    ensures 1 <= mark1 <= nMarks && 1 <= mark2 <= nMarks && 0 <= bin < nBins ==>
              0 <= index < CountArraySize(nBins, nMarks)
  {
    CountIndexBounds(nBins, nMarks, mark1, mark2, bin);
    nBins * nMarks * (mark1 - 1) + nBins * (mark2 - 1) + bin
  }

  /** A cell of the count array, the inverse view of an index. */
  datatype Cell = Cell(mark1: int, mark2: int, bin: int)

  /** The cell an index of the count array addresses. */
  function CellAt(nBins: nat, nMarks: nat, index: int): Cell
    requires nBins > 0 && nMarks > 0
  {
    Cell(index / nBins / nMarks + 1, (index / nBins) % nMarks + 1, index % nBins)
  }

  /** Decoding the index of an in-range cell gives the cell back, so distinct
      cells have distinct indices. */
  lemma CellOfCountIndex(nBins: nat, nMarks: nat, mark1: int, mark2: int, bin: int)
    requires 1 <= mark1 <= nMarks && 1 <= mark2 <= nMarks && 0 <= bin < nBins
    ensures CellAt(nBins, nMarks, CountIndex(nBins, nMarks, mark1, mark2, bin)) == Cell(mark1, mark2, bin)
  {
    var inner := nMarks * (mark1 - 1) + (mark2 - 1);
    var index := CountIndex(nBins, nMarks, mark1, mark2, bin);
    CountIndexBounds(nBins, nMarks, mark1, mark2, bin);
    assert index == nBins * inner + bin;
    DivUnique(index, nBins, inner, bin);
    assert index / nBins == inner && index % nBins == bin;
    DivUnique(inner, nMarks, mark1 - 1, mark2 - 1);
    assert CellAt(nBins, nMarks, index) == Cell(inner / nMarks + 1, inner % nMarks + 1, bin);
  }

  /** Every index inside the count array is the index of an in-range cell. */
  lemma CountIndexOfCell(nBins: nat, nMarks: nat, index: int)
    requires nBins > 0 && nMarks > 0 && 0 <= index < CountArraySize(nBins, nMarks)
    ensures var c := CellAt(nBins, nMarks, index);
      1 <= c.mark1 <= nMarks && 1 <= c.mark2 <= nMarks && 0 <= c.bin < nBins &&
      CountIndex(nBins, nMarks, c.mark1, c.mark2, c.bin) == index
  {
    var c := CellAt(nBins, nMarks, index);
    var inner := index / nBins;
    DivMod(index, nBins);
    assert index == nBins * inner + c.bin && 0 <= c.bin < nBins;
    if inner < 0 {
      MulLessEq(nBins, inner, -1);
      assert false;
    }
    if inner >= nMarks * nMarks {
      MulLessEq(nBins, nMarks * nMarks, inner);
      assert false;
    }
    var hi := inner / nMarks;
    DivMod(inner, nMarks);
    assert inner == nMarks * hi + (c.mark2 - 1) && c.mark1 == hi + 1;
    if hi < 0 {
      MulLessEq(nMarks, hi, -1);
      assert false;
    }
    if hi >= nMarks {
      MulLessEq(nMarks, nMarks, hi);
      assert false;
    }
    CountIndexBounds(nBins, nMarks, c.mark1, c.mark2, c.bin);
  }

  /** Backward partners (time2 <= time1) land in bins 0..HalfBins, and the
      backward exit test fails exactly when the bin is not below 0. */
  lemma BackwardWindow(binSize: int, halfBins: nat, time1: int, time2: int)
    requires binSize > 0 && time2 <= time1
    ensures Bin(binSize, halfBins, time1, time2) <= halfBins
    ensures !BeyondBackward(binSize, halfBins, time1, time2) <==> 0 <= Bin(binSize, halfBins, time1, time2)
  {
    var j := Bin(binSize, halfBins, time1, time2) - halfBins;
    BinRange(binSize, halfBins, time1, time2);
    if j > 0 {
      MulLess(binSize, 0, 2 * j - 1);
      assert false;
    }
    if 0 <= j + halfBins {
      MulLessEq(binSize, -(2 * halfBins + 1), 2 * j - 1);
    } else {
      MulLessEq(binSize, 2 * j + 1, -(2 * halfBins + 1));
    }
  }

  /** Forward partners (time1 <= time2) land in bins HalfBins..2*HalfBins+1,
      and the forward exit test fails exactly when the bin is at most
      2*HalfBins. */
  lemma ForwardWindow(binSize: int, halfBins: nat, time1: int, time2: int)
    requires binSize > 0 && time1 <= time2
    ensures halfBins <= Bin(binSize, halfBins, time1, time2)
    ensures !BeyondForward(binSize, halfBins, time1, time2) <==> Bin(binSize, halfBins, time1, time2) <= 2 * halfBins
  {
    var j := Bin(binSize, halfBins, time1, time2) - halfBins;
    BinRange(binSize, halfBins, time1, time2);
    if j < 0 {
      MulLessEq(binSize, 2 * j + 1, 0);
      assert false;
    }
    if j <= halfBins {
      MulLessEq(binSize, 2 * j + 1, 2 * halfBins + 1);
    } else {
      MulLessEq(binSize, 2 * halfBins + 1, 2 * j - 1);
    }
  }

  /** Away from bin edges, reversing a lag mirrors its bin about HalfBins. */
  lemma BinMirror(binSize: int, halfBins: nat, time1: int, time2: int)
    requires binSize > 0 && !OnBinEdge(binSize, time2 - time1)
    ensures !OnBinEdge(binSize, time1 - time2)
    ensures Bin(binSize, halfBins, time2, time1) == 2 * halfBins - Bin(binSize, halfBins, time1, time2)
  {
    var q := 2 * binSize;
    var x := 2 * (time2 - time1) + binSize;
    var a, r := x / q, x % q;
    DivMod(x, q);
    assert 0 < r < q;
    var y := 2 * (time1 - time2) + binSize;
    assert y == q * (-a) + (q - r);
    DivUnique(y, q, -a, q - r);
  }

  // Arithmetic helpers

  lemma CountIndexBounds(nBins: nat, nMarks: nat, mark1: int, mark2: int, bin: int)
    ensures var inner := nMarks * (mark1 - 1) + (mark2 - 1);
      nBins * nMarks * (mark1 - 1) + nBins * (mark2 - 1) + bin == nBins * inner + bin
    ensures 1 <= mark1 <= nMarks && 1 <= mark2 <= nMarks && 0 <= bin < nBins ==>
      0 <= nBins * nMarks * (mark1 - 1) + nBins * (mark2 - 1) + bin < CountArraySize(nBins, nMarks)
  {
    var a, b := mark1 - 1, mark2 - 1;
    var inner := nMarks * a + b;
    MulAssoc(nBins, nMarks, a);
    MulDistrib(nBins, nMarks * a, b);
    if 1 <= mark1 <= nMarks && 1 <= mark2 <= nMarks && 0 <= bin < nBins {
      MulLessEq(nMarks, 0, a);
      MulLessEq(nMarks, a, nMarks - 1);
      MulDistrib(nMarks, nMarks - 1, 1);
      assert 0 <= inner <= nMarks * nMarks - 1;
      MulLessEq(nBins, 0, inner);
      MulLessEq(nBins, inner, nMarks * nMarks - 1);
      MulDistrib(nBins, nMarks * nMarks - 1, 1);
      MulAssoc(nBins, nMarks, nMarks);
      assert nBins * (nMarks * nMarks) == CountArraySize(nBins, nMarks);
    }
  }

  lemma MulAssoc(k: int, x: int, y: int)
    ensures k * x * y == k * (x * y) && k * (x * y) == x * y * k
  {
  }

  lemma MulDistrib(k: int, x: int, y: int)
    ensures k * x + k * y == k * (x + y)
  {
  }

  lemma DivMod(x: int, q: int)
    requires q > 0
    ensures x == q * (x / q) + x % q && 0 <= x % q < q
  {
  }

  lemma DivUnique(x: int, q: int, a: int, r: int)
    requires q > 0 && 0 <= r < q && x == q * a + r
    ensures x / q == a && x % q == r
  {
    DivMod(x, q);
    var a', r' := x / q, x % q;
    if a' < a {
      MulLessEq(q, a' + 1, a);
      assert false;
    } else if a < a' {
      MulLessEq(q, a + 1, a');
      assert false;
    }
  }

  lemma MulLessEq(k: int, x: int, y: int)
    requires k > 0 && x <= y
    ensures k * x <= k * y
  {
    assert k * y - k * x == k * (y - x);
  }

  lemma MulLess(k: int, x: int, y: int)
    requires k > 0 && x < y
    ensures k * x < k * y
  {
    assert k * y - k * x == k * (y - x);
  }
}
