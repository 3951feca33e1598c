/** Finite sums over integer ranges, used to state the histogram as a count
    over ordered pairs of spikes and to exchange the order of summation. */
module Sums {

  /** f(lo) + f(lo + 1) + ... + f(hi - 1). */
  function Sum(lo: int, hi: int, f: int -> int): int
    decreases hi - lo
  {
    if lo >= hi then 0 else f(lo) + Sum(lo + 1, hi, f)
  }

  lemma {:induction false} SumSplit(lo: int, mid: int, hi: int, f: int -> int)
    requires lo <= mid <= hi
    ensures Sum(lo, hi, f) == Sum(lo, mid, f) + Sum(mid, hi, f)
    decreases mid - lo
  {
    if lo < mid {
      SumSplit(lo + 1, mid, hi, f);
    }
  }

  lemma SumLast(lo: int, hi: int, f: int -> int)
    requires lo < hi
    ensures Sum(lo, hi, f) == Sum(lo, hi - 1, f) + f(hi - 1)
  {
    SumSplit(lo, hi - 1, hi, f);
  }

  lemma {:induction false} SumPointwise(lo: int, hi: int, f: int -> int, g: int -> int)
    requires forall i :: lo <= i < hi ==> f(i) == g(i)
    ensures Sum(lo, hi, f) == Sum(lo, hi, g)
    decreases hi - lo
  {
    if lo < hi {
      SumPointwise(lo + 1, hi, f, g);
    }
  }

  lemma {:induction false} SumAdd(lo: int, hi: int, f: int -> int, g: int -> int, h: int -> int)
    requires forall i :: lo <= i < hi ==> h(i) == f(i) + g(i)
    ensures Sum(lo, hi, h) == Sum(lo, hi, f) + Sum(lo, hi, g)
    decreases hi - lo
  {
    if lo < hi {
      SumAdd(lo + 1, hi, f, g, h);
    }
  }

  /** 1 at j and 0 everywhere else. */
  function PointMass(j: int): int -> int {
    i => if i == j then 1 else 0
  }

  lemma {:induction false} SumPointMass(lo: int, hi: int, j: int)
    ensures Sum(lo, hi, PointMass(j)) == if lo <= j < hi then 1 else 0
    decreases hi - lo
  {
    if lo < hi {
      SumPointMass(lo + 1, hi, j);
    }
  }

  /** Row c and column s of a two-argument function. */
  function Row(g: (int, int) -> int, c: int): int -> int {
    s => g(c, s)
  }

  function Column(g: (int, int) -> int, s: int): int -> int {
    c => g(c, s)
  }

  function RowSums(g: (int, int) -> int, m: int): int -> int {
    c => Sum(0, m, Row(g, c))
  }

  function ColumnSums(g: (int, int) -> int, n: int): int -> int {
    s => Sum(0, n, Column(g, s))
  }

  /** The sum of g(c, s) over 0 <= c < n and 0 <= s < m, row by row. */
  function Grid(n: int, m: int, g: (int, int) -> int): int {
    Sum(0, n, RowSums(g, m))
  }

  /** Summing column by column gives the same total. */
  lemma {:induction false} GridByColumns(n: int, m: int, g: (int, int) -> int)
    requires 0 <= n
    ensures Grid(n, m, g) == Sum(0, m, ColumnSums(g, n))
    decreases n
  {
    if n == 0 {
      SumPointwise(0, m, ColumnSums(g, 0), PointMass(-1));
      SumPointMass(0, m, -1);
    } else {
      GridByColumns(n - 1, m, g);
      SumLast(0, n, RowSums(g, m));
      forall s | 0 <= s < m
        ensures ColumnSums(g, n)(s) == ColumnSums(g, n - 1)(s) + Row(g, n - 1)(s)
      {
        SumLast(0, n, Column(g, s));
      }
      SumAdd(0, m, ColumnSums(g, n - 1), Row(g, n - 1), ColumnSums(g, n));
    }
  }

  /** Exchanging the two arguments of g does not change a square grid's total. */
  lemma GridTranspose(n: int, g: (int, int) -> int, h: (int, int) -> int)
    requires 0 <= n
    requires forall c, s :: 0 <= c < n && 0 <= s < n ==> h(c, s) == g(s, c)
    ensures Grid(n, n, h) == Grid(n, n, g)
  {
    GridByColumns(n, n, g);
    forall c | 0 <= c < n
      ensures RowSums(h, n)(c) == ColumnSums(g, n)(c)
    {
      SumPointwise(0, n, Row(h, c), Column(g, c));
    }
    SumPointwise(0, n, RowSums(h, n), ColumnSums(g, n));
  }
}
