/** Finite integer sums over index ranges, the arithmetic backbone of every
    crossing count in the model.  Summands are passed as total functions; the
    named generators `Row` and `Entry` keep nested sums syntactically stable so
    that lemmas about them can be chained. */
module Sums {

  /** Sum of f(k) for lo <= k < hi. */
  function Sum(lo: int, hi: int, f: int -> int): int
    decreases hi - lo
  {
    if hi <= lo then 0 else Sum(lo, hi - 1, f) + f(hi - 1)
  }

  /** 1 when b holds, 0 otherwise. */
  function Ind(b: bool): int
  {
    if b then 1 else 0
  }

  /** The function j => h(i, j), for a fixed row i. */
  function Entry(h: (int, int) -> int, i: int): int -> int
  {
    j => h(i, j)
  }

  /** The function i => sum of h(i, j) over lo <= j < hi. */
  function Row(lo: int, hi: int, h: (int, int) -> int): int -> int
  {
    i => Sum(lo, hi, Entry(h, i))
  }

  /** The function (i, j) => h(j, i). */
  function Transpose(h: (int, int) -> int): (int, int) -> int
  {
    (i, j) => h(j, i)
  }

  /** Sum of h(i, j) over the square [0, m) x [0, m). */
  function Square(m: int, h: (int, int) -> int): int
  {
    Sum(0, m, Row(0, m, h))
  }

  lemma SumExt(lo: int, hi: int, f: int -> int, g: int -> int)
    requires forall k :: lo <= k < hi ==> f(k) == g(k)
    ensures Sum(lo, hi, f) == Sum(lo, hi, g)
    decreases hi - lo
  {
    if lo < hi {
      SumExt(lo, hi - 1, f, g);
    }
  }

  lemma SumAdd(lo: int, hi: int, f: int -> int, g: int -> int, h: int -> int)
    requires forall k :: lo <= k < hi ==> h(k) == f(k) + g(k)
    ensures Sum(lo, hi, h) == Sum(lo, hi, f) + Sum(lo, hi, g)
    decreases hi - lo
  {
    if lo < hi {
      SumAdd(lo, hi - 1, f, g, h);
    }
  }

  lemma SumSub(lo: int, hi: int, f: int -> int, g: int -> int, h: int -> int)
    requires forall k :: lo <= k < hi ==> h(k) == f(k) - g(k)
    ensures Sum(lo, hi, h) == Sum(lo, hi, f) - Sum(lo, hi, g)
    decreases hi - lo
  {
    if lo < hi {
      SumSub(lo, hi - 1, f, g, h);
    }
  }

  lemma SumZero(lo: int, hi: int, f: int -> int)
    requires forall k :: lo <= k < hi ==> f(k) == 0
    ensures Sum(lo, hi, f) == 0
    decreases hi - lo
  {
    if lo < hi {
      SumZero(lo, hi - 1, f);
    }
  }

  lemma SumNonneg(lo: int, hi: int, f: int -> int)
    requires forall k :: lo <= k < hi ==> f(k) >= 0
    ensures Sum(lo, hi, f) >= 0
    decreases hi - lo
  {
    if lo < hi {
      SumNonneg(lo, hi - 1, f);
    }
  }

  lemma SumSplit(lo: int, mid: int, hi: int, f: int -> int)
    requires lo <= mid <= hi
    ensures Sum(lo, hi, f) == Sum(lo, mid, f) + Sum(mid, hi, f)
    decreases hi - mid
  {
    if mid < hi {
      SumSplit(lo, mid, hi - 1, f);
    }
  }

  /** Peeling the first summand off. */
  lemma SumFront(lo: int, hi: int, f: int -> int)
    requires lo < hi
    ensures Sum(lo, hi, f) == f(lo) + Sum(lo + 1, hi, f)
  {
    SumSplit(lo, lo + 1, hi, f);
  }

  /** A sum with a single non-zero summand. */
  lemma SumSingle(lo: int, hi: int, k0: int, f: int -> int)
    requires lo <= k0 < hi
    requires forall k :: lo <= k < hi && k != k0 ==> f(k) == 0
    ensures Sum(lo, hi, f) == f(k0)
  {
    SumSplit(lo, k0, hi, f);
    SumZero(lo, k0, f);
    SumFront(k0, hi, f);
    SumZero(k0 + 1, hi, f);
  }

  /** Exchanging the order of a double sum over a rectangle. */
  lemma SumSwap(a: int, b: int, h: (int, int) -> int)
    requires 0 <= a && 0 <= b
    ensures Sum(0, a, Row(0, b, h)) == Sum(0, b, Row(0, a, Transpose(h)))
    decreases a
  {
    if a > 0 {
      SumSwap(a - 1, b, h);
      // the last row on the left is the last column on the right
      assert Row(0, b, h)(a - 1) == Sum(0, b, Entry(h, a - 1));
      forall j | 0 <= j < b
        ensures Row(0, a, Transpose(h))(j) == Row(0, a - 1, Transpose(h))(j) + Entry(h, a - 1)(j)
      {
        calc {
          Row(0, a, Transpose(h))(j);
          Sum(0, a, Entry(Transpose(h), j));
          Sum(0, a - 1, Entry(Transpose(h), j)) + Entry(Transpose(h), j)(a - 1);
          { assert Entry(Transpose(h), j)(a - 1) == h(a - 1, j) == Entry(h, a - 1)(j); }
          Row(0, a - 1, Transpose(h))(j) + Entry(h, a - 1)(j);
        }
      }
      SumAdd(0, b, Row(0, a - 1, Transpose(h)), Entry(h, a - 1), Row(0, a, Transpose(h)));
      calc {
        Sum(0, a, Row(0, b, h));
        Sum(0, a - 1, Row(0, b, h)) + Row(0, b, h)(a - 1);
        Sum(0, b, Row(0, a - 1, Transpose(h))) + Sum(0, b, Entry(h, a - 1));
        Sum(0, b, Row(0, a, Transpose(h)));
      }
    } else {
      SumZero(0, b, Row(0, a, Transpose(h)));
    }
  }

  /** Row sums of pointwise-equal matrices agree. */
  lemma RowsExt(lo: int, hi: int, rlo: int, rhi: int, h: (int, int) -> int, g: (int, int) -> int)
    requires forall i, j :: rlo <= i < rhi && lo <= j < hi ==> h(i, j) == g(i, j)
    ensures Sum(rlo, rhi, Row(lo, hi, h)) == Sum(rlo, rhi, Row(lo, hi, g))
  {
    forall i | rlo <= i < rhi
      ensures Row(lo, hi, h)(i) == Row(lo, hi, g)(i)
    {
      SumExt(lo, hi, Entry(h, i), Entry(g, i));
    }
    SumExt(rlo, rhi, Row(lo, hi, h), Row(lo, hi, g));
  }

  /** Linearity of a double sum. */
  lemma RowsAdd(m: int, f: (int, int) -> int, g: (int, int) -> int, h: (int, int) -> int)
    requires forall i, j :: 0 <= i < m && 0 <= j < m ==> h(i, j) == f(i, j) + g(i, j)
    ensures Square(m, h) == Square(m, f) + Square(m, g)
  {
    forall i | 0 <= i < m
      ensures Row(0, m, h)(i) == Row(0, m, f)(i) + Row(0, m, g)(i)
    {
      SumAdd(0, m, Entry(f, i), Entry(g, i), Entry(h, i));
    }
    SumAdd(0, m, Row(0, m, f), Row(0, m, g), Row(0, m, h));
  }

  lemma RowsSub(m: int, f: (int, int) -> int, g: (int, int) -> int, h: (int, int) -> int)
    requires forall i, j :: 0 <= i < m && 0 <= j < m ==> h(i, j) == f(i, j) - g(i, j)
    ensures Square(m, h) == Square(m, f) - Square(m, g)
  {
    forall i | 0 <= i < m
      ensures Row(0, m, h)(i) == Row(0, m, f)(i) - Row(0, m, g)(i)
    {
      SumSub(0, m, Entry(f, i), Entry(g, i), Entry(h, i));
    }
    SumSub(0, m, Row(0, m, f), Row(0, m, g), Row(0, m, h));
  }

  lemma SquareZero(m: int, h: (int, int) -> int)
    requires forall i, j :: 0 <= i < m && 0 <= j < m ==> h(i, j) == 0
    ensures Square(m, h) == 0
  {
    forall i | 0 <= i < m
      ensures Row(0, m, h)(i) == 0
    {
      SumZero(0, m, Entry(h, i));
    }
    SumZero(0, m, Row(0, m, h));
  }

  lemma SquareNonneg(m: int, h: (int, int) -> int)
    requires forall i, j :: 0 <= i < m && 0 <= j < m ==> h(i, j) >= 0
    ensures Square(m, h) >= 0
  {
    forall i | 0 <= i < m
      ensures Row(0, m, h)(i) >= 0
    {
      SumNonneg(0, m, Entry(h, i));
    }
    SumNonneg(0, m, Row(0, m, h));
  }

  lemma SquareTranspose(m: int, h: (int, int) -> int)
    requires 0 <= m
    ensures Square(m, Transpose(h)) == Square(m, h)
  {
    SumSwap(m, m, h);
  }
}
