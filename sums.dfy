/** Finite double sums of an integer field `f(row, col)` in the order the
    program's nested accumulation loops visit it: rows first, columns inside. */
module Sums {

  /** `f(r, 0) + f(r, 1) + ... + f(r, n - 1)`. */
  function RowTotal(f: (int, int) -> int, r: int, n: int): int
    decreases n
  {
    if n <= 0 then 0 else RowTotal(f, r, n - 1) + f(r, n - 1)
  }

  /** `f(0, c) + f(1, c) + ... + f(n - 1, c)`. */
  function ColumnTotal(f: (int, int) -> int, c: int, n: int): int
    decreases n
  {
    if n <= 0 then 0 else ColumnTotal(f, c, n - 1) + f(n - 1, c)
  }

  /** Sum of `f(r, c)` over `0 <= r < h`, `0 <= c < w`, row by row. */
  function GridTotal(f: (int, int) -> int, h: int, w: int): int
    decreases h
  {
    if h <= 0 then 0 else GridTotal(f, h - 1, w) + RowTotal(f, h - 1, w)
  }

  lemma {:induction false} RowTotalSame(f: (int, int) -> int, r1: int, k: (int, int) -> int, r2: int, n: int)
    requires forall c :: 0 <= c < n ==> f(r1, c) == k(r2, c)
    ensures RowTotal(f, r1, n) == RowTotal(k, r2, n)
    decreases n
  {
    if n > 0 {
      RowTotalSame(f, r1, k, r2, n - 1);
    }
  }

  lemma {:induction false} RowTotalNonNegative(f: (int, int) -> int, r: int, n: int)
    requires forall c :: 0 <= c < n ==> f(r, c) >= 0
    ensures RowTotal(f, r, n) >= 0
    decreases n
  {
    if n > 0 {
      RowTotalNonNegative(f, r, n - 1);
    }
  }

  lemma {:induction false} GridTotalNonNegative(f: (int, int) -> int, h: int, w: int)
    requires forall r, c :: 0 <= r < h && 0 <= c < w ==> f(r, c) >= 0
    ensures GridTotal(f, h, w) >= 0
    decreases h
  {
    if h > 0 {
      GridTotalNonNegative(f, h - 1, w);
      RowTotalNonNegative(f, h - 1, w);
    }
  }

  /** Summing a field that is the pointwise sum of two fields. */
  lemma {:induction false} RowTotalAdd(f: (int, int) -> int, k: (int, int) -> int, s: (int, int) -> int, r: int, n: int)
    requires forall c :: 0 <= c < n ==> s(r, c) == f(r, c) + k(r, c)
    ensures RowTotal(s, r, n) == RowTotal(f, r, n) + RowTotal(k, r, n)
    decreases n
  {
    if n > 0 {
      RowTotalAdd(f, k, s, r, n - 1);
    }
  }

  lemma {:induction false} GridTotalAdd(f: (int, int) -> int, k: (int, int) -> int, s: (int, int) -> int, h: int, w: int)
    requires forall r, c :: 0 <= r < h && 0 <= c < w ==> s(r, c) == f(r, c) + k(r, c)
    ensures GridTotal(s, h, w) == GridTotal(f, h, w) + GridTotal(k, h, w)
    decreases h
  {
    if h > 0 {
      GridTotalAdd(f, k, s, h - 1, w);
      RowTotalAdd(f, k, s, h - 1, w);
    }
  }

  /** A row whose first entry is zero and whose other entries are those of `k`
      one column to the left sums like `k` over one column fewer. */
  lemma {:induction false} RowTotalShift(f: (int, int) -> int, k: (int, int) -> int, r: int, n: nat)
    requires f(r, 0) == 0
    requires forall c :: 0 <= c < n ==> k(r, c) == f(r, c + 1)
    ensures RowTotal(f, r, n + 1) == RowTotal(k, r, n)
    decreases n
  {
    if n > 0 {
      RowTotalShift(f, k, r, n - 1);
    }
  }

  /** Column shift, applied to every row. */
  lemma {:induction false} GridTotalShiftColumns(f: (int, int) -> int, k: (int, int) -> int, h: int, n: nat)
    requires forall r :: 0 <= r < h ==> f(r, 0) == 0
    requires forall r, c :: 0 <= r < h && 0 <= c < n ==> k(r, c) == f(r, c + 1)
    ensures GridTotal(f, h, n + 1) == GridTotal(k, h, n)
    decreases h
  {
    if h > 0 {
      GridTotalShiftColumns(f, k, h - 1, n);
      RowTotalShift(f, k, h - 1, n);
    }
  }

  /** A field whose first row is zero and whose other rows are those of `k`
      one row up sums like `k` over one row fewer. */
  lemma {:induction false} GridTotalShiftRows(f: (int, int) -> int, k: (int, int) -> int, h: nat, w: int)
    requires forall c :: 0 <= c < w ==> f(0, c) == 0
    requires forall r, c :: 0 <= r < h && 0 <= c < w ==> k(r, c) == f(r + 1, c)
    ensures GridTotal(f, h + 1, w) == GridTotal(k, h, w)
    decreases h
  {
    if h == 0 {
      RowTotalSame(f, 0, (r, c) => 0, 0, w);
      RowTotalZero(w);
    } else {
      GridTotalShiftRows(f, k, h - 1, w);
      RowTotalSame(f, h, k, h - 1, w);
    }
  }

  lemma {:induction false} RowTotalZero(n: int)
    ensures RowTotal((r, c) => 0, 0, n) == 0
    decreases n
  {
    if n > 0 {
      RowTotalZero(n - 1);
    }
  }

  /** Two fields that agree on the rectangle have the same total. */
  lemma {:induction false} GridTotalSame(f: (int, int) -> int, k: (int, int) -> int, h: int, w: int)
    requires forall r, c :: 0 <= r < h && 0 <= c < w ==> f(r, c) == k(r, c)
    ensures GridTotal(f, h, w) == GridTotal(k, h, w)
    decreases h
  {
    if h > 0 {
      GridTotalSame(f, k, h - 1, w);
      RowTotalSame(f, h - 1, k, h - 1, w);
    }
  }

  /** Changing a row in one entry `c0` changes its total by the change of that
      entry (an entry outside the row must not change at all). */
  lemma {:induction false} RowTotalPoint(f: (int, int) -> int, k: (int, int) -> int, r: int, c0: int, n: int)
    requires forall c :: 0 <= c < n && c != c0 ==> k(r, c) == f(r, c)
    requires !(0 <= c0 < n) ==> k(r, c0) == f(r, c0)
    ensures RowTotal(k, r, n) == RowTotal(f, r, n) + k(r, c0) - f(r, c0)
    decreases n
  {
    if n > 0 {
      if c0 == n - 1 {
        RowTotalSame(k, r, f, r, n - 1);
      } else {
        RowTotalPoint(f, k, r, c0, n - 1);
      }
    }
  }

  /** Changing a field in one point `(r0, c0)` changes its total by the change
      at that point (a point outside the rectangle must not change at all). */
  lemma {:induction false} GridTotalPoint(f: (int, int) -> int, k: (int, int) -> int, r0: int, c0: int, h: int, w: int)
    requires forall r, c :: 0 <= r < h && 0 <= c < w && (r, c) != (r0, c0) ==> k(r, c) == f(r, c)
    requires !(0 <= r0 < h && 0 <= c0 < w) ==> k(r0, c0) == f(r0, c0)
    ensures GridTotal(k, h, w) == GridTotal(f, h, w) + k(r0, c0) - f(r0, c0)
    decreases h
  {
    if h > 0 {
      if r0 == h - 1 {
        GridTotalSame(k, f, h - 1, w);
        RowTotalPoint(f, k, h - 1, c0, w);
      } else {
        GridTotalPoint(f, k, r0, c0, h - 1, w);
        RowTotalSame(k, h - 1, f, h - 1, w);
      }
    }
  }

  /** Removing a last row or last column whose entries are all zero leaves the total unchanged. */
  lemma LastRowZero(f: (int, int) -> int, h: nat, w: int)
    requires forall c :: 0 <= c < w ==> f(h, c) == 0
    ensures GridTotal(f, h + 1, w) == GridTotal(f, h, w)
  {
    RowTotalSame(f, h, (r, c) => 0, 0, w);
    RowTotalZero(w);
  }

  lemma {:induction false} LastColumnZero(f: (int, int) -> int, h: int, n: nat)
    requires forall r :: 0 <= r < h ==> f(r, n) == 0
    ensures GridTotal(f, h, n + 1) == GridTotal(f, h, n)
    decreases h
  {
    if h > 0 {
      LastColumnZero(f, h - 1, n);
    }
  }

  /** Adding a column to the grid adds that column's total. */
  lemma {:induction false} GridTotalAddColumn(f: (int, int) -> int, h: int, n: nat)
    ensures GridTotal(f, h, n + 1) == GridTotal(f, h, n) + ColumnTotal(f, n, h)
    decreases h
  {
    if h > 0 {
      GridTotalAddColumn(f, h - 1, n);
    }
  }

  lemma {:induction false} ColumnIsRow(f: (int, int) -> int, t: (int, int) -> int, c: int, n: int)
    requires forall i, j :: t(i, j) == f(j, i)
    ensures ColumnTotal(t, c, n) == RowTotal(f, c, n)
    decreases n
  {
    if n > 0 {
      ColumnIsRow(f, t, c, n - 1);
    }
  }

  lemma {:induction false} NoColumns(f: (int, int) -> int, h: int)
    ensures GridTotal(f, h, 0) == 0
    decreases h
  {
    if h > 0 {
      NoColumns(f, h - 1);
    }
  }

  /** Summing the transposed field over the transposed rectangle gives the same total. */
  lemma {:induction false} GridTotalTranspose(f: (int, int) -> int, t: (int, int) -> int, h: nat, w: nat)
    requires forall i, j :: t(i, j) == f(j, i)
    ensures GridTotal(f, h, w) == GridTotal(t, w, h)
    decreases h
  {
    if h == 0 {
      NoColumns(t, w);
    } else {
      GridTotalTranspose(f, t, h - 1, w);
      GridTotalAddColumn(t, w, h - 1);
      ColumnIsRow(f, t, h - 1, w);
    }
  }
}
