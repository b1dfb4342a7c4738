/**
  Row-major sums over a rectangle of cells.

  Both scoring loops of the game walk every cell of the grid once and add a
  per-cell contribution to a running total; `GridSum` is that walk, written
  as a fold over a cell function `f(row, col)`. The lemmas here are the
  generic facts the scoring proofs are assembled from.
 */
module Sums {

  /** f(r, 0) + f(r, 1) + ... + f(r, n - 1) */
  function RowSum(f: (int, int) -> int, r: int, n: nat): int
  {
    if n == 0 then 0 else RowSum(f, r, n - 1) + f(r, n - 1)
  }

  /** The sum of f over the cells [0, m) x [0, n), row by row. */
  function GridSum(f: (int, int) -> int, m: nat, n: nat): int
  {
    if m == 0 then 0 else GridSum(f, m - 1, n) + RowSum(f, m - 1, n)
  }

  lemma {:induction false} RowSumMono(f: (int, int) -> int, h: (int, int) -> int, r: int, n: nat)
    requires forall c :: 0 <= c < n ==> f(r, c) <= h(r, c)
    ensures RowSum(f, r, n) <= RowSum(h, r, n)
  {
    if n > 0 {
      RowSumMono(f, h, r, n - 1);
    }
  }

  /** A pointwise smaller cell function has a smaller sum. */
  lemma {:induction false} GridSumMono(f: (int, int) -> int, h: (int, int) -> int, m: nat, n: nat)
    requires forall r, c :: 0 <= r < m && 0 <= c < n ==> f(r, c) <= h(r, c)
    ensures GridSum(f, m, n) <= GridSum(h, m, n)
  {
    if m > 0 {
      GridSumMono(f, h, m - 1, n);
      RowSumMono(f, h, m - 1, n);
    }
  }

  lemma {:induction false} RowSumAdd(f: (int, int) -> int, h: (int, int) -> int, k: (int, int) -> int, r: int, n: nat)
    requires forall c :: 0 <= c < n ==> f(r, c) == h(r, c) + k(r, c)
    ensures RowSum(f, r, n) == RowSum(h, r, n) + RowSum(k, r, n)
  {
    if n > 0 {
      RowSumAdd(f, h, k, r, n - 1);
    }
  }

  /** Sums are additive: splitting each cell's contribution in two splits the total. */
  lemma {:induction false} GridSumAdd(f: (int, int) -> int, h: (int, int) -> int, k: (int, int) -> int, m: nat, n: nat)
    requires forall r, c :: 0 <= r < m && 0 <= c < n ==> f(r, c) == h(r, c) + k(r, c)
    ensures GridSum(f, m, n) == GridSum(h, m, n) + GridSum(k, m, n)
  {
    if m > 0 {
      GridSumAdd(f, h, k, m - 1, n);
      RowSumAdd(f, h, k, m - 1, n);
    }
  }

  /** The cell function adding f and h cell by cell. */
  function Plus(f: (int, int) -> int, h: (int, int) -> int): (int, int) -> int
  {
    (r, c) => f(r, c) + h(r, c)
  }

  /** The sum of Plus(f, h) is the sum of f plus the sum of h. */
  lemma GridSumPlus(f: (int, int) -> int, h: (int, int) -> int, m: nat, n: nat)
    ensures GridSum(Plus(f, h), m, n) == GridSum(f, m, n) + GridSum(h, m, n)
  {
    GridSumAdd(Plus(f, h), f, h, m, n);
  }

  /** The sum of five cell functions added cell by cell is the sum of their sums. */
  lemma GridSumPlus5(a: (int, int) -> int, b: (int, int) -> int, c: (int, int) -> int, d: (int, int) -> int, e: (int, int) -> int, m: nat, n: nat)
    ensures GridSum(Plus(Plus(Plus(Plus(a, b), c), d), e), m, n)
              == GridSum(a, m, n) + GridSum(b, m, n) + GridSum(c, m, n) + GridSum(d, m, n) + GridSum(e, m, n)
  {
    GridSumPlus(Plus(Plus(Plus(a, b), c), d), e, m, n);
    GridSumPlus(Plus(Plus(a, b), c), d, m, n);
    GridSumPlus(Plus(a, b), c, m, n);
    GridSumPlus(a, b, m, n);
  }

  /** Cell functions that agree on the rectangle have the same sum. */
  lemma GridSumSame(f: (int, int) -> int, h: (int, int) -> int, m: nat, n: nat)
    requires forall r, c :: 0 <= r < m && 0 <= c < n ==> f(r, c) == h(r, c)
    ensures GridSum(f, m, n) == GridSum(h, m, n)
  {
    GridSumMono(f, h, m, n);
    GridSumMono(h, f, m, n);
  }

  lemma {:induction false} RowSumZero(f: (int, int) -> int, r: int, n: nat)
    requires forall c :: 0 <= c < n ==> f(r, c) == 0
    ensures RowSum(f, r, n) == 0
  {
    if n > 0 {
      RowSumZero(f, r, n - 1);
    }
  }

  /** A cell function that is zero on the whole rectangle sums to zero. */
  lemma {:induction false} GridSumZero(f: (int, int) -> int, m: nat, n: nat)
    requires forall r, c :: 0 <= r < m && 0 <= c < n ==> f(r, c) == 0
    ensures GridSum(f, m, n) == 0
  {
    if m > 0 {
      GridSumZero(f, m - 1, n);
      RowSumZero(f, m - 1, n);
    }
  }

  lemma {:induction false} RowSumNonneg(f: (int, int) -> int, r: int, n: nat)
    requires forall c :: 0 <= c < n ==> f(r, c) >= 0
    ensures RowSum(f, r, n) >= 0
  {
    if n > 0 {
      RowSumNonneg(f, r, n - 1);
    }
  }

  /** A cell function that is never negative has a non-negative sum. */
  lemma {:induction false} GridSumNonneg(f: (int, int) -> int, m: nat, n: nat)
    requires forall r, c :: 0 <= r < m && 0 <= c < n ==> f(r, c) >= 0
    ensures GridSum(f, m, n) >= 0
  {
    if m > 0 {
      GridSumNonneg(f, m - 1, n);
      RowSumNonneg(f, m - 1, n);
    }
  }

  /**
    A row of F that is zero outside columns [b, b + n) and reads h, shifted
    by b, inside them sums to the same as h over its n columns.
   */
  lemma {:induction false} RowSumWindow(f: (int, int) -> int, h: (int, int) -> int, R: int, r: int, N: nat, b: nat, n: nat)
    requires b + n <= N
    requires forall c :: 0 <= c < N && !(b <= c < b + n) ==> f(R, c) == 0
    requires forall c :: 0 <= c < n ==> f(R, c + b) == h(r, c)
    ensures RowSum(f, R, N) == RowSum(h, r, n)
    decreases N
  {
    if N > b + n {
      RowSumWindow(f, h, R, r, N - 1, b, n);
    } else if n > 0 {
      assert f(R, (n - 1) + b) == h(r, n - 1);
      RowSumWindow(f, h, R, r, N - 1, b, n - 1);
    } else {
      RowSumZero(f, R, N);
    }
  }

  /**
    A cell function that is zero outside the window [a, a + m) x [b, b + n)
    and reads h, shifted by (a, b), inside it sums to the same as h over
    [0, m) x [0, n).
   */
  lemma {:induction false} GridSumWindow(f: (int, int) -> int, h: (int, int) -> int, M: nat, N: nat, a: nat, b: nat, m: nat, n: nat)
    requires a + m <= M && b + n <= N
    requires forall r, c :: 0 <= r < M && 0 <= c < N && !(a <= r < a + m && b <= c < b + n) ==> f(r, c) == 0
    requires forall r, c :: 0 <= r < m && 0 <= c < n ==> f(r + a, c + b) == h(r, c)
    ensures GridSum(f, M, N) == GridSum(h, m, n)
    decreases M
  {
    if M > a + m {
      RowSumZero(f, M - 1, N);
      GridSumWindow(f, h, M - 1, N, a, b, m, n);
    } else if m > 0 {
      var top, last := M - 1, m - 1;
      forall c | 0 <= c < N && !(b <= c < b + n) ensures f(top, c) == 0 {
      }
      forall c | 0 <= c < n ensures f(top, c + b) == h(last, c) {
        assert f(last + a, c + b) == h(last, c);
      }
      RowSumWindow(f, h, top, last, N, b, n);
      forall r, c | 0 <= r < top && 0 <= c < N && !(a <= r < a + last && b <= c < b + n) ensures f(r, c) == 0 {
      }
      GridSumWindow(f, h, top, N, a, b, last, n);
    } else {
      GridSumZero(f, M, N);
    }
  }
}
