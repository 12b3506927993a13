/**
 * Small facts about row-major indices (`i * width + j`) and about concatenation that the solver
 * does not find alone.
 */
module Arith {

  /** Concatenation is associative. */
  lemma AppendAssociative<T>(a: seq<T>, b: seq<T>, c: seq<T>)
    ensures (a + b) + c == a + (b + c)
  {
  }

  /** A non-zero multiple of a positive `w` is at least `w` away from zero. */
  lemma MulSign(w: int, d: int)
    requires w > 0
    ensures d >= 1 ==> w * d >= w
    ensures d <= -1 ==> w * d <= -w
  {
  }

  /** Adding the divisor once raises the quotient by one and keeps the remainder. */
  lemma DivModStep(x: nat, w: nat)
    requires w > 0
    ensures (x + w) / w == x / w + 1 && (x + w) % w == x % w
  {
    var q, r := x / w, x % w;
    assert x == w * q + r;
    var y := x + w;
    var q', r' := y / w, y % w;
    assert y == w * q' + r';
    MulSign(w, q + 1 - q');
    assert w * (q + 1 - q') == r' - r;
  }

  /** `i * w + j` with `j < w` decomposes back into `i` and `j`. */
  lemma RowMajorDivMod(i: nat, j: nat, w: nat)
    requires j < w
    ensures (i * w + j) / w == i && (i * w + j) % w == j
    decreases i
  {
    if i > 0 {
      RowMajorDivMod(i - 1, j, w);
      assert i * w + j == ((i - 1) * w + j) + w;
      DivModStep((i - 1) * w + j, w);
    }
  }

  /** Distinct cells of a grid of width `w` have distinct row-major indices. */
  lemma RowMajorInjective(i: nat, j: nat, i': nat, j': nat, w: nat)
    requires j < w && j' < w
    requires i * w + j == i' * w + j'
    ensures i == i' && j == j'
  {
    RowMajorDivMod(i, j, w);
    RowMajorDivMod(i', j', w);
  }

  /** A cell of a `rows x w` grid has a row-major index below `rows * w`. */
  lemma RowMajorBound(i: nat, j: nat, rows: nat, w: nat)
    requires i < rows && j < w
    ensures i * w + j < rows * w
  {
    assert i + 1 <= rows;
    assert (i + 1) * w <= rows * w;
  }

  /** Every index below `rows * w` is the row-major index of a cell. */
  lemma RowMajorCell(k: nat, rows: nat, w: nat)
    requires k < rows * w
    ensures w > 0 && k / w < rows && k % w < w && (k / w) * w + k % w == k
  {
    assert k == w * (k / w) + k % w;
  }

  /** Sample coordinate `i * bs + d` of block `i` stays inside a dimension that `bs` divides. */
  lemma BlockCoordInRange(i: nat, d: nat, bs: nat, n: nat)
    requires 0 < bs && d < bs && n % bs == 0 && i < n / bs
    ensures i * bs + d < n
  {
    assert n == bs * (n / bs) + n % bs;
    assert i + 1 <= n / bs;
    assert (i + 1) * bs <= (n / bs) * bs;
  }

  /** A cell of a `rows x w` grid, or the position just past a row, is at most `rows * w`. */
  lemma RowMajorBoundLe(i: nat, j: nat, rows: nat, w: nat)
    requires i < rows && j <= w
    ensures i * w + j <= rows * w
  {
    assert i + 1 <= rows;
    assert (i + 1) * w <= rows * w;
  }

  /** A later row starts no earlier than the end of an earlier one. */
  lemma LaterRow(i: nat, i': nat, j': nat, w: nat)
    requires i < i'
    ensures i' * w + j' >= (i + 1) * w
  {
    assert i' * w == (i + 1) * w + (i' - i - 1) * w;
  }
}
