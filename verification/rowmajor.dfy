/** Row-major cell arithmetic shared by the vertex and face emitters.
    A grid `width` cells wide stores cell (col, row) at flat position
    `row * width + col`; these facts let the rest of the model move
    between a flat position and its (col, row) pair. */
module RowMajor {

  /** Multiplication by a natural number preserves `<=`. */
  lemma MulLeMono(a: nat, b: nat, c: nat)
    requires a <= b
    ensures a * c <= b * c
  {
    if a < b {
      MulLeMono(a, b - 1, c);
      assert b * c == (b - 1) * c + c;
    }
  }

  /** Euclidean division is unique: a quotient/remainder pair that
      rebuilds `a` with the remainder in range is `a / n` and `a % n`. */
  lemma DivModUnique(a: int, n: int, q: int, r: int)
    requires 0 < n && 0 <= r < n && a == q * n + r
    ensures a / n == q && a % n == r
  {
    var q0, r0 := a / n, a % n;
    assert a == q0 * n + r0;
    if q0 < q {
      assert (q - q0) * n == r0 - r;
      MulLeMono(1, q - q0, n);
    } else if q < q0 {
      assert (q0 - q) * n == r - r0;
      MulLeMono(1, q0 - q, n);
    }
  }

  /** Flat position of cell (col, row) in a `width` x `height` grid. It lies
      inside the grid, and dividing by the width gives the cell back. */
  function Flat(width: nat, height: nat, col: nat, row: nat): (k: nat)
    requires col < width && row < height
    ensures k < width * height
    ensures k / width == row && k % width == col
  {
    MulLeMono(row + 1, height, width);
    DivModUnique(row * width + col, width, row, col);
    row * width + col
  }

  /** Every flat position inside the grid is the position of exactly the
      cell (k % width, k / width). */
  lemma Unflat(width: nat, height: nat, k: nat)
    requires k < width * height
    ensures 0 < width && k % width < width && k / width < height
    ensures Flat(width, height, k % width, k / width) == k
  {
    assert 0 < width;
    if height <= k / width {
      MulLeMono(height, k / width, width);
    }
  }

  /** Integer division by a positive number is monotone. */
  lemma DivMono(i: nat, j: nat, n: nat)
    requires 0 < n && i <= j
    ensures i / n <= j / n
  {
    if j / n < i / n {
      MulLeMono(j / n + 1, i / n, n);
    }
  }
}
