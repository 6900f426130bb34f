/** Row-major addressing of an n x n matrix kept in a flat buffer.
    Both benchmarks address their buffers this way: the BFS adjacency
    matrix at `from * n + to`, the Mandelbrot image at `i * size + j`. */
module Grid {

  lemma MulMonotone(a: int, b: int, n: int)
    requires 0 <= a <= b && 0 <= n
    ensures 0 <= a * n <= b * n
  {
    assert b * n == a * n + (b - a) * n;
  }

  /** A cell of an n x n matrix lies inside the flat buffer of n * n entries. */
  lemma CellInRange(n: int, row: int, col: int)
    requires 0 <= row < n && 0 <= col < n
    ensures 0 <= row * n + col < n * n
  {
    MulMonotone(row, n - 1, n);
    assert (n - 1) * n + n == n * n;
  }

  /** The flat index of a cell gives back its row and its column. */
  lemma CellSplit(n: int, row: int, col: int)
    requires 0 <= row < n && 0 <= col < n
    ensures (row * n + col) / n == row && (row * n + col) % n == col
  {
    var c := row * n + col;
    var q, r := c / n, c % n;
    assert c == q * n + r && 0 <= r < n;
    assert (row - q) * n == r - col;
    if q < row {
      MulMonotone(1, row - q, n);
      assert false;
    } else if row < q {
      MulMonotone(1, q - row, n);
      assert false;
    }
  }

  /** Every entry of the flat buffer is the cell of exactly one (row, column) pair. */
  lemma IndexSplit(n: int, c: int)
    requires 0 < n && 0 <= c < n * n
    ensures 0 <= c / n < n && 0 <= c % n < n
    ensures c == (c / n) * n + c % n
  {
    if c / n >= n {
      MulMonotone(n, c / n, n);
      assert false;
    }
  }
}
