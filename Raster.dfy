/** Row-major addressing of a rows x cols image: the cell (i, j) is element i * cols + j of the
    buffer, so raster order (row by row, left to right) is the order of the flat index. */
module Raster {

  lemma MulStep(a: nat, b: nat, c: nat)
    requires a < b
    ensures a * c + c <= b * c
  {
    var d := b - a - 1;
    assert b * c == a * c + c + d * c;
  }

  lemma MulMono(a: nat, b: nat, c: nat)
    requires a <= b
    ensures a * c <= b * c
  {
    var d := b - a;
    assert b * c == a * c + d * c;
  }

  /** The end of row i - 1 is the start of row i. */
  lemma RowEnd(i: nat, cols: nat)
    requires i > 0
    ensures (i - 1) * cols + cols == i * cols
  {
  }

  /** Every cell of the image has an index inside the buffer, and its whole row does too. */
  lemma CellInBounds(i: nat, j: nat, rows: nat, cols: nat)
    requires i < rows && j < cols
    ensures 0 <= i * cols && i * cols + j < rows * cols
    ensures i * cols + cols <= rows * cols
  {
    MulStep(i, rows, cols);
  }

  /** A cell of an earlier row comes before every cell of a later row. */
  lemma CellBefore(r: nat, q: nat, i: nat, j: nat, cols: nat)
    requires q < cols && r < i
    ensures r * cols + q < i * cols + j
  {
    MulStep(r, i, cols);
  }

  /** The flat index determines the cell. */
  lemma DivModOfCell(i: nat, j: nat, cols: nat)
    requires j < cols
    ensures (i * cols + j) / cols == i && (i * cols + j) % cols == j
  {
    var k := i * cols + j;
    var q, r := k / cols, k % cols;
    assert k == q * cols + r;
    if q > i {
      MulStep(i, q, cols);
    } else if q < i {
      MulStep(q, i, cols);
    }
  }

  /** Every index of the buffer names a cell of the image. */
  lemma CellOfIndex(k: nat, rows: nat, cols: nat)
    requires k < rows * cols
    ensures cols > 0 && 0 <= k / cols < rows && 0 <= k % cols < cols
    ensures k == (k / cols) * cols + k % cols
  {
    var q := k / cols;
    assert k == q * cols + k % cols;
    if q >= rows {
      MulMono(rows, q, cols);
    }
  }
}
