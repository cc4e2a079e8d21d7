/** Row-major indexing of a flat buffer. */
module FlatIndex {

  function Cell(width: nat, i: nat, j: nat): nat {
    i * width + j
  }

  lemma CellBound(width: nat, rows: nat, i: nat, j: nat)
    requires i < rows && j < width
    ensures Cell(width, i, j) < rows * width
    ensures Cell(width, i, 0) + width <= rows * width
  {
    var n := rows - i - 1;
    assert rows * width == Cell(width, i, 0) + width + n * width;
  }

  lemma RowGap(width: nat, i: nat, k: nat)
    requires i < k
    ensures Cell(width, i, 0) + width <= Cell(width, k, 0)
  {
    var n := k - i - 1;
    assert Cell(width, k, 0) == Cell(width, i, 0) + width + n * width;
  }

  lemma CellUnique(width: nat, i: nat, j: nat, k: nat, l: nat)
    requires j < width && l < width && Cell(width, i, j) == Cell(width, k, l)
    ensures i == k && j == l
  {
    if i < k {
      RowGap(width, i, k);
    } else if k < i {
      RowGap(width, k, i);
    }
  }
}
