/** A table of rows and columns laid out in one line. */
module Cells {
  /** The cell of row p and column l. */
  function Cell(p: nat, l: nat, columns: nat): nat {
    p * columns + l
  }

  function CellCount(rows: nat, columns: nat): nat {
    rows * columns
  }

  lemma CellInRange(p: nat, l: nat, rows: nat, columns: nat)
    requires p < rows && l < columns
    ensures Cell(p, l, columns) < CellCount(rows, columns)
  {
    assert (p + 1) * columns <= rows * columns by { Scaled(p + 1, rows, columns); }
    assert (p + 1) * columns == p * columns + columns;
  }

  lemma Scaled(a: nat, b: nat, c: nat)
    requires a <= b
    ensures a * c <= b * c
  {
  }

  lemma OneMoreRow(p: nat, columns: nat)
    ensures (p + 1) * columns == p * columns + columns
  {
  }

  /** Different rows or columns have different cells. */
  lemma CellsDiffer(p: nat, l: nat, q: nat, m: nat, columns: nat)
    requires l < columns && m < columns && Cell(p, l, columns) == Cell(q, m, columns)
    ensures p == q && l == m
  {
    OneMoreRow(p, columns);
    OneMoreRow(q, columns);
    if p < q {
      Scaled(p + 1, q, columns);
    } else if q < p {
      Scaled(q + 1, p, columns);
    }
  }
}
