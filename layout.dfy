/** Layout of the drawing: key columns along x, encoded letters along y. */
module Layout {

  const MarginX: int := 40
  const ColGap: int := 40
  const GuideTopY: int := 100
  const RowGap: int := 24

  /** A point of the drawing, in exact arithmetic. */
  datatype Point = Point(x: real, y: real)

  function Abs(r: real): real { if r < 0.0 then -r else r }

  /** colX: the x coordinate of key column `idx`; the column index can be read back from it. */
  function ColX(idx: int): (x: real)
    ensures (x - MarginX as real) / ColGap as real == idx as real
  {
    (MarginX + idx * ColGap) as real
  }

  /** rowY: the y coordinate of the `row`-th plotted letter; the row can be read back from it. */
  function RowY(row: int): (y: real)
    ensures (y - GuideTopY as real) / RowGap as real == row as real
  {
    (GuideTopY + row * RowGap) as real
  }

  /** Two different columns are at least one column gap apart. */
  lemma ColumnsApart(i: int, j: int)
    requires i != j
    ensures Abs(ColX(i) - ColX(j)) >= ColGap as real
  {
  }

  /** Rows go strictly downwards. */
  lemma RowsIncrease(i: int, j: int)
    requires i < j
    ensures RowY(i) < RowY(j)
  {
  }
}
