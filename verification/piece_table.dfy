/** The playfield grid of the game: a flat table of W*H colour indices.
    Colour 0 means an empty cell, 1..6 a cell painted by one of the six
    tetromino colours. Cell index k sits at row k / W (row 0 at the top) and
    column k % W. */
module PieceTable {

  /** Width and height of the playfield, in cells. */
  const W: int := 10
  const H: int := 20
  const Cells: int := W * H

  type Table = seq<nat>

  predicate Valid(t: Table) {
    |t| == Cells
  }

  function Row(k: int): int {
    k / W
  }

  function Col(k: int): int {
    k % W
  }

  /** The index of the cell at (row, col). */
  function Cell(row: int, col: int): int {
    row * W + col
  }

  lemma CellRowCol(row: int, col: int)
    requires 0 <= col < W
    ensures Row(Cell(row, col)) == row && Col(Cell(row, col)) == col
  {
  }

  /** The cell directly above (row, col). */
  lemma CellAbove(row: int, col: int)
    ensures Cell(row, col) - W == Cell(row - 1, col)
  {
  }

  lemma RowAbove(k: int)
    ensures Row(k - W) == Row(k) - 1 && Col(k - W) == Col(k)
  {
  }

  /** The table as the constructor leaves it: every cell empty. */
  function NewTable(): (t: Table)
    ensures Valid(t)
    ensures forall k :: 0 <= k < Cells ==> t[k] == 0
  {
    seq(Cells, _ => 0)
  }

  /** Writes one cell; the vertex upload that follows it is rendering and is
      not modelled. */
  function SetQuad(t: Table, index: int, color: nat): (r: Table)
    requires 0 <= index < |t|
    ensures |r| == |t|
    ensures r[index] == color
    ensures forall k :: 0 <= k < |t| && k != index ==> r[k] == t[k]
  {
    t[index := color]
  }

  function GetQuad(t: Table, index: int): nat
    requires 0 <= index < |t|
  {
    t[index]
  }

  /** Reading a cell after writing one: the written cell gives the new
      colour, every other cell what it held before. */
  lemma GetQuadAfterSetQuad(t: Table, index: int, j: int, color: nat)
    requires 0 <= index < |t| && 0 <= j < |t|
    ensures GetQuad(SetQuad(t, index, color), j) == (if j == index then color else GetQuad(t, j))
  {
  }

  /** The inner loop of Fall for destination row `dst`: columns j..W-1 of row
      dst receive the cell directly above them. */
  function CopyRowFrom(t: Table, dst: int, j: int): (r: Table)
    requires Valid(t) && 1 <= dst < H && 0 <= j <= W
    ensures Valid(r)
    ensures forall k {:trigger r[k]} :: 0 <= k < Cells ==>
      r[k] == (if Row(k) == dst && j <= Col(k) then t[k - W] else t[k])
    decreases W - j
  {
    if j == W then t
    else
      var t1 := SetQuad(t, Cell(dst, j), GetQuad(t, Cell(dst, j) - W));
      var r := CopyRowFrom(t1, dst, j + 1);
      CopyStep(t, t1, r, dst, j);
      r
  }

  /** One iteration of the inner loop of Fall, given what the rest of the
      loop does. */
  lemma CopyStep(t: Table, t1: Table, r: Table, dst: int, j: int)
    requires Valid(t) && Valid(r) && 1 <= dst < H && 0 <= j < W
    requires t1 == t[Cell(dst, j) := t[Cell(dst, j) - W]]
    requires forall k {:trigger r[k]} :: 0 <= k < Cells ==>
      r[k] == (if Row(k) == dst && j + 1 <= Col(k) then t1[k - W] else t1[k])
    ensures forall k {:trigger r[k]} :: 0 <= k < Cells ==>
      r[k] == (if Row(k) == dst && j <= Col(k) then t[k - W] else t[k])
  {
    var c := Cell(dst, j);
    CellRowCol(dst, j);
    forall k | 0 <= k < Cells
      ensures r[k] == (if Row(k) == dst && j <= Col(k) then t[k - W] else t[k])
    {
      RowAbove(k);
      if Row(k) == dst && j <= Col(k) {
        if Col(k) == j {
          assert k == c;
        } else {
          assert t1[k - W] == t[k - W];
        }
      }
    }
  }

  /** The outer loop of Fall from iteration i on: iteration i fills row
      `row - i` from the row above it, working upwards. */
  function FallFrom(t: Table, row: int, i: int): (r: Table)
    requires Valid(t) && 0 <= i <= row < H
    ensures Valid(r)
    ensures forall k {:trigger r[k]} :: 0 <= k < Cells ==>
      r[k] == (if 1 <= Row(k) <= row - i then t[k - W] else t[k])
    decreases row - i
  {
    if i == row then t
    else
      var t1 := CopyRowFrom(t, row - i, 0);
      var r := FallFrom(t1, row, i + 1);
      FallStep(t, t1, r, row, i);
      r
  }

  /** One iteration of the outer loop of Fall, given what the inner loop and
      the rest of the outer loop do. */
  lemma FallStep(t: Table, t1: Table, r: Table, row: int, i: int)
    requires Valid(t) && Valid(t1) && Valid(r) && 0 <= i < row < H
    requires forall k {:trigger t1[k]} :: 0 <= k < Cells ==>
      t1[k] == (if Row(k) == row - i && 0 <= Col(k) then t[k - W] else t[k])
    requires forall k {:trigger r[k]} :: 0 <= k < Cells ==>
      r[k] == (if 1 <= Row(k) <= row - (i + 1) then t1[k - W] else t1[k])
    ensures forall k {:trigger r[k]} :: 0 <= k < Cells ==>
      r[k] == (if 1 <= Row(k) <= row - i then t[k - W] else t[k])
  {
    forall k | 0 <= k < Cells
      ensures r[k] == (if 1 <= Row(k) <= row - i then t[k - W] else t[k])
    {
      RowAbove(k);
      if 1 <= Row(k) < row - i {
        assert r[k] == t1[k - W];
        assert t1[k - W] == t[k - W];
      } else {
        assert r[k] == t1[k];
      }
    }
  }

  /** Removes row `row` by moving every row above it one row down. Row 0 is
      copied into row 1 but is itself left as it was. */
  function Fall(t: Table, row: int): (r: Table)
    requires Valid(t) && 0 <= row < H
    ensures Valid(r)
    ensures forall k {:trigger r[k]} :: 0 <= k < Cells && 1 <= Row(k) <= row ==> r[k] == t[k - W]
    ensures forall k :: 0 <= k < Cells && Row(k) == 0 ==> r[k] == t[k]
    ensures forall k :: 0 <= k < Cells && row < Row(k) ==> r[k] == t[k]
  {
    FallFrom(t, row, 0)
  }

  /** Every cell of row `row` is occupied. */
  predicate RowFull(t: Table, row: int)
    requires Valid(t) && 0 <= row < H
  {
    forall j :: 0 <= j < W ==> t[Cell(row, j)] != 0
  }
}
