/** A falling piece and the moves that work on it: painting and clearing it
    on the table, the drop by one row and the shifts left and right.

    Mask slot i sits at mask row i / 3 and mask column i % 3; the centre slot
    4 lies on the anchor `pos`, so slot i covers table cell
    pos + W * (i / 3 - 1) + (i % 3 - 1). */
module Pieces {
  import opened PieceTable

  datatype Piece = Piece(mask: seq<bool>, color: nat, pos: int, landed: bool)

  /** A piece together with the table it is painted on. */
  datatype Board = Board(piece: Piece, table: Table)

  /** Where Respawn puts the anchor: row 1, column 5. */
  const SpawnAnchor: int := 15

  /** The table cell that mask slot i covers when the anchor is at pos. */
  function CellOf(pos: int, i: int): int {
    pos + W * (i / 3 - 1) + (i % 3 - 1)
  }

  /** Slot i, with the anchor at pos, lands on a real row and a real column
      of the table, rather than wrapping into a neighbouring row. */
  predicate SlotFits(pos: int, i: int) {
    && 0 <= Row(pos) + i / 3 - 1 < H
    && 0 <= Col(pos) + i % 3 - 1 < W
  }

  lemma SlotCell(pos: int, i: int)
    requires 0 <= i < 9 && SlotFits(pos, i)
    ensures 0 <= CellOf(pos, i) < Cells
    ensures Row(CellOf(pos, i)) == Row(pos) + i / 3 - 1
    ensures Col(CellOf(pos, i)) == Col(pos) + i % 3 - 1
  {
  }

  /** Every occupied slot covers a cell of the table. */
  predicate InBounds(pos: int, mask: seq<bool>)
    requires |mask| == 9
  {
    forall i :: 0 <= i < 9 && mask[i] ==> 0 <= CellOf(pos, i) < Cells
  }

  /** The invariant every live piece keeps: a nine-slot mask whose centre is
      occupied, the anchor on row 1 or below, and every occupied slot on a
      real cell of the table without wrapping across a column boundary. */
  predicate WellPlaced(p: Piece) {
    && |p.mask| == 9
    && p.mask[4]
    && W <= p.pos < Cells
    && forall i :: 0 <= i < 9 && p.mask[i] ==> SlotFits(p.pos, i)
  }

  lemma WellPlacedInBounds(p: Piece)
    requires WellPlaced(p)
    ensures InBounds(p.pos, p.mask)
  {
    forall i | 0 <= i < 9 && p.mask[i]
      ensures 0 <= CellOf(p.pos, i) < Cells
    {
      SlotCell(p.pos, i);
    }
  }

  /** Some slot j >= i of the mask, placed at pos, is occupied and covers k. */
  predicate CoversFrom(pos: int, mask: seq<bool>, i: int, k: int)
    requires |mask| == 9 && 0 <= i
  {
    exists j :: i <= j < 9 && mask[j] && CellOf(pos, j) == k
  }

  /** Table cell k belongs to the piece shape `mask` anchored at pos. */
  predicate Covers(pos: int, mask: seq<bool>, k: int)
    requires |mask| == 9
  {
    CoversFrom(pos, mask, 0, k)
  }

  /** The loop shared by Spawn and Clear, from slot i on: every occupied slot
      gets `color`, empty slots are skipped. */
  function PaintFrom(t: Table, pos: int, mask: seq<bool>, color: nat, i: int): (r: Table)
    requires Valid(t) && |mask| == 9 && 0 <= i <= 9 && InBounds(pos, mask)
    ensures Valid(r)
    ensures forall k {:trigger r[k]} :: 0 <= k < Cells ==>
      r[k] == (if CoversFrom(pos, mask, i, k) then color else t[k])
    decreases 9 - i
  {
    if i == 9 then t
    else if !mask[i] then PaintFrom(t, pos, mask, color, i + 1)
    else PaintFrom(SetQuad(t, CellOf(pos, i), color), pos, mask, color, i + 1)
  }

  /** Paints the piece's colour on exactly the cells it covers. */
  function Spawn(p: Piece, t: Table): (r: Table)
    requires Valid(t) && |p.mask| == 9 && InBounds(p.pos, p.mask)
    ensures Valid(r)
    ensures forall k {:trigger r[k]} :: 0 <= k < Cells ==>
      r[k] == (if Covers(p.pos, p.mask, k) then p.color else t[k])
  {
    PaintFrom(t, p.pos, p.mask, p.color, 0)
  }

  /** Empties exactly the cells the piece covers. */
  function Clear(p: Piece, t: Table): (r: Table)
    requires Valid(t) && |p.mask| == 9 && InBounds(p.pos, p.mask)
    ensures Valid(r)
    ensures forall k {:trigger r[k]} :: 0 <= k < Cells ==>
      r[k] == (if Covers(p.pos, p.mask, k) then 0 else t[k])
  {
    PaintFrom(t, p.pos, p.mask, 0, 0)
  }

  /** Every cell the piece covers shows its colour. */
  predicate Painted(p: Piece, t: Table)
    requires Valid(t) && |p.mask| == 9 && InBounds(p.pos, p.mask)
  {
    forall i :: 0 <= i < 9 && p.mask[i] ==> t[CellOf(p.pos, i)] == p.color
  }

  lemma SpawnPaints(p: Piece, t: Table)
    requires Valid(t) && |p.mask| == 9 && InBounds(p.pos, p.mask)
    ensures Painted(p, Spawn(p, t))
  {
    var r := Spawn(p, t);
    forall i | 0 <= i < 9 && p.mask[i]
      ensures r[CellOf(p.pos, i)] == p.color
    {
      assert Covers(p.pos, p.mask, CellOf(p.pos, i));
    }
  }

  /** Clearing a painted piece and painting it again at the same place gives
      back the table it started from. */
  lemma {:induction false} ClearThenSpawn(p: Piece, t: Table)
    requires Valid(t) && |p.mask| == 9 && InBounds(p.pos, p.mask)
    requires Painted(p, t)
    ensures Spawn(p, Clear(p, t)) == t
  {
    var r := Spawn(p, Clear(p, t));
    forall k | 0 <= k < Cells
      ensures r[k] == t[k]
    {
      if Covers(p.pos, p.mask, k) {
        var j :| 0 <= j < 9 && p.mask[j] && CellOf(p.pos, j) == k;
      }
    }
  }

  /** Puts a piece back at the top: anchor at row 1, column 5, not landed.
      Mask and colour are kept. */
  function Respawn(p: Piece): (r: Piece)
    ensures r.mask == p.mask && r.color == p.color
    ensures r.pos == SpawnAnchor && !r.landed
    ensures |p.mask| == 9 && p.mask[4] ==> WellPlaced(r)
  {
    p.(pos := SpawnAnchor, landed := false)
  }

  /** r is t with the cells of p emptied and then the cells of q painted:
      what Clear followed by Spawn of the moved piece leaves behind. */
  predicate Repainted(t: Table, p: Piece, q: Piece, r: Table)
    requires Valid(t) && |p.mask| == 9 && |q.mask| == 9
  {
    && Valid(r)
    && forall k {:trigger r[k]} :: 0 <= k < Cells ==>
         r[k] == (if Covers(q.pos, q.mask, k) then q.color
                  else if Covers(p.pos, p.mask, k) then 0
                  else t[k])
  }

  lemma RepaintIsClearThenSpawn(t: Table, p: Piece, q: Piece)
    requires Valid(t) && |p.mask| == 9 && |q.mask| == 9
    requires InBounds(p.pos, p.mask) && InBounds(q.pos, q.mask)
    ensures Repainted(t, p, q, Spawn(q, Clear(p, t)))
  {
  }

  /** Clears the piece where it stands and paints it again as q: the tail
      shared by Move, MoveLeft and MoveRight. */
  function Relocate(p: Piece, q: Piece, t: Table): (r: Board)
    requires WellPlaced(p) && WellPlaced(q) && Valid(t)
    ensures r.piece == q && Valid(r.table)
    ensures Repainted(t, p, q, r.table)
  {
    WellPlacedInBounds(p);
    WellPlacedInBounds(q);
    RepaintIsClearThenSpawn(t, p, q);
    Board(q, Spawn(q, Clear(p, t)))
  }

  // ---------------------------------------------------------------------
  // Edge slots. A slot is exposed on a side when no occupied slot of the
  // mask lies further in that direction in its mask column (below) or mask
  // row (left, right). Only exposed slots are tested when a piece moves.
  // ---------------------------------------------------------------------

  predicate ExposedBelow(mask: seq<bool>, i: int)
    requires |mask| == 9 && 0 <= i < 9
  {
    mask[i] && forall k :: 0 <= k < 9 && k % 3 == i % 3 && i / 3 < k / 3 ==> !mask[k]
  }

  predicate ExposedLeft(mask: seq<bool>, i: int)
    requires |mask| == 9 && 0 <= i < 9
  {
    mask[i] && forall k :: 0 <= k < 9 && k / 3 == i / 3 && k % 3 < i % 3 ==> !mask[k]
  }

  predicate ExposedRight(mask: seq<bool>, i: int)
    requires |mask| == 9 && 0 <= i < 9
  {
    mask[i] && forall k :: 0 <= k < 9 && k / 3 == i / 3 && i % 3 < k % 3 ==> !mask[k]
  }

  function Below(i: int, j: int): int {
    i + 3 * (j + 1)
  }

  /** The "covered" loop of Move: it looks at the (8 - i) / 3 slots under
      slot i, one mask row at a time. */
  predicate CoveredBelow(mask: seq<bool>, i: int)
    requires |mask| == 9 && 0 <= i < 9
  {
    exists j :: 0 <= j < (8 - i) / 3 && mask[Below(i, j)]
  }

  /** The "covered" loop of MoveLeft: the i % 3 slots to the left of slot i. */
  predicate CoveredLeft(mask: seq<bool>, i: int)
    requires |mask| == 9 && 0 <= i < 9
  {
    exists j :: 0 <= j < i % 3 && mask[LeftOf(i, j)]
  }

  function LeftOf(i: int, j: int): int {
    i - (j + 1)
  }

  /** The "covered" loop of MoveRight: the (8 - i) % 3 slots to its right. */
  predicate CoveredRight(mask: seq<bool>, i: int)
    requires |mask| == 9 && 0 <= i < 9
  {
    exists j :: 0 <= j < (8 - i) % 3 && mask[RightOf(i, j)]
  }

  function RightOf(i: int, j: int): int {
    i + j + 1
  }

  /** The loop bounds of the three "covered" loops reach exactly the slots
      further in the direction of the move. */
  lemma CoveredBelowMatchesEdge(mask: seq<bool>, i: int)
    requires |mask| == 9 && 0 <= i < 9
    ensures mask[i] && !CoveredBelow(mask, i) <==> ExposedBelow(mask, i)
  {
    if mask[i] && !ExposedBelow(mask, i) {
      var k :| 0 <= k < 9 && k % 3 == i % 3 && i / 3 < k / 3 && mask[k];
      assert Below(i, k / 3 - i / 3 - 1) == k;
    }
  }

  lemma CoveredLeftMatchesEdge(mask: seq<bool>, i: int)
    requires |mask| == 9 && 0 <= i < 9
    ensures mask[i] && !CoveredLeft(mask, i) <==> ExposedLeft(mask, i)
  {
    if mask[i] && !ExposedLeft(mask, i) {
      var k :| 0 <= k < 9 && k / 3 == i / 3 && k % 3 < i % 3 && mask[k];
      assert LeftOf(i, i - k - 1) == k;
    }
  }

  lemma CoveredRightMatchesEdge(mask: seq<bool>, i: int)
    requires |mask| == 9 && 0 <= i < 9
    ensures mask[i] && !CoveredRight(mask, i) <==> ExposedRight(mask, i)
  {
    if mask[i] && !ExposedRight(mask, i) {
      var k :| 0 <= k < 9 && k / 3 == i / 3 && i % 3 < k % 3 && mask[k];
      assert RightOf(i, k - i - 1) == k;
    }
  }

  // ---------------------------------------------------------------------
  // Move (one row down)
  // ---------------------------------------------------------------------

  /** An exposed-below slot j stops the drop: its cell is in the last row, or
      the cell under it is occupied. */
  predicate BlockedBelow(p: Piece, t: Table, j: int)
    requires WellPlaced(p) && Valid(t) && 0 <= j < 9 && p.mask[j]
  {
    SlotCell(p.pos, j);
    Row(CellOf(p.pos, j)) == H - 1 || t[CellOf(p.pos, j) + W] != 0
  }

  /** The piece cannot drop by one row. */
  predicate DropBlocked(p: Piece, t: Table)
    requires WellPlaced(p) && Valid(t)
  {
    exists j :: 0 <= j < 9 && ExposedBelow(p.mask, j) && BlockedBelow(p, t, j)
  }

  /** Move's floor test adds one row to the slot's row but leaves out the
      slot's column offset; for a slot that fits this is still exactly "the
      slot's cell is in the last row". */
  lemma FloorTestIgnoresColumn(pos: int, i: int)
    requires 0 <= i < 9 && SlotFits(pos, i)
    ensures pos + W * (i / 3 - 1) + W >= Cells <==> Row(CellOf(pos, i)) == H - 1
  {
    SlotCell(pos, i);
  }

  /** Move's tests for one slot, in `Piece::Move`'s order: an empty or covered
      slot is skipped, then the floor test, then the cell below. True when
      the slot stops the drop. */
  function DropSlotStops(p: Piece, t: Table, i: int): (stops: bool)
    requires WellPlaced(p) && Valid(t) && 0 <= i < 9
    ensures stops <==> ExposedBelow(p.mask, i) && BlockedBelow(p, t, i)
  {
    CoveredBelowMatchesEdge(p.mask, i);
    if !p.mask[i] || CoveredBelow(p.mask, i) then false
    else if p.pos + W * (i / 3 - 1) + W >= Cells then
      FloorTestIgnoresColumn(p.pos, i);
      true
    else
      FloorTestIgnoresColumn(p.pos, i);
      GetQuad(t, CellOf(p.pos, i) + W) != 0
  }

  /** The scan in Move from slot i on: true when it returns early. */
  function DropScan(p: Piece, t: Table, i: int): (landed: bool)
    requires WellPlaced(p) && Valid(t) && 0 <= i <= 9
    ensures landed <==> exists j :: i <= j < 9 && ExposedBelow(p.mask, j) && BlockedBelow(p, t, j)
    decreases 9 - i
  {
    if i == 9 then false
    else
      var rest := DropScan(p, t, i + 1);
      DropScanStep(p, t, i, rest);
      DropSlotStops(p, t, i) || rest
  }

  /** The existential of DropScan's contract, split at its first slot. */
  lemma DropScanStep(p: Piece, t: Table, i: int, rest: bool)
    requires WellPlaced(p) && Valid(t) && 0 <= i < 9
    requires rest <==> exists j :: i + 1 <= j < 9 && ExposedBelow(p.mask, j) && BlockedBelow(p, t, j)
    ensures (ExposedBelow(p.mask, i) && BlockedBelow(p, t, i)) || rest
      <==> exists j :: i <= j < 9 && ExposedBelow(p.mask, j) && BlockedBelow(p, t, j)
  {
    if exists j :: i <= j < 9 && ExposedBelow(p.mask, j) && BlockedBelow(p, t, j) {
      var j :| i <= j < 9 && ExposedBelow(p.mask, j) && BlockedBelow(p, t, j);
      if j != i {
        assert i + 1 <= j;
      }
    }
  }

  /** A piece that is free to drop stays well placed one row lower. */
  lemma DropKeepsPlaced(p: Piece, t: Table)
    requires WellPlaced(p) && Valid(t) && !DropBlocked(p, t)
    ensures WellPlaced(p.(pos := p.pos + W))
  {
    var q := p.(pos := p.pos + W);
    assert Row(q.pos) == Row(p.pos) + 1 && Col(q.pos) == Col(p.pos);
    forall i | 0 <= i < 9 && p.mask[i]
      ensures Row(p.pos) + i / 3 < H
    {
      SlotCell(p.pos, i);
      if ExposedBelow(p.mask, i) {
        assert !BlockedBelow(p, t, i);
      } else {
        var k :| 0 <= k < 9 && k % 3 == i % 3 && i / 3 < k / 3 && p.mask[k];
        assert SlotFits(p.pos, k);
      }
    }
    assert Row(p.pos) + 4 / 3 < H;
  }

  /** One tick of gravity. A landed piece is left alone; otherwise the piece
      either lands in place or moves down exactly one row and is repainted. */
  function Move(p: Piece, t: Table): (r: Board)
    requires WellPlaced(p) && Valid(t)
    ensures WellPlaced(r.piece) && Valid(r.table)
    ensures r.piece.mask == p.mask && r.piece.color == p.color
    ensures p.landed ==> r == Board(p, t)
    ensures !p.landed && DropBlocked(p, t) ==> r == Board(p.(landed := true), t)
    ensures !p.landed && !DropBlocked(p, t) ==>
      && r.piece == p.(pos := p.pos + W)
      && Repainted(t, p, r.piece, r.table)
  {
    if p.landed || DropScan(p, t, 0) then
      Board(p.(landed := true), t)
    else
      DropKeepsPlaced(p, t);
      Relocate(p, p.(pos := p.pos + W), t)
  }

  // ---------------------------------------------------------------------
  // MoveLeft and MoveRight
  // ---------------------------------------------------------------------

  /** An exposed-left slot j stops the shift: its cell is in column 0, or the
      cell to its left is occupied. */
  predicate BlockedLeft(p: Piece, t: Table, j: int)
    requires WellPlaced(p) && Valid(t) && 0 <= j < 9 && p.mask[j]
  {
    SlotCell(p.pos, j);
    Col(CellOf(p.pos, j)) == 0 || t[CellOf(p.pos, j) - 1] != 0
  }

  predicate BlockedRight(p: Piece, t: Table, j: int)
    requires WellPlaced(p) && Valid(t) && 0 <= j < 9 && p.mask[j]
  {
    SlotCell(p.pos, j);
    Col(CellOf(p.pos, j)) == W - 1 || t[CellOf(p.pos, j) + 1] != 0
  }

  predicate LeftBlocked(p: Piece, t: Table)
    requires WellPlaced(p) && Valid(t)
  {
    exists j :: 0 <= j < 9 && ExposedLeft(p.mask, j) && BlockedLeft(p, t, j)
  }

  predicate RightBlocked(p: Piece, t: Table)
    requires WellPlaced(p) && Valid(t)
  {
    exists j :: 0 <= j < 9 && ExposedRight(p.mask, j) && BlockedRight(p, t, j)
  }

  /** The wrap tests of MoveLeft and MoveRight look at the column of the
      target index; for a slot that fits they say "the slot is in the first
      (last) column". */
  lemma WrapTests(pos: int, i: int)
    requires 0 <= i < 9 && SlotFits(pos, i) && W <= pos
    ensures (pos + (i % 3 - 1) - 1) % W == W - 1 <==> Col(CellOf(pos, i)) == 0
    ensures (pos + (i % 3 - 1) + 1) % W == 0 <==> Col(CellOf(pos, i)) == W - 1
  {
    SlotCell(pos, i);
  }

  /** MoveLeft's tests for one slot, in `Piece::MoveLeft`'s order: an empty or
      covered slot is skipped, then the wrap test, then the cell to the
      left. True when the slot stops the shift. */
  function LeftSlotStops(p: Piece, t: Table, i: int): (stops: bool)
    requires WellPlaced(p) && Valid(t) && 0 <= i < 9
    ensures stops <==> ExposedLeft(p.mask, i) && BlockedLeft(p, t, i)
  {
    CoveredLeftMatchesEdge(p.mask, i);
    if !p.mask[i] || CoveredLeft(p.mask, i) then false
    else if (p.pos + (i % 3 - 1) - 1) % W == W - 1 then
      WrapTests(p.pos, i);
      true
    else
      WrapTests(p.pos, i);
      SlotCell(p.pos, i);
      GetQuad(t, CellOf(p.pos, i) - 1) != 0
  }

  /** The scan in MoveLeft from slot i on: true when it returns early. */
  function LeftScan(p: Piece, t: Table, i: int): (blocked: bool)
    requires WellPlaced(p) && Valid(t) && 0 <= i <= 9
    ensures blocked <==> exists j :: i <= j < 9 && ExposedLeft(p.mask, j) && BlockedLeft(p, t, j)
    decreases 9 - i
  {
    if i == 9 then false
    else
      var rest := LeftScan(p, t, i + 1);
      LeftScanStep(p, t, i, rest);
      LeftSlotStops(p, t, i) || rest
  }

  lemma LeftScanStep(p: Piece, t: Table, i: int, rest: bool)
    requires WellPlaced(p) && Valid(t) && 0 <= i < 9
    requires rest <==> exists j :: i + 1 <= j < 9 && ExposedLeft(p.mask, j) && BlockedLeft(p, t, j)
    ensures (ExposedLeft(p.mask, i) && BlockedLeft(p, t, i)) || rest
      <==> exists j :: i <= j < 9 && ExposedLeft(p.mask, j) && BlockedLeft(p, t, j)
  {
    if exists j :: i <= j < 9 && ExposedLeft(p.mask, j) && BlockedLeft(p, t, j) {
      var j :| i <= j < 9 && ExposedLeft(p.mask, j) && BlockedLeft(p, t, j);
      if j != i {
        assert i + 1 <= j;
      }
    }
  }

  /** MoveRight's tests for one slot: as in MoveLeft, towards the right. */
  function RightSlotStops(p: Piece, t: Table, i: int): (stops: bool)
    requires WellPlaced(p) && Valid(t) && 0 <= i < 9
    ensures stops <==> ExposedRight(p.mask, i) && BlockedRight(p, t, i)
  {
    CoveredRightMatchesEdge(p.mask, i);
    if !p.mask[i] || CoveredRight(p.mask, i) then false
    else if (p.pos + (i % 3 - 1) + 1) % W == 0 then
      WrapTests(p.pos, i);
      true
    else
      WrapTests(p.pos, i);
      SlotCell(p.pos, i);
      GetQuad(t, CellOf(p.pos, i) + 1) != 0
  }

  /** The scan in MoveRight from slot i on: true when it returns early. */
  function RightScan(p: Piece, t: Table, i: int): (blocked: bool)
    requires WellPlaced(p) && Valid(t) && 0 <= i <= 9
    ensures blocked <==> exists j :: i <= j < 9 && ExposedRight(p.mask, j) && BlockedRight(p, t, j)
    decreases 9 - i
  {
    if i == 9 then false
    else
      var rest := RightScan(p, t, i + 1);
      RightScanStep(p, t, i, rest);
      RightSlotStops(p, t, i) || rest
  }

  lemma RightScanStep(p: Piece, t: Table, i: int, rest: bool)
    requires WellPlaced(p) && Valid(t) && 0 <= i < 9
    requires rest <==> exists j :: i + 1 <= j < 9 && ExposedRight(p.mask, j) && BlockedRight(p, t, j)
    ensures (ExposedRight(p.mask, i) && BlockedRight(p, t, i)) || rest
      <==> exists j :: i <= j < 9 && ExposedRight(p.mask, j) && BlockedRight(p, t, j)
  {
    if exists j :: i <= j < 9 && ExposedRight(p.mask, j) && BlockedRight(p, t, j) {
      var j :| i <= j < 9 && ExposedRight(p.mask, j) && BlockedRight(p, t, j);
      if j != i {
        assert i + 1 <= j;
      }
    }
  }

  /** Every occupied slot has an exposed-left slot at or to the left of it in
      its mask row. */
  lemma LeftmostInRow(mask: seq<bool>, i: int) returns (k: int)
    requires |mask| == 9 && 0 <= i < 9 && mask[i]
    ensures 0 <= k < 9 && k / 3 == i / 3 && k % 3 <= i % 3 && ExposedLeft(mask, k)
  {
    var b := i / 3 * 3;
    if mask[b] {
      k := b;
    } else if mask[b + 1] {
      k := b + 1;
    } else {
      k := b + 2;
    }
  }

  lemma RightmostInRow(mask: seq<bool>, i: int) returns (k: int)
    requires |mask| == 9 && 0 <= i < 9 && mask[i]
    ensures 0 <= k < 9 && k / 3 == i / 3 && i % 3 <= k % 3 && ExposedRight(mask, k)
  {
    var b := i / 3 * 3;
    if mask[b + 2] {
      k := b + 2;
    } else if mask[b + 1] {
      k := b + 1;
    } else {
      k := b;
    }
  }

  lemma LeftKeepsPlaced(p: Piece, t: Table)
    requires WellPlaced(p) && Valid(t) && !LeftBlocked(p, t)
    ensures WellPlaced(p.(pos := p.pos - 1))
  {
    forall i | 0 <= i < 9 && p.mask[i]
      ensures 1 <= Col(p.pos) + i % 3 - 1
    {
      var k := LeftmostInRow(p.mask, i);
      SlotCell(p.pos, k);
      assert !BlockedLeft(p, t, k);
    }
    assert 1 <= Col(p.pos) + 4 % 3 - 1;
    assert Row(p.pos - 1) == Row(p.pos) && Col(p.pos - 1) == Col(p.pos) - 1;
  }

  lemma RightKeepsPlaced(p: Piece, t: Table)
    requires WellPlaced(p) && Valid(t) && !RightBlocked(p, t)
    ensures WellPlaced(p.(pos := p.pos + 1))
  {
    forall i | 0 <= i < 9 && p.mask[i]
      ensures Col(p.pos) + i % 3 - 1 < W - 1
    {
      var k := RightmostInRow(p.mask, i);
      SlotCell(p.pos, k);
      assert !BlockedRight(p, t, k);
    }
    assert Col(p.pos) + 4 % 3 - 1 < W - 1;
    assert Row(p.pos + 1) == Row(p.pos) && Col(p.pos + 1) == Col(p.pos) + 1;
  }

  /** Shift one column left: either nothing changes, or the anchor moves by
      exactly -1 and the same mask is repainted there. */
  function MoveLeft(p: Piece, t: Table): (r: Board)
    requires WellPlaced(p) && Valid(t)
    ensures WellPlaced(r.piece) && Valid(r.table)
    ensures LeftBlocked(p, t) ==> r == Board(p, t)
    ensures !LeftBlocked(p, t) ==>
      && r.piece == p.(pos := p.pos - 1)
      && Repainted(t, p, r.piece, r.table)
  {
    if LeftScan(p, t, 0) then Board(p, t)
    else
      LeftKeepsPlaced(p, t);
      Relocate(p, p.(pos := p.pos - 1), t)
  }

  /** Shift one column right: either nothing changes, or the anchor moves by
      exactly +1 and the same mask is repainted there. */
  function MoveRight(p: Piece, t: Table): (r: Board)
    requires WellPlaced(p) && Valid(t)
    ensures WellPlaced(r.piece) && Valid(r.table)
    ensures RightBlocked(p, t) ==> r == Board(p, t)
    ensures !RightBlocked(p, t) ==>
      && r.piece == p.(pos := p.pos + 1)
      && Repainted(t, p, r.piece, r.table)
  {
    if RightScan(p, t, 0) then Board(p, t)
    else
      RightKeepsPlaced(p, t);
      Relocate(p, p.(pos := p.pos + 1), t)
  }
}
