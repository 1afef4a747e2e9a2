/** Rotate: a quarter turn of the 3x3 mask about its centre slot, accepted
    only when the whole 3x3 box around the anchor is free and inside the
    table. A rejected rotation repaints the piece unchanged. */
module Rotation {
  import opened PieceTable
  import opened Pieces

  datatype Option<T> = None | Some(value: T)

  function Abs(x: int): int {
    if x < 0 then -x else x
  }

  /** Where a quarter turn sends mask slot i: the slot at (row r, column c)
      goes to (row 2 - c, column r). */
  function Turned(i: int): int {
    (2 - i % 3) * 3 + i / 3
  }

  /** The slot a quarter turn brings to slot k: the inverse of Turned. */
  function Source(k: int): int {
    (k % 3) * 3 + 2 - k / 3
  }

  lemma DivMod3(a: int, b: int)
    requires 0 <= b < 3
    ensures (3 * a + b) / 3 == a && (3 * a + b) % 3 == b
  {
  }

  lemma TurnedSourceInverse(i: int)
    requires 0 <= i < 9
    ensures 0 <= Turned(i) < 9 && 0 <= Source(i) < 9
    ensures Source(Turned(i)) == i && Turned(Source(i)) == i
  {
    var r, c := i / 3, i % 3;
    assert i == 3 * r + c;
    DivMod3(2 - c, r);
    assert Turned(i) == 3 * (2 - c) + r;
    DivMod3(c, 2 - r);
    assert Source(i) == 3 * c + (2 - r);
  }

  lemma TurnedValues()
    ensures Turned(0) == 6 && Turned(1) == 3 && Turned(2) == 0
    ensures Turned(3) == 7 && Turned(4) == 4 && Turned(5) == 1
    ensures Turned(6) == 8 && Turned(7) == 5 && Turned(8) == 2
  {
  }

  /** The mask after one accepted rotation. */
  function RotateMask(m: seq<bool>): (r: seq<bool>)
    requires |m| == 9
    ensures |r| == 9
    ensures forall i :: 0 <= i < 9 ==> r[Turned(i)] == m[i]
  {
    TurnedValues();
    [m[2], m[5], m[8], m[1], m[4], m[7], m[0], m[3], m[6]]
  }

  /** The centre slot does not move. */
  lemma RotateKeepsCentre(m: seq<bool>)
    requires |m| == 9
    ensures RotateMask(m)[4] == m[4]
  {
    assert Turned(4) == 4;
  }

  function Swap<T>(s: seq<T>, i: int, j: int): (r: seq<T>)
    requires 0 <= i < |s| && 0 <= j < |s|
    ensures |r| == |s|
  {
    s[i := s[j]][j := s[i]]
  }

  lemma SwapKeepsSlots<T>(s: seq<T>, i: int, j: int)
    requires 0 <= i < |s| && 0 <= j < |s|
    ensures multiset(Swap(s, i, j)) == multiset(s)
  {
  }

  /** A quarter turn is two four-cycles of slots, (0 6 8 2) on the corners
      and (1 3 7 5) on the edges, each a chain of three swaps. */
  lemma QuarterTurnBySwaps<T>(m: seq<T>)
    requires |m| == 9
    ensures [m[2], m[5], m[8], m[1], m[4], m[7], m[0], m[3], m[6]] ==
      Swap(Swap(Swap(Swap(Swap(Swap(m, 2, 8), 8, 6), 6, 0), 1, 5), 5, 7), 7, 3)
  {
    var c := Swap(Swap(Swap(m, 2, 8), 8, 6), 6, 0);
    assert c[0] == m[2] && c[2] == m[8] && c[6] == m[0] && c[8] == m[6];
    var f := Swap(Swap(Swap(c, 1, 5), 5, 7), 7, 3);
    assert f[1] == m[5] && f[3] == m[1] && f[5] == m[7] && f[7] == m[3];
    assert f[0] == m[2] && f[2] == m[8] && f[6] == m[0] && f[8] == m[6] && f[4] == m[4];
  }

  /** A rotation moves slots around but keeps every one of them: the mask
      holds the same number of occupied (and empty) slots. */
  lemma RotateIsPermutation(m: seq<bool>)
    requires |m| == 9
    ensures multiset(RotateMask(m)) == multiset(m)
    ensures multiset(RotateMask(m))[true] == multiset(m)[true]
  {
    QuarterTurnBySwaps(m);
    assert RotateMask(m) == [m[2], m[5], m[8], m[1], m[4], m[7], m[0], m[3], m[6]];
    var a := Swap(m, 2, 8);
    var b := Swap(a, 8, 6);
    var c := Swap(b, 6, 0);
    var d := Swap(c, 1, 5);
    var e := Swap(d, 5, 7);
    SwapKeepsSlots(m, 2, 8);
    SwapKeepsSlots(a, 8, 6);
    SwapKeepsSlots(b, 6, 0);
    SwapKeepsSlots(c, 1, 5);
    SwapKeepsSlots(d, 5, 7);
    SwapKeepsSlots(e, 7, 3);
  }

  /** Four accepted rotations give back the mask they started from. */
  lemma FourRotationsIdentity(m: seq<bool>)
    requires |m| == 9
    ensures RotateMask(RotateMask(RotateMask(RotateMask(m)))) == m
  {
    var r1 := RotateMask(m);
    var r2 := RotateMask(r1);
    var r3 := RotateMask(r2);
    var r4 := RotateMask(r3);
    forall k | 0 <= k < 9
      ensures r4[k] == m[k]
    {
      var a := Source(k);
      var b := Source(a);
      var c := Source(b);
      var d := Source(c);
      TurnedSourceInverse(k);
      TurnedSourceInverse(a);
      TurnedSourceInverse(b);
      TurnedSourceInverse(c);
      assert r4[Turned(c)] == r3[c];
      assert r3[Turned(b)] == r2[b];
      assert r2[Turned(a)] == r1[a];
      assert r1[Turned(k)] == m[k];
      assert d == k;
    }
  }

  // ---------------------------------------------------------------------
  // The per-slot checks of Rotate, in `Piece::Rotate`'s terms. For slot i
  // `Piece::Rotate` works with x = i % 3 - 1, y = 1 - i / 3 and the turned position
  // newX = -y = i / 3 - 1, newY = x.
  // ---------------------------------------------------------------------

  /** deltaX: the column of the anchor shifted by newX minus the column of
      the anchor shifted by x. */
  function DeltaX(pos: int, i: int): int {
    (pos + (i / 3 - 1)) % W - (pos + (i % 3 - 1)) % W
  }

  /** The floor test: one row below the turned slot's row is still a row of
      the table. */
  predicate FloorOk(pos: int, i: int) {
    pos - W * (i % 3 - 1) + W < Cells
  }

  lemma RotateReadInRange(pos: int, i: int)
    requires W <= pos < Cells && 0 <= i < 9
    requires Abs(DeltaX(pos, i)) <= 2 && FloorOk(pos, i)
    ensures 0 <= CellOf(pos, Turned(i)) < Cells
  {
  }

  /** Slot i passes all three checks: no wrap across a side wall, above the
      floor, and the cell of its turned position is empty in c. */
  predicate SlotRotates(pos: int, c: Table, i: int)
    requires W <= pos < Cells && Valid(c) && 0 <= i < 9
  {
    && Abs(DeltaX(pos, i)) <= 2
    && FloorOk(pos, i)
    && (RotateReadInRange(pos, i); c[CellOf(pos, Turned(i))] == 0)
  }

  /** The expressions `Piece::Rotate` uses for slot i, in terms of newX and
      newY, are the floor test, the cell of the turned slot and the turned
      slot. */
  lemma RotateSlotTerms(pos: int, i: int)
    requires 0 <= i < 9
    ensures var newX := i / 3 - 1; var newY := i % 3 - 1;
      && (pos + W * newY * -1 + W >= Cells <==> !FloorOk(pos, i))
      && pos + W * newY * -1 + newX == CellOf(pos, Turned(i))
      && (1 - newY) * 3 + (newX + 1) == Turned(i)
  {
    TurnedSourceInverse(i);
  }

  /** The rotation loop from slot i on: it stops at the first slot that
      fails a check, and otherwise writes each slot into its turned place
      of `temp`. */
  function RotateScan(pos: int, mask: seq<bool>, c: Table, temp: seq<bool>, i: int): (r: Option<seq<bool>>)
    requires W <= pos < Cells && Valid(c) && |mask| == 9 && |temp| == 9 && 0 <= i <= 9
    ensures r.Some? <==> forall j :: i <= j < 9 ==> SlotRotates(pos, c, j)
    ensures r.Some? ==> |r.value| == 9
    ensures r.Some? ==> forall k :: 0 <= k < 9 ==>
      r.value[k] == (if i <= Source(k) then mask[Source(k)] else temp[k])
    decreases 9 - i
  {
    if i == 9 then Some(temp)
    else if !SlotTest(pos, c, i) then None
    else
      var newX := i / 3 - 1;
      var newY := i % 3 - 1;
      RotateSlotTerms(pos, i);
      var temp' := temp[(1 - newY) * 3 + (newX + 1) := mask[i]];
      var r := RotateScan(pos, mask, c, temp', i + 1);
      if r.Some? then
        ScanStep(mask, temp, temp', r.value, i);
        r
      else
        r
  }

  /** The three tests of the slot loop of Rotate for slot i, in
      `Piece::Rotate`'s order and terms: the column distance, the floor, and the target cell. */
  function SlotTest(pos: int, c: Table, i: int): (ok: bool)
    requires W <= pos < Cells && Valid(c) && 0 <= i < 9
    ensures ok <==> SlotRotates(pos, c, i)
  {
    var newX := i / 3 - 1;
    var newY := i % 3 - 1;
    RotateSlotTerms(pos, i);
    if Abs(DeltaX(pos, i)) > 2 then false
    else if pos + W * newY * -1 + W >= Cells then false
    else
      RotateReadInRange(pos, i);
      GetQuad(c, pos + W * newY * -1 + newX) == 0
  }

  /** One iteration of the slot loop of Rotate that copies slot i into the
      turned mask, given what the rest of the loop builds. */
  lemma ScanStep(mask: seq<bool>, temp: seq<bool>, temp': seq<bool>, v: seq<bool>, i: int)
    requires |mask| == 9 && |temp| == 9 && |v| == 9 && 0 <= i < 9
    requires temp' == temp[Turned(i) := mask[i]]
    requires forall k :: 0 <= k < 9 ==>
      v[k] == (if i + 1 <= Source(k) then mask[Source(k)] else temp'[k])
    ensures forall k :: 0 <= k < 9 ==>
      v[k] == (if i <= Source(k) then mask[Source(k)] else temp[k])
  {
    forall k | 0 <= k < 9
      ensures v[k] == (if i <= Source(k) then mask[Source(k)] else temp[k])
    {
      TurnedSourceInverse(k);
      TurnedSourceInverse(i);
      if Source(k) == i {
        assert k == Turned(i);
        assert v[k] == temp'[k];
      } else {
        assert k != Turned(i);
      }
    }
  }

  /** Every cell of the 3x3 box around the anchor is empty in c. */
  predicate BoxFree(pos: int, c: Table)
    requires Valid(c) && 1 <= Col(pos) <= W - 2 && W <= pos < Cells - 2 * W
  {
    forall k :: 0 <= k < 9 ==> (BoxCellInRange(pos, k); c[CellOf(pos, k)] == 0)
  }

  lemma BoxCellInRange(pos: int, k: int)
    requires 1 <= Col(pos) <= W - 2 && W <= pos < Cells - 2 * W && 0 <= k < 9
    ensures SlotFits(pos, k) && 0 <= CellOf(pos, k) < Cells
  {
    SlotCell(pos, k);
  }

  /** What the nine per-slot checks amount to, with c the table after the
      piece has been cleared: the anchor is not in the first or last column,
      its row index is at most H - 3 (row 0 is the top), and the whole 3x3
      box around it is empty. */
  predicate TurnFits(pos: int, c: Table)
    requires W <= pos < Cells && Valid(c)
  {
    && 1 <= Col(pos) <= W - 2
    && pos < Cells - 2 * W
    && BoxFree(pos, c)
  }

  lemma ColumnShift(pos: int, a: int)
    requires 0 <= pos && 0 <= Col(pos) + a < W
    ensures (pos + a) % W == Col(pos) + a
  {
  }

  /** At anchor column 0 slot 1 fails the wrap test, at column W - 1 slot
      2 does; in between no slot does. */
  lemma WrapTestMeansSideColumn(pos: int)
    requires W <= pos < Cells
    ensures Abs(DeltaX(pos, 1)) <= 2 && Abs(DeltaX(pos, 2)) <= 2 <==> 1 <= Col(pos) <= W - 2
    ensures 1 <= Col(pos) <= W - 2 ==> forall j :: 0 <= j < 9 ==> Abs(DeltaX(pos, j)) <= 2
  {
    var r, c := pos / W, pos % W;
    assert pos == r * W + c;
    if c == 0 {
      assert (pos - 1) % W == W - 1 by { DivModW(r - 1, W - 1); }
      assert DeltaX(pos, 1) == (pos - 1) % W - pos % W;
    } else if c == W - 1 {
      ColumnShift(pos, -1);
      assert (pos + 1) % W == 0 by { DivModW(r + 1, 0); }
      assert DeltaX(pos, 2) == (pos - 1) % W - (pos + 1) % W;
    } else {
      MiddleColumnPasses(pos);
    }
  }

  /** Away from the side columns every slot passes the wrap test. */
  lemma MiddleColumnPasses(pos: int)
    requires W <= pos < Cells && 1 <= Col(pos) <= W - 2
    ensures forall j :: 0 <= j < 9 ==> Abs(DeltaX(pos, j)) <= 2
  {
    forall j | 0 <= j < 9
      ensures Abs(DeltaX(pos, j)) <= 2
    {
      var x, y := j / 3 - 1, j % 3 - 1;
      assert -1 <= x <= 1 && -1 <= y <= 1;
      ColumnShift(pos, x);
      ColumnShift(pos, y);
    }
  }

  lemma DivModW(a: int, b: int)
    requires 0 <= b < W
    ensures (a * W + b) / W == a && (a * W + b) % W == b
  {
  }

  lemma SlotChecksGiveTurnFits(pos: int, c: Table)
    requires W <= pos < Cells && Valid(c)
    requires forall j :: 0 <= j < 9 ==> SlotRotates(pos, c, j)
    ensures TurnFits(pos, c)
  {
    assert SlotRotates(pos, c, 0) && SlotRotates(pos, c, 1) && SlotRotates(pos, c, 2);
    WrapTestMeansSideColumn(pos);
    forall k | 0 <= k < 9
      ensures (BoxCellInRange(pos, k); c[CellOf(pos, k)] == 0)
    {
      TurnedSourceInverse(k);
      assert SlotRotates(pos, c, Source(k));
    }
  }

  lemma TurnFitsGivesSlotChecks(pos: int, c: Table)
    requires W <= pos < Cells && Valid(c)
    requires TurnFits(pos, c)
    ensures forall j :: 0 <= j < 9 ==> SlotRotates(pos, c, j)
  {
    WrapTestMeansSideColumn(pos);
    forall j | 0 <= j < 9
      ensures SlotRotates(pos, c, j)
    {
      TurnedSourceInverse(j);
      BoxCellInRange(pos, Turned(j));
    }
  }

  lemma SlotChecksMeanTurnFits(pos: int, c: Table)
    requires W <= pos < Cells && Valid(c)
    ensures (forall j :: 0 <= j < 9 ==> SlotRotates(pos, c, j)) <==> TurnFits(pos, c)
  {
    if forall j :: 0 <= j < 9 ==> SlotRotates(pos, c, j) {
      SlotChecksGiveTurnFits(pos, c);
    }
    if TurnFits(pos, c) {
      TurnFitsGivesSlotChecks(pos, c);
    }
  }

  /** The rotation Rotate would accept, stated on the table before the
      piece is cleared. */
  predicate RotationFits(p: Piece, t: Table)
    requires WellPlaced(p) && Valid(t)
  {
    WellPlacedInBounds(p);
    TurnFits(p.pos, Clear(p, t))
  }

  /** Clears the piece, checks all nine slots in order, and repaints the
      piece, turned if every check passed and unchanged otherwise. */
  function Rotate(p: Piece, t: Table): (r: Board)
    requires WellPlaced(p) && Valid(t)
    ensures WellPlaced(r.piece) && Valid(r.table)
    ensures r.piece.pos == p.pos && r.piece.color == p.color && r.piece.landed == p.landed
    ensures RotationFits(p, t) ==>
      && r.piece.mask == RotateMask(p.mask)
      && Repainted(t, p, r.piece, r.table)
    ensures !RotationFits(p, t) ==>
      && r.piece == p
      && Repainted(t, p, p, r.table)
  {
    WellPlacedInBounds(p);
    var c := Clear(p, t);
    SlotChecksMeanTurnFits(p.pos, c);
    assert RotationFits(p, t) <==> TurnFits(p.pos, c);
    match RotateScan(p.pos, p.mask, c, seq(9, _ => false), 0)
    case None =>
      assert !RotationFits(p, t);
      RepaintIsClearThenSpawn(t, p, p);
      Board(p, Spawn(p, c))
    case Some(m) =>
      assert RotationFits(p, t);
      ScanBuildsTurn(p.mask, m);
      var q := p.(mask := m);
      TurnedPiecePlaced(p, c);
      WellPlacedInBounds(q);
      RepaintIsClearThenSpawn(t, p, q);
      Board(q, Spawn(q, c))
  }

  /** What the scan writes into the blank mask, slot by slot, is the
      quarter turn of the mask. */
  lemma ScanBuildsTurn(mask: seq<bool>, m: seq<bool>)
    requires |mask| == 9 && |m| == 9
    requires forall k :: 0 <= k < 9 ==>
      m[k] == (if 0 <= Source(k) then mask[Source(k)] else false)
    ensures m == RotateMask(mask)
  {
    forall k | 0 <= k < 9
      ensures m[k] == RotateMask(mask)[k]
    {
      TurnedSourceInverse(k);
      assert RotateMask(mask)[Turned(Source(k))] == mask[Source(k)];
    }
  }

  /** A turned piece whose 3x3 box fits is well placed. */
  lemma TurnedPiecePlaced(p: Piece, c: Table)
    requires WellPlaced(p) && Valid(c) && TurnFits(p.pos, c)
    ensures WellPlaced(p.(mask := RotateMask(p.mask)))
  {
    RotateKeepsCentre(p.mask);
    forall i | 0 <= i < 9
      ensures SlotFits(p.pos, i)
    {
      BoxCellInRange(p.pos, i);
    }
  }

  /** A rejected rotation of a piece that is painted on the table leaves
      piece and table exactly as they were. */
  lemma RejectedRotationChangesNothing(p: Piece, t: Table)
    requires WellPlaced(p) && Valid(t)
    requires (WellPlacedInBounds(p); Painted(p, t))
    requires !RotationFits(p, t)
    ensures Rotate(p, t) == Board(p, t)
  {
    WellPlacedInBounds(p);
    ClearThenSpawn(p, t);
    var r := Rotate(p, t);
    assert r.table == Spawn(p, Clear(p, t)) by {
      forall k | 0 <= k < Cells
        ensures r.table[k] == Spawn(p, Clear(p, t))[k]
      {
      }
    }
  }
}
