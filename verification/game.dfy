/** The game rules that live in the main loop: the six shapes, the landing
    handler with its line-clear scan, edge-triggered keys and one iteration of
    the loop. Window, timer, random choice and drawing are not part of it:
    the key states, whether the drop timer has run out and the next shape
    come in as parameters. */
module Game {
  import opened PieceTable
  import opened Pieces
  import opened Rotation

  /** Number of shapes, J L O S T Z. */
  const Shapes: int := 6

  function Bit(b: bool): nat {
    if b then 1 else 0
  }

  /** Number of occupied slots of a nine-slot mask. */
  function Occupied(m: seq<bool>): nat
    requires |m| == 9
  {
    Bit(m[0]) + Bit(m[1]) + Bit(m[2]) + Bit(m[3]) + Bit(m[4]) + Bit(m[5]) + Bit(m[6]) + Bit(m[7]) + Bit(m[8])
  }

  /** The occupied slots of shape k (J L O S T Z), row by row. */
  function ShapeMask(k: int): (m: seq<bool>)
    requires 0 <= k < Shapes
    ensures Tetromino(m)
  {
    if k == 0 then [true, false, false, true, true, true, false, false, false]
    else if k == 1 then [false, false, true, true, true, true, false, false, false]
    else if k == 2 then [true, true, false, true, true, false, false, false, false]
    else if k == 3 then [false, true, true, true, true, false, false, false, false]
    else if k == 4 then [false, true, false, true, true, true, false, false, false]
    else [true, true, false, false, true, true, false, false, false]
  }

  /** Shape k as the game creates it: colour k + 1, anchor at the spawn
      point, not landed. */
  function Shape(k: int): (p: Piece)
    requires 0 <= k < Shapes
    ensures p.mask == ShapeMask(k) && p.color == k + 1
    ensures p.pos == SpawnAnchor && !p.landed
    ensures WellPlaced(p)
  {
    Respawn(Piece(ShapeMask(k), k + 1, SpawnAnchor, false))
  }

  // ---------------------------------------------------------------------
  // Edge-triggered keys
  // ---------------------------------------------------------------------

  /** The state of the three edge-triggered keys (rotate, left, right):
      either as polled this iteration, or as the "pressed" flags kept between
      iterations. */
  datatype Keys = Keys(rotate: bool, left: bool, right: bool)

  /** One poll of an edge-triggered key: (fire, new pressed flag). */
  function KeyEdge(down: bool, pressed: bool): (r: (bool, bool))
    ensures r.0 <==> down && !pressed
    ensures r.1 == down
  {
    if down && !pressed then (true, true)
    else if !down then (false, false)
    else (false, pressed)
  }

  /** Which of the three keys fire at this poll, given the pressed flags
      from the previous one. */
  function Fired(keys: Keys, pressed: Keys): Keys {
    Keys(KeyEdge(keys.rotate, pressed.rotate).0,
         KeyEdge(keys.left, pressed.left).0,
         KeyEdge(keys.right, pressed.right).0)
  }

  /** How often a key fires over a run of polls, starting from `pressed`. */
  function Fires(downs: seq<bool>, pressed: bool): nat
  {
    if |downs| == 0 then 0
    else
      var e := KeyEdge(downs[0], pressed);
      (if e.0 then 1 else 0) + Fires(downs[1..], e.1)
  }

  /** How many presses a run of polls holds: polls at which the key is down
      and was up at the poll before (or, for the first poll, `pressed` was
      false). Counted from the last poll backwards. */
  function Presses(downs: seq<bool>, pressed: bool): nat
  {
    if |downs| == 0 then 0
    else
      var n := |downs| - 1;
      var before := if n == 0 then pressed else downs[n - 1];
      Presses(downs[..n], pressed) + (if downs[n] && !before then 1 else 0)
  }

  lemma {:induction false} PressesOfCons(d: bool, rest: seq<bool>, pressed: bool)
    ensures Presses([d] + rest, pressed) ==
      (if d && !pressed then 1 else 0) + Presses(rest, d)
    decreases |rest|
  {
    var s := [d] + rest;
    if |rest| == 0 {
      assert s[..0] == [];
    } else {
      var n := |rest| - 1;
      assert s[..|s| - 1] == [d] + rest[..n];
      PressesOfCons(d, rest[..n], pressed);
      if n == 0 {
        assert s[|s| - 2] == d;
      } else {
        assert s[|s| - 2] == rest[n - 1];
      }
    }
  }

  /** A key fires exactly once per press, however long it is held. */
  lemma {:induction false} FiresOncePerPress(downs: seq<bool>, pressed: bool)
    ensures Fires(downs, pressed) == Presses(downs, pressed)
    decreases |downs|
  {
    if |downs| > 0 {
      FiresOncePerPress(downs[1..], downs[0]);
      assert downs == [downs[0]] + downs[1..];
      PressesOfCons(downs[0], downs[1..], pressed);
    }
  }

  /** Holding a key down over n >= 1 polls, starting released, fires once. */
  lemma HeldKeyFiresOnce(n: nat)
    requires n >= 1
    ensures Fires(seq(n, _ => true), false) == 1
  {
    var downs := seq(n, _ => true);
    FiresOncePerPress(downs, false);
    HeldPresses(n);
  }

  lemma {:induction false} HeldPresses(n: nat)
    requires n >= 1
    ensures Presses(seq(n, _ => true), false) == 1
  {
    var downs := seq(n, _ => true);
    if n > 1 {
      assert downs[..n - 1] == seq(n - 1, _ => true);
      HeldPresses(n - 1);
    } else {
      assert downs[..0] == [];
    }
  }

  // ---------------------------------------------------------------------
  // Line clear on landing
  // ---------------------------------------------------------------------

  /** The inner loop of the landing handler for one row, from column j on:
      it stops at the first empty cell and reports the row full when it
      reaches the last column. */
  function RowScan(t: Table, row: int, j: int): (full: bool)
    requires Valid(t) && 0 <= row < H && 0 <= j < W
    ensures full <==> forall c :: j <= c < W ==> t[Cell(row, c)] != 0
    ensures j == 0 ==> (full <==> RowFull(t, row))
    decreases W - j
  {
    CellRowCol(row, j);
    if GetQuad(t, Cell(row, j)) == 0 then false
    else if j == W - 1 then true
    else RowScan(t, row, j + 1)
  }

  /** How many of the rows anchorRow - 1 + i', for i <= i' < 3, are rows of
      the table and full in t. */
  function FullRowsAround(t: Table, anchorRow: int, i: int): nat
    requires Valid(t) && 0 <= i <= 3
    decreases 3 - i
  {
    if i == 3 then 0
    else
      var row := anchorRow + i - 1;
      (if 0 <= row < H && RowFull(t, row) then 1 else 0) + FullRowsAround(t, anchorRow, i + 1)
  }

  /** Fall(row) leaves every row below `row` as it was, so it does not change
      whether such a row is full. */
  lemma FallKeepsRowFull(t: Table, row: int, below: int)
    requires Valid(t) && 0 <= row < below < H
    ensures RowFull(Fall(t, row), below) <==> RowFull(t, below)
  {
    var f := Fall(t, row);
    forall c | 0 <= c < W
      ensures f[Cell(below, c)] == t[Cell(below, c)]
    {
      CellRowCol(below, c);
    }
  }

  lemma FallKeepsLowerRows(t: Table, row: int)
    requires Valid(t) && 0 <= row < H
    ensures forall b :: 0 <= b < H && row < b ==> (RowFull(Fall(t, row), b) <==> RowFull(t, b))
  {
    forall b | 0 <= b < H && row < b
      ensures RowFull(Fall(t, row), b) <==> RowFull(t, b)
    {
      FallKeepsRowFull(t, row, b);
    }
  }

  /** Two tables that agree on which rows below `row` are full give the same
      count for rows below `row`. */
  lemma {:induction false} SameLowerCounts(t: Table, f: Table, row: int, anchorRow: int, i: int)
    requires Valid(t) && Valid(f) && 0 <= i <= 3
    requires forall b :: 0 <= b < H && row < b ==> (RowFull(f, b) <==> RowFull(t, b))
    requires row < anchorRow + i - 1
    ensures FullRowsAround(f, anchorRow, i) == FullRowsAround(t, anchorRow, i)
    decreases 3 - i
  {
    if i < 3 {
      SameLowerCounts(t, f, row, anchorRow, i + 1);
    }
  }

  /** Tables a and b agree from row `row` to the bottom. */
  predicate SameFrom(a: Table, b: Table, row: int)
    requires Valid(a) && Valid(b) && 0 <= row <= H
  {
    a[row * W..] == b[row * W..]
  }

  /** `row` forced into 0..H. */
  function Clamp(row: int): (r: int)
    ensures 0 <= r <= H
    ensures 0 <= row <= H ==> r == row
  {
    if row < 0 then 0 else if row > H then H else row
  }

  lemma RowFromIndex(k: int, from: int)
    requires from * W <= k
    ensures from <= Row(k)
  {
  }

  lemma FallSameFrom(t: Table, row: int, from: int)
    requires Valid(t) && 0 <= row < H && row < from <= H
    ensures SameFrom(Fall(t, row), t, from)
  {
    var f := Fall(t, row);
    forall k | from * W <= k < Cells
      ensures f[k] == t[k]
    {
      RowFromIndex(k, from);
    }
    SuffixEqual(f, t, from * W);
  }

  lemma SuffixEqual(a: seq<nat>, b: seq<nat>, s: int)
    requires |a| == |b| && 0 <= s <= |a|
    requires forall k :: s <= k < |a| ==> a[k] == b[k]
    ensures a[s..] == b[s..]
  {
  }

  /** A full row among the three counts once; removing it does not change
      the count of the rows scanned after it, nor any row below the three. */
  lemma FullRowCounted(t: Table, anchorRow: int, i: int)
    requires Valid(t) && 0 <= i < 3
    requires 0 <= anchorRow + i - 1 < H && RowFull(t, anchorRow + i - 1)
    ensures FullRowsAround(t, anchorRow, i) == 1 + FullRowsAround(Fall(t, anchorRow + i - 1), anchorRow, i + 1)
    ensures SameFrom(Fall(t, anchorRow + i - 1), t, Clamp(anchorRow + 2))
  {
    var row := anchorRow + i - 1;
    FallKeepsLowerRows(t, row);
    SameLowerCounts(t, Fall(t, row), row, anchorRow, i + 1);
    FallSameFrom(t, row, Clamp(anchorRow + 2));
  }

  /** The outer loop of the landing handler from iteration i on: row
      anchorRow + i - 1 is skipped when it is not a row of the table, and
      removed with Fall when it is full. Returns the table and the number
      of rows removed. */
  function ClearRows(t: Table, anchorRow: int, i: int): (r: (Table, nat))
    requires Valid(t) && 0 <= i <= 3
    ensures Valid(r.0)
    ensures r.1 == FullRowsAround(t, anchorRow, i)
    ensures r.1 <= 3 - i
    ensures SameFrom(r.0, t, Clamp(anchorRow + 2))
    ensures Compacted(t, anchorRow, i, r.0)
    ensures r.1 == 0 ==> r.0 == t
    decreases 3 - i, 1
  {
    if i == 3 then
      NothingRemoved(t, anchorRow);
      (t, 0)
    else
      var row := anchorRow + i - 1;
      if row < 0 || row >= H || !RowScan(t, row, 0) then KeepRow(t, anchorRow, i)
      else RemoveRow(t, anchorRow, i)
  }

  /** The branch of the outer loop that leaves row anchorRow + i - 1 alone,
      because it is not a row of the table or not full: the loop goes on
      with the same table and count. */
  function KeepRow(t: Table, anchorRow: int, i: int): (r: (Table, nat))
    requires Valid(t) && 0 <= i < 3
    requires !(0 <= anchorRow + i - 1 < H && RowFull(t, anchorRow + i - 1))
    ensures Valid(r.0)
    ensures r.1 == FullRowsAround(t, anchorRow, i)
    ensures r.1 <= 3 - i
    ensures SameFrom(r.0, t, Clamp(anchorRow + 2))
    ensures Compacted(t, anchorRow, i, r.0)
    ensures r.1 == 0 ==> r.0 == t
    decreases 3 - i, 0
  {
    var r := ClearRows(t, anchorRow, i + 1);
    SkipStep(t, anchorRow, i, r.0);
    r
  }

  /** The branch of the outer loop that finds row anchorRow + i - 1 full:
      Fall removes it, the counter goes up by one, and the loop goes on. */
  function RemoveRow(t: Table, anchorRow: int, i: int): (r: (Table, nat))
    requires Valid(t) && 0 <= i < 3
    requires 0 <= anchorRow + i - 1 < H && RowFull(t, anchorRow + i - 1)
    ensures Valid(r.0)
    ensures r.1 == FullRowsAround(t, anchorRow, i) && r.1 >= 1
    ensures r.1 <= 3 - i
    ensures SameFrom(r.0, t, Clamp(anchorRow + 2))
    ensures Compacted(t, anchorRow, i, r.0)
    decreases 3 - i, 0
  {
    var f := Fall(t, anchorRow + i - 1);
    var rest := ClearRows(f, anchorRow, i + 1);
    ClearStep(t, f, rest.0, rest.1, anchorRow, i);
    CompactStep(t, f, rest.0, anchorRow, i);
    (rest.0, rest.1 + 1)
  }

  /** One iteration of the outer loop that removes a full row, given what
      the rest of the loop does on the table after the removal. */
  lemma ClearStep(t: Table, f: Table, rest: Table, count: nat, anchorRow: int, i: int)
    requires Valid(t) && Valid(rest) && 0 <= i < 3
    requires 0 <= anchorRow + i - 1 < H && RowFull(t, anchorRow + i - 1)
    requires f == Fall(t, anchorRow + i - 1)
    requires count == FullRowsAround(f, anchorRow, i + 1) && count <= 3 - (i + 1)
    requires SameFrom(rest, f, Clamp(anchorRow + 2))
    ensures count + 1 == FullRowsAround(t, anchorRow, i) && count + 1 <= 3 - i
    ensures SameFrom(rest, t, Clamp(anchorRow + 2))
  {
    FullRowCounted(t, anchorRow, i);
  }

  /** Row z is one that the scan from iteration i on takes out: a scanned
      row that is full. Row 0 is never taken out, even when full, because
      Fall of row 0 leaves the table as it is. */
  predicate Removed(t: Table, anchorRow: int, i: int, z: int)
    requires Valid(t)
  {
    1 <= z < H && anchorRow + i - 1 <= z <= anchorRow + 1 && RowFull(t, z)
  }

  /** How many of the rows the scan from iteration i on takes out lie below
      row z: how far the contents of row z move down. */
  function Drops(t: Table, anchorRow: int, i: int, z: int): (n: nat)
    requires Valid(t) && 0 <= i <= 3 && 0 <= z
    ensures n == |RemovedBelow(t, anchorRow, i, z)|
    ensures n <= 3 - i
    decreases 3 - i
  {
    if i == 3 then
      assert RemovedBelow(t, anchorRow, i, z) == {};
      0
    else
      var rest := Drops(t, anchorRow, i + 1, z);
      RemovedBelowStep(t, anchorRow, i, i + 1, z);
      (if z < anchorRow + i - 1 < H && RowFull(t, anchorRow + i - 1) then 1 else 0) + rest
  }

  /** The rows below row z that the scan from iteration i on takes out. */
  function RemovedBelow(t: Table, anchorRow: int, i: int, z: int): set<int>
    requires Valid(t)
  {
    set y | z < y < H && Removed(t, anchorRow, i, y)
  }

  /** Iteration i takes out its own row, if it is full and below z, on top
      of what the later iterations take out. */
  lemma RemovedBelowStep(t: Table, anchorRow: int, i: int, next: int, z: int)
    requires Valid(t) && 0 <= i < 3 && next == i + 1 && 0 <= z
    ensures var row := anchorRow + i - 1;
      && row !in RemovedBelow(t, anchorRow, next, z)
      && |RemovedBelow(t, anchorRow, i, z)| ==
         (if z < row < H && RowFull(t, row) then 1 else 0) + |RemovedBelow(t, anchorRow, next, z)|
  {
    var row := anchorRow + i - 1;
    var below := RemovedBelow(t, anchorRow, next, z);
    var here: set<int> := if z < row < H && RowFull(t, row) then {row} else {};
    assert RemovedBelow(t, anchorRow, i, z) == here + below;
    assert here * below == {};
  }

  /** The cell at row y, column c. */
  function At(t: Table, y: int, c: int): nat
    requires Valid(t) && 0 <= y < H && 0 <= c < W
  {
    CellRowCol(y, c);
    t[Cell(y, c)]
  }

  /** Fall(row) moves row y - 1 into row y, for y in 1..row. */
  lemma FallMovesCell(t: Table, row: int, y: int, c: int)
    requires Valid(t) && 0 <= row < H && 1 <= y <= row && 0 <= c < W
    ensures At(Fall(t, row), y, c) == At(t, y - 1, c)
  {
    CellRowCol(y, c);
    CellAbove(y, c);
    assert Fall(t, row)[Cell(y, c)] == t[Cell(y, c) - W];
  }

  /** Fall(row) keeps row 0 and every row below `row`. */
  lemma FallKeepsCell(t: Table, row: int, y: int, c: int)
    requires Valid(t) && 0 <= row < H && 0 <= y < H && (y == 0 || row < y) && 0 <= c < W
    ensures At(Fall(t, row), y, c) == At(t, y, c)
  {
    CellRowCol(y, c);
  }

  /** r is t with the removed rows taken out: every other row z reappears
      Drops rows further down, and the rows this frees at the top repeat
      row 0. */
  predicate Compacted(t: Table, anchorRow: int, i: int, r: Table)
    requires Valid(t) && Valid(r) && 0 <= i <= 3
  {
    KeptRowsMoved(t, anchorRow, i, r) && TopRowsRepeat(t, anchorRow, i, r)
  }

  /** Every row the scan keeps reappears in r, Drops rows further down. */
  predicate KeptRowsMoved(t: Table, anchorRow: int, i: int, r: Table)
    requires Valid(t) && Valid(r) && 0 <= i <= 3
  {
    forall z, c :: 0 <= z < H && 0 <= c < W ==> KeptCellMoved(t, anchorRow, i, r, z, c)
  }

  /** If the scan keeps row z, its cell in column c reappears in r, Drops
      rows further down. */
  predicate KeptCellMoved(t: Table, anchorRow: int, i: int, r: Table, z: int, c: int)
    requires Valid(t) && Valid(r) && 0 <= i <= 3 && 0 <= z < H && 0 <= c < W
  {
    !Removed(t, anchorRow, i, z) ==>
      && z + Drops(t, anchorRow, i, z) < H
      && At(r, z + Drops(t, anchorRow, i, z), c) == At(t, z, c)
  }

  /** The top rows of r, as many as rows are removed, repeat row 0 of t. */
  predicate TopRowsRepeat(t: Table, anchorRow: int, i: int, r: Table)
    requires Valid(t) && Valid(r) && 0 <= i <= 3
  {
    forall y, c :: 0 <= y < Drops(t, anchorRow, i, 0) && 0 <= c < W ==> At(r, y, c) == At(t, 0, c)
  }

  /** Once the scan is over nothing more is removed: t is its own
      compaction. */
  lemma NothingRemoved(t: Table, anchorRow: int)
    requires Valid(t)
    ensures Compacted(t, anchorRow, 3, t)
  {
    forall z, c | 0 <= z < H && 0 <= c < W
      ensures KeptCellMoved(t, anchorRow, 3, t, z, c)
    {
      assert Drops(t, anchorRow, 3, z) == 0;
    }
  }

  /** A row moves down by less than the number of rows below it. */
  lemma {:induction false} DropsBound(t: Table, anchorRow: int, i: int, z: int)
    requires Valid(t) && 0 <= i <= 3 && 0 <= z < H
    ensures z + Drops(t, anchorRow, i, z) < H
    ensures Drops(t, anchorRow, i, z) == 0 || anchorRow - 1 + i + Drops(t, anchorRow, i, z) <= H
    decreases 3 - i
  {
    if i < 3 {
      DropsBound(t, anchorRow, i + 1, z);
    }
  }

  /** Rows above every scanned row all move down by the same amount. */
  lemma {:induction false} DropsAboveScan(t: Table, anchorRow: int, i: int, z: int, z2: int)
    requires Valid(t) && 0 <= i <= 3 && 0 <= z < anchorRow + i - 1 && 0 <= z2 < anchorRow + i - 1
    ensures Drops(t, anchorRow, i, z) == Drops(t, anchorRow, i, z2)
    decreases 3 - i
  {
    if i < 3 {
      DropsAboveScan(t, anchorRow, i + 1, z, z2);
    }
  }

  /** Two tables that agree on which rows below `row` are full move every
      row by the same amount in the scan of the rows below `row`. */
  lemma {:induction false} SameLowerDrops(t: Table, f: Table, row: int, anchorRow: int, i: int, z: int)
    requires Valid(t) && Valid(f) && 0 <= i <= 3 && 0 <= z
    requires forall b :: 0 <= b < H && row < b ==> (RowFull(f, b) <==> RowFull(t, b))
    requires row < anchorRow + i - 1
    ensures Drops(f, anchorRow, i, z) == Drops(t, anchorRow, i, z)
    decreases 3 - i
  {
    if i < 3 {
      SameLowerDrops(t, f, row, anchorRow, i + 1, z);
    }
  }

  /** A piece landing on the bottom rows that fills only the last row: the
      last row afterwards holds what the row above it held. */
  lemma FullBottomRowReplaced(t: Table, c: int)
    requires Valid(t) && 0 <= c < W
    requires RowFull(t, H - 1) && !RowFull(t, H - 2)
    ensures At(ClearRows(t, H - 2, 0).0, H - 1, c) == At(t, H - 2, c)
  {
    var r := ClearRows(t, H - 2, 0);
    assert Drops(t, H - 2, 2, H - 2) == 1;
    assert Drops(t, H - 2, 0, H - 2) == 1;
    assert !Removed(t, H - 2, 0, H - 2);
    assert KeptCellMoved(t, H - 2, 0, r.0, H - 2, c);
  }

  /** An iteration that removes nothing, followed by the rest of the scan. */
  lemma SkipStep(t: Table, anchorRow: int, i: int, r: Table)
    requires Valid(t) && Valid(r) && 0 <= i < 3
    requires !(0 <= anchorRow + i - 1 < H && RowFull(t, anchorRow + i - 1))
    requires Compacted(t, anchorRow, i + 1, r)
    ensures Compacted(t, anchorRow, i, r)
  {
    forall z, c | 0 <= z < H && 0 <= c < W
      ensures KeptCellMoved(t, anchorRow, i, r, z, c)
    {
      assert Drops(t, anchorRow, i, z) == Drops(t, anchorRow, i + 1, z);
      assert KeptCellMoved(t, anchorRow, i + 1, r, z, c);
    }
    assert Drops(t, anchorRow, i, 0) == Drops(t, anchorRow, i + 1, 0);
  }

  /** An iteration that removes row anchorRow + i - 1 with Fall, followed by
      the rest of the scan on the table after the removal. */
  lemma CompactStep(t: Table, f: Table, r: Table, anchorRow: int, i: int)
    requires Valid(t) && Valid(r) && 0 <= i < 3
    requires 0 <= anchorRow + i - 1 < H && RowFull(t, anchorRow + i - 1)
    requires f == Fall(t, anchorRow + i - 1)
    requires Compacted(f, anchorRow, i + 1, r)
    ensures Compacted(t, anchorRow, i, r)
  {
    var row := anchorRow + i - 1;
    FallKeepsLowerRows(t, row);
    FallCells(t, row);
    var next := i + 1;
    forall z | 0 <= z
      ensures Drops(f, anchorRow, next, z) == Drops(t, anchorRow, next, z)
    {
      SameLowerDrops(t, f, row, anchorRow, next, z);
    }
    ShiftRows(t, f, r, anchorRow, i, next);
  }

  /** CompactStep with Fall replaced by what it does to the cells, the row
      counts and the full rows. */
  lemma ShiftRows(t: Table, f: Table, r: Table, anchorRow: int, i: int, next: int)
    requires Valid(t) && Valid(f) && Valid(r) && 0 <= i < 3 && next == i + 1
    requires 0 <= anchorRow + i - 1 < H && RowFull(t, anchorRow + i - 1)
    requires forall y, c :: 1 <= y <= anchorRow + i - 1 && 0 <= c < W ==> At(f, y, c) == At(t, y - 1, c)
    requires forall y, c :: 0 <= y < H && (y == 0 || anchorRow + i - 1 < y) && 0 <= c < W ==>
      At(f, y, c) == At(t, y, c)
    requires forall z :: 0 <= z ==> Drops(f, anchorRow, next, z) == Drops(t, anchorRow, next, z)
    requires forall b :: 0 <= b < H && anchorRow + i - 1 < b ==> (RowFull(f, b) <==> RowFull(t, b))
    requires Compacted(f, anchorRow, next, r)
    ensures Compacted(t, anchorRow, i, r)
  {
    KeptRows(t, f, r, anchorRow, i, next);
    assert KeptRowsMoved(t, anchorRow, i, r);
    ShiftTop(t, f, r, anchorRow, i);
    assert TopRowsRepeat(t, anchorRow, i, r);
  }

  /** The first half of ShiftRows: every row the scan keeps lands where
      Drops says. */
  lemma KeptRows(t: Table, f: Table, r: Table, anchorRow: int, i: int, next: int)
    requires Valid(t) && Valid(f) && Valid(r) && 0 <= i < 3 && next == i + 1
    requires 0 <= anchorRow + i - 1 < H && RowFull(t, anchorRow + i - 1)
    requires forall y, c :: 1 <= y <= anchorRow + i - 1 && 0 <= c < W ==> At(f, y, c) == At(t, y - 1, c)
    requires forall y, c :: 0 <= y < H && (y == 0 || anchorRow + i - 1 < y) && 0 <= c < W ==>
      At(f, y, c) == At(t, y, c)
    requires forall z :: 0 <= z ==> Drops(f, anchorRow, next, z) == Drops(t, anchorRow, next, z)
    requires forall b :: 0 <= b < H && anchorRow + i - 1 < b ==> (RowFull(f, b) <==> RowFull(t, b))
    requires KeptRowsMoved(f, anchorRow, next, r)
    ensures KeptRowsMoved(t, anchorRow, i, r)
  {
    forall z, c | 0 <= z < H && 0 <= c < W
      ensures KeptCellMoved(t, anchorRow, i, r, z, c)
    {
      if !Removed(t, anchorRow, i, z) {
        KeptCell(t, f, r, anchorRow, i, next, z, c);
      }
    }
  }

  /** Fall(row) cell by cell: rows 1..row take the row above them, row 0
      and the rows below `row` stay. */
  lemma FallCells(t: Table, row: int)
    requires Valid(t) && 0 <= row < H
    ensures forall y, c :: 1 <= y <= row && 0 <= c < W ==> At(Fall(t, row), y, c) == At(t, y - 1, c)
    ensures forall y, c :: 0 <= y < H && (y == 0 || row < y) && 0 <= c < W ==>
      At(Fall(t, row), y, c) == At(t, y, c)
  {
    forall y, c | 1 <= y <= row && 0 <= c < W
      ensures At(Fall(t, row), y, c) == At(t, y - 1, c)
    {
      FallMovesCell(t, row, y, c);
    }
    forall y, c | 0 <= y < H && (y == 0 || row < y) && 0 <= c < W
      ensures At(Fall(t, row), y, c) == At(t, y, c)
    {
      FallKeepsCell(t, row, y, c);
    }
  }

  /** The first half of CompactStep, for the cell at row z, column c: a
      row the scan keeps lands where Drops says, given what Fall does to the
      table. */
  lemma KeptCell(t: Table, f: Table, r: Table, anchorRow: int, i: int, next: int, z: int, c: int)
    requires Valid(t) && Valid(f) && Valid(r) && 0 <= i < 3 && next == i + 1
    requires 0 <= anchorRow + i - 1 < H && RowFull(t, anchorRow + i - 1)
    requires forall y, c :: 1 <= y <= anchorRow + i - 1 && 0 <= c < W ==> At(f, y, c) == At(t, y - 1, c)
    requires forall y, c :: 0 <= y < H && (y == 0 || anchorRow + i - 1 < y) && 0 <= c < W ==>
      At(f, y, c) == At(t, y, c)
    requires forall z :: 0 <= z ==> Drops(f, anchorRow, next, z) == Drops(t, anchorRow, next, z)
    requires forall b :: 0 <= b < H && anchorRow + i - 1 < b ==> (RowFull(f, b) <==> RowFull(t, b))
    requires KeptRowsMoved(f, anchorRow, next, r)
    requires 0 <= z < H && 0 <= c < W && !Removed(t, anchorRow, i, z)
    ensures z + Drops(t, anchorRow, i, z) < H
    ensures At(r, z + Drops(t, anchorRow, i, z), c) == At(t, z, c)
  {
    var row := anchorRow + i - 1;
    DropsBound(t, anchorRow, i, z);
    if z >= row {
      KeptBelow(t, f, r, anchorRow, i, next, z, c);
    } else {
      KeptAbove(t, f, r, anchorRow, i, next, z, c);
    }
  }

  /** KeptCell for a row at or below the removed one: it stays put in f and
      moves as far as the rest of the scan moves it. */
  lemma KeptBelow(t: Table, f: Table, r: Table, anchorRow: int, i: int, next: int, z: int, c: int)
    requires Valid(t) && Valid(f) && Valid(r) && 0 <= i < 3 && next == i + 1
    requires 0 <= anchorRow + i - 1 <= z < H && 0 <= c < W && RowFull(t, anchorRow + i - 1)
    requires !Removed(t, anchorRow, i, z)
    requires z + Drops(t, anchorRow, i, z) < H
    requires At(f, z, c) == At(t, z, c)
    requires Drops(f, anchorRow, next, z) == Drops(t, anchorRow, next, z)
    requires anchorRow + i - 1 < z ==> (RowFull(f, z) <==> RowFull(t, z))
    requires KeptRowsMoved(f, anchorRow, next, r)
    ensures At(r, z + Drops(t, anchorRow, i, z), c) == At(t, z, c)
  {
    assert Drops(t, anchorRow, i, z) == Drops(t, anchorRow, next, z);
    assert !Removed(f, anchorRow, next, z);
    assert KeptCellMoved(f, anchorRow, next, r, z, c);
  }

  /** KeptCell for a row above the removed one: f holds it one row lower,
      and from there it moves as far as the rest of the scan moves it. */
  lemma KeptAbove(t: Table, f: Table, r: Table, anchorRow: int, i: int, next: int, z: int, c: int)
    requires Valid(t) && Valid(f) && Valid(r) && 0 <= i < 3 && next == i + 1
    requires 0 <= z < anchorRow + i - 1 < H && 0 <= c < W && RowFull(t, anchorRow + i - 1)
    requires z + Drops(t, anchorRow, i, z) < H
    requires At(f, z + 1, c) == At(t, z, c)
    requires Drops(f, anchorRow, next, z + 1) == Drops(t, anchorRow, next, z + 1)
    requires KeptRowsMoved(f, anchorRow, next, r)
    ensures At(r, z + Drops(t, anchorRow, i, z), c) == At(t, z, c)
  {
    DropsAboveScan(t, anchorRow, next, z, z + 1);
    assert Drops(t, anchorRow, i, z) == 1 + Drops(f, anchorRow, next, z + 1);
    assert !Removed(f, anchorRow, next, z + 1);
    assert KeptCellMoved(f, anchorRow, next, r, z + 1, c);
  }

  /** The second half of CompactStep: the rows freed at the top repeat
      row 0. */
  lemma ShiftTop(t: Table, f: Table, r: Table, anchorRow: int, i: int)
    requires Valid(t) && Valid(f) && Valid(r) && 0 <= i < 3
    requires 0 <= anchorRow + i - 1 < H && RowFull(t, anchorRow + i - 1)
    requires forall c :: 0 <= c < W ==> At(f, 0, c) == At(t, 0, c)
    requires Drops(f, anchorRow, i + 1, 0) == Drops(t, anchorRow, i + 1, 0)
    requires Compacted(f, anchorRow, i + 1, r)
    ensures TopRowsRepeat(t, anchorRow, i, r)
  {
    forall y, c | 0 <= y < Drops(t, anchorRow, i, 0) && 0 <= c < W
      ensures At(r, y, c) == At(t, 0, c)
    {
      assert !Removed(f, anchorRow, i + 1, 0);
      assert KeptCellMoved(f, anchorRow, i + 1, r, 0, c);
    }
  }

  // ---------------------------------------------------------------------
  // Game state and one iteration of the main loop
  // ---------------------------------------------------------------------

  /** The table, the six shared piece objects (a shape keeps its current
      rotation between uses), which of them is falling, the line counter and
      the pressed flags of the three edge-triggered keys. */
  datatype Game = Game(table: Table, pieces: seq<Piece>, active: int, lines: nat, latches: Keys)

  /** Nine slots, the centre occupied, four occupied in all. */
  predicate Tetromino(m: seq<bool>) {
    |m| == 9 && m[4] && Occupied(m) == 4
  }

  /** A quarter turn of a tetromino is a tetromino: the centre stays and the
      number of occupied slots is kept. */
  lemma TurnKeepsTetromino(m: seq<bool>)
    requires Tetromino(m)
    ensures Tetromino(RotateMask(m))
  {
    assert RotateMask(m) == [m[2], m[5], m[8], m[1], m[4], m[7], m[0], m[3], m[6]];
  }

  /** p has the colour of shape k and a tetromino mask. */
  predicate OfShape(p: Piece, k: int)
    requires 0 <= k < Shapes
  {
    p.color == k + 1 && Tetromino(p.mask)
  }

  /** Every piece object keeps the colour of its shape and a tetromino
      mask, and the falling one is well placed. */
  predicate GameInv(g: Game) {
    && Valid(g.table)
    && |g.pieces| == Shapes
    && 0 <= g.active < Shapes
    && (forall k :: 0 <= k < Shapes ==> OfShape(g.pieces[k], k))
    && WellPlaced(g.pieces[g.active])
  }

  function Active(g: Game): Piece
    requires GameInv(g)
  {
    g.pieces[g.active]
  }

  /** The game as main sets it up: an empty table, the six shapes, J
      falling (not yet painted), no lines and no key pressed. */
  function Init(): (g: Game)
    ensures GameInv(g)
    ensures Active(g) == Shape(0) && g.lines == 0
    ensures g.active == 0 && forall k :: 0 <= k < Shapes ==> g.pieces[k] == Shape(k)
    ensures g.latches == Keys(false, false, false)
    ensures forall k :: 0 <= k < Cells ==> g.table[k] == 0
  {
    var pieces := seq(Shapes, k requires 0 <= k < Shapes => Shape(k));
    assert forall k :: 0 <= k < Shapes ==> OfShape(pieces[k], k) by {
      forall k | 0 <= k < Shapes
        ensures OfShape(pieces[k], k)
      {
        assert pieces[k] == Shape(k);
      }
    }
    Game(NewTable(), pieces, 0, 0, Keys(false, false, false))
  }

  /** Stores the outcome of a move of the falling piece. */
  function Put(g: Game, b: Board): (r: Game)
    requires GameInv(g) && Valid(b.table) && WellPlaced(b.piece)
    requires b.piece.color == Active(g).color
    requires Tetromino(b.piece.mask)
    ensures GameInv(r)
    ensures Active(r) == b.piece && r.table == b.table
    ensures r.active == g.active && r.pieces == g.pieces[g.active := b.piece]
    ensures r.lines == g.lines && r.latches == g.latches
  {
    g.(table := b.table, pieces := g.pieces[g.active := b.piece])
  }

  /** The landing handler: removes the full rows among the three rows around
      the landed anchor, counts them, and brings shape `next` back to the
      top, painted. */
  function Land(g: Game, next: int): (r: Game)
    requires GameInv(g) && 0 <= next < Shapes
    ensures GameInv(r)
    ensures r.active == next
    ensures r.lines == g.lines + FullRowsAround(g.table, Row(Active(g).pos), 0)
    ensures r.lines <= g.lines + 3
    ensures r.pieces == g.pieces[next := Respawn(g.pieces[next])]
    ensures (WellPlacedInBounds(Active(r)); Painted(Active(r), r.table))
    ensures forall k :: 0 <= k < Cells && !Covers(Active(r).pos, Active(r).mask, k) ==>
      r.table[k] == ClearRows(g.table, Row(Active(g).pos), 0).0[k]
    ensures r.latches == g.latches
  {
    var g1 := g.(pieces := g.pieces[next := Respawn(g.pieces[next])], active := next);
    RespawnKeepsInv(g, next);
    var cleared := ClearRows(g.table, Row(Active(g).pos), 0);
    g1.(table := Enter(Active(g1), cleared.0), lines := g.lines + cleared.1)
  }

  /** Bringing shape `next` back to the top and making it the falling piece
      keeps the game invariant, apart from the table. */
  lemma RespawnKeepsInv(g: Game, next: int)
    requires GameInv(g) && 0 <= next < Shapes
    ensures GameInv(g.(pieces := g.pieces[next := Respawn(g.pieces[next])], active := next))
  {
    var before := g.pieces[next];
    var p := Respawn(before);
    assert OfShape(before, next);
    assert OfShape(p, next) by {
      assert p.mask == before.mask && p.color == before.color;
    }
    assert WellPlaced(p);
    var pieces := g.pieces[next := p];
    forall k | 0 <= k < Shapes
      ensures OfShape(pieces[k], k)
    {
      if k != next {
        assert pieces[k] == g.pieces[k];
      }
    }
  }

  /** Spawn of a well-placed piece: the piece ends up painted and no other
      cell changes. */
  function Enter(p: Piece, t: Table): (r: Table)
    requires Valid(t) && WellPlaced(p)
    ensures Valid(r)
    ensures (WellPlacedInBounds(p); Painted(p, r))
    ensures forall k :: 0 <= k < Cells && !Covers(p.pos, p.mask, k) ==> r[k] == t[k]
  {
    WellPlacedInBounds(p);
    SpawnPaints(p, t);
    Spawn(p, t)
  }

  /** One iteration of the main loop: the landing handler if the falling
      piece has landed, then rotate, left and right, each acting once per
      press, then one drop if the timer has run out. */
  function Tick(g: Game, keys: Keys, dropDue: bool, next: int): (r: Game)
    requires GameInv(g) && 0 <= next < Shapes
    ensures GameInv(r)
    ensures r.latches == keys
    ensures g.lines <= r.lines <= g.lines + 3
    ensures !Active(g).landed ==> r.lines == g.lines
    ensures Active(g).landed ==> r.lines == g.lines + FullRowsAround(g.table, Row(Active(g).pos), 0)
    ensures Active(g).landed && Fired(keys, g.latches) == Keys(false, false, false) && !dropDue ==>
      r == Land(g, next).(latches := keys)
    ensures Active(g).landed && Fired(keys, g.latches) == Keys(false, false, false) && dropDue ==>
      r == Drop(Land(g, next)).(latches := keys)
    ensures !Active(g).landed && Fired(keys, g.latches) == Keys(false, false, false) && dropDue ==>
      r == Drop(g).(latches := keys)
    ensures !Active(g).landed && Fired(keys, g.latches) == Keys(false, false, false) && !dropDue ==>
      r == g.(latches := keys)
    ensures !Active(g).landed && Fired(keys, g.latches) == Keys(true, false, false) && !dropDue ==>
      r == Turn(g).(latches := keys)
    ensures !Active(g).landed && Fired(keys, g.latches) == Keys(false, true, false) && !dropDue ==>
      r == Shift(g, false).(latches := keys)
    ensures !Active(g).landed && Fired(keys, g.latches) == Keys(false, false, true) && !dropDue ==>
      r == Shift(g, true).(latches := keys)
    ensures !Active(g).landed ==>
      r == (if dropDue then Drop(Steer(g, keys)) else Steer(g, keys)).(latches := keys)
  {
    var g1 := if Active(g).landed then Land(g, next) else g;
    var g2 := Steer(g1, keys);
    var g3 := if dropDue then Drop(g2) else g2;
    g3.(latches := keys)
  }

  /** An iteration that finds the piece landed is the landing handler
      followed by an iteration on the fresh, not yet landed piece. */
  lemma TickAfterLanding(g: Game, keys: Keys, dropDue: bool, next: int)
    requires GameInv(g) && 0 <= next < Shapes && Active(g).landed
    ensures !Active(Land(g, next)).landed
    ensures Tick(g, keys, dropDue, next) == Tick(Land(g, next), keys, dropDue, next)
  {
  }

  /** The three edge-triggered keys in the order the loop polls them:
      rotate, left, right. Each acts when it is down now and was not down at
      the previous poll. */
  function Steer(g: Game, keys: Keys): (r: Game)
    requires GameInv(g)
    ensures GameInv(r) && r.lines == g.lines && r.latches == g.latches
    ensures Fired(keys, g.latches) == Keys(false, false, false) ==> r == g
    ensures Fired(keys, g.latches) == Keys(true, false, false) ==> r == Turn(g)
    ensures Fired(keys, g.latches) == Keys(false, true, false) ==> r == Shift(g, false)
    ensures Fired(keys, g.latches) == Keys(false, false, true) ==> r == Shift(g, true)
    ensures Fired(keys, g.latches) == Keys(true, true, false) ==> r == Shift(Turn(g), false)
    ensures Fired(keys, g.latches) == Keys(true, false, true) ==> r == Shift(Turn(g), true)
    ensures Fired(keys, g.latches) == Keys(false, true, true) ==> r == Shift(Shift(g, false), true)
    ensures Fired(keys, g.latches) == Keys(true, true, true) ==> r == Shift(Shift(Turn(g), false), true)
  {
    var fired := Fired(keys, g.latches);
    var g1 := if fired.rotate then Turn(g) else g;
    var g2 := if fired.left then Shift(g1, false) else g1;
    if fired.right then Shift(g2, true) else g2
  }

  /** The rotate key: the falling piece and the table become Rotate's
      result. */
  function Turn(g: Game): (r: Game)
    requires GameInv(g)
    ensures GameInv(r) && r.lines == g.lines && r.latches == g.latches
    ensures r.active == g.active && r.pieces == g.pieces[g.active := Rotate(Active(g), g.table).piece]
    ensures r.table == Rotate(Active(g), g.table).table
  {
    var b := Rotate(Active(g), g.table);
    if RotationFits(Active(g), g.table) then
      TurnKeepsTetromino(Active(g).mask);
      Put(g, b)
    else
      Put(g, b)
  }

  /** The left or right key: the falling piece and the table become the
      result of MoveLeft or MoveRight. */
  function Shift(g: Game, right: bool): (r: Game)
    requires GameInv(g)
    ensures GameInv(r) && r.lines == g.lines && r.latches == g.latches
    ensures var b := if right then MoveRight(Active(g), g.table) else MoveLeft(Active(g), g.table);
      r.active == g.active && r.pieces == g.pieces[g.active := b.piece] && r.table == b.table
  {
    Put(g, if right then MoveRight(Active(g), g.table) else MoveLeft(Active(g), g.table))
  }

  /** A timed drop: the falling piece and the table become Move's result. */
  function Drop(g: Game): (r: Game)
    requires GameInv(g)
    ensures GameInv(r) && r.lines == g.lines && r.latches == g.latches
    ensures r.active == g.active && r.pieces == g.pieces[g.active := Move(Active(g), g.table).piece]
    ensures r.table == Move(Active(g), g.table).table
  {
    Put(g, Move(Active(g), g.table))
  }
}
