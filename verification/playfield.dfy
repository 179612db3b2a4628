/** The matrix both versions lock pieces into: ten columns of cells,
    collision tests, writing a piece's minoes and clearing full rows. The
    number of rows is the length of the grid (21 in terminis.py, 20 in
    core.py); each version's `Matrix` class keeps it fixed. */
module Playfield {
  import opened Options
  import opened Geometry
  import opened Tetrominoes

  const NbCols := 10

  /** A cell is empty or holds a locked mino of some kind (None / a `Mino`
      in terminis.py, `Mino.NO_MINO` / a colour code in core.py). */
  datatype Cell = Empty | Block(kind: Kind)

  type Row = r: seq<Cell> | |r| == NbCols
    witness [Empty, Empty, Empty, Empty, Empty, Empty, Empty, Empty, Empty, Empty]

  /** Row 0 is the top row; the cell of `Point(x, y)` is `g[y][x]`. */
  type Grid = seq<Row>

  function EmptyRow(): Row
  {
    seq(NbCols, _ => Empty)
  }

  function EmptyRows(n: nat): (g: Grid)
    ensures |g| == n
    ensures forall y :: 0 <= y < n ==> g[y] == EmptyRow()
  {
    seq(n, _ => EmptyRow())
  }

  /** `Matrix.is_free_cell`: inside the ten columns, above the bottom, and
      either above the top row or on an empty cell. */
  predicate IsFreeCell(g: Grid, p: Point)
  {
    0 <= p.x < NbCols && p.y < |g| && !(p.y >= 0 && g[p.y][p.x] != Empty)
  }

  /** What `IsFreeCell` means case by case: every column cell above the
      matrix is free, nothing outside the columns or below the bottom is,
      and inside the matrix a cell is free exactly when it is empty. */
  lemma FreeCellCases(g: Grid, p: Point)
    ensures 0 <= p.x < NbCols && p.y < 0 ==> IsFreeCell(g, p)
    ensures p.x < 0 || p.x >= NbCols || p.y >= |g| ==> !IsFreeCell(g, p)
    ensures 0 <= p.x < NbCols && 0 <= p.y < |g| ==> (IsFreeCell(g, p) <==> g[p.y][p.x] == Empty)
  {
  }

  /** The `all(...)` test of a move or a kick: every offset, placed at
      `pos`, lands on a free cell. */
  predicate Fits(g: Grid, offsets: seq<Point>, pos: Point)
  {
    forall i :: 0 <= i < |offsets| ==> IsFreeCell(g, Add(offsets[i], pos))
  }

  /** The kick that the loop over `SUPER_ROTATION_SYSTEM[o][dir]` commits:
      the index of the first kick at which the offsets fit, if any. */
  function FirstFit(g: Grid, offsets: seq<Point>, pos: Point, kicks: seq<Point>): (r: Option<nat>)
    ensures r.Some? ==> r.value < |kicks| && Fits(g, offsets, Add(pos, kicks[r.value]))
    ensures r.Some? ==> forall j :: 0 <= j < r.value ==> !Fits(g, offsets, Add(pos, kicks[j]))
    ensures r.None? ==> forall j :: 0 <= j < |kicks| ==> !Fits(g, offsets, Add(pos, kicks[j]))
    decreases |kicks|
  {
    if kicks == [] then None
    else if Fits(g, offsets, Add(pos, kicks[0])) then Some(0)
    else
      match FirstFit(g, offsets, pos, kicks[1..])
      case None => None
      case Some(i) => Some(i + 1)
  }

  /** The loop over the kicks of a rotation: the index of the first kick
      at which the turned offsets fit, or `|kicks|` when none does. */
  method FirstKick(g: Grid, offsets: seq<Point>, pos: Point, kicks: seq<Point>) returns (i: nat)
    ensures i <= |kicks|
    ensures i < |kicks| ==> Fits(g, offsets, Add(pos, kicks[i]))
    ensures forall j :: 0 <= j < i ==> !Fits(g, offsets, Add(pos, kicks[j]))
  {
    i := 0;
    while i < |kicks| && !Fits(g, offsets, Add(pos, kicks[i]))
      invariant 0 <= i <= |kicks|
      invariant forall j :: 0 <= j < i ==> !Fits(g, offsets, Add(pos, kicks[j]))
    {
      i := i + 1;
    }
  }

  /** A row every cell of which is occupied (`all(mino for mino in line)`). */
  predicate Full(row: Row)
  {
    forall x :: 0 <= x < NbCols ==> row[x] != Empty
  }

  predicate NoFullRow(g: Grid)
  {
    forall y :: 0 <= y < |g| ==> !Full(g[y])
  }

  /** The rows that are not full, top to bottom. */
  function Kept(g: Grid): Grid
  {
    if g == [] then []
    else
      var n := |g| - 1;
      Kept(g[..n]) + (if Full(g[n]) then [] else [g[n]])
  }

  /** The number of full rows. */
  function CountFull(g: Grid): nat
  {
    if g == [] then 0
    else
      var n := |g| - 1;
      CountFull(g[..n]) + (if Full(g[n]) then 1 else 0)
  }

  /** The matrix after line clearing: each full row removed and one empty
      row put on top for it; the other rows keep their order. */
  function Cleared(g: Grid): Grid
  {
    EmptyRows(CountFull(g)) + Kept(g)
  }

  /** `Kept` and `CountFull` split the rows between them, and every kept
      row is a non-full row of the matrix. */
  lemma {:induction false} KeptShape(g: Grid)
    ensures |Kept(g)| + CountFull(g) == |g|
    ensures NoFullRow(Kept(g))
    ensures forall r :: r in Kept(g) ==> r in g && !Full(r)
  {
    if g != [] {
      var n := |g| - 1;
      KeptShape(g[..n]);
      forall r | r in Kept(g)
        ensures r in g && !Full(r)
      {
        if r in Kept(g[..n]) {
          assert r in g[..n];
        }
      }
    }
  }

  /** A matrix without a full row has nothing to clear. */
  lemma {:induction false} NothingToClear(g: Grid)
    requires NoFullRow(g)
    ensures CountFull(g) == 0 && Kept(g) == g
  {
    if g != [] {
      var n := |g| - 1;
      assert !Full(g[n]);
      NothingToClear(g[..n]);
      assert g[..n] + [g[n]] == g;
    }
  }

  /** Line clearing keeps the number of rows, leaves no full row, removes
      exactly the rows that were full, and clearing again changes nothing. */
  lemma ClearedShape(g: Grid)
    ensures |Cleared(g)| == |g|
    ensures NoFullRow(Cleared(g))
    ensures Cleared(g)[CountFull(g)..] == Kept(g)
    ensures Cleared(Cleared(g)) == Cleared(g)
  {
    KeptShape(g);
    var c := Cleared(g);
    forall y | 0 <= y < |c|
      ensures !Full(c[y])
    {
      if y < CountFull(g) {
        assert c[y] == EmptyRow() && c[y][0] == Empty;
      } else {
        assert c[y] == Kept(g)[y - CountFull(g)];
      }
    }
    NothingToClear(c);
  }

  /** `Matrix.lock`'s clearing loop, which pops each full row where it is
      and inserts an empty row at the top, while enumerating the rows. */
  method RemoveFullRows(g: Grid) returns (cells: Grid, nbLinesCleared: nat)
    ensures cells == Cleared(g)
    ensures nbLinesCleared == CountFull(g)
  {
    cells := g;
    nbLinesCleared := 0;
    var y := 0;
    while y < |cells|
      invariant 0 <= y <= |g| == |cells|
      invariant cells[y..] == g[y..]
      invariant cells[..y] == EmptyRows(nbLinesCleared) + Kept(g[..y])
      invariant nbLinesCleared == CountFull(g[..y])
    {
      assert g[..y + 1][..y] == g[..y];
      assert cells[y] == g[y];
      assert cells[y + 1..] == cells[y..][1..] == g[y..][1..] == g[y + 1..];
      if Full(cells[y]) {
        var before := cells;
        cells := cells[..y] + cells[y + 1..];
        cells := [EmptyRow()] + cells;
        assert cells == [EmptyRow()] + before[..y] + before[y + 1..];
        assert cells[y + 1..] == before[y + 1..];
        assert EmptyRows(nbLinesCleared + 1) == [EmptyRow()] + EmptyRows(nbLinesCleared);
        nbLinesCleared := nbLinesCleared + 1;
      } else {
        assert cells[..y + 1] == cells[..y] + [g[y]];
      }
      y := y + 1;
    }
    assert g[..y] == g;
    assert cells[..y] == cells;
  }

  /** Every offset placed at `pos` is within the columns and above the
      bottom, so writing it stays inside the grid. */
  predicate InBounds(g: Grid, offsets: seq<Point>, pos: Point)
  {
    forall i :: 0 <= i < |offsets| ==>
      0 <= Add(offsets[i], pos).x < NbCols && Add(offsets[i], pos).y < |g|
  }

  lemma FitsInBounds(g: Grid, offsets: seq<Point>, pos: Point)
    requires Fits(g, offsets, pos)
    ensures InBounds(g, offsets, pos)
  {
  }

  /** Writing one mino: cells above the matrix are skipped. */
  function PlaceOne(g: Grid, p: Point, k: Kind): (r: Grid)
    requires 0 <= p.x < NbCols && p.y < |g|
    ensures |r| == |g|
  {
    if p.y >= 0 then g[p.y := g[p.y][p.x := Block(k)]] else g
  }

  /** The matrix after the write loop of `Matrix.lock` has written the
      minoes `offsets` placed at `pos`, in order. */
  function Place(g: Grid, offsets: seq<Point>, pos: Point, k: Kind): (r: Grid)
    requires InBounds(g, offsets, pos)
    ensures |r| == |g|
    decreases |offsets|
  {
    if offsets == [] then g
    else
      var n := |offsets| - 1;
      PlaceOne(Place(g, offsets[..n], pos, k), Add(offsets[n], pos), k)
  }

  /** Some offset, placed at `pos`, lands on `c`. */
  predicate Covers(offsets: seq<Point>, pos: Point, c: Point)
  {
    exists i :: 0 <= i < |offsets| && Add(offsets[i], pos) == c
  }

  /** Writing the minoes changes exactly the cells they cover inside the
      matrix, each to a block of the piece's kind, and no other cell. */
  lemma {:induction false} PlaceCells(g: Grid, offsets: seq<Point>, pos: Point, k: Kind, x: int, y: int)
    requires InBounds(g, offsets, pos)
    requires 0 <= x < NbCols && 0 <= y < |g|
    ensures Place(g, offsets, pos, k)[y][x] == if Covers(offsets, pos, Point(x, y)) then Block(k) else g[y][x]
    decreases |offsets|
  {
    if offsets != [] {
      var n := |offsets| - 1;
      PlaceCells(g, offsets[..n], pos, k, x, y);
      var c := Point(x, y);
      if Covers(offsets[..n], pos, c) {
        var i :| 0 <= i < n && Add(offsets[..n][i], pos) == c;
        assert offsets[i] == offsets[..n][i];
      }
    }
  }

  /** Replacing one row adds at most one full row. */
  lemma {:induction false} CountFullUpdate(g: Grid, y: nat, row: Row)
    requires y < |g|
    ensures CountFull(g[y := row]) <= CountFull(g) + 1
  {
    var n := |g| - 1;
    var h := g[y := row];
    if y == n {
      assert h[..n] == g[..n];
    } else {
      assert h[..n] == g[..n][y := row];
      CountFullUpdate(g[..n], y, row);
    }
  }

  /** Writing `|offsets|` minoes makes at most `|offsets|` new full rows. */
  lemma {:induction false} PlaceFewFullRows(g: Grid, offsets: seq<Point>, pos: Point, k: Kind)
    requires InBounds(g, offsets, pos)
    ensures CountFull(Place(g, offsets, pos, k)) <= CountFull(g) + |offsets|
    decreases |offsets|
  {
    if offsets != [] {
      var n := |offsets| - 1;
      PlaceFewFullRows(g, offsets[..n], pos, k);
      var before := Place(g, offsets[..n], pos, k);
      var p := Add(offsets[n], pos);
      if p.y >= 0 {
        CountFullUpdate(before, p.y, before[p.y][p.x := Block(k)]);
      }
    }
  }

  /** The line count `Matrix.lock` reports: when the matrix had no full row,
      locking a four-mino piece clears at most four rows, so the count is
      always an index of the five-row score table. */
  lemma LockClearsAtMostFour(g: Grid, offsets: seq<Point>, pos: Point, k: Kind)
    requires NoFullRow(g) && |offsets| == 4
    requires InBounds(g, offsets, pos)
    ensures CountFull(Place(g, offsets, pos, k)) <= 4
  {
    NothingToClear(g);
    PlaceFewFullRows(g, offsets, pos, k);
  }
}
