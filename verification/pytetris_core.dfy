/** The game objects of terminis/pytetris/core.py, the refactored engine:
    a matrix of 20 rows whose lock stops at the first mino above the
    field, tetrominoes that report what they did instead of arming timers,
    statistics with a combo counter, and a game that draws from the bag,
    starts pieces and holds one. Each method is proved against the
    value-level rules of `PieceRules`, `Playfield`, `Scoring` and `Bag`.
    Where core.py calls something it never defines, the model follows the
    evident intent (named in the documentation of the member). */
module PyTetrisCore {
  import opened Options
  import opened Geometry
  import opened Tetrominoes
  import opened Playfield
  import opened PieceRules
  import opened Scoring
  import opened Bag

  const NbLines := 20

  /** `Matrix.PIECE_POSITION`: where a piece starts. */
  const SpawnPosition := Point(4, 0)

  /** The anchors of the next and held pieces. core.py's `Next` and `Hold`
      are empty classes, so the value of terminis.py's windows is used. */
  const NextPosition := Point(6, 3)
  const HoldPosition := Point(6, 3)

  /** The index of the first offset that, placed at `pos`, lies above the
      field (row < 0), or `|offsets|` when none does: how far the write loop
      of `Matrix.lock` gets before it calls `game.over()`. */
  function FirstAbove(offsets: seq<Point>, pos: Point): (i: nat)
    ensures i <= |offsets|
    ensures forall j :: 0 <= j < i ==> Add(offsets[j], pos).y >= 0
    ensures i < |offsets| ==> Add(offsets[i], pos).y < 0
    decreases |offsets|
  {
    if offsets == [] then 0
    else if Add(offsets[0], pos).y < 0 then 0
    else 1 + FirstAbove(offsets[1..], pos)
  }

  class Matrix {
    var cells: Grid

    ghost predicate Valid()
      reads this
    {
      |cells| == NbLines && NoFullRow(cells)
    }

    constructor()
      ensures cells == EmptyRows(NbLines) && Valid()
    {
      cells := EmptyRows(NbLines);
      assert EmptyRow()[0] == Empty;
    }

    /** `Matrix.lock`: the T-spin is read before anything is written; the
        minoes are written in order until one lies above the field, which
        ends the game (`None`) with the cells written so far left in place;
        otherwise the full rows are cleared and the number cleared is
        returned with the T-spin. */
    method Lock(piece: Tetromino) returns (result: Option<(nat, Spin)>)
      requires Valid() && |piece.minoes| == 4
      requires InBounds(cells, piece.minoes, piece.position)
      modifies this
      ensures |cells| == NbLines
      ensures var stop := FirstAbove(piece.minoes, piece.position);
        var written := Place(old(cells), piece.minoes[..stop], piece.position, piece.kind);
        if stop < |piece.minoes| then result == None && cells == written
        else
          && result == Some((CountFull(written), TSpinOf(old(cells), piece.State())))
          && cells == Cleared(written) && Valid() && result.value.0 <= 4
    {
      var tSpin := TSpinOf(cells, piece.State());
      ghost var stop := FirstAbove(piece.minoes, piece.position);
      var i := 0;
      while i < |piece.minoes|
        invariant 0 <= i <= stop
        invariant cells == Place(old(cells), piece.minoes[..i], piece.position, piece.kind)
      {
        var p := Add(piece.minoes[i], piece.position);
        if p.y >= 0 {
          cells := cells[p.y := cells[p.y][p.x := Block(piece.kind)]];
        } else {
          return None;
        }
        assert piece.minoes[..i + 1][..i] == piece.minoes[..i];
        i := i + 1;
      }
      assert piece.minoes[..i] == piece.minoes;
      LockClearsAtMostFour(old(cells), piece.minoes, piece.position, piece.kind);
      ClearedShape(cells);
      var n;
      cells, n := RemoveFullRows(cells);
      result := Some((n, tSpin));
    }
  }

  /** The lock of core.py gives up on a piece with any mino above the
      field, after writing the minoes before it: a T piece in its spawn
      orientation with its pivot in row 0 writes its first two minoes into
      row 0 and stops at the third, leaving the game over with those two
      cells written, while the cell of its fourth mino, inside the field
      too, is left as it was. */
  lemma LockTopOutKeepsEarlierWrites(g: Grid, s: PieceState)
    requires |g| == NbLines && Consistent(s) && s.kind == T && s.orientation == 0
    requires s.position.y == 0 && 1 <= s.position.x < NbCols - 1
    ensures var stop := FirstAbove(s.minoes, s.position);
      && stop == 2 && InBounds(g, s.minoes[..stop], s.position)
      && var written := Place(g, s.minoes[..stop], s.position, T);
      && written[0][s.position.x - 1] == Block(T) && written[0][s.position.x] == Block(T)
      && written[0][s.position.x + 1] == g[0][s.position.x + 1]
  {
    var ms, pos := s.minoes, s.position;
    var x := pos.x;
    assert ms == [Point(-1, 0), Point(0, 0), Point(0, -1), Point(1, 0)];
    assert FirstAbove(ms[2..], pos) == 0;
    assert FirstAbove(ms[1..], pos) == 1;
    var front := ms[..2];
    assert Add(front[0], pos) == Point(x - 1, 0);
    assert Add(front[1], pos) == Point(x, 0);
    PlaceCells(g, front, pos, T, x - 1, 0);
    PlaceCells(g, front, pos, T, x, 0);
    PlaceCells(g, front, pos, T, x + 1, 0);
  }

  class Tetromino {
    const kind: Kind
    var position: Point
    var orientation: nat
    /** `minoes_position`. */
    var minoes: seq<Point>
    var rotationPoint5Used: bool
    var rotatedLast: bool
    var holdEnabled: bool
    var fallTimer: Timer

    function State(): PieceState
      reads this
    {
      PieceState(kind, position, orientation, minoes, rotationPoint5Used, rotatedLast)
    }

    ghost predicate Valid()
      reads this
    {
      Consistent(State())
    }

    constructor(k: Kind, at: Point)
      ensures State() == Spawned(k, at) && Valid()
      ensures holdEnabled && fallTimer == Unarmed
    {
      kind := k;
      position := at;
      orientation := 0;
      minoes := Minoes(k);
      rotationPoint5Used := false;
      rotatedLast := false;
      holdEnabled := true;
      fallTimer := Unarmed;
    }

    /** `_possible_position(minoes_position, movement)`: the moved pivot,
        when every given offset is free there. A pivot is returned exactly
        when every mino would lie within the ten columns, above the floor,
        and either above the field or on an empty cell; the pivot returned
        is the moved one, and writing the minoes there stays in the grid. */
    function PossiblePosition(matrix: Matrix, offsets: seq<Point>, movement: Point): (r: Option<Point>)
      reads this, matrix
      ensures r.Some? <==> forall i :: 0 <= i < |offsets| ==>
        var c := Point(offsets[i].x + position.x + movement.x, offsets[i].y + position.y + movement.y);
        0 <= c.x < NbCols && c.y < |matrix.cells| && (c.y < 0 || matrix.cells[c.y][c.x] == Empty)
      ensures r.Some? ==> r.value == Point(position.x + movement.x, position.y + movement.y)
      ensures r.Some? ==> InBounds(matrix.cells, offsets, r.value)
    {
      var potential := Add(position, movement);
      if Fits(matrix.cells, offsets, potential) then Some(potential) else None
    }

    /** `_move(movement)`. */
    method Move(matrix: Matrix, movement: Point) returns (moved: bool)
      requires Valid()
      modifies this`position, this`rotatedLast
      ensures Valid()
      ensures moved == Moved(matrix.cells, old(State()), movement).Some?
      ensures State() == if moved then Moved(matrix.cells, old(State()), movement).value else old(State())
    {
      var possible := PossiblePosition(matrix, minoes, movement);
      if possible.Some? {
        position := possible.value;
        rotatedLast := false;
        moved := true;
      } else {
        moved := false;
      }
    }

    /** `soft_drop`: one row down, for which it reports one point
        (`None` when the piece cannot move). */
    method SoftDrop(matrix: Matrix) returns (points: Option<nat>)
      requires Valid()
      modifies this`position, this`rotatedLast
      ensures Valid()
      ensures match Moved(matrix.cells, old(State()), Down)
        case Some(t) => State() == t && points == Some(1)
        case None => State() == old(State()) && points == None
    {
      var moved := Move(matrix, Down);
      if moved {
        points := Some(1);
      } else {
        points := None;
      }
    }

    /** `hard_drop`, read as moving down while it can (the source passes a
        `lock` argument `_move` does not take): the piece falls as far as
        it can and two points per row are reported. */
    method HardDrop(matrix: Matrix) returns (lines: nat)
      requires Valid()
      modifies this`position, this`rotatedLast
      ensures Valid()
      ensures State() == Lowered(old(State()), DropDistance(matrix.cells, old(State())))
      ensures lines == 2 * DropDistance(matrix.cells, old(State()))
    {
      ghost var s0 := State();
      ghost var g := matrix.cells;
      lines := 0;
      ghost var d: nat := 0;
      while true
        invariant Valid()
        invariant d <= DropDistance(g, s0)
        invariant State() == Lowered(s0, d) && lines == 2 * d
        decreases DropDistance(g, s0) - d
      {
        DropLands(g, s0, d);
        var moved := Move(matrix, Down);
        if !moved {
          break;
        }
        assert Add(Add(s0.position, Point(0, d)), Down) == Add(s0.position, Point(0, d + 1));
        lines := lines + 2;
        d := d + 1;
      }
      DropLands(g, s0, d);
    }

    /** `_rotate(direction)` (`O._rotate` refuses): turn every offset, then
        commit at the first of the five kicks where the turned piece fits,
        noting a rotation (and the fifth kick). A refusal is reported as
        false, where the source falls off the loop and returns `None`. */
    method Rotate(matrix: Matrix, direction: Rotation) returns (rotated: bool)
      requires Valid()
      modifies this`orientation, this`position, this`minoes, this`rotatedLast, this`rotationPoint5Used
      ensures Valid()
      ensures rotated == Rotated(matrix.cells, old(State()), direction).Some?
      ensures State() == if rotated then Rotated(matrix.cells, old(State()), direction).value else old(State())
    {
      if kind == O {
        return false;
      }
      var turned := RotateAll(minoes, direction);
      var kicks := Kicks(kind, orientation, direction);
      var i := FirstKick(matrix.cells, turned, position, kicks);
      if i == |kicks| {
        return false;
      }
      RotatedAt(matrix.cells, State(), direction, i);
      RotatedKeepsShape(matrix.cells, State(), direction);
      orientation := Turned(orientation, direction);
      position := Add(position, kicks[i]);
      minoes := turned;
      rotatedLast := true;
      if i + 1 == 5 {
        rotationPoint5Used := true;
      }
      return true;
    }

    /** The part of `Game.swap` that acts on the piece sent to hold, with
        the reset corrected: its fall timer is cancelled, it is put back at
        its spawn offsets and spawn orientation at `anchor`, and it may not
        be held again. */
    method SendToHold(anchor: Point)
      modifies this
      ensures Valid() && State() == HoldReset(old(State()), anchor)
      ensures fallTimer == Unarmed && !holdEnabled
    {
      fallTimer := Unarmed;
      position := anchor;
      minoes := Minoes(kind);
      orientation := 0;
      holdEnabled := false;
    }
  }

  /** The starting level the `--level=` option leads to: clamped to 1..15,
      and 1 without the option. */
  function StartLevel(requested: Option<int>): (l: int)
    ensures 1 <= l <= 15
    ensures requested.None? ==> l == 1
    ensures requested.Some? && 1 <= requested.value <= 15 ==> l == requested.value
    ensures requested.Some? && requested.value < 1 ==> l == 1
    ensures requested.Some? && requested.value > 15 ==> l == 15
  {
    match requested
    case None => 1
    case Some(n) => if n < 1 then 1 else if n > 15 then 15 else n
  }

  class Stats {
    var level: int
    var goal: int
    var score: int
    var highScore: int
    var linesCleared: int
    var combo: int

    function Counts(): Counters
      reads this
    {
      Counters(level, goal, score, highScore, linesCleared)
    }

    /** `Stats.__init__`: the level below the starting one, no goal, no
        score, a broken combo, then `new_level`; `highScore` is what the
        high-score file held. */
    constructor(requested: Option<int>, highScore: int)
      ensures Counts() == LevelUp(Counters(StartLevel(requested) - 1, 0, 0, highScore, 0))
      ensures combo == -1
    {
      match requested {
        case None =>
          level := 0;
        case Some(n) =>
          var l := if n > 1 then n else 1;
          l := if l < 15 then l else 15;
          level := l - 1;
      }
      goal := 0;
      score := 0;
      this.highScore := highScore;
      linesCleared := 0;
      combo := -1;
      new;
      NewLevel();
    }

    method NewLevel()
      modifies this`level, this`goal
      ensures Counts() == LevelUp(old(Counts()))
    {
      level := level + 1;
      goal := goal + 5 * level;
    }

    method PieceDropped(lines: int)
      modifies this`score, this`highScore
      ensures Counts() == Dropped(old(Counts()), lines)
    {
      score := score + lines;
      if score > highScore {
        highScore := score;
      }
    }

    /** `piece_locked` with the combo; `ok` is false where the `SCORES`
        lookup raises. */
    method PieceLocked(nbLines: nat, tSpin: Spin) returns (ok: bool)
      modifies this
      ensures ComboLocked(old(Counts()), old(combo), nbLines, tSpin)
        == (if ok then Scored(Counts()) else KeyError(Counts()), combo)
    {
      if nbLines > 0 {
        combo := combo + 1;
      } else {
        combo := -1;
      }
      if nbLines > 0 || tSpin != NoSpin {
        linesCleared := linesCleared + nbLines;
        var s := ScoreValue(nbLines, tSpin);
        if s.None? {
          return false;
        }
        goal := goal - s.value;
        score := score + s.value * 100 * level;
      }
      if combo >= 1 {
        score := score + (if nbLines == 1 then 20 else 50) * combo * level;
      }
      if score > highScore {
        highScore := score;
      }
      if goal <= 0 {
        NewLevel();
      }
      return true;
    }
  }

  class Game {
    var matrix: Matrix
    var stats: Stats
    /** `matrix.piece`, `next.piece` and `hold.piece`. */
    var piece: Tetromino
    var next: Tetromino
    var held: Tetromino?
    var randomBag: seq<Kind>
    /** The kinds drawn since the bag was last refilled. */
    ghost var drawn: seq<Kind>
    var playing: bool

    /** The three pieces are distinct objects in a consistent state, the
        bag and the kinds drawn from it make up the seven kinds, the
        matrix has 20 rows and no full row, the high score is at least the
        score, the next and the held piece have no fall timer running, and
        while the game is played the current piece fits where it is. */
    ghost predicate Valid()
      reads this, matrix, stats, piece, next, held
    {
      && matrix.Valid() && piece.Valid() && next.Valid() && (held != null ==> held.Valid())
      && piece != next && held != piece && held != next
      && next.fallTimer == Unarmed && (held != null ==> held.fallTimer == Unarmed)
      && (randomBag == [] || BagInvariant(randomBag, drawn))
      && HighKept(stats.Counts())
      && (playing ==> Fits(matrix.cells, piece.minoes, piece.position))
    }

    /** `Game.__init__`: the first level is started by `Stats`, the next
        piece is drawn, and `start_next_piece` brings the first piece in.
        Until then `piece` stands for the unset `matrix.piece` and is the
        next piece. */
    constructor(requested: Option<int>, highScore: int, shuffled: seq<Kind>)
      requires IsShuffle(shuffled) && highScore >= 0
      ensures Valid() && playing && held == null
      ensures fresh(matrix) && fresh(stats) && fresh(piece) && fresh(next)
      ensures matrix.cells == EmptyRows(NbLines)
      ensures stats.Counts() == LevelUp(Counters(StartLevel(requested) - 1, 0, 0, highScore, 0)) && stats.combo == -1
      ensures piece.State() == Spawned(shuffled[6], SpawnPosition) && piece.fallTimer == Armed(0)
      ensures next.State() == Spawned(shuffled[5], NextPosition)
      ensures randomBag == shuffled[..5]
    {
      DrawKeepsInvariant([], [], shuffled);
      var (k, bag) := Draw([], shuffled);
      randomBag := bag;
      drawn := [k];
      next := new Tetromino(k, NextPosition);
      piece := next;
      held := null;
      matrix := new Matrix();
      stats := new Stats(requested, highScore);
      playing := true;
      new;
      SpawnFits(next.kind);
      StartNextPiece(shuffled);
    }

    /** `random_piece`: refill an empty bag with the shuffled kinds, pop the
        last one and create that piece at the next-piece anchor. */
    method RandomPiece(shuffled: seq<Kind>) returns (p: Tetromino)
      requires IsShuffle(shuffled)
      requires randomBag == [] || BagInvariant(randomBag, drawn)
      modifies this`randomBag, this`drawn
      ensures fresh(p) && p.Valid() && p.holdEnabled && p.fallTimer == Unarmed
      ensures (p.kind, randomBag) == Draw(old(randomBag), shuffled)
      ensures p.State() == Spawned(p.kind, NextPosition)
      ensures BagInvariant(randomBag, drawn)
    {
      DrawKeepsInvariant(randomBag, drawn, shuffled);
      if randomBag == [] {
        randomBag := shuffled;
        drawn := [];
      }
      var k := randomBag[|randomBag| - 1];
      randomBag := randomBag[..|randomBag| - 1];
      drawn := drawn + [k];
      p := new Tetromino(k, NextPosition);
    }

    /** `start_piece`, with the test it evidently means
        (`_possible_position` of the offsets where the piece is): the
        current piece is put at the start position and its fall timer
        entered if it fits there; otherwise the game is over. */
    method StartPiece()
      requires piece.Valid()
      modifies piece`position, piece`fallTimer, this`playing
      ensures piece.Valid()
      ensures piece.State() == old(piece.State()).(position := SpawnPosition)
      ensures Fits(matrix.cells, piece.minoes, SpawnPosition) ==>
        playing == old(playing) && piece.fallTimer == Armed(0)
      ensures !Fits(matrix.cells, piece.minoes, SpawnPosition) ==>
        !playing && piece.fallTimer == old(piece.fallTimer)
    {
      StartAt(SpawnPosition);
    }

    /** The body of `start_piece` for an arbitrary start position. */
    method StartAt(at: Point)
      requires piece.Valid()
      modifies piece`position, piece`fallTimer, this`playing
      ensures piece.Valid()
      ensures piece.State() == old(piece.State()).(position := at)
      ensures Fits(matrix.cells, piece.minoes, at) ==>
        playing == old(playing) && piece.fallTimer == Armed(0)
      ensures !Fits(matrix.cells, piece.minoes, at) ==>
        !playing && piece.fallTimer == old(piece.fallTimer)
    {
      piece.position := at;
      var possible := piece.PossiblePosition(matrix, piece.minoes, Still);
      AddLaws(at, Still, Still);
      if possible.Some? {
        piece.fallTimer := Armed(0);
      } else {
        playing := false;
      }
    }

    /** `start_next_piece`: the next piece becomes the current one, a new
        next piece is drawn, and the current piece is started. */
    method StartNextPiece(shuffled: seq<Kind>)
      requires IsShuffle(shuffled) && next.Valid()
      requires randomBag == [] || BagInvariant(randomBag, drawn)
      modifies this`piece, this`next, this`randomBag, this`drawn, this`playing, next`position, next`fallTimer
      ensures piece == old(next) && fresh(next) && piece.Valid() && next.Valid()
      ensures (next.kind, randomBag) == Draw(old(randomBag), shuffled) && BagInvariant(randomBag, drawn)
      ensures next.State() == Spawned(next.kind, NextPosition) && next.holdEnabled && next.fallTimer == Unarmed
      ensures piece.State() == old(next.State()).(position := SpawnPosition)
      ensures Fits(matrix.cells, piece.minoes, SpawnPosition) ==> playing == old(playing) && piece.fallTimer == Armed(0)
      ensures !Fits(matrix.cells, piece.minoes, SpawnPosition) ==> !playing && piece.fallTimer == old(next.fallTimer)
    {
      piece := next;
      next := RandomPiece(shuffled);
      StartPiece();
    }

    /** `swap` with the hold reset corrected: if the current piece may
        still be held, its fall timer is cancelled and it changes places
        with the held piece; the piece sent to hold is reset to its spawn
        offsets, spawn orientation and the hold anchor and may not be held
        again; the piece coming back is started, or, when the hold was
        empty, the next piece is. */
    method Swap(shuffled: seq<Kind>)
      requires Valid() && playing && IsShuffle(shuffled)
      modifies this, piece, next, held
      ensures Valid()
      ensures !old(piece.holdEnabled) ==>
        && piece == old(piece) && held == old(held) && next == old(next) && playing
        && piece.State() == old(piece.State()) && piece.fallTimer == old(piece.fallTimer)
        && randomBag == old(randomBag)
      ensures old(piece.holdEnabled) ==>
        && held == old(piece)
        && held.State() == HoldReset(old(piece.State()), HoldPosition)
        && !held.holdEnabled && held.fallTimer == Unarmed
        && piece == (if old(held) == null then old(next) else old(held))
        && piece.State() == old((if held == null then next else held).State()).(position := SpawnPosition)
        && (playing <==> Fits(matrix.cells, piece.minoes, SpawnPosition))
        && piece.fallTimer == if Fits(matrix.cells, piece.minoes, SpawnPosition) then Armed(0) else Unarmed
      ensures old(piece.holdEnabled) && old(held) == null ==>
        && fresh(next) && (next.kind, randomBag) == Draw(old(randomBag), shuffled)
        && next.State() == Spawned(next.kind, NextPosition) && next.holdEnabled && next.fallTimer == Unarmed
      ensures old(piece.holdEnabled) && old(held) != null ==> next == old(next) && randomBag == old(randomBag)
      ensures matrix.cells == old(matrix.cells) && stats.Counts() == old(stats.Counts())
    {
      if !piece.holdEnabled {
        return;
      }
      var back := held;
      held := piece;
      held.SendToHold(HoldPosition);
      if back != null {
        piece := back;
        StartPiece();
      } else {
        StartNextPiece(shuffled);
      }
    }
  }

  /** Every kind fits at the start position of an empty matrix. */
  lemma SpawnFits(k: Kind)
    ensures Fits(EmptyRows(NbLines), Minoes(k), SpawnPosition)
  {
    OrientedBox(k, 0);
    EmptyGridFits(EmptyRows(NbLines), Minoes(k), SpawnPosition, 2);
  }
}
