/** The game objects of terminis.py: the matrix of 21 rows, the falling
    tetromino with its lock and fall timers, the statistics, and the game
    that draws pieces from the bag, spawns them, holds one and settles a
    locked piece. Each method is proved against the value-level rules of
    `PieceRules`, `Playfield`, `Scoring` and `Bag`. The scheduler is not
    modelled: a timer is only seen as armed or not. */
module Terminis {
  import opened Options
  import opened Geometry
  import opened Tetrominoes
  import opened Playfield
  import opened PieceRules
  import opened Scoring
  import opened Bag

  const NbLines := 21

  /** `Matrix.PIECE_POSITION`: where a piece enters the matrix. */
  const SpawnPosition := Point(4, 0)

  /** `Next.PIECE_POSITION` and `Hold.PIECE_POSITION`. */
  const NextPosition := Point(6, 3)
  const HoldPosition := Point(6, 3)

  /** What `Tetromino.lock` leads to: the piece could still fall (it moved
      down instead), it lies entirely in the top row or above (game over),
      or it is written into the matrix with the T-spin it made. */
  datatype LockOutcome = MovedDown | ToppedOut | Settled(spin: Spin)

  /** Every mino of the piece is in row 0 or above. */
  predicate LocksOut(s: PieceState)
  {
    forall i :: 0 <= i < |s.minoes| ==> s.position.y + s.minoes[i].y <= 0
  }

  /** The outcome of a lock for a piece that cannot move down. */
  function Landing(g: Grid, s: PieceState): LockOutcome
  {
    if LocksOut(s) then ToppedOut else Settled(TSpinOf(g, s))
  }

  /** A piece that does not lock out has a mino inside the matrix below the
      top row, so settling it where it fits changes the matrix: that cell
      was empty and now holds a block of the piece's kind. A piece that
      locks out would write at most into row 0. */
  lemma LandingWritesBelowTop(g: Grid, s: PieceState)
    ensures Landing(g, s) != ToppedOut <==> exists i :: 0 <= i < |s.minoes| && Add(s.minoes[i], s.position).y >= 1
    ensures Landing(g, s).Settled? ==> (Landing(g, s).spin != NoSpin ==> s.kind == T)
    ensures Landing(g, s).Settled? && Fits(g, s.minoes, s.position) ==>
      InBounds(g, s.minoes, s.position) && Place(g, s.minoes, s.position, s.kind) != g
  {
    if Landing(g, s).Settled? && Fits(g, s.minoes, s.position) {
      FitsInBounds(g, s.minoes, s.position);
      var i :| 0 <= i < |s.minoes| && Add(s.minoes[i], s.position).y >= 1;
      var c := Add(s.minoes[i], s.position);
      assert IsFreeCell(g, c);
      PlaceCells(g, s.minoes, s.position, s.kind, c.x, c.y);
      assert Covers(s.minoes, s.position, Point(c.x, c.y));
      assert Place(g, s.minoes, s.position, s.kind)[c.y][c.x] != g[c.y][c.x];
    }
  }

  class Matrix {
    var cells: Grid

    ghost predicate Valid()
      reads this
    {
      |cells| == NbLines && NoFullRow(cells)
    }

    constructor()
      ensures cells == EmptyRows(NbLines) && Valid()
    {
      cells := EmptyRows(NbLines);
      assert EmptyRow()[0] == Empty;
    }

    /** `Matrix.lock` up to the call into `Stats`: write the piece's minoes
        (those above the matrix are dropped), then clear the full rows.
        Returns the number of rows cleared. */
    method Lock(piece: Tetromino) returns (nbLinesCleared: nat)
      requires Valid() && |piece.minoes| == 4
      requires InBounds(cells, piece.minoes, piece.position)
      modifies this
      ensures Valid()
      ensures cells == Cleared(Place(old(cells), piece.minoes, piece.position, piece.kind))
      ensures nbLinesCleared == CountFull(Place(old(cells), piece.minoes, piece.position, piece.kind))
      ensures nbLinesCleared <= 4
    {
      var written := Place(cells, piece.minoes, piece.position, piece.kind);
      LockClearsAtMostFour(cells, piece.minoes, piece.position, piece.kind);
      var i := 0;
      while i < |piece.minoes|
        invariant 0 <= i <= |piece.minoes|
        invariant InBounds(old(cells), piece.minoes[..i], piece.position)
        invariant cells == Place(old(cells), piece.minoes[..i], piece.position, piece.kind)
      {
        var p := Add(piece.minoes[i], piece.position);
        if p.y >= 0 {
          cells := cells[p.y := cells[p.y][p.x := Block(piece.kind)]];
        }
        assert piece.minoes[..i + 1][..i] == piece.minoes[..i];
        i := i + 1;
      }
      assert piece.minoes[..i] == piece.minoes;
      ClearedShape(cells);
      cells, nbLinesCleared := RemoveFullRows(cells);
    }
  }

  class Tetromino {
    const kind: Kind
    var position: Point
    var orientation: nat
    var minoes: seq<Point>
    var rotationPoint5Used: bool
    var rotatedLast: bool
    var lockTimer: Timer
    var fallTimer: Timer
    var holdEnabled: bool

    function State(): PieceState
      reads this
    {
      PieceState(kind, position, orientation, minoes, rotationPoint5Used, rotatedLast)
    }

    ghost predicate Valid()
      reads this
    {
      Consistent(State())
    }

    constructor(k: Kind, at: Point)
      ensures State() == Spawned(k, at) && Valid()
      ensures lockTimer == Unarmed && fallTimer == Unarmed && holdEnabled
    {
      kind := k;
      position := at;
      orientation := 0;
      minoes := Minoes(k);
      rotationPoint5Used := false;
      rotatedLast := false;
      lockTimer := Unarmed;
      fallTimer := Unarmed;
      holdEnabled := true;
    }

    method Locking()
      modifies this`lockTimer
      ensures lockTimer == Engaged(old(lockTimer))
    {
      if lockTimer.Unarmed? {
        lockTimer := Armed(0);
      }
    }

    method PostponeLock()
      modifies this`lockTimer
      ensures lockTimer == Postponed(old(lockTimer))
    {
      if lockTimer.Armed? {
        lockTimer := Armed(lockTimer.restarts + 1);
      }
    }

    /** `move(movement, lock)`: commit the move if every mino fits, then
        postpone the lock; otherwise, for a move down with `lock` set, start
        the lock delay. */
    method Move(matrix: Matrix, movement: Point, lock: bool) returns (moved: bool)
      requires Valid()
      modifies this`position, this`rotatedLast, this`lockTimer
      ensures Valid()
      ensures moved ==> Fits(matrix.cells, old(minoes), Add(old(position), movement))
      ensures !moved ==> !Fits(matrix.cells, old(minoes), Add(old(position), movement))
      ensures position == if moved then Add(old(position), movement) else old(position)
      ensures rotatedLast == (old(rotatedLast) && !moved)
      ensures lockTimer == if moved then Postponed(old(lockTimer))
                           else if lock && movement == Down then Engaged(old(lockTimer))
                           else old(lockTimer)
    {
      var potential := Add(position, movement);
      if Fits(matrix.cells, minoes, potential) {
        position := potential;
        PostponeLock();
        rotatedLast := false;
        moved := true;
      } else {
        if lock && movement == Down {
          Locking();
        }
        moved := false;
      }
    }

    /** `soft_drop`: one row down, worth one point. */
    method SoftDrop(matrix: Matrix, stats: Stats)
      requires Valid()
      modifies this, stats
      ensures Valid()
      ensures match Moved(matrix.cells, old(State()), Down)
        case Some(t) =>
          State() == t && lockTimer == Postponed(old(lockTimer))
          && stats.Counts() == Dropped(old(stats.Counts()), 1)
        case None =>
          State() == old(State()) && lockTimer == Engaged(old(lockTimer))
          && stats.Counts() == old(stats.Counts())
      ensures fallTimer == old(fallTimer) && holdEnabled == old(holdEnabled)
    {
      var moved := Move(matrix, Down, true);
      if moved {
        stats.PieceDropped(1);
      }
    }

    /** `hard_drop`: cancel the lock delay, fall as far as the piece can,
        two points per row, then lock. */
    method HardDrop(matrix: Matrix, stats: Stats) returns (outcome: LockOutcome)
      requires Valid()
      modifies this, stats
      ensures Valid()
      ensures State() == Lowered(old(State()), DropDistance(matrix.cells, old(State())))
      ensures stats.Counts() == Dropped(old(stats.Counts()), 2 * DropDistance(matrix.cells, old(State())))
      ensures outcome == Landing(matrix.cells, State())
      ensures lockTimer == Unarmed && fallTimer == Unarmed && holdEnabled == old(holdEnabled)
    {
      ghost var s0 := State();
      ghost var g := matrix.cells;
      if lockTimer.Armed? {
        lockTimer := Unarmed;
      }
      var lines := 0;
      ghost var d: nat := 0;
      while true
        invariant Valid()
        invariant d <= DropDistance(g, s0)
        invariant State() == Lowered(s0, d) && lines == 2 * d
        invariant lockTimer == Unarmed && fallTimer == old(fallTimer) && holdEnabled == old(holdEnabled)
        invariant unchanged(stats)
        decreases DropDistance(g, s0) - d
      {
        DropLands(g, s0, d);
        var moved := Move(matrix, Down, false);
        if !moved {
          break;
        }
        assert Add(Add(s0.position, Point(0, d)), Down) == Add(s0.position, Point(0, d + 1));
        lines := lines + 2;
        d := d + 1;
      }
      DropLands(g, s0, d);
      stats.PieceDropped(lines);
      outcome := Lock(matrix);
    }

    /** `rotate(direction)` (`O.rotate` refuses): turn every offset, then
        commit at the first of the five kicks where the turned piece fits,
        postponing the lock and noting a rotation (and the fifth kick). */
    method Rotate(matrix: Matrix, direction: Rotation) returns (rotated: bool)
      requires Valid()
      modifies this`orientation, this`position, this`minoes, this`lockTimer, this`rotatedLast, this`rotationPoint5Used
      ensures Valid()
      ensures rotated == Rotated(matrix.cells, old(State()), direction).Some?
      ensures rotated ==>
        State() == Rotated(matrix.cells, old(State()), direction).value && lockTimer == Postponed(old(lockTimer))
      ensures !rotated ==> State() == old(State()) && lockTimer == old(lockTimer)
    {
      if kind == O {
        return false;
      }
      var turned := RotateAll(minoes, direction);
      var kicks := Kicks(kind, orientation, direction);
      var i := FirstKick(matrix.cells, turned, position, kicks);
      if i == |kicks| {
        return false;
      }
      RotatedAt(matrix.cells, State(), direction, i);
      RotatedKeepsShape(matrix.cells, State(), direction);
      orientation := Turned(orientation, direction);
      position := Add(position, kicks[i]);
      minoes := turned;
      PostponeLock();
      rotatedLast := true;
      if i + 1 == 5 {
        rotationPoint5Used := true;
      }
      return true;
    }

    /** The part of `Game.swap` that acts on the piece sent to hold, with
        the reset corrected: its timers are cancelled, it is put back at
        its spawn offsets and spawn orientation at `anchor`, and it may not
        be held again. */
    method SendToHold(anchor: Point)
      modifies this
      ensures Valid() && State() == HoldReset(old(State()), anchor)
      ensures lockTimer == Unarmed && fallTimer == Unarmed && !holdEnabled
    {
      fallTimer := Unarmed;
      lockTimer := Unarmed;
      position := anchor;
      minoes := Minoes(kind);
      orientation := 0;
      holdEnabled := false;
    }

    /** `lock`: if the piece can still move down it does so; otherwise the
        fall timer is cancelled and the piece either tops out or settles
        with its T-spin. */
    method Lock(matrix: Matrix) returns (outcome: LockOutcome)
      requires Valid()
      modifies this
      ensures Valid()
      ensures match Moved(matrix.cells, old(State()), Down)
        case Some(t) => outcome == MovedDown && State() == t && fallTimer == old(fallTimer)
        case None => outcome == Landing(matrix.cells, old(State())) && State() == old(State()) && fallTimer == Unarmed
      ensures lockTimer == Unarmed && holdEnabled == old(holdEnabled)
    {
      lockTimer := Unarmed;
      var moved := Move(matrix, Down, false);
      if moved {
        outcome := MovedDown;
      } else {
        fallTimer := Unarmed;
        if LocksOut(State()) {
          outcome := ToppedOut;
        } else {
          outcome := Settled(TSpinOf(matrix.cells, State()));
        }
      }
    }
  }

  class Stats {
    var level: int
    var goal: int
    var score: int
    var highScore: int
    var linesCleared: int

    function Counts(): Counters
      reads this
    {
      Counters(level, goal, score, highScore, linesCleared)
    }

    /** `Stats.__init__`: the level below the starting one (the game then
        calls `new_level`); `highScore` is what the high-score file held. */
    constructor(startLevel: int, highScore: int)
      ensures Counts() == Counters(startLevel - 1, 0, 0, highScore, 0)
    {
      level := startLevel - 1;
      goal := 0;
      score := 0;
      this.highScore := highScore;
      linesCleared := 0;
    }

    method NewLevel()
      modifies this
      ensures Counts() == LevelUp(old(Counts()))
    {
      level := level + 1;
      goal := goal + 5 * level;
    }

    method PieceDropped(lines: int)
      modifies this
      ensures Counts() == Dropped(old(Counts()), lines)
    {
      score := score + lines;
      if score > highScore {
        highScore := score;
      }
    }

    /** `piece_locked`; `ok` is false where the `SCORES` lookup raises. */
    method PieceLocked(nbLines: nat, tSpin: Spin) returns (ok: bool)
      modifies this
      ensures Locked(old(Counts()), nbLines, tSpin) == if ok then Scored(Counts()) else KeyError(Counts())
    {
      ok := true;
      if nbLines > 0 || tSpin != NoSpin {
        linesCleared := linesCleared + nbLines;
        var s := ScoreValue(nbLines, tSpin);
        if s.None? {
          return false;
        }
        goal := goal - s.value;
        score := score + s.value * 100 * level;
        if score > highScore {
          highScore := score;
        }
        if goal <= 0 {
          NewLevel();
        }
      }
    }
  }

  /** Whether the game goes on, ended with "GAME OVER", or stopped on an
      exception raised by the `SCORES` lookup. */
  datatype Status = Playing | GameOver | Crashed

  class Game {
    var matrix: Matrix
    var stats: Stats
    /** `matrix.piece`, `next.piece` and `hold.piece`. */
    var piece: Tetromino
    var next: Tetromino
    var held: Tetromino?
    var randomBag: seq<Kind>
    /** The kinds drawn since the bag was last refilled. */
    ghost var drawn: seq<Kind>
    var status: Status

    /** The three pieces are distinct objects in a consistent state, the
        bag and the kinds drawn from it make up the seven kinds, the
        matrix has no full row, the high score is at least the score, the
        next and the held piece have no timer running, and while the game
        is played the falling piece fits where it is. */
    ghost predicate Valid()
      reads this, matrix, stats, piece, next, held
    {
      && matrix.Valid() && piece.Valid() && next.Valid() && (held != null ==> held.Valid())
      && piece != next && held != piece && held != next
      && next.lockTimer == Unarmed && next.fallTimer == Unarmed
      && (held != null ==> held.lockTimer == Unarmed && held.fallTimer == Unarmed)
      && (randomBag == [] || BagInvariant(randomBag, drawn))
      && HighKept(stats.Counts())
      && (status == Playing ==> Fits(matrix.cells, piece.minoes, piece.position))
    }

    /** `Game.__init__`: draw the next piece, start the first level, and
        bring the first piece in (`new_piece`). Until then `piece` stands
        for the empty `matrix.piece` and is the next piece. */
    constructor(startLevel: int, highScore: int, shuffled: seq<Kind>)
      requires IsShuffle(shuffled) && highScore >= 0
      ensures Valid() && status == Playing && held == null
      ensures fresh(matrix) && fresh(stats) && fresh(piece) && fresh(next)
      ensures matrix.cells == EmptyRows(NbLines)
      ensures stats.Counts() == LevelUp(Counters(startLevel - 1, 0, 0, highScore, 0))
      ensures piece.State() == Spawned(shuffled[6], SpawnPosition) && piece.fallTimer == Armed(0)
      ensures next.State() == Spawned(shuffled[5], NextPosition)
      ensures randomBag == shuffled[..5]
    {
      DrawKeepsInvariant([], [], shuffled);
      var (k, bag) := Draw([], shuffled);
      randomBag := bag;
      drawn := [k];
      next := new Tetromino(k, NextPosition);
      piece := next;
      held := null;
      matrix := new Matrix();
      stats := new Stats(startLevel, highScore);
      status := Playing;
      new;
      stats.NewLevel();
      TakeNext(shuffled);
      SpawnFits(piece.kind);
      Enter(SpawnPosition);
    }

    /** `random_piece`: refill an empty bag with the shuffled kinds, then
        pop the last one. */
    method RandomPiece(shuffled: seq<Kind>) returns (k: Kind)
      requires IsShuffle(shuffled)
      requires randomBag == [] || BagInvariant(randomBag, drawn)
      modifies this`randomBag, this`drawn
      ensures (k, randomBag) == Draw(old(randomBag), shuffled)
      ensures BagInvariant(randomBag, drawn)
    {
      DrawKeepsInvariant(randomBag, drawn, shuffled);
      if randomBag == [] {
        randomBag := shuffled;
        drawn := [];
      }
      k := randomBag[|randomBag| - 1];
      randomBag := randomBag[..|randomBag| - 1];
      drawn := drawn + [k];
    }

    /** The first half of `new_piece` when no held piece comes back: the
        next piece becomes the falling one and a new next piece is drawn. */
    method TakeNext(shuffled: seq<Kind>)
      requires IsShuffle(shuffled)
      requires randomBag == [] || BagInvariant(randomBag, drawn)
      modifies this`piece, this`next, this`randomBag, this`drawn
      ensures piece == old(next) && fresh(next)
      ensures (next.kind, randomBag) == Draw(old(randomBag), shuffled) && BagInvariant(randomBag, drawn)
      ensures next.State() == Spawned(next.kind, NextPosition) && next.Valid() && next.holdEnabled
      ensures next.lockTimer == Unarmed && next.fallTimer == Unarmed
    {
      piece := next;
      var k := RandomPiece(shuffled);
      next := new Tetromino(k, NextPosition);
    }

    /** The second half of `new_piece`: the falling piece is put at the
        entry position and, if it fits there, its fall timer is entered;
        otherwise the game is over. */
    method Enter(at: Point)
      requires piece.Valid() && status == Playing
      modifies piece`position, piece`rotatedLast, piece`lockTimer, piece`fallTimer, this`status
      ensures piece.Valid()
      ensures var e := old(piece.State()).(position := at);
        if Fits(matrix.cells, e.minoes, at)
        then
          && piece.State() == e.(rotatedLast := false) && status == Playing
          && piece.fallTimer == Armed(0) && piece.lockTimer == Postponed(old(piece.lockTimer))
        else
          && piece.State() == e && status == GameOver
          && piece.fallTimer == old(piece.fallTimer) && piece.lockTimer == old(piece.lockTimer)
    {
      piece.position := at;
      var fits := piece.Move(matrix, Still, false);
      if fits {
        piece.fallTimer := Armed(0);
      } else {
        status := GameOver;
      }
    }

    /** `new_piece(held_piece)`: unless a held piece is coming back, the
        next piece becomes the falling one and a new next piece is drawn;
        then the falling piece enters the matrix. */
    method NewPiece(shuffled: seq<Kind>, heldPiece: Tetromino?)
      requires IsShuffle(shuffled) && status == Playing
      requires matrix.Valid() && piece.Valid() && next.Valid() && (held != null ==> held.Valid())
      requires piece != next && held != next
      requires heldPiece != null ==> heldPiece == piece && held != piece
      requires next.lockTimer == Unarmed && next.fallTimer == Unarmed
      requires held != null ==> held.lockTimer == Unarmed && held.fallTimer == Unarmed
      requires heldPiece != null ==> piece.lockTimer == Unarmed && piece.fallTimer == Unarmed
      requires randomBag == [] || BagInvariant(randomBag, drawn)
      requires HighKept(stats.Counts())
      modifies this, next, heldPiece
      ensures Valid() && held == old(held)
      ensures heldPiece == null ==>
        && piece == old(next) && fresh(next)
        && (next.kind, randomBag) == Draw(old(randomBag), shuffled)
        && next.State() == Spawned(next.kind, NextPosition) && next.holdEnabled
      ensures heldPiece != null ==> piece == old(piece) && next == old(next) && randomBag == old(randomBag)
      ensures var e := old((if heldPiece == null then next else piece).State()).(position := SpawnPosition);
        if Fits(matrix.cells, e.minoes, SpawnPosition)
        then piece.State() == e.(rotatedLast := false) && status == Playing && piece.fallTimer == Armed(0)
        else piece.State() == e && status == GameOver && piece.fallTimer == Unarmed
      ensures piece.lockTimer == Unarmed
      ensures matrix.cells == old(matrix.cells) && stats.Counts() == old(stats.Counts())
    {
      if heldPiece == null {
        TakeNext(shuffled);
      }
      Enter(SpawnPosition);
    }

    /** `swap` with the hold reset corrected: if the piece may still be held,
        its timers are cancelled and it changes places with the held piece;
        the piece sent to hold is reset to its spawn offsets, spawn
        orientation and the hold position and may not be held again; the
        piece coming back (or the next piece, when the hold was empty)
        enters the matrix. */
    method Swap(shuffled: seq<Kind>)
      requires Valid() && status == Playing && IsShuffle(shuffled)
      modifies this, piece, next, held
      ensures Valid()
      ensures !old(piece.holdEnabled) ==>
        && piece == old(piece) && held == old(held) && next == old(next) && status == Playing
        && piece.State() == old(piece.State()) && randomBag == old(randomBag)
        && piece.lockTimer == old(piece.lockTimer) && piece.fallTimer == old(piece.fallTimer)
      ensures old(piece.holdEnabled) ==>
        && held == old(piece)
        && held.State() == HoldReset(old(piece.State()), HoldPosition)
        && !held.holdEnabled && held.fallTimer == Unarmed && held.lockTimer == Unarmed
        && piece == (if old(held) == null then old(next) else old(held))
      ensures old(piece.holdEnabled) ==>
        var e := old((if held == null then next else held).State()).(position := SpawnPosition);
        if Fits(matrix.cells, e.minoes, SpawnPosition)
        then piece.State() == e.(rotatedLast := false) && status == Playing && piece.fallTimer == Armed(0)
        else piece.State() == e && status == GameOver && piece.fallTimer == Unarmed
      ensures old(piece.holdEnabled) ==> piece.lockTimer == Unarmed
      ensures old(piece.holdEnabled) && old(held) == null ==>
        && fresh(next) && (next.kind, randomBag) == Draw(old(randomBag), shuffled)
        && next.State() == Spawned(next.kind, NextPosition) && next.holdEnabled
      ensures old(piece.holdEnabled) && old(held) != null ==> next == old(next) && randomBag == old(randomBag)
      ensures matrix.cells == old(matrix.cells) && stats.Counts() == old(stats.Counts())
    {
      if !piece.holdEnabled {
        return;
      }
      var back := held;
      held := piece;
      held.SendToHold(HoldPosition);
      if back != null {
        piece := back;
      }
      NewPiece(shuffled, back);
    }

    /** After `Tetromino.lock` with the outcome it reported for the falling
        piece: a piece that topped out ends the game; a settled piece is
        written into the matrix (`Matrix.lock`), scored
        (`Stats.piece_locked`) and followed by the next piece
        (`new_piece`), which ends the game when it does not fit at the
        entry position of the cleared matrix. */
    method Settle(outcome: LockOutcome, shuffled: seq<Kind>)
      requires Valid() && status == Playing && IsShuffle(shuffled)
      requires outcome != MovedDown ==>
        !Moved(matrix.cells, piece.State(), Down).Some? && outcome == Landing(matrix.cells, piece.State())
      modifies this, matrix, stats, piece, next
      ensures Valid()
      ensures outcome == MovedDown ==>
        && status == Playing && matrix.cells == old(matrix.cells) && stats.Counts() == old(stats.Counts())
        && piece == old(piece) && piece.State() == old(piece.State()) && next == old(next) && randomBag == old(randomBag)
        && piece.lockTimer == old(piece.lockTimer) && piece.fallTimer == old(piece.fallTimer)
      ensures outcome == ToppedOut ==>
        && status == GameOver && matrix.cells == old(matrix.cells) && stats.Counts() == old(stats.Counts())
        && piece == old(piece) && piece.State() == old(piece.State()) && next == old(next) && randomBag == old(randomBag)
        && piece.lockTimer == old(piece.lockTimer) && piece.fallTimer == old(piece.fallTimer)
      ensures outcome.Settled? ==>
        var written := Place(old(matrix.cells), old(piece.minoes), old(piece.position), old(piece.kind));
        var scored := Locked(old(stats.Counts()), CountFull(written), outcome.spin);
        && matrix.cells == Cleared(written)
        && stats.Counts() == scored.counters
        && (scored.KeyError? ==>
              && status == Crashed && piece == old(piece) && next == old(next) && randomBag == old(randomBag)
              && piece.lockTimer == old(piece.lockTimer) && piece.fallTimer == old(piece.fallTimer))
        && (scored.Scored? ==>
              && piece == old(next) && held == old(held)
              && fresh(next) && (next.kind, randomBag) == Draw(old(randomBag), shuffled)
              && next.State() == Spawned(next.kind, NextPosition)
              && var e := old(next.State()).(position := SpawnPosition);
                 if Fits(matrix.cells, e.minoes, SpawnPosition)
                 then piece.State() == e.(rotatedLast := false) && status == Playing && piece.fallTimer == Armed(0)
                 else piece.State() == e && status == GameOver && piece.fallTimer == Unarmed)
        && (scored.Scored? ==> piece.lockTimer == Unarmed)
    {
      match outcome
      case MovedDown =>
      case ToppedOut =>
        status := GameOver;
      case Settled(spin) =>
        FitsInBounds(matrix.cells, piece.minoes, piece.position);
        var n := matrix.Lock(piece);
        var ok := stats.PieceLocked(n, spin);
        LockedKeepsHigh(old(stats.Counts()), n, spin);
        if !ok {
          status := Crashed;
        } else {
          NewPiece(shuffled, null);
        }
    }
  }

  /** Every kind fits at the entry position of an empty matrix. */
  lemma SpawnFits(k: Kind)
    ensures Fits(EmptyRows(NbLines), Minoes(k), SpawnPosition)
  {
    OrientedBox(k, 0);
    EmptyGridFits(EmptyRows(NbLines), Minoes(k), SpawnPosition, 2);
  }
}
