/** The rules a falling tetromino follows, shared by terminis.py and
    core.py: its state as a value, and what a move, a rotation, a hard drop,
    the T-spin test and the reset on hold make of it. Each version's
    `Tetromino` class is proved against these functions. */
module PieceRules {
  import opened Options
  import opened Geometry
  import opened Tetrominoes
  import opened Playfield

  /** The fields of a `Tetromino` that the rules read and write. */
  datatype PieceState = PieceState(
    kind: Kind,
    position: Point,
    orientation: nat,
    minoes: seq<Point>,
    rotationPoint5Used: bool,
    rotatedLast: bool)

  /** A timer of the scheduler, seen only as armed or not; `restarts`
      counts how often an armed lock timer was cancelled and entered anew. */
  datatype Timer = Unarmed | Armed(restarts: nat)

  /** `locking`: the lock timer is entered unless it is already armed. */
  function Engaged(t: Timer): Timer
  {
    if t.Unarmed? then Armed(0) else t
  }

  /** `postpone_lock`: an armed lock timer is cancelled and entered anew;
      an unarmed one stays unarmed. */
  function Postponed(t: Timer): Timer
  {
    match t
    case Unarmed => Unarmed
    case Armed(n) => Armed(n + 1)
  }

  /** After `locking` the timer is armed, and a timer already armed is not
      restarted by it (so moving into the floor again does not extend the
      lock delay); only a committed move or rotation restarts an armed
      timer, and nothing here disarms one. */
  lemma TimerRules(t: Timer)
    ensures Engaged(t).Armed? && (t.Armed? ==> Engaged(t) == t)
    ensures Engaged(Engaged(t)) == Engaged(t)
    ensures Postponed(t).Armed? == t.Armed?
    ensures t.Armed? ==> Postponed(t).restarts == t.restarts + 1
  {
  }

  /** The orientation is one of 0..3 and the offsets are the spawn offsets
      turned clockwise that many times. */
  ghost predicate Consistent(s: PieceState)
  {
    s.orientation < 4 && s.minoes == Oriented(s.kind, s.orientation)
  }

  /** A piece as `Tetromino.__init__` creates it. */
  function Spawned(k: Kind, position: Point): (s: PieceState)
    ensures Consistent(s)
    ensures s.kind == k && s.position == position && !s.rotatedLast && !s.rotationPoint5Used
  {
    PieceState(k, position, 0, Minoes(k), false, false)
  }

  /** A move by `m`: committed when every mino fits at the new pivot; it
      then forgets that the last action was a rotation. */
  function Moved(g: Grid, s: PieceState, m: Point): Option<PieceState>
  {
    var candidate := Add(s.position, m);
    if Fits(g, s.minoes, candidate) then Some(s.(position := candidate, rotatedLast := false))
    else None
  }

  /** A committed move keeps the piece's shape, and the opposite move, from
      the new place, brings it back (a placement that fitted still fits). */
  lemma MoveUndo(g: Grid, s: PieceState, m: Point)
    requires Fits(g, s.minoes, s.position)
    requires Moved(g, s, m).Some?
    ensures Consistent(s) ==> Consistent(Moved(g, s, m).value)
    ensures Moved(g, Moved(g, s, m).value, Neg(m)) == Some(s.(rotatedLast := false))
  {
    AddLaws(s.position, m, Neg(m));
  }

  /** A move by `Still` tests the piece where it is: it is committed exactly
      when the piece fits in place, and then only forgets the rotation. */
  lemma StillMove(g: Grid, s: PieceState)
    ensures Moved(g, s, Still) == if Fits(g, s.minoes, s.position) then Some(s.(rotatedLast := false)) else None
  {
    AddLaws(s.position, Still, Still);
  }

  /** `Tetromino.rotate` (and `O.rotate`, which always refuses): turn every
      offset a quarter turn, then commit the first of the five kicks of the
      current orientation and direction at which the turned piece fits. */
  function Rotated(g: Grid, s: PieceState, r: Rotation): (res: Option<PieceState>)
    requires s.orientation < 4
    ensures s.kind == O ==> res.None?
    ensures res.None? && s.kind != O ==>
      forall i :: 0 <= i < 5 ==>
        !Fits(g, RotateAll(s.minoes, r), Add(s.position, Kicks(s.kind, s.orientation, r)[i]))
    ensures res.Some? ==>
      var t := res.value;
      && t.kind == s.kind
      && t.orientation == Turned(s.orientation, r)
      && t.minoes == RotateAll(s.minoes, r)
      && t.rotatedLast
      && Fits(g, t.minoes, t.position)
      && exists i :: 0 <= i < 5
           && t.position == Add(s.position, Kicks(s.kind, s.orientation, r)[i])
           && t.rotationPoint5Used == (s.rotationPoint5Used || i == 4)
           && forall j :: 0 <= j < i ==> !Fits(g, t.minoes, Add(s.position, Kicks(s.kind, s.orientation, r)[j]))
  {
    if s.kind == O then None
    else
      var turned := RotateAll(s.minoes, r);
      var kicks := Kicks(s.kind, s.orientation, r);
      match FirstFit(g, turned, s.position, kicks)
      case None => None
      case Some(i) =>
        Some(s.(orientation := Turned(s.orientation, r),
                position := Add(s.position, kicks[i]),
                minoes := turned,
                rotatedLast := true,
                rotationPoint5Used := s.rotationPoint5Used || i == 4))
  }

  /** The kick loop, read from the other side: if kick `i` is the first at
      which the turned piece fits, the rotation commits exactly that kick. */
  lemma RotatedAt(g: Grid, s: PieceState, r: Rotation, i: nat)
    requires s.orientation < 4 && s.kind != O && i < 5
    requires Fits(g, RotateAll(s.minoes, r), Add(s.position, Kicks(s.kind, s.orientation, r)[i]))
    requires forall j :: 0 <= j < i ==> !Fits(g, RotateAll(s.minoes, r), Add(s.position, Kicks(s.kind, s.orientation, r)[j]))
    ensures Rotated(g, s, r) == Some(s.(orientation := Turned(s.orientation, r),
                                        position := Add(s.position, Kicks(s.kind, s.orientation, r)[i]),
                                        minoes := RotateAll(s.minoes, r),
                                        rotatedLast := true,
                                        rotationPoint5Used := s.rotationPoint5Used || i == 4))
  {
    var f := FirstFit(g, RotateAll(s.minoes, r), s.position, Kicks(s.kind, s.orientation, r));
    if f.None? || f.value < i || f.value > i {
      assert false;
    }
  }

  /** A committed rotation keeps offsets and orientation in step, and the
      flag for the fifth kick, once set, stays set. */
  lemma RotatedKeepsShape(g: Grid, s: PieceState, r: Rotation)
    requires Consistent(s)
    requires Rotated(g, s, r).Some?
    ensures Consistent(Rotated(g, s, r).value)
    ensures s.rotationPoint5Used ==> Rotated(g, s, r).value.rotationPoint5Used
  {
    OrientedTurn(s.kind, s.orientation, r);
  }

  /** When the turned piece fits at the first kick, that kick is the one
      committed, whatever the later kicks would allow. */
  lemma FirstKickWins(g: Grid, s: PieceState, r: Rotation)
    requires Consistent(s) && s.kind != O
    requires Fits(g, Oriented(s.kind, Turned(s.orientation, r)),
                  Add(s.position, Kicks(s.kind, s.orientation, r)[0]))
    ensures Rotated(g, s, r) == Some(s.(orientation := Turned(s.orientation, r),
                                        position := Add(s.position, Kicks(s.kind, s.orientation, r)[0]),
                                        minoes := Oriented(s.kind, Turned(s.orientation, r)),
                                        rotatedLast := true))
  {
    OrientedTurn(s.kind, s.orientation, r);
  }

  /** `n` rotations in the same direction, stopping at the first refusal. */
  function Turns(g: Grid, s: PieceState, r: Rotation, n: nat): Option<PieceState>
    requires s.orientation < 4
    decreases n
  {
    if n == 0 then Some(s)
    else
      match Rotated(g, s, r)
      case None => None
      case Some(t) => Turns(g, t, r, n - 1)
  }

  /** A matrix with no locked mino. */
  ghost predicate IsEmptyGrid(g: Grid)
  {
    forall y :: 0 <= y < |g| ==> g[y] == EmptyRow()
  }

  /** Every offset lies within `b` cells of the pivot in both directions. */
  ghost predicate WithinBox(ms: seq<Point>, b: nat)
  {
    forall i :: 0 <= i < |ms| ==> -(b as int) <= ms[i].x <= b && -(b as int) <= ms[i].y <= b
  }

  /** A pivot whose box of half-width `b` is within the columns and above
      the bottom. */
  ghost predicate Roomy(g: Grid, p: Point, b: nat)
  {
    b <= p.x < NbCols - b && p.y < |g| - b
  }

  /** The I piece stays within two cells of its pivot, every other piece
      within one, in every orientation. */
  lemma {:induction false} OrientedBox(k: Kind, o: nat)
    ensures WithinBox(Oriented(k, o), if k == I then 2 else 1)
  {
    if o > 0 {
      OrientedBox(k, o - 1);
    }
  }

  /** In an empty matrix, a piece fits wherever its box has room. */
  lemma EmptyGridFits(g: Grid, ms: seq<Point>, pos: Point, b: nat)
    requires IsEmptyGrid(g) && WithinBox(ms, b) && Roomy(g, pos, b)
    ensures Fits(g, ms, pos)
  {
    forall i | 0 <= i < |ms|
      ensures IsFreeCell(g, Add(ms[i], pos))
    {
      var p := Add(ms[i], pos);
      if p.y >= 0 {
        assert g[p.y] == EmptyRow();
      }
    }
  }

  /** One rotation in an empty matrix: when the box around the first kick's
      pivot has room, that kick is committed. */
  lemma EmptyGridTurn(g: Grid, s: PieceState, r: Rotation)
    requires IsEmptyGrid(g) && Consistent(s) && s.kind != O
    requires Roomy(g, Add(s.position, Kicks(s.kind, s.orientation, r)[0]), if s.kind == I then 2 else 1)
    ensures Rotated(g, s, r) == Some(s.(orientation := Turned(s.orientation, r),
                                        position := Add(s.position, Kicks(s.kind, s.orientation, r)[0]),
                                        minoes := Oriented(s.kind, Turned(s.orientation, r)),
                                        rotatedLast := true))
  {
    var o' := Turned(s.orientation, r);
    OrientedBox(s.kind, o');
    EmptyGridFits(g, Oriented(s.kind, o'), Add(s.position, Kicks(s.kind, s.orientation, r)[0]),
                  if s.kind == I then 2 else 1);
    FirstKickWins(g, s, r);
  }

  /** A piece other than O or I, with room around it in an empty matrix,
      turns in place. */
  lemma TurnInPlace(g: Grid, s: PieceState, r: Rotation)
    requires IsEmptyGrid(g) && Consistent(s) && s.kind != O && s.kind != I
    requires Roomy(g, s.position, 1)
    ensures Rotated(g, s, r) == Some(s.(orientation := Turned(s.orientation, r),
                                        minoes := Oriented(s.kind, Turned(s.orientation, r)),
                                        rotatedLast := true))
  {
    AddLaws(s.position, Still, Still);
    EmptyGridTurn(g, s, r);
  }

  /** A full turn of a J, L, S, T or Z piece: in an empty matrix, away from
      the walls, four rotations in one direction give back the orientation,
      the offsets and the position. */
  lemma FourTurnsReturn(g: Grid, s: PieceState, r: Rotation)
    requires IsEmptyGrid(g) && Consistent(s) && s.kind != O && s.kind != I
    requires Roomy(g, s.position, 1)
    ensures Turns(g, s, r, 4) == Some(s.(rotatedLast := true))
  {
    var k := s.kind;
    var o1 := Turned(s.orientation, r);
    var o2 := Turned(o1, r);
    var o3 := Turned(o2, r);
    var o4 := Turned(o3, r);
    var s1 := s.(orientation := o1, minoes := Oriented(k, o1), rotatedLast := true);
    var s2 := s1.(orientation := o2, minoes := Oriented(k, o2));
    var s3 := s2.(orientation := o3, minoes := Oriented(k, o3));
    var s4 := s3.(orientation := o4, minoes := Oriented(k, o4));
    TurnInPlace(g, s, r);
    TurnInPlace(g, s1, r);
    TurnInPlace(g, s2, r);
    TurnInPlace(g, s3, r);
    assert Turns(g, s3, r, 1) == Some(s4);
    assert Turns(g, s2, r, 2) == Some(s4);
    assert Turns(g, s1, r, 3) == Some(s4);
    FourTurned(s.orientation, r);
  }

  /** The I table as written: from its spawn orientation, four clockwise
      rotations in an empty matrix leave the I piece two rows lower (its
      first clockwise kicks are (1, 0), (0, 1), (-1, 0) and (0, 1)) ... */
  lemma ITurnsClockwise(g: Grid, s: PieceState)
    requires IsEmptyGrid(g) && Consistent(s) && s.kind == I && s.orientation == 0
    requires 3 <= s.position.x <= NbCols - 4 && s.position.y <= |g| - 5
    ensures Turns(g, s, Clockwise, 4) ==
      Some(s.(position := Point(s.position.x, s.position.y + 2), rotatedLast := true))
  {
    var x, y := s.position.x, s.position.y;
    // Orientations 1, 2, 3, 0.
    var c1 := s.(orientation := 1, position := Point(x + 1, y), minoes := Oriented(I, 1), rotatedLast := true);
    var c2 := c1.(orientation := 2, position := Point(x + 1, y + 1), minoes := Oriented(I, 2));
    var c3 := c2.(orientation := 3, position := Point(x, y + 1), minoes := Oriented(I, 3));
    var c4 := c3.(orientation := 0, position := Point(x, y + 2), minoes := Oriented(I, 0));
    EmptyGridTurn(g, s, Clockwise);
    TurnedCases(0, Clockwise);
    assert Kicks(I, 0, Clockwise)[0] == Point(1, 0);
    assert Add(s.position, Point(1, 0)) == c1.position;
    assert Rotated(g, s, Clockwise) == Some(c1);
    EmptyGridTurn(g, c1, Clockwise);
    TurnedCases(1, Clockwise);
    assert Kicks(I, 1, Clockwise)[0] == Point(0, 1);
    assert Add(c1.position, Point(0, 1)) == c2.position;
    assert Rotated(g, c1, Clockwise) == Some(c2);
    EmptyGridTurn(g, c2, Clockwise);
    TurnedCases(2, Clockwise);
    assert Kicks(I, 2, Clockwise)[0] == Point(-1, 0);
    assert Add(c2.position, Point(-1, 0)) == c3.position;
    assert Rotated(g, c2, Clockwise) == Some(c3);
    EmptyGridTurn(g, c3, Clockwise);
    TurnedCases(3, Clockwise);
    assert Kicks(I, 3, Clockwise)[0] == Point(0, 1);
    assert Add(c3.position, Point(0, 1)) == c4.position;
    assert Rotated(g, c3, Clockwise) == Some(c4);
    assert Turns(g, c3, Clockwise, 1) == Some(c4);
    assert Turns(g, c2, Clockwise, 2) == Some(c4);
    assert Turns(g, c1, Clockwise, 3) == Some(c4);
  }

  /** ... and four counter-clockwise rotations bring it back. */
  lemma ITurnsCounterclockwise(g: Grid, s: PieceState)
    requires IsEmptyGrid(g) && Consistent(s) && s.kind == I && s.orientation == 0
    requires 3 <= s.position.x <= NbCols - 4 && s.position.y <= |g| - 5
    ensures Turns(g, s, Counterclockwise, 4) == Some(s.(rotatedLast := true))
  {
    var x, y := s.position.x, s.position.y;
    // Orientations 3, 2, 1, 0.
    var a1 := s.(orientation := 3, position := Point(x, y + 1), minoes := Oriented(I, 3), rotatedLast := true);
    var a2 := a1.(orientation := 2, position := Point(x + 1, y + 1), minoes := Oriented(I, 2));
    var a3 := a2.(orientation := 1, position := Point(x + 1, y), minoes := Oriented(I, 1));
    var a4 := a3.(orientation := 0, position := Point(x, y), minoes := Oriented(I, 0));
    EmptyGridTurn(g, s, Counterclockwise);
    TurnedCases(0, Counterclockwise);
    assert Kicks(I, 0, Counterclockwise)[0] == Point(0, 1);
    assert Add(s.position, Point(0, 1)) == a1.position;
    assert Rotated(g, s, Counterclockwise) == Some(a1);
    EmptyGridTurn(g, a1, Counterclockwise);
    TurnedCases(3, Counterclockwise);
    assert Kicks(I, 3, Counterclockwise)[0] == Point(1, 0);
    assert Add(a1.position, Point(1, 0)) == a2.position;
    assert Rotated(g, a1, Counterclockwise) == Some(a2);
    EmptyGridTurn(g, a2, Counterclockwise);
    TurnedCases(2, Counterclockwise);
    assert Kicks(I, 2, Counterclockwise)[0] == Point(0, -1);
    assert Add(a2.position, Point(0, -1)) == a3.position;
    assert Rotated(g, a2, Counterclockwise) == Some(a3);
    EmptyGridTurn(g, a3, Counterclockwise);
    TurnedCases(1, Counterclockwise);
    assert Kicks(I, 1, Counterclockwise)[0] == Point(-1, 0);
    assert Add(a3.position, Point(-1, 0)) == a4.position;
    assert Rotated(g, a3, Counterclockwise) == Some(a4);
    assert Turns(g, a3, Counterclockwise, 1) == Some(a4);
    assert Turns(g, a2, Counterclockwise, 2) == Some(a4);
    assert Turns(g, a1, Counterclockwise, 3) == Some(a4);
  }

  /** How many rows the piece can still fall: the `while self.move(DOWN)`
      loop of a hard drop runs this many times. */
  function DropDistance(g: Grid, s: PieceState): nat
    requires |s.minoes| > 0
    decreases |g| - (s.position.y + s.minoes[0].y)
  {
    match Moved(g, s, Down)
    case None => 0
    case Some(t) =>
      assert IsFreeCell(g, Add(s.minoes[0], t.position));
      1 + DropDistance(g, t)
  }

  /** The piece lowered by `d` rows by validated moves. */
  function Lowered(s: PieceState, d: nat): PieceState
  {
    s.(position := Add(s.position, Point(0, d)), rotatedLast := s.rotatedLast && d == 0)
  }

  /** A hard drop lands: the piece fits at every row down to `DropDistance`
      and not one row below it. */
  lemma {:induction false} DropLands(g: Grid, s: PieceState, j: nat)
    requires |s.minoes| > 0
    ensures j <= DropDistance(g, s) ==> Moved(g, Lowered(s, j), Down).Some? == (j < DropDistance(g, s))
    ensures 0 < j <= DropDistance(g, s) ==> Fits(g, s.minoes, Add(s.position, Point(0, j)))
    decreases |g| - (s.position.y + s.minoes[0].y)
  {
    match Moved(g, s, Down)
    case None =>
    case Some(t) =>
      assert IsFreeCell(g, Add(s.minoes[0], t.position));
      if j > 0 {
        DropLands(g, t, j - 1);
        assert Lowered(t, j - 1).position == Lowered(s, j).position;
      }
  }

  /** Whether corner `i` of the T slot is taken (or off the matrix); 0 and
      1 are the two corners the T points at, 2 and 3 the two behind it. */
  predicate CornerTaken(g: Grid, s: PieceState, i: nat)
    requires i < 4
  {
    !IsFreeCell(g, Add(s.position, TSlot((i + s.orientation) % 4)))
  }

  function TakenCorners(g: Grid, s: PieceState): nat
  {
    (if CornerTaken(g, s, 0) then 1 else 0) + (if CornerTaken(g, s, 1) then 1 else 0)
    + (if CornerTaken(g, s, 2) then 1 else 0) + (if CornerTaken(g, s, 3) then 1 else 0)
  }

  /** `T.t_spin` (and `Tetromino.t_spin`, always "" for the other kinds):
      a T piece whose last action was a rotation is a T-spin when it used the
      fifth kick; otherwise it is a spin exactly when three of the four
      corners are taken, a full one when both front corners are. */
  function TSpinOf(g: Grid, s: PieceState): (r: Spin)
    ensures r != NoSpin ==> s.kind == T && s.rotatedLast
    ensures s.kind == T && s.rotatedLast && s.rotationPoint5Used ==> r == Full
    ensures s.kind == T && s.rotatedLast && !s.rotationPoint5Used ==>
      && (r != NoSpin <==> TakenCorners(g, s) >= 3)
      && (r == Full <==> CornerTaken(g, s, 0) && CornerTaken(g, s, 1) && TakenCorners(g, s) >= 3)
      && (r == Mini <==> CornerTaken(g, s, 2) && CornerTaken(g, s, 3) && CornerTaken(g, s, 0) != CornerTaken(g, s, 1))
  {
    if s.kind == T && s.rotatedLast then
      var a := !IsFreeCell(g, Add(s.position, TSlot(s.orientation % 4)));
      var b := !IsFreeCell(g, Add(s.position, TSlot((1 + s.orientation) % 4)));
      var c := !IsFreeCell(g, Add(s.position, TSlot((3 + s.orientation) % 4)));
      var d := !IsFreeCell(g, Add(s.position, TSlot((2 + s.orientation) % 4)));
      if s.rotationPoint5Used || (a && b && (c || d)) then Full
      else if c && d && (a || b) then Mini
      else NoSpin
    else NoSpin
  }

  /** What `Game.swap` does to the piece it sends to hold, as corrected:
      spawn offsets, the hold anchor, and the spawn orientation. */
  function HoldReset(s: PieceState, anchor: Point): (r: PieceState)
    ensures Consistent(r)
    ensures r.kind == s.kind && r.position == anchor
  {
    s.(position := anchor, minoes := Minoes(s.kind), orientation := 0)
  }

  /** What `Game.swap` does to it as written: offsets and position are
      reset, the orientation is left as it was. */
  function HoldResetAsWritten(s: PieceState, anchor: Point): PieceState
  {
    s.(position := anchor, minoes := Minoes(s.kind))
  }

  /** The discrepancy: a T piece turned once clockwise in an empty matrix
      and then sent to hold comes back with spawn offsets but orientation 1,
      so its next rotation would use the kicks and corners of the wrong
      orientation. The corrected reset keeps the two in step. */
  lemma HoldResetAsWrittenLosesOrientation()
    ensures var turned := Rotated(EmptyRows(20), Spawned(T, Point(4, 5)), Clockwise);
      && turned.Some? && Consistent(turned.value) && turned.value.orientation == 1
      && !Consistent(HoldResetAsWritten(turned.value, Point(6, 3)))
      && Consistent(HoldReset(turned.value, Point(6, 3)))
  {
    var g := EmptyRows(20);
    var s := Spawned(T, Point(4, 5));
    assert IsEmptyGrid(g);
    OrientedBox(T, 1);
    EmptyGridFits(g, Oriented(T, 1), s.position, 1);
    FirstKickWins(g, s, Clockwise);
    var t := Rotated(g, s, Clockwise).value;
    assert Oriented(T, 1)[0] == Point(0, -1);
    assert t.minoes[0] != Minoes(T)[0];
  }
}
