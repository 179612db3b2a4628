/** The seven tetromino kinds with their literal shape, corner and
    Super Rotation System tables (identical in terminis.py and core.py). */
module Tetrominoes {
  import opened Geometry

  datatype Kind = O | I | T | L | J | S | Z

  /** The T-spin classification a lock reports: "", "MINI T-SPIN" or "T-SPIN". */
  datatype Spin = NoSpin | Mini | Full

  /** `MINOES_POSITIONS`: the offsets of the four minoes in the spawn orientation. */
  function Minoes(k: Kind): (ms: seq<Point>)
    ensures |ms| == 4
  {
    match k
    case O => [Point(0, 0), Point(1, 0), Point(0, -1), Point(1, -1)]
    case I => [Point(-1, 0), Point(0, 0), Point(1, 0), Point(2, 0)]
    case T => [Point(-1, 0), Point(0, 0), Point(0, -1), Point(1, 0)]
    case L => [Point(-1, 0), Point(0, 0), Point(1, 0), Point(1, -1)]
    case J => [Point(-1, -1), Point(-1, 0), Point(0, 0), Point(1, 0)]
    case S => [Point(-1, 0), Point(0, 0), Point(0, -1), Point(1, -1)]
    case Z => [Point(-1, -1), Point(0, -1), Point(0, 0), Point(1, 0)]
  }

  /** The offsets a piece of kind `k` has after `o` clockwise quarter turns
      from its spawn orientation: what its offsets must be in orientation `o`. */
  function Oriented(k: Kind, o: nat): (ms: seq<Point>)
    ensures |ms| == 4
  {
    if o == 0 then Minoes(k) else RotateAll(Oriented(k, o - 1), Clockwise)
  }

  /** Turning the offsets of orientation `o` by a quarter turn gives the
      offsets of orientation `(o + dir) mod 4`: offsets and orientation stay
      in step however a piece is rotated. */
  lemma {:induction false} OrientedTurn(k: Kind, o: nat, r: Rotation)
    requires o < 4
    ensures RotateAll(Oriented(k, o), r) == Oriented(k, Turned(o, r))
  {
    TurnedCases(o, r);
    if r == Clockwise {
      if o == 3 {
        RotateAllCycle(Minoes(k), Clockwise);
        assert Oriented(k, 4) == RotateAll(RotateAll(RotateAll(RotateAll(Minoes(k), Clockwise), Clockwise), Clockwise), Clockwise);
      }
    } else {
      if o == 0 {
        RotateAllCycle(Minoes(k), Clockwise);
        assert Oriented(k, 3) == RotateAll(RotateAll(RotateAll(Minoes(k), Clockwise), Clockwise), Clockwise);
      } else {
        RotateAllInverse(Oriented(k, o - 1), Clockwise);
      }
    }
  }

  /** `Tetromino.SUPER_ROTATION_SYSTEM`: for each orientation and direction
      the five kicks, tried in this order. Transcribed as written. */
  function DefaultKicks(o: nat, r: Rotation): (ks: seq<Point>)
    requires o < 4
    ensures |ks| == 5
  {
    match (o, r)
    case (0, Counterclockwise) => [Point(0, 0), Point(1, 0), Point(1, -1), Point(0, 2), Point(1, 2)]
    case (0, Clockwise) =>        [Point(0, 0), Point(-1, 0), Point(-1, -1), Point(0, 2), Point(-1, 2)]
    case (1, Counterclockwise) => [Point(0, 0), Point(1, 0), Point(1, 1), Point(0, -2), Point(1, -2)]
    case (1, Clockwise) =>        [Point(0, 0), Point(1, 0), Point(1, 1), Point(0, -2), Point(1, -2)]
    case (2, Counterclockwise) => [Point(0, 0), Point(-1, 0), Point(-1, -1), Point(0, 2), Point(-1, 2)]
    case (2, Clockwise) =>        [Point(0, 0), Point(1, 0), Point(1, -1), Point(0, 2), Point(1, 2)]
    case (3, Counterclockwise) => [Point(0, 0), Point(-1, 0), Point(-1, 1), Point(0, -2), Point(-1, -2)]
    case (_, Clockwise) =>        [Point(0, 0), Point(-1, 0), Point(-1, 1), Point(0, 2), Point(-1, -2)]
  }

  /** `I.SUPER_ROTATION_SYSTEM`, transcribed as written. */
  function IKicks(o: nat, r: Rotation): (ks: seq<Point>)
    requires o < 4
    ensures |ks| == 5
  {
    match (o, r)
    case (0, Counterclockwise) => [Point(0, 1), Point(-1, 1), Point(2, 1), Point(-1, -1), Point(2, 2)]
    case (0, Clockwise) =>        [Point(1, 0), Point(-1, 0), Point(2, 0), Point(-1, 1), Point(2, -2)]
    case (1, Counterclockwise) => [Point(-1, 0), Point(1, 0), Point(-2, 0), Point(1, -1), Point(-2, 2)]
    case (1, Clockwise) =>        [Point(0, 1), Point(-1, 1), Point(2, 1), Point(-1, -1), Point(2, 2)]
    case (2, Counterclockwise) => [Point(0, -1), Point(1, -1), Point(-2, -1), Point(1, 1), Point(-2, -2)]
    case (2, Clockwise) =>        [Point(-1, 0), Point(1, 0), Point(-2, 0), Point(1, -1), Point(-2, 2)]
    case (3, Counterclockwise) => [Point(1, 0), Point(-1, 0), Point(2, 0), Point(-1, 1), Point(2, -2)]
    case (_, Clockwise) =>        [Point(0, 1), Point(1, -1), Point(-2, -1), Point(1, 1), Point(-2, -2)]
  }

  /** A rotation committed at kick `i` is undone by the opposite rotation
      from the new orientation at the same kick, for every entry of the
      default table but one pair: between orientations 3 and 0 the fourth
      kicks are both (0, 2), so they do not cancel. */
  lemma DefaultKicksReverse(o: nat, r: Rotation, i: nat)
    requires o < 4 && i < 5
    ensures DefaultKicks(Turned(o, r), Opposite(r))[i] == Neg(DefaultKicks(o, r)[i])
        <==> !(((o == 3 && r == Clockwise) || (o == 0 && r == Counterclockwise)) && i == 3)
  {
    TurnedCases(o, r);
  }

  /** The same for the I table: every entry is undone by the opposite
      rotation except, between orientations 3 and 0, the first kicks, both
      (0, 1); so four clockwise turns of an I piece that take the first
      kick each time leave it two rows lower. */
  lemma IKicksReverse(o: nat, r: Rotation, i: nat)
    requires o < 4 && i < 5
    ensures IKicks(Turned(o, r), Opposite(r))[i] == Neg(IKicks(o, r)[i])
        <==> !(((o == 3 && r == Clockwise) || (o == 0 && r == Counterclockwise)) && i == 0)
  {
    TurnedCases(o, r);
  }

  /** The kick table a piece of kind `k` looks up (the I piece overrides it). */
  function Kicks(k: Kind, o: nat, r: Rotation): (ks: seq<Point>)
    requires o < 4
    ensures |ks| == 5
    ensures k != I ==> ks[0] == Point(0, 0)
  {
    if k == I then IKicks(o, r) else DefaultKicks(o, r)
  }

  /** The orientation after a quarter turn in direction `r`:
      `(orientation + direction) % 4`. */
  function Turned(o: nat, r: Rotation): (o': nat)
    requires o < 4
    ensures o' < 4
  {
    (o + Sign(r)) % 4
  }

  /** A clockwise turn goes from 3 back to 0, a counter-clockwise one
      from 0 to 3; every other turn adds the direction. */
  lemma TurnedCases(o: nat, r: Rotation)
    requires o < 4
    ensures Turned(o, r) == if r == Clockwise then (if o == 3 then 0 else o + 1) else (if o == 0 then 3 else o - 1)
  {
  }

  /** Four quarter turns in one direction give back the orientation. */
  lemma FourTurned(o: nat, r: Rotation)
    requires o < 4
    ensures Turned(Turned(Turned(Turned(o, r), r), r), r) == o
  {
    TurnedCases(o, r);
    TurnedCases(Turned(o, r), r);
    TurnedCases(Turned(Turned(o, r), r), r);
    TurnedCases(Turned(Turned(Turned(o, r), r), r), r);
  }

  /** `T.T_SLOT`: the four diagonal corners around the T's pivot. */
  function TSlot(i: nat): Point
    requires i < 4
  {
    [Point(-1, -1), Point(1, -1), Point(1, 1), Point(-1, 1)][i]
  }
}
