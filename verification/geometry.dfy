/** Integer geometry shared by both versions of the rules engine: points,
    the four movements and the quarter-turn that rotates mino offsets. */
module Geometry {

  /** A cell of the matrix or an offset from a piece's pivot; y grows downwards. */
  datatype Point = Point(x: int, y: int)

  /** Component-wise addition (`Point.__add__`). */
  function Add(p: Point, q: Point): Point
  {
    Point(p.x + q.x, p.y + q.y)
  }

  /** The additive inverse, so that a movement can be undone. */
  function Neg(p: Point): Point
  {
    Point(-p.x, -p.y)
  }

  // The `Movement` constants.
  const Left := Point(-1, 0)
  const Right := Point(1, 0)
  const Down := Point(0, 1)
  const Still := Point(0, 0)

  /** Addition forms a commutative group with `Still` as neutral element
      and `Neg` as inverse: the laws the engine relies on when it adds a
      movement to a pivot and a mino offset to the result. */
  lemma AddLaws(p: Point, q: Point, r: Point)
    ensures Add(p, q) == Add(q, p)
    ensures Add(Add(p, q), r) == Add(p, Add(q, r))
    ensures Add(p, Still) == p
    ensures Add(Add(p, q), Neg(q)) == p
  {
  }

  /** The two rotation directions, valued +1 and -1 in the source. */
  datatype Rotation = Clockwise | Counterclockwise

  function Sign(r: Rotation): (s: int)
    ensures s == 1 || s == -1
  {
    if r == Clockwise then 1 else -1
  }

  function Opposite(r: Rotation): (o: Rotation)
    ensures Sign(o) == -Sign(r)
  {
    if r == Clockwise then Counterclockwise else Clockwise
  }

  /** The quarter turn applied to every mino offset before the kicks are
      tried: (x, y) becomes (-dir * y, dir * x). */
  function RotateOffset(p: Point, r: Rotation): Point
  {
    Point(-Sign(r) * p.y, Sign(r) * p.x)
  }

  /** The quarter turn applied to each offset of a piece, in order. */
  function RotateAll(ms: seq<Point>, r: Rotation): seq<Point>
  {
    seq(|ms|, i requires 0 <= i < |ms| => RotateOffset(ms[i], r))
  }

  /** A quarter turn one way is undone by a quarter turn the other way. */
  lemma RotateOffsetInverse(p: Point, r: Rotation)
    ensures RotateOffset(RotateOffset(p, r), Opposite(r)) == p
  {
  }

  /** Four quarter turns in the same direction give back the offset, and
      three clockwise turns are one counter-clockwise turn. */
  lemma RotateOffsetCycle(p: Point, r: Rotation)
    ensures RotateOffset(RotateOffset(RotateOffset(RotateOffset(p, r), r), r), r) == p
    ensures RotateOffset(RotateOffset(RotateOffset(p, Clockwise), Clockwise), Clockwise)
         == RotateOffset(p, Counterclockwise)
  {
  }

  /** `RotateOffsetInverse`, lifted to the offsets of a whole piece. */
  lemma {:induction false} RotateAllInverse(ms: seq<Point>, r: Rotation)
    ensures RotateAll(RotateAll(ms, r), Opposite(r)) == ms
  {
    var back := RotateAll(RotateAll(ms, r), Opposite(r));
    forall i | 0 <= i < |ms|
      ensures back[i] == ms[i]
    {
      RotateOffsetInverse(ms[i], r);
    }
  }

  /** `RotateOffsetCycle`, lifted to the offsets of a whole piece: applying
      the offset map four times in one direction gives the original offsets. */
  lemma {:induction false} RotateAllCycle(ms: seq<Point>, r: Rotation)
    ensures RotateAll(RotateAll(RotateAll(RotateAll(ms, r), r), r), r) == ms
    ensures RotateAll(RotateAll(RotateAll(ms, Clockwise), Clockwise), Clockwise)
         == RotateAll(ms, Counterclockwise)
  {
    var four := RotateAll(RotateAll(RotateAll(RotateAll(ms, r), r), r), r);
    forall i | 0 <= i < |ms|
      ensures four[i] == ms[i]
    {
      RotateOffsetCycle(ms[i], r);
    }
    var three := RotateAll(RotateAll(RotateAll(ms, Clockwise), Clockwise), Clockwise);
    forall i | 0 <= i < |ms|
      ensures three[i] == RotateAll(ms, Counterclockwise)[i]
    {
      RotateOffsetCycle(ms[i], r);
    }
  }
}
