/** The scoring rules of `Stats`, as functions on the counters: the
    `SCORES` table, `new_level`, `piece_dropped`, and `piece_locked` in its
    two versions (terminis.py without combo, core.py with combo). Each
    version's `Stats` class is proved against these functions. */
module Scoring {
  import opened Options
  import opened Tetrominoes

  /** `Stats.SCORES[nb_lines][t_spin]`, transcribed as written: `None` where
      the lookup raises (no row beyond four lines; no "MINI T-SPIN" key from
      two lines on, no "T-SPIN" key for four lines). */
  function ScoreValue(nb: nat, spin: Spin): (v: Option<nat>)
    ensures v.None? <==> nb > 4 || (spin == Mini && nb >= 2) || (spin == Full && nb == 4)
  {
    match (nb, spin)
    case (0, NoSpin) => Some(0)
    case (0, Mini) => Some(1)
    case (0, Full) => Some(4)
    case (1, NoSpin) => Some(1)
    case (1, Mini) => Some(2)
    case (1, Full) => Some(8)
    case (2, NoSpin) => Some(3)
    case (2, Full) => Some(12)
    case (3, NoSpin) => Some(5)
    case (3, Full) => Some(16)
    case (4, NoSpin) => Some(8)
    case _ => None
  }

  /** The table rewards more: one more line never scores less, a spin scores
      more than the same lines without one, and a full T-spin clearing `n`
      lines is worth 4 * (n + 1). */
  lemma ScoreTableOrdered(nb: nat, spin: Spin)
    ensures ScoreValue(nb, spin).Some? && ScoreValue(nb + 1, spin).Some? ==>
      ScoreValue(nb, spin).value < ScoreValue(nb + 1, spin).value
    ensures spin != NoSpin && ScoreValue(nb, spin).Some? ==>
      ScoreValue(nb, NoSpin).value < ScoreValue(nb, spin).value
    ensures nb < 4 ==> ScoreValue(nb, Full) == Some(4 * (nb + 1))
  {
  }

  /** The counters of `Stats` that the rules read and write. */
  datatype Counters = Counters(level: int, goal: int, score: int, highScore: int, linesCleared: int)

  /** The result of `piece_locked`: the new counters, or the counters as
      they stand when the `SCORES` lookup raises. */
  datatype Scored = Scored(counters: Counters) | KeyError(counters: Counters)

  /** The high score is at least the score. */
  ghost predicate HighKept(c: Counters)
  {
    c.highScore >= c.score
  }

  /** `new_level`. */
  function LevelUp(c: Counters): Counters
  {
    var level := c.level + 1;
    c.(level := level, goal := c.goal + 5 * level)
  }

  /** The high-score update shared by every scoring operation. */
  function RaiseHigh(c: Counters): Counters
  {
    if c.score > c.highScore then c.(highScore := c.score) else c
  }

  /** `piece_dropped(lines)`. */
  function Dropped(c: Counters, lines: int): Counters
  {
    RaiseHigh(c.(score := c.score + lines))
  }

  /** Drop points: the score moves by exactly the points given, the high
      score never goes down and ends at least as high as the score. */
  lemma DroppedScores(c: Counters, lines: int)
    ensures Dropped(c, lines).score == c.score + lines
    ensures Dropped(c, lines).highScore >= c.highScore
    ensures HighKept(Dropped(c, lines))
    ensures Dropped(c, lines).highScore == if c.score + lines > c.highScore then c.score + lines else c.highScore
    ensures Dropped(c, lines).(score := c.score, highScore := c.highScore) == c
  {
  }

  /** The base award of a lock that scores `v` table points: the goal
      drops by `v` and the score rises by `v` * 100 * level. */
  function Award(c: Counters, v: nat): Counters
  {
    c.(goal := c.goal - v, score := c.score + v * 100 * c.level)
  }

  /** terminis.py `piece_locked(nb_lines, t_spin)`: nothing happens unless
      lines were cleared or a spin was made; otherwise the lines are
      counted, the table is looked up, the award is added, the high score
      follows, and a goal at or below 0 starts a new level. */
  function Locked(c: Counters, nb: nat, spin: Spin): Scored
  {
    if nb == 0 && spin == NoSpin then Scored(c)
    else
      var counted := c.(linesCleared := c.linesCleared + nb);
      match ScoreValue(nb, spin)
      case None => KeyError(counted)
      case Some(v) =>
        var awarded := RaiseHigh(Award(counted, v));
        Scored(if awarded.goal <= 0 then LevelUp(awarded) else awarded)
  }

  /** What a lock does to the counters in terminis.py: an empty lock (no
      line, no spin) changes nothing; otherwise the line count always
      grows by `nb`, the lookup fails exactly on the missing table keys,
      and a successful lookup of `v` adds `v` * 100 * level to the score,
      takes `v` off the goal and then starts a new level exactly when the
      goal reached 0 or below. */
  lemma LockedEffect(c: Counters, nb: nat, spin: Spin)
    ensures nb == 0 && spin == NoSpin ==> Locked(c, nb, spin) == Scored(c)
    ensures (nb > 0 || spin != NoSpin) ==>
      && Locked(c, nb, spin).counters.linesCleared == c.linesCleared + nb
      && (Locked(c, nb, spin).KeyError? <==> ScoreValue(nb, spin).None?)
    ensures (nb > 0 || spin != NoSpin) && ScoreValue(nb, spin).Some? ==>
      var v := ScoreValue(nb, spin).value;
      var r := Locked(c, nb, spin).counters;
      && r.score == c.score + v * 100 * c.level
      && r.level == (if c.goal - v <= 0 then c.level + 1 else c.level)
      && r.goal == (if c.goal - v <= 0 then c.goal - v + 5 * (c.level + 1) else c.goal - v)
  {
  }

  /** Every scoring operation of terminis.py keeps the high score at least
      the score and never lowers it, and at a non-negative level never
      lowers the score. */
  lemma LockedKeepsHigh(c: Counters, nb: nat, spin: Spin)
    requires HighKept(c)
    ensures HighKept(Locked(c, nb, spin).counters)
    ensures Locked(c, nb, spin).counters.highScore >= c.highScore
    ensures c.level >= 0 ==> Locked(c, nb, spin).counters.score >= c.score
  {
  }

  /** Two worked cases from the table: a Tetris at level 1 scores 800 and
      a T-spin double at level 2 scores 2400; a mini T-spin double raises. */
  lemma LockedExamples(c: Counters)
    requires c.level == 1 && c.goal > 8
    ensures Locked(c, 4, NoSpin).counters.score == c.score + 800
    ensures Locked(c.(level := 2), 2, Full).counters.score == c.score + 2400
    ensures Locked(c, 2, Mini).KeyError?
  {
  }

  /** core.py `piece_locked(nb_lines, t_spin)` with its combo counter: a
      clearing lock extends the combo, any other lock resets it to -1; the
      base award is as in terminis.py; from the second clearing lock in a
      row a bonus of (20 for a single, 50 otherwise) * combo * level is
      added; the high score follows, and a goal at or below 0 starts a new
      level even when the lock scored nothing. Returns the counters and
      the new combo. */
  function ComboLocked(c: Counters, combo: int, nb: nat, spin: Spin): (Scored, int)
  {
    var combo' := if nb > 0 then combo + 1 else -1;
    var base :=
      if nb > 0 || spin != NoSpin then
        var counted := c.(linesCleared := c.linesCleared + nb);
        match ScoreValue(nb, spin)
        case None => KeyError(counted)
        case Some(v) => Scored(Award(counted, v))
      else Scored(c);
    if base.KeyError? then (base, combo')
    else
      var bonus := if combo' >= 1 then (if nb == 1 then 20 else 50) * combo' * c.level else 0;
      var raised := RaiseHigh(base.counters.(score := base.counters.score + bonus));
      (Scored(if raised.goal <= 0 then LevelUp(raised) else raised), combo')
  }

  /** The combo rule of core.py: whatever the lookup does, the combo is
      extended by a clearing lock and reset to -1 by any other, so a bonus
      is paid only on a clearing lock, and it is (20 or 50) * combo * level
      on top of the base award. */
  lemma ComboRule(c: Counters, combo: int, nb: nat, spin: Spin)
    requires combo >= -1
    ensures ComboLocked(c, combo, nb, spin).1 == if nb > 0 then combo + 1 else -1
    ensures ComboLocked(c, combo, nb, spin).1 >= -1
    ensures ComboLocked(c, combo, nb, spin).1 >= 1 ==> nb > 0 && combo >= 0
    ensures ComboLocked(c, combo, nb, spin).0.KeyError? <==> (nb > 0 || spin != NoSpin) && ScoreValue(nb, spin).None?
    ensures nb > 0 && ScoreValue(nb, spin).Some? ==>
      var v := ScoreValue(nb, spin).value;
      var bonus := if combo + 1 >= 1 then (if nb == 1 then 20 else 50) * (combo + 1) * c.level else 0;
      ComboLocked(c, combo, nb, spin).0.counters.score == c.score + v * 100 * c.level + bonus
  {
  }

  /** A lock that clears nothing and makes no spin leaves the score and the
      line count alone in core.py too, but, unlike terminis.py, it still
      starts a new level when the goal already stands at or below 0. */
  lemma ComboEmptyLock(c: Counters, combo: int)
    requires HighKept(c)
    ensures var r := ComboLocked(c, combo, 0, NoSpin).0.counters;
      && r.score == c.score && r.linesCleared == c.linesCleared && r.highScore == c.highScore
      && r.level == (if c.goal <= 0 then c.level + 1 else c.level)
    ensures c.goal <= 0 ==> Locked(c, 0, NoSpin).counters.level == c.level
  {
  }

  /** The high-score invariant for core.py's lock. */
  lemma ComboLockedKeepsHigh(c: Counters, combo: int, nb: nat, spin: Spin)
    requires HighKept(c)
    ensures HighKept(ComboLocked(c, combo, nb, spin).0.counters)
    ensures ComboLocked(c, combo, nb, spin).0.counters.highScore >= c.highScore
  {
  }

  /** Two single-line clears in a row at level 1 from a broken combo: the
      first scores 100, the second 100 plus a combo bonus of 20. */
  lemma ComboExample(c: Counters)
    requires c.level == 1 && c.goal > 2
    ensures var (first, combo1) := ComboLocked(c, -1, 1, NoSpin);
      && combo1 == 0 && first.counters.score == c.score + 100
      && var (second, combo2) := ComboLocked(first.counters, combo1, 1, NoSpin);
      combo2 == 1 && second.counters.score == c.score + 220
  {
  }
}
