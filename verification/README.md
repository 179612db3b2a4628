# Terminis rules engine in Dafny

This project models the rules engine of Terminis, a terminal Tetris. The
repository carries two versions of that engine, and each gets its own module:

- `terminis.py` is the runnable game. Its matrix has 21 rows. Pieces arm
  lock and fall timers, and scoring has no combo.
- `terminis/pytetris/core.py` is a partial refactor. Its matrix has 20 rows.
  Its lock stops at the first mino above the field, scoring adds a combo
  bonus, and a hold path swaps the current and held pieces.

What the two versions share is written once, as functions and lemmas on values:

- `Geometry`: points, the four movements and the quarter turn of a mino offset.
- `Tetrominoes`: the seven kinds, their spawn offsets, and the Super
  Rotation System kick tables, transcribed as written. It also holds the T
  slot corners and the orientation arithmetic.
- `Playfield`: the grid of ten columns, the free-cell test, the "every mino
  fits" test, the search for the first fitting kick, writing a piece into
  the grid, and line clearing.
- `PieceRules`: a piece's state as a value. It defines what a move, a
  rotation, a hard drop, the T-spin test and the reset on hold make of it,
  and models the lock timer as armed or not.
- `Scoring`: the `SCORES` table and the counters. It covers `new_level`,
  `piece_dropped`, and `piece_locked` in both versions: without the combo
  (terminis.py) and with it (core.py).
- `Bag`: the seven-bag randomiser. The shuffle is a parameter: any
  permutation of the seven kinds.

The objects of each version are classes whose methods update their fields in
place. These are `Terminis.Matrix`, `Terminis.Tetromino`, `Terminis.Stats` and
`Terminis.Game`, and the `PyTetrisCore` classes of the same names. Each method
is proved against the value-level functions above, and the lemmas state what
the source promises about those functions.

Three behaviours of the code are kept as written, although a reader might
expect otherwise:

- **core.py's top-out keeps earlier writes.** `Matrix.lock` writes the
  minoes in order and returns at the first one above the field. The minoes
  before it stay written in the matrix (`PyTetrisCore.Matrix.Lock`,
  `PyTetrisCore.LockTopOutKeepsEarlierWrites`).
- **The fifth-kick flag is sticky.** `rotate` sets `rotation_point_5_used`
  when a rotation commits at the fifth kick, and nothing ever clears it. A T
  piece that once used the fifth kick reports a full T-spin whenever its
  last action before locking is a rotation (`PieceRules.Rotated`,
  `PieceRules.RotatedKeepsShape`, `PieceRules.TSpinOf`).
- **Four turns do not always return.** In the Super Rotation System, a kick
  is undone by the opposite rotation's kick of the same index. In the tables
  as written, this fails for two entry pairs between orientations 3 and 0
  (`Tetrominoes.DefaultKicksReverse`, `Tetrominoes.IKicksReverse`).
  - Four rotations in one direction still bring a J, L, S, T or Z piece back
    where it was (`PieceRules.FourTurnsReturn`).
  - Four clockwise turns from the spawn orientation leave an I piece two rows
    lower (`PieceRules.ITurnsClockwise`).

## Model

| member | source | states |
|---|---|---|
| `Geometry.AddLaws` | terminis.py:57-58 | Point addition is commutative and associative, `STILL` is neutral, and adding a movement and then its negation gives back the pivot |
| `Geometry.Sign` | terminis.py:35-37 | a rotation direction is +1 (clockwise) or -1 (counter-clockwise) |
| `Geometry.RotateOffsetInverse` | terminis.py:190-193 | the quarter turn (x, y) -> (-dir*y, dir*x) in one direction is undone by the quarter turn in the other |
| `Geometry.RotateOffsetCycle` | terminis.py:190-193 | four quarter turns in one direction give back the offset; three clockwise turns equal one counter-clockwise turn |
| `Geometry.RotateAllInverse` | terminis.py:190-193 | turning every offset of a piece one way and then the other gives back its offsets |
| `Geometry.RotateAllCycle` | terminis.py:190-193 | applying the offset map four times in one direction gives back the piece's offsets |
| `Tetrominoes.Minoes` | terminis.py:242-302 | every kind has four mino offsets in its spawn orientation |
| `Tetrominoes.OrientedTurn` | terminis.py:200-203 | turning the offsets of orientation o gives the offsets of orientation (o + dir) mod 4, so offsets and orientation stay in step |
| `Tetrominoes.DefaultKicks` | terminis.py:123-141 | the default table has five kicks for every orientation and direction |
| `Tetrominoes.IKicks` | terminis.py:250-267 | the I table has five kicks for every orientation and direction |
| `Tetrominoes.DefaultKicksReverse` | terminis.py:123-141 | a default kick is undone by the opposite rotation's kick of the same index from the new orientation, except the fourth kicks between orientations 3 and 0 |
| `Tetrominoes.IKicksReverse` | terminis.py:250-267 | an I kick is undone by the opposite rotation's kick of the same index, except the first kicks between orientations 3 and 0 |
| `Tetrominoes.Kicks` | terminis.py:194 | the table looked up for a rotation has five kicks; for every kind but I the first kick is (0, 0) |
| `Tetrominoes.Turned` | terminis.py:200 | `(orientation + direction) % 4` stays in 0..3 |
| `Tetrominoes.TurnedCases` | terminis.py:200 | a clockwise turn goes 0->1->2->3->0, a counter-clockwise one the other way |
| `Tetrominoes.FourTurned` | terminis.py:200 | four turns in one direction give back the orientation |
| `Playfield.EmptyRows` | terminis.py:347-350 | a fresh matrix has the given number of rows, all empty |
| `Playfield.FreeCellCases` | terminis.py:364-369 | a column cell above row 0 is free; nothing outside the ten columns or below the last row is free; inside the matrix a cell is free exactly when it is empty |
| `Playfield.FirstFit` | terminis.py:194-211 | the kick committed is the first at which every turned offset is free; when none fits, no kick fits |
| `Playfield.FirstKick` | terminis.py:194-211 | the loop over the kicks stops at the first kick where the turned offsets fit, having passed only kicks where they do not |
| `Playfield.IsFreeCell` | terminis.py:364-369 | `is_free_cell`; its three cases are stated by `FreeCellCases` |
| `Playfield.Fits` | terminis.py:196-199 | every offset placed at the pivot is a free cell; the in-bounds consequence is `FitsInBounds` |
| `Playfield.Place` | terminis.py:372-375 | the write loop of `Matrix.lock`; it keeps the number of rows, and `PlaceCells` states which cells change |
| `Playfield.Cleared` | terminis.py:376-381 | the matrix after line clearing; `ClearedShape` and `RemoveFullRows` characterise it |
| `Playfield.KeptShape` | terminis.py:377-381 | the rows kept and the rows cleared add up to all rows, and every kept row is a non-full row of the matrix |
| `Playfield.NothingToClear` | terminis.py:377-381 | a matrix without a full row clears nothing |
| `Playfield.ClearedShape` | terminis.py:377-381 | line clearing keeps the number of rows, leaves no full row, keeps the other rows in order below the new empty rows, and clearing again changes nothing |
| `Playfield.RemoveFullRows` | terminis.py:376-381 | the pop-and-insert loop over the rows yields the cleared matrix and counts the full rows |
| `Playfield.FitsInBounds` | terminis.py:372-375 | a piece that fits writes only inside the ten columns and above the bottom row |
| `Playfield.PlaceCells` | terminis.py:372-375 | writing a piece changes exactly the in-matrix cells its minoes cover, each to a block of its kind |
| `Playfield.PlaceFewFullRows` | terminis.py:372-375 | writing n minoes makes at most n new full rows |
| `Playfield.LockClearsAtMostFour` | terminis.py:371-383 | locking a four-mino piece into a matrix without full rows clears at most four rows |
| `PieceRules.TimerRules` | terminis.py:217-225 | `locking` arms the lock timer only if it is not already armed, and `postpone_lock` re-arms only an armed timer |
| `PieceRules.Spawned` | terminis.py:144-157 | a new piece is in orientation 0 with its spawn offsets, at the given position, with both rotation flags false |
| `PieceRules.MoveUndo` | terminis.py:159-173 | a committed move keeps the piece consistent, and the opposite move brings it back |
| `PieceRules.StillMove` | terminis.py:573-574 | a move by `STILL` is committed exactly when the piece fits where it is |
| `PieceRules.Rotated` | terminis.py:189-211 | a rotation (never of an O) commits the first fitting kick: orientation turned, offsets turned, `rotated_last` set, the fifth-kick flag set if kick 5 was used; with no fitting kick, nothing changes |
| `PieceRules.RotatedAt` | terminis.py:194-211 | if kick i is the first that fits, the rotation commits exactly kick i |
| `PieceRules.RotatedKeepsShape` | terminis.py:200-207 | a committed rotation keeps offsets and orientation in step, and the fifth-kick flag once set stays set |
| `PieceRules.FirstKickWins` | terminis.py:195-211 | when the turned piece fits at the first kick, that kick is committed whatever the later kicks allow |
| `PieceRules.OrientedBox` | terminis.py:242-302 | in every orientation the I piece stays within two cells of its pivot and every other piece within one |
| `PieceRules.EmptyGridFits` | terminis.py:364-369 | in an empty matrix, a piece fits wherever the box around its pivot has room |
| `PieceRules.EmptyGridTurn` | terminis.py:189-211 | in an empty matrix with room around the first kick, a rotation commits the first kick |
| `PieceRules.TurnInPlace` | terminis.py:123-141 | a J, L, S, T or Z piece with room around it in an empty matrix turns in place |
| `PieceRules.FourTurnsReturn` | terminis.py:189-211 | four same-direction rotations of a J, L, S, T or Z piece in an empty matrix give back its orientation, offsets and position |
| `PieceRules.ITurnsClockwise` | terminis.py:250-267 | with the I table as written, four clockwise rotations from the spawn orientation in an empty matrix leave the I piece two rows lower |
| `PieceRules.ITurnsCounterclockwise` | terminis.py:250-267 | four counter-clockwise rotations of the I piece from its spawn orientation give back its position |
| `PieceRules.Moved` | terminis.py:159-173 | a move commits exactly when the piece fits at the moved pivot; `MoveUndo` and `StillMove` characterise it |
| `PieceRules.DropDistance` | terminis.py:184-185 | how many times the hard-drop loop moves down; `DropLands` characterises it |
| `PieceRules.Lowered` | terminis.py:184-185 | the piece after `d` validated moves down; used with `DropDistance` by `DropLands` |
| `PieceRules.DropLands` | terminis.py:179-187 | the hard-drop loop moves down exactly `DropDistance` rows: the piece fits at every row down to it and not one row below |
| `PieceRules.TSpinOf` | terminis.py:276-286 | only a T whose last action was a rotation spins; the fifth kick makes a full T-spin; otherwise a spin needs three taken corners, full when both front corners are taken, mini when both back corners and exactly one front corner are |
| `PieceRules.HoldReset` | terminis.py:630-644 | the piece sent to hold, as corrected, is consistent: spawn offsets, spawn orientation, the hold anchor |
| `PieceRules.HoldResetAsWrittenLosesOrientation` | terminis.py:638-641 | as written, a T turned once and sent to hold has spawn offsets but orientation 1, which is inconsistent; the corrected reset is consistent |
| `Scoring.ScoreValue` | terminis.py:418-424 | the `SCORES` lookup fails exactly for more than four lines, a mini T-spin of two or more lines, and a T-spin of four lines |
| `Scoring.ScoreTableOrdered` | terminis.py:418-424 | one more line scores more, a spin scores more than no spin, and a T-spin of n lines is worth 4(n+1) |
| `Scoring.LevelUp` | terminis.py:464-471 | `new_level` on the counters: level + 1, goal + 5 * new level |
| `Scoring.Dropped` | terminis.py:473-477 | `piece_dropped` on the counters; `DroppedScores` characterises it |
| `Scoring.Locked` | terminis.py:479-494 | terminis.py `piece_locked` on the counters; `LockedEffect`, `LockedKeepsHigh` and `LockedExamples` characterise it |
| `Scoring.ComboLocked` | terminis/pytetris/core.py:327-359 | core.py `piece_locked` on the counters and the combo; `ComboRule`, `ComboEmptyLock`, `ComboLockedKeepsHigh` and `ComboExample` characterise it |
| `Scoring.DroppedScores` | terminis.py:473-477 | drop points add exactly the points given to the score, leave the other counters alone, and raise the high score to at least the score |
| `Scoring.LockedEffect` | terminis.py:479-494 | an empty lock changes nothing; otherwise the lines are counted, the lookup fails exactly on the missing keys, and a value v adds v*100*level to the score and takes v off the goal, starting a new level (level+1, goal + 5*new level) exactly when the goal reaches 0 or below |
| `Scoring.LockedKeepsHigh` | terminis.py:479-494 | a lock keeps the high score at least the score and never lowers it or, at a non-negative level, the score |
| `Scoring.LockedExamples` | terminis.py:479-487 | a Tetris at level 1 scores 800, a T-spin double at level 2 scores 2400, and a mini T-spin double raises the lookup error |
| `Scoring.ComboRule` | terminis/pytetris/core.py:327-359 | the combo goes up by one on a clearing lock and back to -1 on any other; a bonus of (20 for a single, else 50)*combo*level is added only from the second clearing lock in a row |
| `Scoring.ComboEmptyLock` | terminis/pytetris/core.py:327-359 | an empty lock leaves score and lines alone but, unlike terminis.py, still starts a new level when the goal is at 0 or below |
| `Scoring.ComboLockedKeepsHigh` | terminis/pytetris/core.py:327-359 | the combo lock keeps the high score at least the score and never lowers it |
| `Scoring.ComboExample` | terminis/pytetris/core.py:327-359 | two single-line clears in a row at level 1 score 100 and then 100 + 20 |
| `Bag.Draw` | terminis.py:562-566 | `random_piece`: refill an empty bag with the shuffle, then pop the last kind; `DrawKeepsInvariant` and `SevenDraws` characterise it |
| `Bag.InvariantIsPermutation` | terminis.py:562-566 | the bag and the kinds drawn since the last refill together hold each kind once exactly when they are a permutation of the seven kinds |
| `Bag.ShuffleIsPermutation` | terminis.py:562-566 | a shuffle is exactly a permutation of the seven kinds |
| `Bag.InvariantSize` | terminis.py:562-566 | under the bag invariant the bag and the drawn kinds number seven |
| `Bag.DrawKeepsInvariant` | terminis.py:562-566 | a draw keeps the invariant, never repeats a kind within a round, and leaves at most six kinds in the bag |
| `Bag.DrawsEmptyBag` | terminis.py:562-566 | drawing as many kinds as a non-empty bag holds yields exactly its kinds |
| `Bag.SevenDraws` | terminis/pytetris/core.py:436-440 | the seven draws after a refill are the seven kinds, each once |
| `Terminis.LocksOut` | terminis.py:233 | the top-out test of `lock`: every mino in row 0 or above; `LandingWritesBelowTop` characterises it |
| `Terminis.Landing` | terminis.py:233-236 | what `lock` leads to for a piece that cannot move down; `LandingWritesBelowTop` characterises it |
| `Terminis.LandingWritesBelowTop` | terminis.py:227-236 | a landed piece ends the game exactly when none of its minoes is below row 0, and only a T can report a spin. A settled piece that fits changes the matrix: writing it puts a block into at least one cell that was empty |
| `Terminis.Matrix.constructor` | terminis.py:347-350 | the matrix starts with 21 empty rows |
| `Terminis.Matrix.Lock` | terminis.py:371-381 | the minoes in the matrix are written, those above it dropped, the full rows cleared; the matrix keeps 21 rows, no full row, and at most four rows are cleared |
| `Terminis.Tetromino.constructor` | terminis.py:144-157 | a new piece is spawned at its position with both timers unarmed and hold enabled |
| `Terminis.Tetromino.Locking` | terminis.py:217-220 | the lock timer is armed unless it already is |
| `Terminis.Tetromino.PostponeLock` | terminis.py:222-225 | an armed lock timer is restarted; an unarmed one stays unarmed |
| `Terminis.Tetromino.Move` | terminis.py:159-173 | the move is committed exactly when every mino fits at the new pivot, then the lock is postponed and `rotated_last` cleared; a refused move down with `lock` set arms the lock timer, and a refused move changes nothing else |
| `Terminis.Tetromino.SoftDrop` | terminis.py:175-177 | one row down scores one drop point; a refused soft drop arms the lock timer and scores nothing |
| `Terminis.Tetromino.HardDrop` | terminis.py:179-187 | the piece falls `DropDistance` rows, scoring two points per row, with the lock timer cancelled, then locks |
| `Terminis.Tetromino.Rotate` | terminis.py:189-211 | the rotation is committed exactly as `Rotated` says (never for an O), restarting an armed lock timer; a refused rotation changes nothing |
| `Terminis.Tetromino.SendToHold` | terminis.py:630-644 | the held piece gets its timers cancelled, the corrected reset, and hold disabled |
| `Terminis.Tetromino.Lock` | terminis.py:227-236 | a piece that can still fall moves down instead; otherwise the fall timer is cancelled and the piece tops out or settles with its T-spin |
| `Terminis.Stats.constructor` | terminis.py:428-443 | the counters start at the level below the starting one, no goal, no score, no lines, the stored high score |
| `Terminis.Stats.NewLevel` | terminis.py:464-471 | level + 1, goal + 5 * new level |
| `Terminis.Stats.PieceDropped` | terminis.py:473-477 | the counters become `Dropped` of the old ones |
| `Terminis.Stats.PieceLocked` | terminis.py:479-505 | the counters become `Locked` of the old ones, and the lookup error is reported |
| `Terminis.Game.constructor` | terminis.py:533-560 | a new game has an empty 21-row matrix, the counters at the starting level with its first goal, the sixth shuffled kind next and the seventh falling at the spawn position, five kinds left in the bag, and all invariants |
| `Terminis.Game.RandomPiece` | terminis.py:562-566 | the kind drawn and the bag left are `Draw` of the old bag, and the bag invariant holds |
| `Terminis.Game.TakeNext` | terminis.py:568-572 | the next piece becomes the falling one and a fresh next piece of the drawn kind is created at the next anchor |
| `Terminis.Game.Enter` | terminis.py:573-577 | the falling piece is put at the given position, with its other state kept. If it fits there, its fall timer is armed and a running lock timer restarted (`move(STILL, lock=False)`); otherwise the game is over and both timers are left as they were |
| `Terminis.Game.NewPiece` | terminis.py:568-577 | without a held piece coming back, the next piece falls and a new one is drawn; the falling piece enters at the spawn position, and the game ends exactly when it does not fit. The entering piece has no lock timer running, and its fall timer is armed exactly when it fits |
| `Terminis.Game.Swap` | terminis.py:630-644 | with hold disabled nothing changes; otherwise the piece goes to hold, reset and disabled, with its timers cancelled. The held piece enters at the spawn position, or, when the hold was empty, the next piece does and a fresh next piece is drawn from the bag. The entering piece's fall timer is armed and the game goes on exactly when it fits there; otherwise the game is over and its fall timer stays unarmed. Either way it has no lock timer running. Matrix and counters are unchanged, and all invariants are kept |
| `Terminis.Game.Settle` | terminis.py:371-384 | the outcome must be the one the falling piece reports. A settled piece is written and the full rows cleared, and the counters become `Locked` with the piece's own T-spin. A lookup error stops the game. Otherwise the next piece enters the cleared matrix at the spawn position with its fall timer armed, and a fresh next piece is drawn; the game goes on exactly when the entering piece fits, and the entering piece has no lock timer running. A top-out ends the game and leaves matrix, counters and the piece with its timers alone; a move down changes nothing here |
| `Terminis.SpawnFits` | terminis.py:573-577 | every kind fits at the spawn position of an empty matrix |
| `PyTetrisCore.FirstAbove` | terminis/pytetris/core.py:213-219 | the write loop stops at the first mino above the field; every mino before it is in the field |
| `PyTetrisCore.Matrix.constructor` | terminis/pytetris/core.py:198-202 | the matrix starts with 20 empty rows |
| `PyTetrisCore.Matrix.Lock` | terminis/pytetris/core.py:211-228 | the T-spin is read before any write; a mino above the field ends the game with the earlier minoes written; otherwise the piece is written, the full rows cleared, and the count (at most four) is returned with the spin |
| `PyTetrisCore.LockTopOutKeepsEarlierWrites` | terminis/pytetris/core.py:213-219 | a T at the top writes two cells of row 0 and stops at its third mino, leaving its fourth mino's cell as it was |
| `PyTetrisCore.Tetromino.constructor` | terminis/pytetris/core.py:59-65 | a new piece is spawned at its position with hold enabled |
| `PyTetrisCore.Tetromino.PossiblePosition` | terminis/pytetris/core.py:67-73 | a pivot is returned exactly when every mino, placed at the moved pivot, is within the ten columns, above the floor, and above the field or on an empty cell; the pivot returned is the moved one, and every mino placed there is inside the grid |
| `PyTetrisCore.Tetromino.Move` | terminis/pytetris/core.py:75-82 | the move is committed (clearing `rotated_last`) exactly when the piece fits at the new pivot; otherwise nothing changes |
| `PyTetrisCore.Tetromino.SoftDrop` | terminis/pytetris/core.py:90-92 | one row down reports one point; a refused drop reports none and changes nothing |
| `PyTetrisCore.Tetromino.HardDrop` | terminis/pytetris/core.py:97-101 | the piece falls `DropDistance` rows and two points per row are reported |
| `PyTetrisCore.Tetromino.Rotate` | terminis/pytetris/core.py:103-117 | the rotation is committed exactly as `Rotated` says (never for an O); a refused rotation changes nothing |
| `PyTetrisCore.Tetromino.SendToHold` | terminis/pytetris/core.py:486-498 | the held piece gets its fall timer cancelled, the corrected reset, and hold disabled |
| `PyTetrisCore.StartLevel` | terminis/pytetris/core.py:258-270 | the requested level is clamped to 1..15, and is 1 without a request |
| `PyTetrisCore.Stats.constructor` | terminis/pytetris/core.py:257-288 | the counters start one level below the clamped start, then `new_level` runs; the combo starts at -1 |
| `PyTetrisCore.Stats.NewLevel` | terminis/pytetris/core.py:312-319 | level + 1, goal + 5 * new level |
| `PyTetrisCore.Stats.PieceDropped` | terminis/pytetris/core.py:321-325 | the counters become `Dropped` of the old ones |
| `PyTetrisCore.Stats.PieceLocked` | terminis/pytetris/core.py:327-359 | the counters and the combo become `ComboLocked` of the old ones, and the lookup error is reported |
| `PyTetrisCore.Game.constructor` | terminis/pytetris/core.py:422-428 | a new game has an empty 20-row matrix, the sixth shuffled kind next and the seventh started at the spawn position, five kinds left in the bag, and all invariants |
| `PyTetrisCore.Game.RandomPiece` | terminis/pytetris/core.py:436-440 | a fresh piece of the kind `Draw` pops is created at the next anchor, and the bag invariant holds |
| `PyTetrisCore.Game.StartPiece` | terminis/pytetris/core.py:448-454 | the current piece is put at the spawn position; its fall timer is armed if it fits there, otherwise the game is over |
| `PyTetrisCore.Game.StartAt` | terminis/pytetris/core.py:449-454 | the current piece is put at the given position; its fall timer is armed if it fits there, otherwise the game is over |
| `PyTetrisCore.Game.StartNextPiece` | terminis/pytetris/core.py:442-446 | the next piece becomes current and is started, and a fresh next piece is drawn |
| `PyTetrisCore.Game.Swap` | terminis/pytetris/core.py:486-502 | with hold disabled nothing happens, the bag included. Otherwise the piece goes to hold, reset and disabled, with its fall timer cancelled. The held piece is started at the spawn position, or, when the hold was empty, the next piece is and a fresh next piece is drawn from the bag. The game goes on, with the fall timer armed, exactly when the started piece fits; otherwise its fall timer stays unarmed. All invariants are kept |
| `PyTetrisCore.SpawnFits` | terminis/pytetris/core.py:448-454 | every kind fits at the spawn position of an empty 20-row matrix |

## Left out

- Curses is not modelled: windows, drawing, colours, `refresh`, beeps and
  flashes, and the display strings (`LINES_CLEARED_NAMES`, `strings`).
  They are output only.
- The fall and lock delays are not modelled. They are floating-point values
  computed from the level. Only `level` and `goal` are kept.
- The scheduler is not modelled. A timer is seen only as armed or not, plus
  how often an armed lock timer was restarted.
  - `clock`, `play`, `process_input`, `pause`, `over`, `quit` and the
    blocking key loops are left out. Game over is the state they lead to
    (`GameOver` / `playing == false`).
  - terminis.py's `Tetromino.fall` is left out. It is the fall timer's
    callback and schedules itself again before moving down.
  - core.py's `Tetromino.fall` is `_move(DOWN)`, which is
    `PyTetrisCore.Tetromino.Move` with `Down`.
  - core.py's one-line wrappers `move_left`, `move_right`,
    `rotate_clockwise` and `rotate_counterclockwise` are not modelled
    separately. They are `Move` and `Rotate` with a fixed argument.
- I/O is left out. The high-score file becomes a `highScore` parameter.
  Saving it is not modelled, and neither is argv parsing:
  - terminis.py's level is a parameter;
  - core.py's `--level=` value is an optional integer that `StartLevel` clamps.
- `random.shuffle` becomes the parameter `shuffled`. It may be any
  permutation of the seven kinds and is used only when the bag is refilled.
- A matrix cell records the kind of the mino locked there. terminis.py stores
  the `Mino` object itself and core.py its colour pair. Only emptiness and
  the kind are observable to the rules.
- terminis.py's pieces hold their offsets in `Mino` objects that are updated
  in place. The model keeps them as a sequence field that is reassigned.
- The `SCORES` lookup can raise `KeyError`:
  - in terminis.py this stops the game (`Crashed`);
  - core.py's `Game` never calls `piece_locked`, so there it is only
    reported by `PyTetrisCore.Stats.PieceLocked`.
- Several things core.py calls or reads are never defined. The model follows
  the evident intent:
  - `hard_drop` passes a `lock` argument that `_move` does not take. It is
    modelled as moving down while it can.
  - `start_piece` calls a missing `possible_position`. It is modelled as
    `_possible_position` of the current offsets with `STILL`.
  - `Stats` derives from an undefined `Window`, and the modules it uses are
    not imported. It is modelled without a window.
  - `Hold` and `Next` are empty classes. Their anchor (6, 3) is taken from
    terminis.py.
  - `Tetromino` never sets `matrix`, `fall_timer` or `lock_timer`. The
    matrix is a parameter, the fall timer starts unarmed, and the lock
    timer, which core.py never arms, is not modelled.
  - `Matrix.lock` writes `piece.color_pair` and calls an undefined `game`.
    `color_pair` is set on the piece classes only when the terminal has
    colours (core.py:385-388), and that code first reads a `COLOR`
    attribute the classes never define (core.py:384). The model writes a
    block of the piece's kind instead. The `game.over()` call is modelled
    as returning `None`.
  - core.py's `_rotate` returns `None` when no kick fits. It is modelled as
    `false`, and `soft_drop`'s `None` as `Options.None`.
- `PyTetrisCore.Game.Swap` states the corrected reset (see Findings): the held piece's orientation is reset along with its offsets.
- `PyTetrisCore.Tetromino.SendToHold` states the corrected reset (see Findings): the orientation is reset along with the offsets.
- `Terminis.Game.Swap` states the corrected reset (see Findings): the held piece's orientation is reset along with its offsets.
- `Terminis.Tetromino.SendToHold` states the corrected reset (see Findings): the orientation is reset along with the offsets.
- `PieceRules.ITurnsClockwise` and `PieceRules.ITurnsCounterclockwise`
  state the I piece's four turns from the spawn orientation only.
- `Terminis.Game.constructor` and `PyTetrisCore.Game.constructor` let the
  `piece` field stand for the still unset `matrix.piece` until the first
  piece is brought in.
- `Terminis.Game.constructor` requires a non-negative stored high score. A negative number in the high-score file is not modelled: until the first drop it would break the invariant that the high score is at least the score.
- `PyTetrisCore.Game.constructor` requires a non-negative stored high score, for the same reason.

## Findings

| source | as written | input that shows it | evidently intended | confidence | as-written member | corrected member |
|---|---|---|---|---|---|---|
| terminis.py:630-644 | `swap` gives the piece sent to hold its spawn offsets and the hold position but keeps its `orientation` | a T piece turned once clockwise in an empty matrix, then held: spawn offsets with orientation 1, so its next rotation uses the kicks and T corners of the wrong orientation | the orientation is reset to 0 with the offsets | high; not executed | `PieceRules.HoldResetAsWrittenLosesOrientation` | `PieceRules.HoldReset` |
| terminis/pytetris/core.py:486-502 | `swap` resets `minoes_position` to the spawn offsets but keeps `orientation` | the same T piece turned once clockwise and then held | the orientation is reset to 0 with the offsets | high; not executed | `PieceRules.HoldResetAsWrittenLosesOrientation` | `PieceRules.HoldReset` |
