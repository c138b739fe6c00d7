# Ten-pin bowling scorer, modelled in Dafny

This project models the scorer in `bowlinggame/model/bowling.py`. A game has
ten frames: nine normal frames, then a tenth frame with room for one extra
roll. Each roll is checked against its frame's 10-pin ceiling. Each frame
scores its own pins plus a strike or spare bonus, read from the one or two
frames after it. The game routes each roll to the frame at its current
index, moves the index on, and sums the ten frame scores.

Modules:

- `Wrappers` (`wrappers.dfy`): `Option`, `Result` and `Outcome`. They stand in for `None` and for raised exceptions.
- `BowlingErrors` (`bowling_errors.dfy`): one constructor per error a roll can raise.
  - `FramePinsExceeded` and `ExtraRollWithOpenTenthFrame` are the source's two exception classes.
  - `IndexOutOfRange` stands for the `IndexError` that indexing past the last frame raises.
- `Frames` (`frames.dfy`): the frame datatype `Normal(rolls) | Tenth(rolls, extra)` and these operations:
  - `Strike`, `Spare` and `TotalPins`;
  - recording a roll: `NormalAddRoll`, `TenthAddRoll`, and `AddRoll`, which dispatches between them;
  - scoring: `NormalScore` and `TenthScore`;
  - the invariants that recording keeps, and lemmas on how bonuses are credited.
- `Bowling` (`bowling.dfy`): the chain of ten frames, the game score and the routing of a roll (`RollStep`). The class `BowlingGame` has a `frames` sequence and a `currentFrameIndex` field, updated in place by `Roll`.

The model follows the code as written, including these quirks:

- **Index moves after every roll.** `roll` moves the frame index after every accepted roll, by two when the frame is now a strike and by one otherwise. It does not wait for a frame to be complete.
- **No upper bound on the index.** After the index passes the last frame, every roll fails with `IndexOutOfRange`.
- **Third roll on a full normal frame.** It is ignored without an error, as long as it passes the 10-pin check.
- **Tenth frame ceiling.** Only a strike lifts the tenth frame's 10-pin ceiling; a spare does not. So after a spare, an extra roll is accepted only when its pin count is 0 or less (`TenthSpareExtraRoll`).
- **Extra roll overwritten.** On a full tenth frame that is a strike or a spare, each accepted roll overwrites the extra roll (`TenthExtraRollOverwrites`).
- **Negative pins.** Nothing rejects a negative pin count.

Textbook scoring moves to the next frame only when a frame is complete. This code does not. It also has no roll counter, no restart and no error for a roll after the game is over.

Routing this way has a consequence, proved as the `Routed` invariant (`FreshIsRouted`, `RollKeepsRouted`):

- through the game, every frame receives at most one roll;
- the frame after a strike is skipped for good;
- so no bonus is ever credited, and the score is the plain sum of the accepted pins (`RoutedScoreIsPinsDown`, `RollAddsItsPins`, `BowlingGame.Score`).

For example, twelve strikes from a fresh game give five accepted rolls and then `IndexOutOfRange` (`TwelveStrikesAsRouted`).

The frame scoring rules themselves do credit textbook bonuses. `PerfectFramesScore300`, `SpareFramesScore150` and `OpenFramesScore90` prove this on frame states that are built directly. No sequence of calls to `roll` reaches any of these three states. The tenth frame of the 150 state (5, 5, then an extra 5) cannot even arise from recording rolls, because the spare keeps the 10-pin ceiling in force.

## Model

| member | source | states |
|---|---|---|
| `Frames.TotalPins` | bowlinggame/model/bowling.py:24-26 | defines the pins of a frame's rolls, without the extra roll, as the sum of `rolls`. Its properties are in `SumAppend`, `SpareKnocksDownTen` and `TenthScore` |
| `Frames.Strike` | bowlinggame/model/bowling.py:18-19 | defines a strike as a first roll of 10. Its consequences are in `TenthAfterStrikeAcceptsAny`, `StrikeBonusIsNextTwoRolls` and `TenThenZeroScoresAsStrike` |
| `Frames.Spare` | bowlinggame/model/bowling.py:21-22 | defines a spare as exactly two rolls summing to 10. Its consequences are in `SpareKnocksDownTen`, `TenthSpareExtraRoll` and `SpareBonusIsNextRoll` |
| `Frames.SpareKnocksDownTen` | bowlinggame/model/bowling.py:21-26 | a spare's frame has a total of exactly 10 pins |
| `Frames.SumAppend` | bowlinggame/model/bowling.py:24-26 | appending a roll adds its pins to the frame's total |
| `Frames.NormalAddRoll` | bowlinggame/model/bowling.py:42-47 | refused with `FramePinsExceeded` exactly when pins plus the frame's total exceed 10; otherwise the roll is appended when there are fewer than two rolls, and the frame is returned unchanged when there are already two |
| `Frames.TenthAddRoll` | bowlinggame/model/bowling.py:69-80 | `FramePinsExceeded` exactly when the frame is not a strike and the roll passes the ceiling. The first two rolls are appended. A later accepted roll needs a strike or spare and becomes the extra roll. `ExtraRollWithOpenTenthFrame` exactly when two rolls are open and the ceiling check passed |
| `Frames.AddRoll` | bowlinggame/model/bowling.py:28-30 | dispatch by frame kind; an accepted roll keeps the frame's kind, only ever appends at most one roll, and never fails with an index error |
| `Frames.NormalAddRollKeepsInv` | bowlinggame/model/bowling.py:42-47 | a normal frame keeps at most two rolls and at most 10 pins |
| `Frames.TenthAddRollKeepsInv` | bowlinggame/model/bowling.py:69-80 | the tenth frame keeps at most two rolls. It keeps at most 10 pins unless it is a strike. It has an extra roll only after a strike or spare |
| `Frames.AddRollKeepsInv` | bowlinggame/model/bowling.py:42-80 | every accepted roll keeps the frame invariant of either kind |
| `Frames.TenthAfterStrikeAcceptsAny` | bowlinggame/model/bowling.py:70-78 | after a first roll of 10 in the tenth frame, every later roll is accepted |
| `Frames.TenthSpareExtraRoll` | bowlinggame/model/bowling.py:69-78 | after a spare that is not a strike, an extra roll is accepted if and only if its pin count is 0 or less, and it is then stored as the extra roll |
| `Frames.TenthExtraRollOverwrites` | bowlinggame/model/bowling.py:74-78 | on a full tenth frame, a second accepted extra roll replaces the first; no error exists for it |
| `Frames.TenthScore` | bowlinggame/model/bowling.py:82-86 | the tenth frame scores the sum of every roll it recorded, the extra roll included, with no lookahead |
| `Frames.NormalScore` | bowlinggame/model/bowling.py:49-61 | a normal frame scores its own pins plus the sum of the first `BonusRolls` rolls that follow it (its successor's rolls, then those of the frame after). That count is 2 for a strike whose next frame holds one or two rolls, 1 for a spare (tested after the strike), and 0 for an open frame or while the next frame is empty |
| `Frames.OpenFrameScoresItsPins` | bowlinggame/model/bowling.py:49-61 | a frame that is neither strike nor spare scores its own pins, whatever follows |
| `Frames.StrikeBonusIsNextTwoRolls` | bowlinggame/model/bowling.py:51-57 | once the next frame has one or two rolls, a strike's bonus is the sum of the next two rolls. When the next frame has one roll, the second comes from the frame after it |
| `Frames.SpareBonusIsNextRoll` | bowlinggame/model/bowling.py:58-60 | once the next frame has a roll, a spare scores 10 plus that roll |
| `Frames.NoBonusBeforeNextFrame` | bowlinggame/model/bowling.py:49-61 | while the next frame is empty no bonus is credited, even when the frame after it already holds rolls |
| `Frames.TenThenZeroScoresAsStrike` | bowlinggame/model/bowling.py:18-22 | 10 then 0 is both a strike and a spare and, the strike test coming first, scores 10 plus both rolls of a full next frame |
| `Bowling.NextFrame` | bowlinggame/model/bowling.py:103-107 | frame i links to frame i+1, and the last frame links to nothing |
| `Bowling.FreshFrames` | bowlinggame/model/bowling.py:96-107 | the frames of a new game: ten frames, nine normal and then the tenth, none of which has recorded a roll |
| `Bowling.FrameScore` | bowlinggame/model/bowling.py:49-61 | defines frame i's score by its kind: a normal frame's `NormalScore` reads frames i+1 and i+2 through `NextFrame`, and the tenth frame's `TenthScore` reads nothing. Its meaning is stated in `FrameScoreIsPinsPlusBonus` |
| `Bowling.FrameScoreIsPinsPlusBonus` | bowlinggame/model/bowling.py:49-61 | through the dispatch of `score` by frame kind, frame i scores its recorded pins. A normal frame adds the first `BonusRolls` of the rolls in frames i+1 and i+2, and the tenth frame adds nothing |
| `Bowling.ScoresFrom` | bowlinggame/model/bowling.py:117-118 | defines the sum of the scores of frames k to 9. Its properties are in `EmptyFramesScoreNothing`, `EqualFrameScores` and `RoutedScoreIsPinsDown` |
| `Bowling.GameScore` | bowlinggame/model/bowling.py:117-118 | defines the game score as the sum of all ten frame scores. Its properties are in `FreshScoreIsZero`, the three filled-frame examples and `RoutedScoreIsPinsDown` |
| `Bowling.EmptyFramesScoreNothing` | bowlinggame/model/bowling.py:117-118 | the sum of frame scores over empty frames is 0 |
| `Bowling.FreshScoreIsZero` | bowlinggame/model/bowling.py:117-118 | a new game scores 0 |
| `Bowling.PerfectFramesScore300` | bowlinggame/model/bowling.py:49-61 | directly built frames with a strike in each of frames 0 to 8 and 10, 10, 10 in the tenth score 300 |
| `Bowling.SpareFramesScore150` | bowlinggame/model/bowling.py:49-61 | directly built frames with ten 5-5 spares and an extra 5 score 150; recording rolls cannot produce that tenth frame |
| `Bowling.OpenFramesScore90` | bowlinggame/model/bowling.py:49-61 | directly built frames with ten open 9-0 frames score 90 |
| `Bowling.RollStep` | bowlinggame/model/bowling.py:109-115 | fails with `IndexOutOfRange` exactly when the index is past the last frame. Otherwise it fails exactly when `AddRoll` on the current frame fails, with the same error. On success the current frame becomes `AddRoll`'s result and no other frame changes. The frame layout is kept, and the index moves by 2 after a strike and by 1 otherwise |
| `Bowling.FreshIsRouted` | bowlinggame/model/bowling.py:91-107 | the fresh game satisfies the routing invariant |
| `Bowling.RollKeepsRouted` | bowlinggame/model/bowling.py:109-115 | every accepted roll keeps each frame at one roll or fewer and keeps the frames from the index on empty. After a strike, the skipped next frame stays empty |
| `Bowling.RoutedFrameScore` | bowlinggame/model/bowling.py:49-61 | in a reachable state every frame scores exactly its own pins |
| `Bowling.RoutedScoreIsPinsDown` | bowlinggame/model/bowling.py:117-118 | in a reachable state the game's score is the plain sum of the pins recorded |
| `Bowling.RollAddsItsPins` | bowlinggame/model/bowling.py:109-118 | in a reachable state an accepted roll adds exactly its pins to the score |
| `Bowling.TwelveStrikesAsRouted` | bowlinggame/model/bowling.py:109-118 | from a fresh game, five strikes are accepted, take the index to 10 and score 50; a run of twelve strikes ends in `IndexOutOfRange` |
| `Bowling.BowlingGame.constructor` | bowlinggame/model/bowling.py:91-94 | a new game holds the ten fresh frames, index 0, and scores 0 |
| `Bowling.BowlingGame.InitFrames` | bowlinggame/model/bowling.py:96-107 | appends exactly the ten fresh frames, nine normal and then the tenth |
| `Bowling.BowlingGame.Roll` | bowlinggame/model/bowling.py:109-115 | the new frames and index are those of `RollStep`. On a refused roll it returns that error and changes nothing. An accepted roll raises the score by its pins |
| `Bowling.BowlingGame.Score` | bowlinggame/model/bowling.py:117-118 | the sum of the ten frame scores, which in every game state equals the pins rolled |

## Left out

- Frames are values, not objects. `Roll` replaces the current frame in `frames` instead of mutating a shared frame object. The `next_frame` references become `NextFrame`, which looks up frame i+1 by index. Construction always makes exactly that link, so nothing is lost.
- The `Roll` dataclass is a plain integer pin count.
- The abstract `Frame` base class and its method dispatch become a match on the frame datatype.
- The two exception classes of `bowlinggame/model/bowling_errors.py` and their common base class become constructors of `BowlingError`; their messages are not modelled.
- Exceptions become `Result` and `Outcome` values. A refused roll changes no state, exactly as when the source raises before mutating.
- `RollAll` is a helper for stating roll sequences in lemmas; it is not an operation of the source.
