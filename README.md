# Tetris game control rules, verified in Dafny

This project models the sequential decision layer of the `Game` class of a
Kotlin falling-block game (`src/main/java/ds/tetris/game/Game.kt`), with the
coroutines taken out:

- **Gravity** (`gravity.dfy`): `calculateDelay` — the wait before gravity moves
  the piece down by itself, `max(1, 800 - 50 * level)` while running and
  `Long.MAX_VALUE` while paused — and what the race between a "descend now"
  signal and that timeout decides.
- **Figures** (`figures.dfy`): the eight-entry figure table (the I figure holds two
  slots), the spawn position of `randomFigure` (row 0, column
  `(AREA_WIDTH - width) / 2` with Kotlin's division, which rounds towards zero)
  and the `gameOver` test (`y <= 0`).
- **Session** (`session.dfy`): the session state as a value, one transition function
  per control operation (start, pause, the down-key and sideways-key actions,
  a DOWN move, entering the falling phase, the landing of a piece, the loop
  over several pieces), the invariant all of them keep, and the lemmas about
  them.
- **Tetris** (`tetris.dfy`): class `Game`, whose fields are the flags `isStarted` and
  `isPaused`, the current figure, and the logs described below. Each method
  updates the fields in place, and its postcondition says that the new state
  is the Session transition of the old one. `Fall` is the inner
  `while (falling)` loop, and `Run` is the outer `while (isActive)` loop of the
  game actor.

The board and the score are other classes, and their source is not part of
this model; they stay abstract:

- The board is the current figure plus a log of the fixes and wipes the loop
  asks for.
- Its answers are inputs to the model: whether a move succeeded, and which
  lines are full after a fix. A move the board accepts shifts the figure one
  cell in the move's direction.
- The score is a log of the awards requested. Its level enters only as the
  parameter of `CalculateDelay`.
- The display is a log of the requests made to it.
- The game loop (an actor) is described by three flags: `hasActor` (some start
  has created it), `actorActive` (it is still running) and `midFall` (it is
  inside its falling phase). A counter, `offers`, records the wake-up signals
  offered to it.
- The random table index and the width of each figure's matrix are parameters.
  So is `AREA_WIDTH`. None of them is defined in `Game.kt`.

Some behaviours of the code are modelled as they are written:

- Offering a wake-up to the loop raises an exception in two situations:
  - before the first start, because `gameActor` is `lateinit`;
  - after the loop has ended at game over, because the channel of a finished
    actor is closed.
  Two operations offer a wake-up in this way: a pause that resumes the game,
  which raises after the flag has already flipped, and the down-key action,
  which raises after its bonus has been awarded. Both are modelled as a
  `Failed(ActorNotInitialized)` or `Failed(ActorClosed)` outcome, and no
  wake-up is counted.
- The first figure is created together with the board. A start does not
  replace it, and neither does a restart after game over. This differs from a
  reading in which start spawns a fresh figure; the model follows the code.
- Pausing does not stop a wait that is already running: the delay is
  computed when the wait begins, so the timer set from the running delay
  still fires and the piece falls once more after the pause. Resuming offers
  the loop a wake-up, and that wake-up is what ends a paused wait. `PausedTimerNeverFiresFirst` states that
  the timer cannot end such a wait first.

## Model

| member | source | states |
|---|---|---|
| Gravity.CalculateDelay | src/main/java/ds/tetris/game/Game.kt:114-118 | the delay is at least 1; while paused it is Long.MAX_VALUE; while running it is the linear value 800 - 50·level or 1, whichever is larger (it is at least the linear value and equals one of the two) |
| Gravity.DelayAtLevelZero | src/main/java/ds/tetris/game/Game.kt:114-115 | at level 0 the running delay is BASE_DELAY, the constant 800 of line 13 |
| Gravity.DelayNonIncreasing | src/main/java/ds/tetris/game/Game.kt:115 | a higher level never gives a longer running delay |
| Gravity.DelayFloorFromLevel16 | src/main/java/ds/tetris/game/Game.kt:115 | the running delay is clamped to 1 exactly from level 16 on (both directions) |
| Gravity.PausedDelayOutlastsRunning | src/main/java/ds/tetris/game/Game.kt:114-118 | for every non-negative level the running delay is at most 800, below the paused delay |
| Gravity.FirstWake | src/main/java/ds/tetris/game/Game.kt:85-92 | the model of the biased select that PausedTimerNeverFiresFirst is stated over: the wait ends by timeout exactly when no signal arrives by the delay, so a signal wins a tie |
| Gravity.PausedTimerNeverFiresFirst | src/main/java/ds/tetris/game/Game.kt:114-118 | while paused, any signal arriving within Long.MAX_VALUE ms wins over the timer |
| Figures.CatalogWeights | src/main/java/ds/tetris/game/Game.kt:15-24 | the table has 8 entries: the I figure twice, every other variant once |
| Figures.TruncHalf | src/main/java/ds/tetris/game/Game.kt:126 | halving rounds towards zero, for negative and non-negative numerators alike |
| Figures.Spawn | src/main/java/ds/tetris/game/Game.kt:123-129 | a new figure has the table's variant and that variant's width, sits on row 0, and, when it fits, lies inside the area with the right gap exceeding the left by at most one cell |
| Figures.SpawnWiderThanArea | src/main/java/ds/tetris/game/Game.kt:126 | a figure wider than the area does not fit on either side (x <= 0, x + width >= areaWidth); the right overhang exceeds the left by at most one cell |
| Figures.IsGameOver | src/main/java/ds/tetris/game/Game.kt:121 | for a figure on or below the top row, the game is over exactly when it is still on row 0 |
| Session.Initial | src/main/java/ds/tetris/game/Game.kt:31-39 | a new game holds the given figure, is neither started nor paused, has offered nothing and has empty logs; no loop exists yet (none created, none running, not falling); it can be started, and its down key raises until then |
| Session.InitialInv | src/main/java/ds/tetris/game/Game.kt:31-39 | a new game (figure on row 0, nothing started, paused or offered) satisfies the session invariant |
| Session.StartFails | src/main/java/ds/tetris/game/Game.kt:58 | a start raises exactly when the session is already started, which under the invariant means exactly while the loop is running |
| Session.Started | src/main/java/ds/tetris/game/Game.kt:57-67 | after a start the session is started, the loop exists and runs outside its falling phase, exactly one more wake-up is offered, the start award and the display clear are appended to their logs, and the figure, the board and the pause flag are unchanged |
| Session.StartedKeepsInv | src/main/java/ds/tetris/game/Game.kt:57-67 | a start keeps the session invariant |
| Session.StartOnlyOnce | src/main/java/ds/tetris/game/Game.kt:57-67 | right after a start a second start fails; a start offers exactly one wake-up and changes neither board nor figure |
| Session.OfferFailure | src/main/java/ds/tetris/game/Game.kt:74-76 | an offer the loop does not take raises ActorNotInitialized exactly when no loop was ever created, and ActorClosed otherwise |
| Session.PauseFails | src/main/java/ds/tetris/game/Game.kt:74-76 | only a resume can raise, and it offers nothing when it does; under the invariant it raises exactly when the session is not started (before the first start, or after game over) |
| Session.Toggled | src/main/java/ds/tetris/game/Game.kt:73-77 | a pause toggle flips the pause flag and changes nothing else except, possibly, the wake-up count |
| Session.ToggledKeepsInv | src/main/java/ds/tetris/game/Game.kt:73-77 | a pause toggle keeps the session invariant |
| Session.PauseTwiceRestores | src/main/java/ds/tetris/game/Game.kt:73-77 | two toggles restore the pause flag and the whole state, except for one extra wake-up when the loop is still running |
| Session.PauseOffersOnlyOnResume | src/main/java/ds/tetris/game/Game.kt:73-77 | a toggle always flips the flag and offers at most one wake-up, exactly when it resumes a loop that exists and is still running |
| Session.SpeedUpFails | src/main/java/ds/tetris/game/Game.kt:47-48 | the down-key action raises exactly when it offers no wake-up; under the invariant that is exactly when the session is not started |
| Session.SpedUp | src/main/java/ds/tetris/game/Game.kt:46-49 | the down-key action appends the speed-up bonus to the score log, offers one more wake-up exactly when the loop exists and is still running, and changes nothing else |
| Session.SpedUpKeepsInv | src/main/java/ds/tetris/game/Game.kt:46-49 | the down-key action (bonus, then wake-up) keeps the session invariant |
| Session.Direction.Dx | src/main/java/ds/tetris/game/Game.kt:50-55 | a sideways move changes the column by exactly one cell, towards smaller columns exactly for the left key |
| Session.Shifted | src/main/java/ds/tetris/game/Game.kt:50-55 | a refused sideways move changes nothing; an accepted one moves the figure by exactly one column in the key's direction, keeping its row, variant and width, and changes nothing but the figure |
| Session.ShiftedKeepsInv | src/main/java/ds/tetris/game/Game.kt:50-55 | a sideways move keeps the session invariant |
| Session.Lowered | src/main/java/ds/tetris/game/Game.kt:84-93 | accepted DOWN moves lower the figure by that many rows, keeping its column, variant and width, and change nothing but the figure |
| Session.LoweredKeepsInv | src/main/java/ds/tetris/game/Game.kt:84-93 | DOWN moves during the falling phase keep the session invariant |
| Session.Drawn | src/main/java/ds/tetris/game/Game.kt:82-83 | entering the falling phase puts the loop in it; a loop already falling changes nothing, otherwise exactly a draw request for the current figure is appended to the display log; nothing else changes |
| Session.DrawnKeepsInv | src/main/java/ds/tetris/game/Game.kt:82-83 | entering the falling phase of a running loop keeps the invariant and puts the loop in that phase |
| Session.LeadingMoves | src/main/java/ds/tetris/game/Game.kt:84-93 | the number of DOWN moves the falling phase makes: at most the moves given, all of them accepted, and the next one (if any) refused |
| Session.Landed | src/main/java/ds/tetris/game/Game.kt:94-108 | a landing ends the falling phase and keeps the pause flag and the wake-ups; on game over it stops the session, appends exactly the game-over request to the display log and leaves board, score and figure alone; otherwise it spawns the next table figure and appends exactly a fix of the landed figure when no lines are filled, or a fix, a wipe of the filled lines, one line award for their count and one display wipe when there are some |
| Session.LandedKeepsInv | src/main/java/ds/tetris/game/Game.kt:94-108 | a landing keeps the session invariant: every wipe follows a fix, is non-empty, is shown on the display and is awarded with its line count |
| Session.LandedStopsExactlyOnGameOver | src/main/java/ds/tetris/game/Game.kt:94-96 | a landing ends the session exactly on game over; then nothing is fixed, wiped or awarded, the figure stays, and a new start is allowed |
| Session.LandedSpawnsAfterFix | src/main/java/ds/tetris/game/Game.kt:97-108 | a landing that is not game over fixes the landed figure first, wipes and awards the reported lines (their full count) only when there are any, and installs the next table figure on row 0 |
| Session.TurnOf | src/main/java/ds/tetris/game/Game.kt:82-108 | one turn of the loop (draw unless already falling, fall by the leading accepted moves, land when a move was refused) ends outside the falling phase exactly when some DOWN move was refused; PlayAt and TurnOnlyAppends relate it to Play and to the logs |
| Session.TurnOnlyAppends | src/main/java/ds/tetris/game/Game.kt:82-108 | one turn only appends to the board, score and display logs and leaves the pause flag, the wake-ups and the actor flag alone |
| Session.PlayIdleWhenStopped | src/main/java/ds/tetris/game/Game.kt:81 | a loop that is no longer running changes nothing |
| Session.Play | src/main/java/ds/tetris/game/Game.kt:79-112 | over any sequence of pieces the loop adds at most two board entries and at most one award per piece |
| Session.PlayKeepsInv | src/main/java/ds/tetris/game/Game.kt:79-112 | the loop over any sequence of pieces keeps the session invariant |
| Session.PlayOnlyAppends | src/main/java/ds/tetris/game/Game.kt:79-112 | the loop only appends to the board, score and display logs and leaves the pause flag and the wake-up count alone |
| Session.GameOverIffStuckAtSpawn | src/main/java/ds/tetris/game/Game.kt:84-96 | a freshly spawned piece that lands ends the game exactly when its first DOWN move fails |
| Tetris.Game.constructor | src/main/java/ds/tetris/game/Game.kt:31-39 | a new game holds the spawned figure of the chosen table entry and satisfies the invariant |
| Tetris.Game.Start | src/main/java/ds/tetris/game/Game.kt:57-67 | fails with nothing changed when already started, otherwise performs the start transition (clear display, award start, create loop, offer one wake-up) |
| Tetris.Game.Pause | src/main/java/ds/tetris/game/Game.kt:73-77 | performs the toggle transition, and fails on a resume the loop does not take (before any start, or after game over), after the flag has flipped |
| Tetris.Game.SpeedUp | src/main/java/ds/tetris/game/Game.kt:46-49 | performs the down-key transition, and fails when the loop does not take the wake-up (before any start, or after game over), after the bonus is recorded |
| Tetris.Game.MoveSideways | src/main/java/ds/tetris/game/Game.kt:50-55 | moves the figure one column left or right exactly when the board accepts the move |
| Tetris.Game.Descend | src/main/java/ds/tetris/game/Game.kt:85-92 | one DOWN move: the figure goes down a row exactly when the board accepts it, and falling continues exactly then |
| Tetris.Game.Fall | src/main/java/ds/tetris/game/Game.kt:84-93 | the inner loop lowers the figure by the number of leading accepted moves and reports landing exactly when some move was refused |
| Tetris.Game.Land | src/main/java/ds/tetris/game/Game.kt:94-108 | performs the landing transition (game over, or fix, wipe and award if non-empty, spawn) and keeps the invariant |
| Tetris.Game.Turn | src/main/java/ds/tetris/game/Game.kt:82-108 | one turn of the loop is the TurnOf transition: draw unless already falling, fall by the leading accepted moves, and land exactly when a move was refused |
| Tetris.Game.Run | src/main/java/ds/tetris/game/Game.kt:79-112 | the outer loop's new state is the loop relation over the pieces given, and it keeps the invariant |

## Left out

- `stop()` and the shared `stopper` job (lines 41-45 and 69-71) are left out. Their only effect is to cancel coroutines. `stop()` leaves `isStarted` true, so a later `start()` fails; the model has no stop operation, so this is not captured.
- `isPaused` is a public `var` (line 39), so a caller may write it directly, without the wake-up that `pause()` offers on resuming. The model changes the flag only through `Pause`.
- The `select` between `onReceive` and `onTimeout` is not modelled as a concurrent race. Both of its branches make the same DOWN move, so `Descend` does not say which branch fired.
- `FirstWake` lets the signal win a tie with the timer, because the receiving clause is listed first. That is how this model reads a biased select.
- `ActorJob.offer` delivery is not modelled. An offered wake-up is only counted in `offers`. Whether an open channel buffers it or drops it is not modelled. An offer to a loop that is not there raises, as described above.
- `KeyCoroutine` (its start/stop and repeat timing) is not part of this model. Only the actions it repeats are modelled: `SpeedUp` for the down key and `MoveSideways` for the left and right keys.
- `onUpPressed` calls `board.rotateFigure()`, which is left out. Rotation lives inside the board, whose source is not part of this model.
- The internals of the board and the score are left out. Move success, the filled lines and the level are inputs, and the effect of an award on the level is not modelled.
- The display calls are kept only as an event log: clear area, draw figure, wipe lines and game over. The display's game-over request is logged on the game-over landing itself, which is equivalent because the loop exits right after it. Score and level display updates and `log` calls are not recorded.
- `figures.random` and `cls.newInstance()` are replaced by a table index parameter.
- CalculateDelay: the level is an unbounded integer. A 32-bit wrap-around of `level * 50` would only begin above level 42 949 672, and the type of the score's `level` is not part of this model.
- Run: it covers one uninterrupted stretch of the running loop. Pause, key actions and a new start between two stretches are separate method calls. A stretch ends in one of two ways:
  - a piece is still falling after the moves given for it, and the next `Run` call carries on with that piece without drawing it again;
  - the pieces given run out right after a landing. The new figure is then neither drawn nor falling, so a `MoveSideways` or `SpeedUp` call can act on it before the next `Run` draws it. The source never allows that, because it draws the new figure straight after spawning it (lines 107 and 83).
