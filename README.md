# Flappy ostrich: a verified model of the game step

The ostrich game is a small browser game. An ostrich at a fixed x falls under gravity and jumps on
Space or a click. Pipe pairs scroll in from the right at a speed set by the difficulty. The run ends
when the ostrich hits a pipe or leaves the playfield. Each pipe pair the ostrich passes scores one
point. This project models the game's logic in Dafny and proves what the code promises about it.
Three source files carry that logic:

- `game.dfy`, module `Game`, models the game component (`src/components/Game.tsx`).
  - The pure function `TickSpec` states what one interval tick of the updater does. The tick moves
    the ostrich, then moves, culls and spawns obstacles. It tests for a hit, then moves and spawns
    the scenery. Finally it either ends the run or marks the passed obstacles and adds to the score.
  - The method `Update` computes the same thing step by step and is proved equal to `TickSpec`.
    Inside it, the `forEach` scoring loop is the method `MarkPassed`.
  - The component's state (`isPlaying`, `score`, `highScore`, `gameOver`, the game state and the
    obstacle-id counter) is the class `Game.Game`. Its methods are `Start`, `Jump`,
    `SetDifficulty` and `Tick`.
  - The class invariant `Valid` holds in every reachable state. It says the state is well formed:
    the ostrich is inside the playfield, obstacles are ordered by id and by x, and every obstacle
    and background element is where the code can put it. It also says the passed flags record
    exactly the obstacles that have scored, so the score never exceeds the number of obstacles
    spawned.
- `game_helpers.dfy`, module `GameHelpers`, models the helpers in `src/utils/gameHelpers.ts`.
  - The helpers are the box overlap test, the obstacle generator and `calculateScore`.
  - The helpers keep their own configuration (gravity 0.5, gap 150), which differs from the
    component's constants (gravity 0.8, gap 180). Each module keeps its own values.
  - `Game.GapHitMatchesDrawnPipes` shows that the component's two half-plane tests agree with the
    helpers' box test against the pipes as drawn.
  - `Game.PassedAgreesWithCalculateScore` shows that in a well-formed state the passed flags count
    what `calculateScore` counts.
- `game_loop.dfy`, module `GameLoop`, models the animation-frame hook in `src/hooks/useGameLoop.ts`.
  - It is the class `FrameLoop` over the hook's refs.
  - The browser's frame scheduler is represented by the frame handles it has handed out and those
    that were cancelled.
  - The callback is represented by a ghost log of the deltas it received.

Every `Math.random()` draw is a parameter in [0, 1). A tick's draws are collected in the `Draws`
record. Positions are `real`; all the constants are exact rationals.

Two behaviours of the code are kept as written:

- `startGame` restores the initial state, so it also resets the difficulty to `"medium"`.
- The obstacle-id counter advances when an obstacle is spawned, even on the tick that ends the run.
  The code bumps the id before it tests for game over.

The scoring pass reads the ostrich's x from the component's render-time state rather than from the
updater's argument. No code path changes that x, so the model reads it from the previous state.
`WellFormed` records that the x is constant.

## Model

| member | source | states |
|---|---|---|
| GameHelpers.CheckCollisionMeansCommonInterior | src/utils/gameHelpers.ts:11-21 | for boxes of positive size, checkCollision holds exactly when some point lies strictly inside both boxes |
| GameHelpers.CheckCollision | src/utils/gameHelpers.ts:11-21 | a collision needs positive combined width and height; its exact meaning is given by CheckCollisionMeansCommonInterior and its partners below |
| GameHelpers.TouchingBoxesDoNotCollide | src/utils/gameHelpers.ts:15-20 | boxes that only share an edge do not collide |
| GameHelpers.CheckCollisionSymmetric | src/utils/gameHelpers.ts:16-19 | swapping the two boxes does not change the result |
| GameHelpers.GenerateObstacle | src/utils/gameHelpers.ts:23-33 | for a draw in [0, 1) the obstacle has x 800, gap 150 and a whole height in [50, 400) |
| GameHelpers.GenerateObstacleReachesEveryHeight | src/utils/gameHelpers.ts:24-26 | every whole height in [50, 400) is produced by some draw |
| GameHelpers.PassedFilter | src/utils/gameHelpers.ts:36 | the filter keeps exactly the x values with x + 60 < ostrichX, with their multiplicities, and never grows the list |
| GameHelpers.CalculateScore | src/utils/gameHelpers.ts:35-37 | the score is between 0 and the number of obstacles |
| GameHelpers.CalculateScoreConcat | src/utils/gameHelpers.ts:36 | the score of a concatenation is the sum of the scores of its parts |
| GameHelpers.CalculateScoreMonotoneInOstrichX | src/utils/gameHelpers.ts:36 | moving the ostrich right never lowers the score |
| GameHelpers.CalculateScoreMonotoneUnderLeftMoves | src/utils/gameHelpers.ts:36 | moving every obstacle left never lowers the score |
| GameLoop.FrameDelta | src/hooks/useGameLoop.ts:28-42 | no delta on the first frame, or when the delta is outside (0, 100); otherwise the delta is time minus the recorded time |
| GameLoop.Deliveries | src/hooks/useGameLoop.ts:24-46 | the deltas a running loop hands out over a run of frames: never more than the frames, each in (0, 100); RunFrames ties it to the class |
| GameLoop.DeliveriesFromRecordedTime | src/hooks/useGameLoop.ts:34-42 | on a clock that never goes back, the deltas delivered after a recorded time number at most the frames and sum to at most the elapsed time |
| GameLoop.FreshLoopDeliveries | src/hooks/useGameLoop.ts:24-46 | a fresh loop delivers fewer deltas than it sees frames, and the deltas sum to at most the time between the first and last frame |
| GameLoop.FrameLoop.constructor | src/hooks/useGameLoop.ts:4-6 | the refs start at no request, recorded time 0, running |
| GameLoop.FrameLoop.RequestFrame | src/hooks/useGameLoop.ts:45 | the scheduler hands out one fresh handle, which becomes the pending request |
| GameLoop.FrameLoop.Start | src/hooks/useGameLoop.ts:48-51 | the loop runs and exactly one frame is requested; the recorded time and delivered deltas are kept |
| GameLoop.FrameLoop.Frame | src/hooks/useGameLoop.ts:24-46 | a stopped loop changes nothing; a running loop records the time, requests exactly one next frame, and calls the callback with the delta given by FrameDelta and only then |
| GameLoop.FrameLoop.Cleanup | src/hooks/useGameLoop.ts:53-59 | the loop stops and the pending request, if any, is cancelled; the rest is unchanged, and a second cleanup changes nothing |
| GameLoop.CleanupIsFinal | src/hooks/useGameLoop.ts:24-59 | cleanup, cleanup again and a frame cancel exactly the pending request once, keep the request, and leave the recorded time, the handles and the delivered deltas unchanged |
| GameLoop.RunFrames | src/hooks/useGameLoop.ts:24-46 | a running loop fed frames at the given times hands the callback exactly the deltas of Deliveries, records the last time, requests one frame per frame and cancels nothing |
| Game.CurrentSpeed | src/components/Game.tsx:139 | speed 2 for "easy", 4 for "hard", and 3 for "medium" or any unknown key, each both ways |
| Game.CurrentSpacing | src/components/Game.tsx:140 | spacing 350 for "easy", 250 for "hard", and 300 for "medium" or any unknown key, each both ways |
| Game.ShiftObstacles | src/components/Game.tsx:142-144 | the list never grows, and every kept obstacle has x > -60 |
| Game.ShiftObstaclesAppend | src/components/Game.tsx:142-144 | shifting works obstacle by obstacle, so the relative order is kept |
| Game.ShiftObstaclesKeeps | src/components/Game.tsx:142-144 | every obstacle still right of -60 after moving is kept, moved left by exactly the speed, and every kept obstacle is such a moved obstacle |
| Game.ShiftObstaclesOrdered | src/components/Game.tsx:142-144 | shifting keeps obstacles strictly increasing in id and in x |
| Game.NewObstacle | src/components/Game.tsx:149-156 | a new obstacle has the given id, x 800, height 600, is not passed, and has its gap top in [50, 370) |
| Game.NeedsObstacle | src/components/Game.tsx:147-148 | an empty list always spawns, and when no obstacle is spawned the last one is at or right of 800 - spacing |
| Game.SpawnObstacle | src/components/Game.tsx:147-158 | at most one obstacle is appended, only when the list is empty or the last obstacle is left of 800 - spacing; the others are unchanged; afterwards the list is non-empty and the last x is at least 800 - spacing |
| Game.GapHit | src/components/Game.tsx:168-184 | a hit needs horizontal overlap with the pipe and the box reaching above the gap top or below the gap end |
| Game.HasCollision | src/components/Game.tsx:168-184 | no obstacles, no collision; HasCollisionSome states the full `some` |
| Game.HasCollisionSome | src/components/Game.tsx:168-184 | a collision means a top- or bottom-pipe hit on at least one obstacle |
| Game.InsideGapNeverHits | src/components/Game.tsx:168-184 | a box lying inside the gap never hits that obstacle |
| Game.GapHitMatchesDrawnPipes | src/components/Game.tsx:168-184 | for an ostrich inside the playfield, the two half-plane tests equal checkCollision against the top and bottom pipes as drawn |
| Game.PassedMarked | src/components/Game.tsx:208-213 | the pass keeps every obstacle but its flag, and an obstacle is passed afterwards exactly when it was passed or lies entirely left of the ostrich |
| Game.CountNewlyPassed | src/components/Game.tsx:208-213 | the points gained are at most the number of obstacles |
| Game.NewlyPassedIdsCount | src/components/Game.tsx:208-213 | with distinct ids, the points gained equal the number of distinct obstacles newly marked |
| Game.MarkPassed | src/components/Game.tsx:208-213 | the forEach loop marks exactly as PassedMarked does and counts exactly CountNewlyPassed points |
| Game.GenerateBackgroundElement | src/components/Game.tsx:63-77 | a new element is at x 800 with the drawn id; a cloud has y in [0, 320) and size in [0.8, 1.2), a bush has y 410 and size in [0.6, 0.9) |
| Game.ShiftBackground | src/components/Game.tsx:187-189 | the list never grows, and every kept element has x > -100 |
| Game.ShiftBackgroundOrigin | src/components/Game.tsx:187-189 | every kept element is an element moved left by half the speed |
| Game.ShiftBackgroundKeeps | src/components/Game.tsx:187-189 | every element whose moved x is still right of -100 is kept, moved left by half the speed |
| Game.SpawnBackground | src/components/Game.tsx:191-197 | the elements are kept in front; a cloud from the cloud draws is appended exactly when its chance is below 0.01, then a bush exactly when its chance is below 0.02 |
| Game.EndsGame | src/components/Game.tsx:199 | a run that goes on has its new y in [0, 540]; with no obstacles the run ends exactly when y leaves [0, 540] |
| Game.TickSpec | src/components/Game.tsx:134-222 | the spawn flag is the spawn test on the shifted obstacles; a tick that ends the run returns the previous state and gains nothing; otherwise the gain is at most the number of obstacles |
| Game.TickPhysics | src/components/Game.tsx:135-136 | a tick that does not end the game adds the velocity to y and 0.8 to the velocity, and keeps the ostrich's x and the difficulty |
| Game.TickGameOverRule | src/components/Game.tsx:199-205 | the game ends exactly on a hit on some obstacle, or when the new y exceeds 540 or is below 0; the state is then returned unchanged and no point is gained |
| Game.TickSpawnRule | src/components/Game.tsx:147-158 | a tick appends at most one obstacle, the new one with the next id, and keeps the shifted ones in order; afterwards the last obstacle is within the spacing of the right edge, and scoring neither adds nor removes obstacles |
| Game.TickBackgroundIrrelevant | src/components/Game.tsx:186-197 | the background elements do not change whether the game ends, the spawn, the score, the obstacles or the ostrich |
| Game.InitialStateWellFormed | src/components/Game.tsx:50-56 | the initial state is well formed |
| Game.ShiftObstaclesInPlay | src/components/Game.tsx:142-144 | moving keeps obstacles in play and puts them strictly left of 800 |
| Game.SpawnObstacleInPlay | src/components/Game.tsx:147-158 | spawning keeps obstacles ordered and in play, counting the id it uses |
| Game.PassedMarkedWellPlaced | src/components/Game.tsx:207-213 | after scoring, every obstacle entirely left of the ostrich is passed, and the order is kept |
| Game.BackgroundStaysOnScreen | src/components/Game.tsx:186-197 | moving and spawning keep every element on screen and in its band |
| Game.MovedObstaclesInPlay | src/components/Game.tsx:142-158 | the obstacles a tick produces before scoring are ordered and in play |
| Game.TickPreservesWellFormed | src/components/Game.tsx:134-222 | every tick keeps the state well formed, counting the id a spawn uses |
| Game.MovedObstaclesScoredIds | src/components/Game.tsx:142-158 | before scoring, an obstacle is passed exactly when its id has already scored |
| Game.PassedMarkedScoredIds | src/components/Game.tsx:207-213 | the ids scored this tick had not scored before, and afterwards an obstacle is passed exactly when its id has scored |
| Game.TickScoredIds | src/components/Game.tsx:134-222 | on a tick that goes on, the scored ids grow by exactly the points gained, stay below the next id, and match the passed flags |
| Game.PassedNeverReverts | src/components/Game.tsx:208-213 | a passed obstacle stays passed and is never counted again |
| Game.PassedAgreesWithCalculateScore | src/components/Game.tsx:208-213 | when the passed flags match the positions, the number of passed obstacles equals calculateScore of their x values |
| Game.NewHighScore | src/components/Game.tsx:94-99 | the high score never decreases; at game over it is at least the score; it changes only to the score at game over |
| Game.TickKeepsConsistent | src/components/Game.tsx:134-222 | a tick keeps the run's bookkeeping; on game over the state is unchanged, otherwise the newly passed ids join the scored ids and the score grows by the points gained |
| Game.Update | src/components/Game.tsx:134-222 | the step-by-step updater computes exactly TickSpec |
| Game.Game.constructor | src/components/Game.tsx:80-85 | not playing, no game over, score and high score 0, the initial state and obstacle id 0 |
| Game.Game.ScoreAtMostObstaclesSpawned | src/components/Game.tsx:207-213 | each obstacle scores at most once, so the score never exceeds the number of obstacles spawned |
| Game.Game.Start | src/components/Game.tsx:101-107 | playing, no game over, score 0, obstacle id 0, the initial state with difficulty "medium", and the high score kept |
| Game.Game.Jump | src/components/Game.tsx:109-116 | a jump while playing sets only the velocity, to -10; otherwise nothing changes |
| Game.Game.SetDifficulty | src/components/Game.tsx:236-238 | only the difficulty changes |
| Game.Game.Commit | src/components/Game.tsx:199-205 | the id counter advances on a spawn; on game over the run stops and the high-score effect runs, otherwise the new state and score are stored; the invariant is kept |
| Game.Game.Tick | src/components/Game.tsx:133-222 | no change while not playing; otherwise the new state, flags, score, id counter and high score are exactly those TickSpec and the high-score effect give, and the invariant is kept |

## Left out

- Rendering: the JSX of every component, the background sort (kept only for draw order), and the settings dropdown. They are presentation only.
- Audio playback and the `localStorage` load and store of the high score are I/O. The model starts with a high score of 0 and keeps only the high-score arithmetic.
- `setInterval`/`clearInterval`, `requestAnimationFrame`/`cancelAnimationFrame` and the keyboard listener are browser calls. A tick is a call of `Game.Game.Tick`, a frame a call of `GameLoop.FrameLoop.Frame`, and a key press a call of `Game.Game.Jump`.
- `Math.random()` is not modelled. Each draw is a parameter in [0, 1), and background ids are opaque numbers.
- React batching, stale closures and double-invoked updaters are not modelled. The updater's `setScore` and `setNextObstacleId` calls are sequential updates that follow the updater.
- The unused `debounce` in the frame hook is timer driven and is not part of this model.
- The settings control is disabled while playing, but that is done in the markup. `Game.Game.SetDifficulty` does not require that the game is stopped.
- `src/constants/gameConstants.ts` duplicates the component's constants and is not imported by the component. `src/types` holds declarations only, including power-ups that no code implements.
- The background spawn gives a bush a y draw of 0. A bush draws no y, so the value is never used.
- Positions and velocities are exact reals. The game keeps them in IEEE doubles, where adding 0.8 each tick is not exact, so at an exact tie with the bounds 0 and 540 the game may end one tick earlier or later than in the model.
- GameLoop.FreshLoopDeliveries: it assumes a clock that never goes back and starts at or after 0. The hook itself promises nothing for other clocks.
