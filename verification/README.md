# Grid snake: a verified model of the simulation core

This project models the simulation core of a browser snake game in Dafny. The board is a 20 × 20 grid, and cells run from -10 to 9 on both axes. The snake is a list of cells, head first. Each tick:

- it commits at most one buffered heading;
- it ends the game on hitting a wall or its own body, where the body includes the current tail;
- it otherwise moves one cell, or grows by one cell when it eats the food.

Eating raises the score and respawns the food. The spawner tries 200 random cells and then scans the board row by row for the first free cell. A fixed-timestep scheduler turns elapsed frame time into ticks: each full 130 ms interval is one tick. Key presses fill a one-slot direction buffer. `r`/`R` restarts the game, but only after a game over.

The state is an immutable `GameState` value, and every operation is a pure function of that state. The modules follow the structure of the program:

| file | module | what it holds |
|---|---|---|
| `grid.dfy` | `Optional`, `Grid` | the option type, cells and headings, the bounds test, the row-major scan order |
| `food.dfy` | `Food` | `respawnFood`: the random phase over a supplied draw batch and the fallback scan |
| `game.dfy` | `Game` | the state, the start-up state, `step`, `endGame`, `restartGame`, and the invariant (in bounds, no cell twice, segments adjacent, food off the snake unless the board is full) |
| `input.dfy` | `Input` | the key table, case folding and the keydown handler |
| `loop.dfy` | `RenderLoop`, `Session` | the accumulator loop of the render callback, and the two host callbacks applied in sequence |
| `scenarios.dfy` | `Scenarios` | concrete runs: three ticks east through food, the walls, a rejected reversal, running into the tail |

Randomness is a parameter. Each call of `respawnFood` receives a *draw batch*: the 200 in-bounds cells that `Math.random` would have produced for that call, in order. A render frame receives one batch per tick it may run. Every property below holds for all draw batches.

The model follows the code where its behaviour is easy to misread:

- A movement key fills the buffer even while the game is over, because the handler does not test the phase for movement keys. `restartGame` clears the buffer again.
- When no cell is free, `respawnFood` returns without a spawn and the previous food cell stays. No error is raised. The invariant allows exactly this case: food on the snake only when the snake covers the whole board.
- `restartGame` does not reset the accumulator.
- A game over in the middle of a frame does not stop the catch-up loop. The remaining ticks are no-ops and the accumulator is still drained.

## Model

| member | source | states |
|---|---|---|
| Grid.BoundsAreHalfOpen | game.js:45-52 | the bounds test accepts exactly -10 <= gx < 10 and -10 <= gz < 10; (9,0) and (-10,0) are inside, (10,0) and (-11,0) are outside |
| Grid.UnitIsNotItsReverse | game.js:232-233 | no unit heading equals its own negation, so the reversal test rejects only the opposite heading |
| Grid.ScanPositionsEnumerateBoard | game.js:69-79 | the 400 scan positions of the two nested loops are exactly the in-bounds cells, each once, and scan order is row-major order (gz outer, gx inner) |
| Food.FirstFreeDraw | game.js:58-68 | the random phase picks the first candidate the snake does not occupy, and finds none exactly when every candidate is occupied |
| Food.ScanFrom | game.js:69-79 | the fallback scan returns an in-bounds free cell with every earlier cell in row-major order occupied, and returns nothing exactly when every remaining cell is occupied |
| Food.Respawn | game.js:54-80 | a spawned cell is in bounds and off the snake; it is the first free random candidate if there is one, else the row-major first free cell; on a full board the previous food cell is kept |
| Game.InitialSnake | game.js:190-208 | the starting snake is (1,0), (0,0), (-1,0): head at gx = 1, trailing west |
| Game.Init | game.js:190-215 | the state at start-up heads east with an empty buffer, score 0, running, and food on the board off the snake, chosen by the spawn rule from no previous food |
| Game.EndGame | game.js:302-303 | ending the game raises the flag and changes no other field |
| Game.Restart | game.js:313-345 | restart yields the three-cell starting snake heading east, an empty buffer, score 0, running, and food on the board off the new snake, chosen by the spawn rule against the new snake |
| Game.RestartIsCanonical | game.js:313-342 | the state after a restart does not depend on the state before it |
| Game.Step | game.js:241-283 | a tick is the identity after a game over; otherwise it commits and clears the buffer; it ends the game iff the new head is off the board or on any pre-move cell, and then keeps snake, score and food; a move drops the tail; eating keeps the tail, adds 1 to the score and respawns against the lengthened snake |
| Game.CollisionKeepsValid | game.js:255-263 | a colliding tick, which only commits the heading and sets the flag, keeps the invariant |
| Game.MoveKeepsValid | game.js:267-272 | moving onto a free neighbour and dropping the tail keeps the snake in bounds, duplicate-free and connected, with the food off the snake |
| Game.EatKeepsValid | game.js:273-282 | eating keeps the snake's shape; the new food is off the lengthened snake unless that snake covers the board |
| Game.InitValid | game.js:190-215 | the state at start-up satisfies the invariant |
| Game.RestartValid | game.js:313-345 | the state after a restart satisfies the invariant |
| Game.StepPreservesValid | game.js:241-283 | every tick preserves the invariant: cells in bounds, pairwise distinct, at least one, consecutive cells adjacent, food on the board |
| Game.StepNeverReverses | game.js:244-247 | from a valid state the heading after a tick is never the exact reverse of the heading before it |
| Input.LowerChar | game.js:220 | a Latin capital maps to the small letter at the same alphabet position; every other character is unchanged |
| Input.FoldKey | game.js:220 | a one-character key is replaced by its lower-cased character; a longer key name is kept as it is; the length never changes |
| Input.KeyDirection | game.js:220-228 | a key selects a unit heading exactly when its folded form (one-character keys lower-cased, longer names kept) or the key as typed is in the direction table |
| Input.KeysPerHeading | game.js:15-25 | north is selected by exactly ArrowUp, w and W; south by ArrowDown, s, S; west by ArrowLeft, a, A; east by ArrowRight, d, D; no key selects any other vector |
| Input.HandleKey | game.js:218-236 | r/R restarts while the game is over; any other press changes only the buffer, and does so iff the buffer is empty and the key selects a heading that is not the reverse of the current one, storing that heading |
| Input.CaseFolded | game.js:220-227 | a capital letter key has the same effect as its small letter, restart included |
| Input.RestartOnlyWhenOver | game.js:223-228 | a key press takes an ended game back to running only if it is r/R, and r/R while running has no effect |
| Input.RestartTwiceIsRestartOnce | game.js:223-226 | pressing r twice after a game over gives the same state as pressing it once |
| Input.IgnoredKeys | game.js:227-231 | unknown keys, and any press while a heading is already buffered, leave the state unchanged |
| Input.HandleKeyPreservesValid | game.js:218-236 | key handling preserves the invariant |
| RenderLoop.StepN | game.js:353-356 | n ticks in a row keep a running snake non-empty, leave an ended game as it is and never lower the score |
| RenderLoop.TicksAreQuotient | game.js:353-356 | subtracting 130 while at least 130 remains runs accumulator / 130 times and leaves accumulator % 130 |
| RenderLoop.Drain | game.js:353-356 | the catch-up loop always leaves less than one interval in the accumulator; the ticks it runs are stated by DrainIsStepN |
| RenderLoop.DrainIsStepN | game.js:353-356 | the catch-up loop runs exactly one tick per whole interval, in draw-batch order, and keeps the remainder |
| RenderLoop.Frame | game.js:349-357 | a frame after a game over changes neither the game nor the accumulator; otherwise the game advances by one tick per whole interval in the old accumulator plus dt, which is (acc + dt) / 130 ticks by TicksAreQuotient, and the accumulator keeps the rest, (acc + dt) % 130 |
| RenderLoop.FrameRunsQuotientTicks | game.js:349-357 | a running frame advances the game by exactly (acc + dt) / 130 ticks and leaves (acc + dt) % 130 in the accumulator |
| RenderLoop.StepNPreservesValid | game.js:353-356 | any run of ticks preserves the invariant |
| RenderLoop.FramePreservesValid | game.js:349-357 | a frame preserves the invariant and leaves less than 130 ms pending |
| Session.Deliver | game.js:218-236 | a key press or a frame preserves the invariant, and a key press, restart included, leaves the accumulator unchanged |
| Session.Run | game.js:349-357 | any sequence of key presses and frames from a valid state ends in a valid state |
| Session.Start | game.js:190-215 | the state at start-up is valid with nothing accumulated |
| Session.ReachableStatesAreValid | game.js:241-283 | every state reachable from start-up is valid: no two snake cells equal, all in bounds, adjacent segments, food on the board |
| Scenarios.FirstTickMoves | game.js:265-272 | from the start with food at (3,0), the first tick moves the head to (2,0) with length 3 and score 0 |
| Scenarios.SecondTickEats | game.js:273-282 | the second tick reaches the food: head (3,0), length 4, score 1 |
| Scenarios.SecondTickRespawns | game.js:282 | after that tick the new food is on the board and off the four-cell snake |
| Scenarios.ThirdTickMoves | game.js:265-272 | the third tick moves the head to (4,0); the length stays 4 unless the new food was exactly at (4,0) |
| Scenarios.ThreeTicksEast | game.js:241-283 | the three ticks in a row from the starting snake with food at (3,0) |
| Scenarios.LastColumnEastIsLegal | game.js:255-263 | a running snake of any length heading east with its head at (8,0) moves onto (9,0) without ending the game when that cell is free, food there or not |
| Scenarios.FirstColumnWestIsLegal | game.js:255-263 | a running snake of any length heading west with its head at (-9,0) moves onto (-10,0) without ending the game when that cell is free, food there or not |
| Scenarios.PastTheWallEnds | game.js:255-257 | one step east from x = 9 or west from x = -10 ends the game and leaves the snake in place |
| Scenarios.ReversalIgnored | game.js:232-233 | pressing the reverse of the heading changes nothing, and the next tick keeps the heading |
| Scenarios.TailIsAnObstacle | game.js:259-263 | a head moving onto the current tail ends the game, because the collision check runs before the tail is dropped |
| Scenarios.TailChaseShape | game.js:259-263 | a well-shaped four-cell snake exists whose head's east neighbour is its tail |

## Left out

- Rendering is not modelled. This covers the Babylon scene, meshes, materials, colours and alpha changes, the GUI score and game-over text, and `gridToWorld`. None of them feeds back into the simulation.
- `Math.random` is replaced by the supplied draw batch: 200 in-bounds candidate cells per respawn call. The floor-and-offset arithmetic that maps a float into `[-10, 9]` is assumed, not modelled.
- `getDeltaTime` returns a floating-point number in the source. The model takes `dt` as a natural number of milliseconds.
- Keyboard registration, `preventDefault` and the `resize` listener are not modelled. They are DOM side effects with no effect on the state.
- Keys that name an inherited property of a JavaScript object, such as `constructor`, are not modelled. The source's table lookup would find such a property, but no keyboard key value has these names, so the model treats every key outside the table as unknown.
- Lower-casing covers only the Latin capitals. Case mapping outside ASCII cannot produce any of the table's keys, so the lookup result is the same.
- The occupied set of `respawnFood` holds string keys `"gx,gz"`. The model uses membership in the snake's cell list instead. The two agree because the key is injective on integer pairs.
- RenderLoop.Drain: its own contract states only that less than one interval is left. The ticks it runs and the exact remainder are proved separately in RenderLoop.DrainIsStepN, which keeps each proof small.
- Session.Run: requires a valid starting state. It is a model of the host calling the two callbacks in turn, and the validity lets each frame be handed one draw batch per tick; the source itself has no such loop.
- The other files of the repository (`async.js`, `promisechaining.js`, `post.js`, `delayedgreeting.js`) are not part of this model. They are console-only demos of timers, promises and `fetch`, with no game state.
