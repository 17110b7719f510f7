# Gesture-controlled Snake, modelled in Dafny

This project models two parts of a hand-gesture Snake game.

- **The game engine** (`SnakeGame` in snake_game.py) runs on a grid.
  - A queued heading becomes the committed heading on each tick.
  - The head either wraps across the edges or, in classic mode, ends the game at a wall.
  - Running into the body ends the game.
  - Eating the fruit grows the snake by one and scores 10.
  - Stepping onto a power-up scores 20 and removes it.
  - Power-ups lose one unit of lifespan per tick and vanish at zero.
  - A new fruit, and on occasion a power-up, is placed by a retry loop over random cells.
- **The gesture interpreter** (`GestureControl` in gesture_control.py) turns one frame of hand-tracking output into a direction and a pinch flag.
  - It sets a movement threshold from the detector's confidence.
  - It averages the last six wrist positions.
  - It classifies the movement of that average, behind a four-frame cooldown.
  - It detects a pinch of thumb and index finger.
  - It forgets everything after more than twelve frames without a hand.

Each core file becomes a pair: a module of pure definitions, and a class with the source's fields.

- `Directions` (directions.dfy) holds the `Direction` enumeration, its unit vectors, the reverse heading and the mapping to and from the strings "UP", "DOWN", "LEFT" and "RIGHT".
- `SnakeSpec` (snake_spec.dfy) holds the game state as a value, `Game`.
  - Each operation is a function on `Game`: `Tick`, `Steer`, `Respawn`, `Reset` and `Aged`.
  - `Inv` is the invariant every operation keeps:
    - the snake is non-empty, distinct and on the grid;
    - the queued heading never reverses the committed one;
    - the fruit sits on the grid, off the snake and off every power-up;
    - power-ups sit off the snake, with lifespan 1..200.
- `SnakeEngine.SnakeGame` (snake_game.dfy) is the class.
  - Its methods update the fields statement by statement, as the source does.
  - Each method is proved to leave `Model()` equal to the matching `SnakeSpec` function of the old state.
- `GestureSpec` (gesture_spec.dfy) holds the interpreter state as a value, `State`.
  - One call is `Detect`, and a sequence of calls is `Run`.
  - The lemmas cover what several frames in a row guarantee: debouncing, loss of tracking, and re-acquisition.
- `GestureEngine.GestureControl` (gesture_control.dfy) is the class, proved against `Detect`.

**Randomness** is an explicit parameter, `Draws`:
- `fruitCells`: the cells the fruit retry loop would draw, in order;
- `roll`: the value of `random.random()`;
- `powerUpCells`: the cells the power-up retry loop would draw.

A retry loop takes the first vacant cell. Its precondition is that some drawn cell is vacant: the source loops forever otherwise.

**The camera and the hand detector** are replaced by a `Reading` per frame.
- A `Reading` is either `NoHand`, or the top hand's score with its wrist, thumb-tip and index-tip landmarks.
- A frame with landmarks but no handedness is `Hand` with confidence 0.0.

**Norms** are compared on squares. This is exact, since every threshold is positive.

## Model

| member | source | states |
|---|---|---|
| Directions.Opposite | snake_game.py:187-192 | the reverse heading has the negated unit vector and differs from the heading |
| Directions.Parse | snake_game.py:183-185 | a string is accepted exactly when it is the name of a heading, and then maps to that heading |
| Directions.DirectionFacts | snake_game.py:10-14 | each heading moves one cell along exactly one axis; reversing twice is the identity; parsing a heading's name gives it back |
| SnakeSpec.GridCells | snake_game.py:30-31 | the grid is at least 4 cells wide; it is exactly 4 when fewer than five whole cells of `gridSize` pixels fit, and otherwise the number of whole cells that fit |
| SnakeSpec.Positions | snake_game.py:115 | the positions of the power-ups, one per power-up, in order |
| SnakeSpec.CountAt | snake_game.py:258-260 | the number of power-ups on a cell is zero exactly when no power-up is there |
| SnakeSpec.RemoveAt | snake_game.py:258-262 | removing the power-ups on a cell shortens the list by their count |
| SnakeSpec.RemoveAtMember | snake_game.py:258-262 | a power-up survives collection exactly when it was present and not on the head's cell |
| SnakeSpec.Aged | snake_game.py:174-178 | ageing never lengthens the list |
| SnakeSpec.AgedMember | snake_game.py:174-178 | a power-up is present after ageing exactly when it had one more unit of lifespan before and still has some left |
| SnakeSpec.AgedAppend | snake_game.py:175 | ageing goes element by element in list order, so it distributes over concatenation |
| SnakeSpec.RemoveAtAppend | snake_game.py:258 | collection goes element by element in list order, so it distributes over concatenation, and so do the counts |
| SnakeSpec.RemoveFirst | snake_game.py:178 | `list.remove` shortens the list by one |
| SnakeSpec.RemoveFirstMultiset | snake_game.py:178 | `list.remove` takes away exactly one copy of the element |
| SnakeSpec.RemoveFirstAt | snake_game.py:178 | when the element first occurs at index k, `list.remove` deletes exactly index k |
| SnakeSpec.FirstVacant | snake_game.py:112-117 | the retry loop yields a cell exactly when some drawn cell is vacant, and that cell is drawn and vacant |
| SnakeSpec.FirstVacantIsFirst | snake_game.py:112-117 | the yielded cell is the first vacant one drawn: every earlier draw is occupied |
| SnakeSpec.CountAtAppend | snake_game.py:258-259 | the number of entries on a cell distributes over concatenation |
| SnakeEngine.FindVacant | snake_game.py:112-117 | the `while True` loop stops at the first vacant draw |
| SnakeSpec.Respawn | snake_game.py:111-128 | the new fruit is drawn and lies off the snake and off every power-up; snake and score are untouched. A power-up is appended, lifespan 200, off the snake and the fruit, exactly when the score is 30 or more past the last power-up score and the roll is below 0.1. That score is then recorded. Only the fruit, the power-ups and the last power-up score can change |
| SnakeSpec.RespawnOffPowerUps | snake_game.py:115-126 | the respawned fruit is off every power-up, including one spawned with it |
| SnakeSpec.EndGame | snake_game.py:232-234 | the game ends; the high score becomes the larger of the old high score and the score, and nothing else changes |
| SnakeSpec.SteerEffect | snake_game.py:180-194 | only the queued heading changes. Nothing changes while over or paused, for an unknown string, or for the reverse of the committed heading. Any other known heading is queued. The invariant holds |
| SnakeSpec.Steer | snake_game.py:180-194 | the effect of `change_direction` on the state; stated by `SteerEffect` |
| SnakeSpec.TickFrozen | snake_game.py:207-208 | a tick while over or paused changes nothing |
| SnakeSpec.WrapStep | snake_game.py:215-227 | with wrap-around the head always stays on the grid; an on-grid step is unchanged; leaving at one edge re-enters at the opposite one |
| SnakeSpec.Wrap | snake_game.py:215-227 | the wrap-around correction, first matching edge first; stated by `WrapStep` |
| SnakeSpec.NextHead | snake_game.py:209-227 | the cell the head moves to: one step along the queued heading, wrapped in wrap mode; stated by `WrapStep` and `WallOnlyInClassic` |
| SnakeSpec.PlanTick | snake_game.py:207-250 | the order of the decisions in `update`: frozen, wall, body, fruit, ordinary step; `WallOnlyInClassic`, `TickFrozen`, `TickWall`, `TickSelf`, `TickSlide` and `TickEat` state each case |
| SnakeSpec.WallOnlyInClassic | snake_game.py:215-236 | a wall collision happens exactly in classic mode when the step leaves the grid |
| SnakeSpec.TickWall | snake_game.py:229-236 | a wall hit ends the game with the heading committed and the high score raised to the score if higher; nothing else changes |
| SnakeSpec.TickSelf | snake_game.py:238-244 | moving onto any segment, the tail included, ends the game with the heading committed, without growth or points; the high score becomes the larger of itself and the score; nothing else changes |
| SnakeSpec.TickSlide | snake_game.py:246-265 | an ordinary step commits the heading, prepends the head and drops the tail. It scores 20 per power-up on the head's cell, removes those and ages the rest. Fruit, high score, flags and last power-up score are unchanged |
| SnakeSpec.TickEat | snake_game.py:246-265 | eating commits the heading, grows the snake by one and scores 10. The new fruit is the first vacant draw of the retry loop, off the snake and off every power-up. The power-up throttle runs against the score after the +10, and every power-up, one spawned on this tick included, is aged on the same tick. High score and flags are unchanged |
| SnakeSpec.Grown | snake_game.py:247-251 | the head inserted with the tail kept and 10 points added; stated through `TickEat` |
| SnakeSpec.Collected | snake_game.py:257-265 | collection at the head followed by ageing; stated by `RemoveAtMember`, `AgedMember`, `CollectedKeepsInv` and proved equal to `CollectAndAge` |
| SnakeSpec.Tick | snake_game.py:206-265 | one `update` call; its cases are stated by `TickFrozen`, `TickWall`, `TickSelf`, `TickSlide` and `TickEat`, each giving the whole new state, and `TickKeepsInv` shows it keeps the invariant |
| SnakeSpec.StartSnakeFacts | snake_game.py:95-97 | the start snake has three distinct on-grid segments with the head at the grid centre |
| SnakeSpec.ResetFacts | snake_game.py:92-109 | a reset puts back the start snake, heading Right, score 0, no power-ups, and the flags cleared. It keeps the high score, the last power-up score and the wrap mode. The invariant holds |
| SnakeSpec.StartSnake | snake_game.py:95-97 | the three start cells, head first; their properties are `StartSnakeFacts` |
| SnakeSpec.Restarted | snake_game.py:93-108 | the fields `reset_game` assigns before it spawns the fruit; what they are is stated by `ResetFacts` |
| SnakeSpec.Reset | snake_game.py:92-109 | `Restarted` followed by `Respawn`; stated by `ResetFacts` and proved equal to `ResetGame` |
| SnakeSpec.TickKeepsInv | snake_game.py:206-265 | every tick keeps the invariant |
| SnakeSpec.CollectedKeepsInv | snake_game.py:257-265 | collecting and ageing power-ups keeps the invariant |
| SnakeSpec.SlideKeepsInv | snake_game.py:246-265 | an ordinary step keeps the invariant |
| SnakeSpec.EatKeepsInv | snake_game.py:246-265 | eating keeps the invariant |
| SnakeSpec.ScenarioSlide | snake_game.py:206-265 | on a 10 by 10 grid, the snake (5,5),(4,5),(3,5) heading right moves to (6,5),(5,5),(4,5) with no points |
| SnakeSpec.ScenarioEat | snake_game.py:246-253 | the same snake with the fruit at (6,5) grows to four segments and scores 10; the next fruit is the first free drawn cell, (1,1) |
| SnakeEngine.SnakeGame.constructor | snake_game.py:25-67 | the grid dimensions are as computed, the start state is as reset, the high score is the saved one, and wrap-around is on |
| SnakeEngine.SnakeGame.ResetGame | snake_game.py:92-109 | the new state is `Reset` of the old one, and the invariant holds |
| SnakeEngine.SnakeGame.SpawnFruit | snake_game.py:111-120 | the new state is `Respawn` of the old one |
| SnakeEngine.SnakeGame.SpawnPowerUp | snake_game.py:122-128 | one power-up with lifespan 200 is appended at the first draw off the snake and off the fruit |
| SnakeEngine.SnakeGame.UpdatePowerUps | snake_game.py:174-178 | the new list is `Aged` of the old one: the copy-iterate, decrement-in-place and `remove` loop equals the ageing function |
| SnakeEngine.SnakeGame.CollectPowerUps | snake_game.py:257-262 | the power-ups on the head's cell are removed and 20 points are added for each |
| SnakeEngine.SnakeGame.CollectEntry | snake_game.py:259-262 | one entry of the copy: when it sits on the head it is removed from the live list and scores 20, so the live list stays the collected prefix followed by the untouched rest |
| SnakeEngine.SnakeGame.ChangeDirection | snake_game.py:180-194 | the new state is `Steer` of the old one, and the invariant holds |
| SnakeEngine.SnakeGame.TogglePause | snake_game.py:196-197 | only the pause flag flips |
| SnakeEngine.SnakeGame.ToggleWrap | snake_game.py:199-200 | only the wrap-around flag flips |
| SnakeEngine.SnakeGame.SetSpeedBoost | snake_game.py:203-204 | only the boost flag changes |
| SnakeEngine.SnakeGame.CurrentSpeed | snake_game.py:399-400 | the speed is 12 exactly when boosted and 6 exactly when not |
| SnakeEngine.SnakeGame.Update | snake_game.py:206-265 | the new state is `Tick` of the old one, and the invariant holds |
| SnakeEngine.SnakeGame.Step | snake_game.py:206-265 | without the invariant: a frozen game is untouched, a wall hit ends the game, and every other tick goes on to `Land`; together the new state is `Tick` of the old one |
| SnakeEngine.SnakeGame.WrapAround | snake_game.py:215-227 | the head past one edge re-enters at the opposite edge, the first matching edge in the source's order deciding |
| SnakeEngine.SnakeGame.Finish | snake_game.py:232-234 | the game is over and the high score is raised exactly when the score beats it |
| SnakeEngine.SnakeGame.Land | snake_game.py:239-265 | for a head on the grid, running into the body ends the game and any other cell is taken, so the state is `Tick` of the pre-tick state |
| SnakeEngine.SnakeGame.Advance | snake_game.py:246-265 | after the head is inserted, the fruit is eaten or the tail dropped, then power-ups are collected and aged |
| SnakeEngine.SnakeGame.CollectAndAge | snake_game.py:257-265 | power-up collection followed by ageing |
| SnakeEngine.SnakeGame.HandleRestart | snake_game.py:395-397 | the game resets exactly when it is over and the gesture is "UP"; otherwise nothing changes |
| GestureSpec.Threshold | gesture_control.py:64-70 | the threshold is 0.02 exactly above confidence 0.8, 0.03 exactly in (0.5, 0.8], and 0.05 exactly at 0.5 or below |
| GestureSpec.ThresholdShrinks | gesture_control.py:64-70 | the threshold is positive and never grows as confidence grows |
| GestureSpec.Classify | gesture_control.py:96-99 | the movement is horizontal exactly when its x component is strictly larger in magnitude, with the sign of the dominant component; zero counts as LEFT or UP |
| GestureSpec.Push | gesture_control.py:87-89 | the window keeps at most six samples, the newest last, and is a suffix of the old window plus the new sample |
| GestureSpec.Sum | gesture_control.py:90 | the component sums of the window; bounded by `SumWithin` |
| GestureSpec.Mean | gesture_control.py:90 | `np.mean(..., axis=0)` of the window; `MeanWithin` shows it lies in every box holding all samples |
| GestureSpec.SumCons | gesture_control.py:90 | the component sums taken from the front: the first sample plus the sums of the rest |
| GestureSpec.MeanShift | gesture_control.py:87-90 | with a full window, a new sample moves the smoothed position by a sixth of the difference between it and the dropped oldest sample, so the mean is the average of exactly the last six samples |
| GestureSpec.Exceeds | gesture_control.py:93-95 | the movement norm is past the threshold, compared on squares; used by `ChangeArmsCooldown` and `ChangeWhenEligible` |
| GestureSpec.Pinching | gesture_control.py:106-109 | thumb and index tips closer than 0.05, compared on squares; `Detect` reports exactly this on a hand frame |
| GestureSpec.Judge | gesture_control.py:92-103 | the classification step; stated by `JudgeShape`, `ChangeArmsCooldown` and `ChangeWhenEligible` |
| GestureSpec.ResetState | gesture_control.py:173-178 | every field but the last confidence back to its initial value; stated by `ResetGestureState` and `LossOfTrackingResets` |
| GestureSpec.HandStep | gesture_control.py:72-118 | the hand branch before the cooldown tick; stated by the hand clauses of `Detect` and by `WindowSlides` |
| GestureSpec.NoHandStep | gesture_control.py:120-123 | the no-hand branch before the cooldown tick; stated by `NoHandCounts` |
| GestureSpec.Detect | gesture_control.py:57-126 | the reported direction is the state's current direction, and the last confidence is the frame's. A hand frame clears the no-hand count, slides the window, remembers the window mean and reports the pinch. A no-hand frame never reports a pinch. What a call does to direction and cooldown is stated by `ChangeWhenEligible`, `ChangeArmsCooldown`, `FirstSampleKeepsDirection` and `CooldownBlocks`, and the no-hand step by `NoHandCounts` |
| GestureSpec.InitialInv | gesture_control.py:26-38 | the initial state satisfies the invariant with all tracking cleared |
| GestureSpec.DetectKeepsInv | gesture_control.py:57-126 | after any call, the window has at most six samples, the cooldown is 0..3, and a running cooldown implies a direction. The no-hand count is 0..12, and a previous position exists exactly when the window is non-empty |
| GestureSpec.RunKeepsInv | gesture_control.py:57-126 | any sequence of calls keeps the invariant |
| GestureSpec.RunAppend | gesture_control.py:40-148 | running two frame sequences one after the other is running their concatenation |
| GestureSpec.Run | gesture_control.py:40-148 | one `detect_gestures` call per frame, in order; stated by `RunKeepsInv`, `RunAppend` and the multi-frame lemmas below |
| GestureSpec.WindowSlides | gesture_control.py:87-89 | the window grows to six, then slides: the newest sample is last and the older ones keep their order with the oldest dropped |
| GestureSpec.JudgeShape | gesture_control.py:92-103 | the classification step either changes nothing or sets a new, different direction together with a full cooldown |
| GestureSpec.CooldownBlocks | gesture_control.py:92-126 | while the cooldown runs, a call keeps the direction and lowers the cooldown by one, unless that very frame triggers the loss-of-tracking reset |
| GestureSpec.ChangeArmsCooldown | gesture_control.py:92-126 | a hand frame changes direction only out of cooldown with a previous position. The smoothed movement must exceed the threshold for that frame's confidence, and the new direction is its classification. The cooldown is left at 3. The converse is `ChangeWhenEligible` |
| GestureSpec.ChangeWhenEligible | gesture_control.py:92-126 | the converse: out of cooldown with a previous position, a movement past the threshold whose classification differs from the current direction becomes the direction and arms the cooldown; any other movement keeps the direction with the cooldown at zero |
| GestureSpec.FirstSampleKeepsDirection | gesture_control.py:92-126 | a hand frame without a previous position keeps the direction, and a running cooldown falls by one |
| GestureSpec.NoHandCounts | gesture_control.py:120-126 | a frame without a hand raises the count by one and changes only the confidence and the cooldown tick, up to the twelfth such frame; the thirteenth gives back the initial state; no pinch is reported |
| GestureSpec.CooldownCountsDown | gesture_control.py:92-126 | over frames that cannot trigger the reset, a running cooldown falls by one per frame and the direction holds |
| GestureSpec.ChangeIsDebounced | gesture_control.py:92-126 | after a change, the next three calls keep the direction and the cooldown is then zero |
| GestureSpec.ClearedStaysCleared | gesture_control.py:120-123 | frames without a hand leave cleared tracking state cleared |
| GestureSpec.LossOfTrackingResets | gesture_control.py:120-126 | from any state, exactly enough no-hand frames to push the count past twelve give back the initial state |
| GestureSpec.LongLossClears | gesture_control.py:120-126 | at least that many no-hand frames always end with window, previous position, direction and cooldown cleared |
| GestureSpec.ReacquireStartsFresh | gesture_control.py:87-118 | a hand that reappears after a reset starts a one-sample window at its wrist and is not classified on that frame |
| GestureSpec.SumWithin | gesture_control.py:90 | the component sums of samples inside a box lie between the count times the box's corners |
| GestureSpec.MeanWithin | gesture_control.py:90 | the smoothed position lies inside every box that contains all samples of the window |
| GestureEngine.GestureControl.constructor | gesture_control.py:26-38 | the fields start at the initial state |
| GestureEngine.GestureControl.ResetGestureState | gesture_control.py:173-178 | everything but the last confidence returns to its initial value |
| GestureEngine.GestureControl.DetectGestures | gesture_control.py:40-148 | the new state and both results are those of `Detect`, and the invariant is kept |
| GestureEngine.GestureControl.TrackHand | gesture_control.py:72-118 | the hand branch: it slides the window, classifies behind the cooldown, remembers the mean and reports the pinch |
| GestureEngine.GestureControl.CountMissingHand | gesture_control.py:120-123 | the no-hand branch: the frame is counted, and the state resets once the count passes twelve |
| GestureEngine.GestureControl.JudgeBlock | gesture_control.py:92-103 | the classification block as statements equals the classification step |

## Left out

- Drawing is not modelled: the snake, the fruit, the power-ups, the user interface, particles and wrap-transition trails (`add_particle_effect`, `_add_transition_trail`, `update_particles`, every `draw_*`). These only affect pixels. The calls to them inside `update` are dropped.
- The high-score file is not modelled: `load_high_score` and `save_high_score` do file I/O. The loaded value is a constructor parameter, and the save is not represented.
- The message printed by `toggle_wrap` is not modelled.
- The power-up dictionaries' `'type': 'star'` entry is not modelled. It is constant and never read.
- Grid resizing by the caller (main.py rewriting width and height) is not modelled. The grid dimensions are fixed when the object is built.
- `random.randint` and `random.random` are replaced by the `Draws` parameter. The model does not say that draws are uniform or independent.
- SnakeEngine.SnakeGame.SpawnFruit: requires that some drawn cell is vacant, because the source's retry loop never ends on a full board. The same holds for `SpawnPowerUp`, `ResetGame`, `Update` and `HandleRestart`, which reach this loop.
- The camera, colour conversion and the MediaPipe hand detector are replaced by a `Reading` per frame. Only `max_num_hands=1` is modelled, so the loop over detected hands runs at most once.
- All OpenCV drawing in `detect_gestures` and its helpers is not modelled, and neither is the annotated frame it returns.
- The exception handler of `detect_gestures` is not modelled. The detector is given and does not fail. `gesture_threshold` (0.035) is only the threshold on that path and does not appear.
- Coordinates are mathematical reals, not floating point. `np.linalg.norm` comparisons are stated on squared lengths.
- `cleanup`, and the wiring between camera, interpreter and game in main.py, are not part of this model.
