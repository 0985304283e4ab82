# Snake engine and reinforcement-learning environment, modelled in Dafny

This project models the two core pieces of a Snake game trained by
reinforcement learning, and proves properties of them.

- **The game engine**, class `game` in `src/core/game.py`. It builds the grid,
  places the snake and its food, and moves the snake. It detects collisions
  and declares a win once the snake fills the board.
- **The environment**, `SnakeEnv` in `src/rl/snake_env.py`. It wraps the
  engine and turns each move into a reward and a termination flag. It encodes
  the board as an 11-channel observation and stacks the last 4 observations.

The model has five modules.

- `Seqs` (`seqs.dfy`): repetition and block concatenation of sequences. These
  play the part of numpy's `zeros`, `flatten` and `concatenate`.
- `Board` (`board.dfy`): the engine's rules stated on values. It holds a
  `Snapshot` of the engine's fields, collision, the rendered grid and food
  placement. `MoveSpec` relates the state before and after one `move`. The
  module also holds the invariant every reachable state keeps.
- `Engine` (`game.dfy`): class `Game`, whose methods update their fields in
  place as the source does. Each method is proved against the `Board` rules.
- `Encoding` (`encoding.dfy`): the observation, the danger vector, the
  direction label and the history stacking, as functions. Lemmas decode each
  channel back to the state.
- `Env` (`snake_env.dfy`): class `SnakeEnv`, with its constructor, `Reset`,
  `Step` and `UpdateHistory`, plus the reward.

Modelling choices:

- **Food placement.** `random.choice` is modelled as an arbitrary choice among
  the free cells that `place_food` collects. `FoodPlaced` states what any
  choice satisfies.
- **Reward.** Rewards are integers counted in thousandths, so -0.001 is -1 and
  +50 is 50000.
- **Distance.** Euclidean distances are compared as squared integer
  distances. Both distances are non-negative, so this gives the same order.
- **Observation values.** Observation entries are exact reals.
- **`step` with no food.** When there is no food on the board, `step` indexes
  `food` and raises. The model returns `FoodMissing` instead. This happens
  when `step` is called on a won game, or after the move that wins it.

Facts the proofs bring out:

- **The head-on-neck check never fires.** `step` checks whether the head
  equals `snake[0]`. The invariant every reachable state keeps has the head
  off the body, so the check is always false. An episode therefore ends
  exactly on game over or on a timeout.
- **Direction labels are mirrored.** `_get_direction` labels the direction
  opposite to the last move: after `move(1)` (down) it reports 0 (up).
  `DirectionAfterMove` proves this.
- **Danger means loss.** On a live game, an entry of the danger vector is 1
  exactly when that move loses the game. Once the game is over, `move` returns
  at once (game.py:101-102), so a danger entry of 1 then changes nothing.
- **Winning.** `place_food` finds a cell exactly when the snake covers fewer
  than width × height cells, so a win means the board is full.
- **No food raises.** `step` reads `food[0]` before and after the move
  (snake_env.py:78-89), and `_get_observation` reads it too (snake_env.py:139).
  So with no food on the board, `step` raises.
- **A bad action restarts.** On a live game, `move` treats an action outside
  0..3 as a restart: it clears the grid, reinitialises the snake and redraws
  (game.py:135-138). On a finished game it returns first (game.py:101-102).
- **Apples after a restart go uncounted.** A restart cuts the body to 2
  segments, but `previous_food_eaten` keeps its old value. Until the body
  outgrows that value, eating an apple earns no +50, leaves `apples_eaten`
  unchanged and keeps the timeout counter running. `RestartMasksNextApple`
  proves this for the first apple after the restart.

## Model

| member | source | states |
|---|---|---|
| Board.DirectionCorrect | src/core/game.py:92-97 | membership in the list [0, 1, 2, 3] holds exactly for the directions 0 to 3 |
| Board.CellCode | src/core/game.py:51-62 | the grid value of a cell is between 0 and 3, and 0 exactly on a cell that is neither head, body nor food |
| Board.Render | src/core/game.py:47-62 | the redrawn grid has `height` rows of `width` entries |
| Board.Restart | src/core/game.py:31-44 | the part of `init_snake` before `place_food` keeps the board size and the food as they are, sets a body of 2 segments with the head and segments side by side, and clears both flags |
| Board.FoodPlaced | src/core/game.py:64-79 | after `place_food` the food is a free cell of the state it ran on, or it is absent, with win and game over set and no free cell left |
| Board.Advance | src/core/game.py:121-131 | a successful move puts the head on the target cell, makes the body a prefix of old head plus old body, grows it by one exactly when the target holds the food, and clears that food |
| Board.MoveSpec | src/core/game.py:99-138 | a move never changes the board size; a finished game stays finished; on a live game a valid direction leaves the head in place when blocked and moves it to the target cell otherwise |
| Board.CheckCollision | src/core/game.py:81-90 | a cell collides exactly when it is off the board or on a body segment; the head is not consulted |
| Board.Neighbour | src/core/game.py:104-115 | the target cell of each direction: up is y-1, down y+1, left x-1, right x+1; it is always side by side with the head |
| Board.RestartHasFreeCell | src/core/game.py:31-45 | after `init_snake` on a board at least 4 wide, the head and body are well formed and the cell right of the head is free, so food can always be placed |
| Board.RestartIsValid | src/core/game.py:31-45 | whatever state `init_snake` starts from, it yields a live game with food that satisfies the invariant |
| Board.AdvanceKeepsShape | src/core/game.py:117-128 | a move into a non-colliding cell keeps the snake well formed: segments in bounds, pairwise distinct, each side by side with the next, head off the body |
| Board.MovePreservesInvariant | src/core/game.py:99-138 | every `move`, in each of its branches, keeps the invariant: well-formed snake of at least 2 segments, food on a free cell or a won game, win implies game over |
| Board.MoveLength | src/core/game.py:121-132 | a move grows the body by at most one segment, and by exactly one if and only if it is a successful move onto the food |
| Board.MoveOutcome | src/core/game.py:99-138 | on a finished game nothing changes; an out-of-range action restarts the snake at the centre with two body segments and food, on a live game; a colliding move only sets game over; a successful move puts the head on the target cell and the old head at snake[0], shifts the body, and keeps its length unless food is eaten |
| Board.TailIsBlocking | src/core/game.py:117-126 | moving onto the current tail collides, because the collision check runs before the tail is popped |
| Board.RenderedCells | src/core/game.py:47-62 | the rendered grid reads back as 2 exactly at the head, 1 exactly on the body, 3 exactly at the food and 0 on every other cell |
| Board.RenderIgnoresFlags | src/core/game.py:117-119 | the grid does not depend on the flags, so a colliding move that returns before redrawing leaves a correct grid |
| Board.FreeCellIffRoom | src/core/game.py:64-79 | a free cell exists exactly when head and body cover fewer than width × height cells, so `place_food` declares a win exactly when the board is full |
| Engine.Game.constructor | src/core/game.py:2-11 | a new engine has the given size, an empty grid and body, no food and both flags cleared |
| Engine.Game.InitGrid | src/core/game.py:13-19 | the grid becomes `height` rows of `width` zeros, built row by row |
| Engine.Game.ClearGrid | src/core/game.py:21-24 | the grid becomes all zeros |
| Engine.Game.PlaceFood | src/core/game.py:64-79 | the food is one of the free cells collected row by row; with none, the food is cleared and win and game over are set; the body, head and size do not change |
| Engine.Game.InitSnake | src/core/game.py:31-45 | head at (width/2, height/2), body at (width/2-1, height/2) and (width/2-2, height/2), flags cleared, food placed on a free cell, invariant established |
| Engine.Game.UpdateSnake | src/core/game.py:47-62 | the grid is redrawn with 2 at the head, 1 on each body cell and 3 at the food, later writes winning |
| Engine.Game.Move | src/core/game.py:99-138 | the new state is related to the old by the move rules, the invariant is kept, a finished game is left untouched, and the grid is redrawn unless the move collided |
| Encoding.Direction | src/rl/snake_env.py:218-233 | -1 for an empty body; otherwise 0, 1, 2 or 3 exactly when the head is below, above, right of or left of snake[0]; -1 when it is none of these |
| Encoding.DangerVector | src/rl/snake_env.py:190-206 | four entries; entry d is 1 exactly when moving in direction d collides |
| Encoding.RenderedIsObservable | src/rl/snake_env.py:132-188 | every well-formed state with food, on a board the engine supports, can be encoded from its rendered grid |
| Encoding.Observation | src/rl/snake_env.py:132-188 | the observation has 11 × width × height entries |
| Encoding.ChannelValue | src/rl/snake_env.py:144-184 | every channel but dx and dy holds only 0 and 1, and the danger channel is 0 below the first row |
| Encoding.ObservationAt | src/rl/snake_env.py:171-187 | cell (x, y) of channel c sits at index c·width·height + y·width + x of the flat observation |
| Encoding.ObservedBodyAndHead | src/rl/snake_env.py:146-147 | on a rendered grid, the body channel is 1 exactly on the body and the head channel 1 exactly at the head |
| Encoding.ObservedAppleAndNeck | src/rl/snake_env.py:148-154 | the apple channel is 1 exactly at the food; the behind-head channel is 1 exactly at snake[0] |
| Encoding.ObservedDirectionAndDanger | src/rl/snake_env.py:156-184 | direction channel 4+k is 1 everywhere when the direction label is k and 0 otherwise; the danger channel holds the danger vector in the first four cells of row 0 and 0 elsewhere |
| Encoding.DirectionAfterMove | src/rl/snake_env.py:218-233 | after a successful move in direction d the label is the mirrored direction: 0 and 1 swap, 2 and 3 swap |
| Encoding.DangerMeansLoss | src/rl/snake_env.py:190-206 | on a live game, danger entry d is 1 if and only if `move(d)` ends the game without a win |
| Encoding.PushKeepsShape | src/rl/snake_env.py:208-211 | dropping the oldest observation and appending a new one keeps 4 entries of one observation's length |
| Encoding.Stacked | src/rl/snake_env.py:213-216 | the stacked observation has 4 × len entries |
| Encoding.StackedAt | src/rl/snake_env.py:213-216 | block k of the stacked observation is history entry k, oldest first: entry i of it sits at k × len + i |
| Env.SquaredDistance | src/rl/snake_env.py:78-90 | the squared distance is never negative and is 0 exactly when the cells coincide |
| Env.Reward | src/rl/snake_env.py:91-122 | a step's reward lies between -25.201 and 49.999, and is at least 24.899 when it ate |
| Env.RewardBands | src/rl/snake_env.py:91-122 | a step's reward is above 0.099 exactly when it ate, and a step that loses or times out without eating earns at most -4.901 |
| Env.StepReward | src/rl/snake_env.py:91-122 | the reward accumulated in the source's order is the sum of the step cost, the apple or approach term, and the revisit, neck, game-over and timeout penalties; done is set exactly when one of the three termination checks fires |
| Env.RestartMasksNextApple | src/rl/snake_env.py:94-100 | after an out-of-range action restarts a body of 3 or more segments, the next apple grows the body to 3 segments, which is no more than `previous_food_eaten`, so that step does not count as eaten |
| Env.SnakeEnv.constructor | src/rl/snake_env.py:14-48 | a new environment has an engine with grid, snake and food, 4 zero observations, cleared counters and an empty visited set; the size defaults to 10 x 10 and the step cap to 300 |
| Env.SnakeEnv.UpdateHistory | src/rl/snake_env.py:208-211 | the oldest observation is dropped and the new one appended |
| Env.SnakeEnv.Reset | src/rl/snake_env.py:55-74 | the snake restarts with food, the counters clear, only the head is visited, the history is 3 zero observations then the fresh one, and the stacked history is returned |
| Env.SnakeEnv.Step | src/rl/snake_env.py:76-130 | with no food, it fails and changes nothing; otherwise it moves by the move rules; after a winning move it fails and keeps the move; otherwise the step is scored, and food counts as eaten only when the body grew by one |
| Env.SnakeEnv.Scored | src/rl/snake_env.py:91-130 | a scored step returns a stacked observation of 4 observations' length, is never truncated, and earns more than 0.099 exactly when the body outgrew `previous_food_eaten` |
| Env.SnakeEnv.Score | src/rl/snake_env.py:91-130 | the counters, visited set and history are updated as `step` does; the reward is the sum of its terms with the neck penalty never applied; termination is game over or a timeout, and truncation is always false |

## Left out

- Rendering and printing (`print_grid`, `render`, `close`) and the demonstration block at the end of `game.py` are not modelled. They only produce output.
- `seed` and the distribution of `random.choice` are left out. Food is any free cell.
- The gym action and observation spaces and `max_distance` are left out. Nothing in the core reads them.
- The `sys.path` setup at import time is left out. It is a side effect of loading the module.
- float32 rounding of the observation and floating-point summing of the reward are left out. The model uses exact reals and thousandths.
- Env.SquaredDistance: the Euclidean norm is not computed. Only the order of two distances is used, and squares give the same order.
- Engine.Game.constructor: boards narrower than 4 or with no rows are excluded. At widths 2 and 3, `init_snake` places a body segment at column -1, off the board, and `update_snake` wraps it onto the last column through Python's negative indices. At width 1 the body sits at columns -1 and -2, and `update_snake` raises IndexError writing column -2. At width 0, and with no rows, `update_snake` raises when it writes the head. On any board narrower than 4, `_get_observation` raises: numpy clips `danger_channel[0, :4]` to fewer than 4 cells and cannot assign the 4-entry danger vector to them.
- Engine.Game.constructor: the head is an empty list until `init_snake`. The model uses the cell (0, 0) instead, which is never read before `init_snake` sets the head.
- Env.SnakeEnv.Step: the scoring half is split out as `Score`, and the reward sum as `StepReward`. The splits only serve verification; `step` runs both inline.
- Env.SnakeEnv.Step: the exception `step` raises with no food is modelled as the outcome `FoodMissing`. The exception's type and message are not modelled.
- Env.SnakeEnv.Step: the `info` dictionary is returned as the field `applesEaten`.
- Env.SnakeEnv.Reset: the empty info dictionary returned beside the observation is left out.
