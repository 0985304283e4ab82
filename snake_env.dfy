/** The reinforcement-learning environment `SnakeEnv` of src/rl/snake_env.py:
    it owns an engine, episode counters, the set of visited head cells and a
    history of the last 4 observations, and turns one engine move into a
    reward and a termination flag. Rewards are counted in thousandths, so
    -0.001 is -1 and +50 is 50000. */
module Env {
  import opened Seqs
  import opened Board
  import opened Engine
  import opened Encoding

  /** What `step` returns. The source indexes `food` before and after the
      move; when there is none (the game was won) it raises, here FoodMissing. */
  datatype StepOutcome =
    | Stepped(observation: seq<real>, reward: int, terminated: bool, truncated: bool, applesEaten: int)
    | FoodMissing

  /** The square of the Euclidean distance between two cells. Distances are
      never negative, so comparing squares orders them as the norms would. */
  function SquaredDistance(a: Cell, b: Cell): (d: int)
    ensures d >= 0
    ensures d == 0 <==> a == b
  {
    (a.x - b.x) * (a.x - b.x) + (a.y - b.y) * (a.y - b.y)
  }

  const StepCost := -1
  const AppleReward := 50000
  const ApproachReward := 100
  const RevisitPenalty := -100
  const CrashPenalty := -10000
  const TimeoutPenalty := -5000

  /** The reward of one step in thousandths: the step cost; the apple, or
      else 0.1 for getting closer and -0.1 otherwise; -0.1 for a revisited
      cell; -10 for the head on the neck; -10 for game over; -5 for running
      out of steps without food. */
  function Reward(eaten: bool, closer: bool, revisited: bool, neckHit: bool,
                  gameOver: bool, timedOut: bool): (r: int)
    ensures -25201 <= r <= 49999
    ensures eaten ==> r >= 24899
  {
    StepCost
    + (if eaten then AppleReward else if closer then ApproachReward else -ApproachReward)
    + (if revisited then RevisitPenalty else 0)
    + (if neckHit then CrashPenalty else 0)
    + (if gameOver then CrashPenalty else 0)
    + (if timedOut then TimeoutPenalty else 0)
  }

  /** The apple dominates every penalty: a step's reward is above 0.099
      exactly when it ate, and a step that loses or times out without eating
      earns at most -4.901. */
  lemma RewardBands(eaten: bool, closer: bool, revisited: bool, neckHit: bool,
                    gameOver: bool, timedOut: bool)
    ensures Reward(eaten, closer, revisited, neckHit, gameOver, timedOut) > 99 <==> eaten
    ensures !eaten && (gameOver || timedOut || neckHit) ==>
              Reward(eaten, closer, revisited, neckHit, gameOver, timedOut) <= -4901
  {
  }

  /** An out-of-range action restarts a body of three or more segments with
      two, while `step` keeps `previous_food_eaten` at a value no smaller than
      the old length (the body is not longer than it). The next apple eaten
      then grows the body by one without taking it past that value, so that
      step is not counted as eaten. */
  lemma RestartMasksNextApple(s: Snapshot, action: int, t: Snapshot,
                              direction: int, u: Snapshot, previous: int)
    requires Invariant(s) && !s.gameOver && 3 <= |s.snake| <= previous
    requires !DirectionCorrect(action) && MoveSpec(s, action, t)
    requires DirectionCorrect(direction) && MoveSpec(t, direction, u)
    requires !Blocked(t, direction) && t.food == Some(Neighbour(t.head, direction))
    ensures |t.snake| == 2 && |u.snake| == |t.snake| + 1
    ensures |u.snake| <= previous
  {
    RestartIsValid(s, t);
    MoveLength(t, direction, u);
  }

  /** The reward accumulation of `step`, in the source's order. */
  method StepReward(eaten: bool, closer: bool, revisited: bool, neckHit: bool,
                    gameOver: bool, timedOut: bool) returns (reward: int, done: bool)
    ensures reward == Reward(eaten, closer, revisited, neckHit, gameOver, timedOut)
    ensures done <==> neckHit || gameOver || timedOut
  {
    reward := StepCost;
    done := false;
    if eaten {
      reward := reward + AppleReward;
    } else if closer {
      reward := reward + ApproachReward;
    } else {
      reward := reward - ApproachReward;
    }
    if revisited {
      reward := reward + RevisitPenalty;
    }
    if neckHit {
      reward := reward + CrashPenalty;
      done := true;
    }
    if gameOver {
      reward := reward + CrashPenalty;
      done := true;
    }
    if timedOut {
      reward := reward + TimeoutPenalty;
      done := true;
    }
  }

  class SnakeEnv {
    const game: Game
    const maxStepsWithoutFood: int
    /** The last 4 observations, oldest first. */
    var history: seq<seq<real>>
    /** The body length when food was last eaten (or at reset). */
    var previousFoodEaten: int
    var stepsWithoutFood: int
    var visitedPositions: set<Cell>
    var applesEaten: int

    ghost predicate Valid()
      reads this, game
    {
      game.Valid() && game.Rendered() && HistoryShaped() &&
      (game.food.Some? ==> |game.snake| <= previousFoodEaten)
    }

    /** `__init__`: a new engine with its grid, snake and food, a history of
        4 zero observations, and cleared counters. The visited set starts
        empty here; only `Reset` seeds it with the head. The defaults are
        those of `__init__`: a 10 x 10 grid and a cap of 300 steps. */
    constructor (width: int := 10, height: int := 10, maxStepsWithoutFood: int := 300)
      requires width >= 4 && height >= 1
      ensures Valid() && fresh(game)
      ensures game.width == width && game.height == height
      ensures this.maxStepsWithoutFood == maxStepsWithoutFood
      ensures game.snakehead == Cell(width / 2, height / 2)
      ensures game.snake == [Cell(width / 2 - 1, height / 2), Cell(width / 2 - 2, height / 2)]
      ensures game.food.Some? && !game.gameOver && !game.win
      ensures history == Repeat(ZeroObservation(width, height), HistoryLength)
      ensures previousFoodEaten == |game.snake| && stepsWithoutFood == 0
      ensures visitedPositions == {} && applesEaten == 0
    {
      var g := new Game(width, height);
      g.InitGrid();
      g.InitSnake();
      g.UpdateSnake();
      game := g;
      this.maxStepsWithoutFood := maxStepsWithoutFood;
      history := Repeat(ZeroObservation(width, height), HistoryLength);
      previousFoodEaten := |g.snake|;
      stepsWithoutFood := 0;
      visitedPositions := {};
      applesEaten := 0;
    }

    /** `_update_history`: drop the oldest observation, append the new one. */
    method UpdateHistory(observation: seq<real>)
      requires |history| > 0
      modifies this`history
      ensures history == old(history)[1..] + [observation]
      ensures |history| == old(|history|)
    {
      history := history[1..];
      history := history + [observation];
    }

    /** `reset`: restart the snake, clear the counters, mark the head
        visited, and stack three zero observations and the fresh one. */
    method Reset() returns (observation: seq<real>)
      requires Valid()
      modifies this, game
      ensures Valid()
      ensures FoodPlaced(Restart(old(game.State())), game.State())
      ensures game.snakehead == Cell(game.width / 2, game.height / 2)
      ensures game.snake == [Cell(game.width / 2 - 1, game.height / 2), Cell(game.width / 2 - 2, game.height / 2)]
      ensures game.food.Some? && !game.gameOver && !game.win
      ensures previousFoodEaten == |game.snake| && stepsWithoutFood == 0 && applesEaten == 0
      ensures visitedPositions == {game.snakehead}
      ensures history == Repeat(ZeroObservation(game.width, game.height), HistoryLength - 1)
                         + [Observation(game.State(), game.grid)]
      ensures observation == Stacked(history, ObservationLength(game.width, game.height))
    {
      game.ClearGrid();
      game.InitSnake();
      game.UpdateSnake();
      // The body `init_snake` set, stated before the counters change.
      assert game.snake == [Cell(game.width / 2 - 1, game.height / 2), Cell(game.width / 2 - 2, game.height / 2)];
      previousFoodEaten := |game.snake|;
      stepsWithoutFood := 0;
      visitedPositions := {};
      visitedPositions := visitedPositions + {game.snakehead};
      applesEaten := 0;
      history := Repeat(ZeroObservation(game.width, game.height), HistoryLength);
      RenderedIsObservable(game.State());
      var obs := Observation(game.State(), game.grid);
      UpdateHistory(obs);
      observation := Stacked(history, ObservationLength(game.width, game.height));
    }

    /** The history holds 4 observations of this board's size. */
    ghost predicate HistoryShaped()
      reads this, game
    {
      game.width >= 0 && game.height >= 0 &&
      |history| == HistoryLength &&
      forall k :: 0 <= k < HistoryLength ==>
        |history[k]| == ObservationLength(game.width, game.height)
    }

    /** `step`: move the engine, then score the move. The source indexes
        `food` before and after the move, so with no food on the board it
        raises: FoodMissing, with the move (if made) kept and nothing else
        changed. */
    method Step(action: int) returns (outcome: StepOutcome)
      requires Valid()
      modifies this, game
      ensures Valid()
      ensures old(game.food).None? ==> outcome == FoodMissing && unchanged(this) && unchanged(game)
      ensures old(game.food).Some? ==> MoveSpec(old(game.State()), action, game.State())
      ensures old(game.food).Some? && game.food.None? ==> outcome == FoodMissing && unchanged(this)
      ensures old(game.food).Some? && game.food.Some? ==>
                Scored(old(previousFoodEaten), old(stepsWithoutFood), old(applesEaten), old(visitedPositions),
                       old(history), SquaredDistance(old(game.snakehead), old(game.food).value), outcome)
      ensures old(game.food).Some? && game.food.Some? && |game.snake| > old(previousFoodEaten) ==>
                |game.snake| == old(|game.snake|) + 1
    {
      if game.food.None? {
        return FoodMissing;
      }
      var oldDistance := SquaredDistance(game.snakehead, game.food.value);
      ghost var before := game.State();
      game.Move(action);
      MoveLength(before, action, game.State());
      if game.food.None? {
        return FoodMissing;
      }
      outcome := Score(oldDistance);
    }

    /** What `step` does once the engine has moved and food is on the board,
        given the counters, visited set and history from before and the
        squared distance from head to food before the move. Food counts as
        eaten when the body outgrew `previousFoodEaten`. The head-on-neck
        check can never fire: the invariant keeps the head off the body
        (`s.head !in s.snake`), so the reward is given `false` for it and the
        episode ends exactly on game over or on a timeout. */
    ghost predicate Scored(previous: int, steps: int, apples: int, visited: set<Cell>,
                           oldHistory: seq<seq<real>>, oldDistance: int, outcome: StepOutcome)
      reads this, game
      requires game.Valid() && game.Rendered() && game.food.Some? && HistoryShaped()
      ensures Scored(previous, steps, apples, visited, oldHistory, oldDistance, outcome) ==>
                outcome.Stepped? && !outcome.truncated &&
                |outcome.observation| == HistoryLength * ObservationLength(game.width, game.height) &&
                (outcome.reward > 99 <==> |game.snake| > previous)
    {
      RenderedIsObservable(game.State());
      var eaten := |game.snake| > previous;
      var closer := SquaredDistance(game.snakehead, game.food.value) < oldDistance;
      var timedOut := stepsWithoutFood >= maxStepsWithoutFood;
      outcome == Stepped(Stacked(history, ObservationLength(game.width, game.height)),
                         Reward(eaten, closer, game.snakehead in visited, false, game.gameOver, timedOut),
                         game.gameOver || timedOut, false, applesEaten) &&
      applesEaten == apples + (if eaten then 1 else 0) &&
      stepsWithoutFood == (if eaten then 0 else steps + 1) &&
      previousFoodEaten == (if eaten then |game.snake| else previous) &&
      visitedPositions == visited + {game.snakehead} &&
      |oldHistory| > 0 &&
      history == oldHistory[1..] + [Observation(game.State(), game.grid)]
    }

    /** The scoring half of `step`, run on the moved engine: the counters and
        visited set updated as the source does, the reward and termination
        accumulated by `StepReward`, and the new observation pushed onto the
        history. */
    method Score(oldDistance: int) returns (outcome: StepOutcome)
      requires game.Valid() && game.Rendered() && game.food.Some? && HistoryShaped()
      modifies this
      ensures Valid()
      ensures Scored(old(previousFoodEaten), old(stepsWithoutFood), old(applesEaten), old(visitedPositions),
                     old(history), oldDistance, outcome)
    {
      var newDistance := SquaredDistance(game.snakehead, game.food.value);
      var foodEaten := |game.snake| > previousFoodEaten;
      var revisited := game.snakehead in visitedPositions;
      if foodEaten {
        previousFoodEaten := |game.snake|;
        stepsWithoutFood := 0;
        applesEaten := applesEaten + 1;
      } else {
        stepsWithoutFood := stepsWithoutFood + 1;
      }
      if !revisited {
        visitedPositions := visitedPositions + {game.snakehead};
      }
      assert game.snakehead !in game.snake;
      var reward, done := StepReward(foodEaten, newDistance < oldDistance, revisited,
                                     |game.snake| > 0 && game.snakehead == game.snake[0],
                                     game.gameOver, stepsWithoutFood >= maxStepsWithoutFood);
      var truncated := false;
      RenderedIsObservable(game.State());
      var observation := Observation(game.State(), game.grid);
      PushKeepsShape(history, observation, ObservationLength(game.width, game.height));
      UpdateHistory(observation);
      outcome := Stepped(Stacked(history, ObservationLength(game.width, game.height)), reward, done, truncated, applesEaten);
    }
  }
}
