/** The Snake engine, class `game` of src/core/game.py: a board of fixed size
    whose methods update the body, head, food, grid and flags in place. Each
    method is proved against the rules of module Board. */
module Engine {
  import opened Seqs
  import opened Board

  class Game {
    const width: int
    const height: int
    var grid: seq<seq<int>>
    /** The body from neck to tail; the head is not part of it. */
    var snake: seq<Cell>
    var snakehead: Cell
    var food: Option<Cell>
    var gameOver: bool
    var win: bool

    /** The fields the rules read, as one value. */
    function State(): Snapshot
      reads this
    {
      Snapshot(width, height, snake, snakehead, food, gameOver, win)
    }

    /** Board dimensions the engine is used with. */
    predicate Sized()
    {
      width >= 4 && height >= 1
    }

    ghost predicate Valid()
      reads this
    {
      Invariant(State())
    }

    /** The grid shows the current state. */
    ghost predicate Rendered()
      reads this
    {
      width >= 0 && height >= 0 && grid == Render(State())
    }

    /** A fresh engine: empty grid and body, no food, both flags cleared. The
        head is an empty list in the source; here it is the cell (0, 0), which
        nothing reads before `InitSnake` sets it. */
    constructor (width: int, height: int)
      requires width >= 4 && height >= 1
      ensures Sized() && this.width == width && this.height == height
      ensures grid == [] && snake == [] && snakehead == Cell(0, 0) && food == None
      ensures !gameOver && !win
    {
      this.width := width;
      this.height := height;
      grid := [];
      snake := [];
      snakehead := Cell(0, 0);
      food := None;
      gameOver := false;
      win := false;
    }

    /** `init_grid`: a grid of `height` rows of `width` zeros, built row by row. */
    method InitGrid()
      requires Sized()
      modifies this`grid
      ensures grid == EmptyGrid(width, height)
    {
      grid := [];
      var row := 0;
      while row < height
        invariant 0 <= row <= height
        invariant |grid| == row
        invariant forall r :: 0 <= r < row ==> grid[r] == Repeat(0, width)
      {
        grid := grid + [[]];
        var col := 0;
        while col < width
          invariant 0 <= col <= width
          invariant |grid| == row + 1
          invariant forall r :: 0 <= r < row ==> grid[r] == Repeat(0, width)
          invariant grid[row] == Repeat(0, col)
        {
          grid := grid[row := grid[row] + [0]];
          col := col + 1;
        }
        row := row + 1;
      }
    }

    /** `clear_grid`: back to the all-zero grid. */
    method ClearGrid()
      requires Sized()
      modifies this`grid
      ensures grid == EmptyGrid(width, height)
    {
      grid := [];
      InitGrid();
    }

    /** `place_food`: collect the free cells row by row, then pick any one of
        them; with none left, no food and the game is won and over. */
    method PlaceFood()
      requires Sized()
      modifies this`food, this`win, this`gameOver
      ensures FoodPlaced(old(State()), State())
    {
      ghost var s := State();
      var freePositions: seq<Cell> := [];
      var y := 0;
      while y < height
        invariant 0 <= y <= height
        invariant forall c :: c in freePositions <==> IsFree(s, c) && c.y < y
      {
        var x := 0;
        while x < width
          invariant 0 <= x <= width
          invariant forall c :: c in freePositions <==>
                      IsFree(s, c) && (c.y < y || (c.y == y && c.x < x))
        {
          if Cell(x, y) != snakehead && Cell(x, y) !in snake {
            freePositions := freePositions + [Cell(x, y)];
          }
          x := x + 1;
        }
        y := y + 1;
      }
      if |freePositions| > 0 {
        assert freePositions[0] in freePositions;
        var choice :| choice in freePositions;
        food := Some(choice);
      } else {
        food := None;
        win := true;
        gameOver := true;
        assert forall c :: !IsFree(s, c);
      }
    }

    /** `init_snake`: head at the centre, two body cells to its left, flags
        cleared, then food placed (always successfully on a board of this
        size). */
    method InitSnake()
      requires Sized()
      modifies this`snakehead, this`snake, this`gameOver, this`win, this`food
      ensures Valid()
      ensures FoodPlaced(Restart(old(State())), State())
      ensures snakehead == Cell(width / 2, height / 2)
      ensures snake == [Cell(width / 2 - 1, height / 2), Cell(width / 2 - 2, height / 2)]
      ensures food.Some? && !gameOver && !win
    {
      var firstx := width / 2;
      var firsty := height / 2;
      snakehead := Cell(firstx, firsty);
      snake := [Cell(firstx - 1, firsty), Cell(firstx - 2, firsty)];
      gameOver := false;
      win := false;
      PlaceFood();
      RestartIsValid(old(State()), State());
    }

    /** `update_snake`: a fresh grid with 2 at the head, 1 on each body cell
        and 3 at the food, written in that order. */
    method UpdateSnake()
      requires Sized() && WellFormed(State())
      modifies this`grid
      ensures Rendered()
    {
      ClearGrid();
      grid := grid[snakehead.y := grid[snakehead.y][snakehead.x := 2]];
      var segment := 0;
      while segment < |snake|
        invariant 0 <= segment <= |snake|
        invariant |grid| == height
        invariant forall r :: 0 <= r < height ==> |grid[r]| == width
        invariant forall y, x :: 0 <= y < height && 0 <= x < width ==>
                    grid[y][x] == (if Cell(x, y) in snake[..segment] then 1
                                   else if Cell(x, y) == snakehead then 2 else 0)
      {
        var pos := snake[segment];
        grid := grid[pos.y := grid[pos.y][pos.x := 1]];
        segment := segment + 1;
      }
      assert snake[..segment] == snake;
      if food.Some? {
        var f := food.value;
        grid := grid[f.y := grid[f.y][f.x := 3]];
      }
      forall y | 0 <= y < height
        ensures grid[y] == Render(State())[y]
      {
      }
    }

    /** `move`: a no-op once the game is over; an invalid direction restarts
        the snake; a move into a wall or the body only sets `game_over`;
        otherwise the old head joins the front of the body, the tail is popped
        unless food is eaten, eaten food is replaced, and the grid is
        redrawn. */
    method Move(direction: int)
      requires Valid()
      modifies this
      ensures Valid()
      ensures MoveSpec(old(State()), direction, State())
      ensures old(gameOver) ==> unchanged(this)
      ensures old(Rendered()) ==> Rendered()
      ensures if old(gameOver) || (DirectionCorrect(direction) && Blocked(old(State()), direction))
              then grid == old(grid)
              else Rendered()
    {
      if gameOver {
        return;
      }
      ghost var s := State();
      if DirectionCorrect(direction) {
        var next := Neighbour(snakehead, direction);
        if CheckCollision(width, height, snake, next.x, next.y) {
          gameOver := true;
          RenderIgnoresFlags(s, State());
          return;
        }
        var eatFood := food == Some(next);
        snake := [snakehead] + snake;
        if !eatFood && |snake| > 0 {
          snake := snake[..|snake| - 1];
        }
        snakehead := next;
        if eatFood {
          food := None;
          PlaceFood();
        }
        assert State() == Advance(s, next) || FoodPlaced(Advance(s, next), State());
      } else {
        ClearGrid();
        InitSnake();
      }
      MovePreservesInvariant(s, direction, State());
      UpdateSnake();
    }
  }
}
