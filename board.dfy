/** The rules of the Snake engine (class `game` in src/core/game.py) stated on
    values: a snapshot of the engine's fields, the collision predicate, the
    grid the engine renders, the placement of food, and the relation between
    the state before and after one call of `move`. The class in game.dfy is
    proved against these definitions. */
module Board {
  import opened Seqs

  /** A grid cell `[x, y]`: x is the column, y the row. */
  datatype Cell = Cell(x: int, y: int)

  datatype Option<T> = None | Some(value: T)

  /** The engine's fields: board size, body (neck first, tail last, the head
      excluded), head, food and the two flags. The grid is left out: it is
      always rendered from the rest. */
  datatype Snapshot = Snapshot(width: int, height: int, snake: seq<Cell>, head: Cell,
                               food: Option<Cell>, gameOver: bool, win: bool)

  predicate InBounds(width: int, height: int, c: Cell)
  {
    0 <= c.x < width && 0 <= c.y < height
  }

  /** `check_collision`: the cell lies off the board or on a body segment.
      The head is not consulted. */
  predicate CheckCollision(width: int, height: int, snake: seq<Cell>, x: int, y: int)
    ensures CheckCollision(width, height, snake, x, y) <==>
              !InBounds(width, height, Cell(x, y)) || Cell(x, y) in snake
  {
    if x < 0 || x >= width || y < 0 || y >= height then true
    else Cell(x, y) in snake
  }

  /** `direction_correct`: membership in the list of the four directions,
      0 up, 1 down, 2 left, 3 right; that is, the range 0 to 3. */
  predicate DirectionCorrect(direction: int)
    ensures DirectionCorrect(direction) <==> 0 <= direction <= 3
  {
    direction in [0, 1, 2, 3]
  }

  /** Two cells that share a side. */
  predicate Adjacent(a: Cell, b: Cell)
  {
    (a.x == b.x && (a.y == b.y + 1 || b.y == a.y + 1)) ||
    (a.y == b.y && (a.x == b.x + 1 || b.x == a.x + 1))
  }

  /** The cell `move(direction)` heads for: up is y - 1, down y + 1,
      left x - 1, right x + 1. */
  function Neighbour(c: Cell, direction: int): (n: Cell)
    requires DirectionCorrect(direction)
    ensures Adjacent(c, n)
    ensures direction <= 1 ==> n.x == c.x && n.y == (if direction == 0 then c.y - 1 else c.y + 1)
    ensures direction >= 2 ==> n.y == c.y && n.x == (if direction == 2 then c.x - 1 else c.x + 1)
  {
    if direction == 0 then Cell(c.x, c.y - 1)
    else if direction == 1 then Cell(c.x, c.y + 1)
    else if direction == 2 then Cell(c.x - 1, c.y)
    else Cell(c.x + 1, c.y)
  }

  /** Moving in this direction would end the game. */
  predicate Blocked(s: Snapshot, direction: int)
    requires DirectionCorrect(direction)
  {
    var n := Neighbour(s.head, direction);
    CheckCollision(s.width, s.height, s.snake, n.x, n.y)
  }

  /** A cell `place_food` may choose: on the board, neither the head nor a
      body segment. */
  predicate IsFree(s: Snapshot, c: Cell)
  {
    InBounds(s.width, s.height, c) && c != s.head && c !in s.snake
  }

  /** The shape of a snake on the board: every segment in bounds, segments
      pairwise distinct, the head off the body, head, snake[0], snake[1], ...
      side by side in that order, and food off the snake. */
  predicate WellFormed(s: Snapshot)
  {
    InBounds(s.width, s.height, s.head) &&
    (forall i :: 0 <= i < |s.snake| ==> InBounds(s.width, s.height, s.snake[i])) &&
    (forall i, j :: 0 <= i < j < |s.snake| ==> s.snake[i] != s.snake[j]) &&
    s.head !in s.snake &&
    (|s.snake| > 0 ==> Adjacent(s.head, s.snake[0])) &&
    (forall i :: 0 <= i < |s.snake| - 1 ==> Adjacent(s.snake[i], s.snake[i + 1])) &&
    (s.food.Some? ==> IsFree(s, s.food.value))
  }

  /** What every state reached from `init_snake` satisfies. */
  predicate Invariant(s: Snapshot)
  {
    s.width >= 4 && s.height >= 1 &&
    WellFormed(s) &&
    |s.snake| >= 2 &&
    (s.win ==> s.gameOver) &&
    (s.food.None? ==> s.win)
  }

  /** The grid value `update_snake` writes at c. Its writes come in the order
      head (2), body (1), food (3), so a later write wins. */
  function CellCode(s: Snapshot, c: Cell): (code: int)
    ensures 0 <= code <= 3
    ensures code == 0 <==> c != s.head && c !in s.snake && s.food != Some(c)
  {
    if s.food == Some(c) then 3
    else if c in s.snake then 1
    else if c == s.head then 2
    else 0
  }

  /** The grid `update_snake` builds: `height` rows of `width` entries. */
  function Render(s: Snapshot): (grid: seq<seq<int>>)
    requires s.width >= 0 && s.height >= 0
    ensures |grid| == s.height
    ensures forall y :: 0 <= y < s.height ==> |grid[y]| == s.width
  {
    seq(s.height, y => seq(s.width, x => CellCode(s, Cell(x, y))))
  }

  /** The grid `init_grid` builds: `height` rows of `width` zeros. */
  function EmptyGrid(width: nat, height: nat): seq<seq<int>>
  {
    Repeat(Repeat(0, width), height)
  }

  /** The head and body `init_snake` sets, with both flags cleared; food is
      placed afterwards. */
  function Restart(s: Snapshot): (r: Snapshot)
    ensures r.width == s.width && r.height == s.height && r.food == s.food
    ensures |r.snake| == 2 && Adjacent(r.head, r.snake[0]) && Adjacent(r.snake[0], r.snake[1])
    ensures !r.gameOver && !r.win
  {
    var hx, hy := s.width / 2, s.height / 2;
    s.(head := Cell(hx, hy), snake := [Cell(hx - 1, hy), Cell(hx - 2, hy)],
       gameOver := false, win := false)
  }

  /** `place_food` run on a: t differs from a only in food and flags; it holds
      a free cell of a, or when a has none, no food and both flags set. */
  ghost predicate FoodPlaced(a: Snapshot, t: Snapshot)
    ensures FoodPlaced(a, t) ==> t.food.None? || IsFree(a, t.food.value)
    ensures FoodPlaced(a, t) && t.food.None? ==> t.win && t.gameOver && forall c :: !IsFree(a, c)
  {
    t.width == a.width && t.height == a.height && t.snake == a.snake && t.head == a.head &&
    if exists c :: IsFree(a, c) then
      t.food.Some? && IsFree(a, t.food.value) && t.gameOver == a.gameOver && t.win == a.win
    else
      t.food.None? && t.win && t.gameOver
  }

  /** The successful part of `move` to n: the old head goes in front of the
      body, the tail is popped unless n holds the food, n becomes the head,
      and eaten food is cleared. */
  function Advance(s: Snapshot, n: Cell): (r: Snapshot)
    ensures r.head == n
    ensures |r.snake| == |s.snake| + (if s.food == Some(n) then 1 else 0)
    ensures r.snake == ([s.head] + s.snake)[..|r.snake|]
    ensures r.food == (if s.food == Some(n) then None else s.food)
    ensures r.width == s.width && r.height == s.height && r.gameOver == s.gameOver && r.win == s.win
  {
    var eat := s.food == Some(n);
    var body := [s.head] + s.snake;
    s.(snake := if eat then body else body[..|body| - 1],
       head := n,
       food := if eat then None else s.food)
  }

  /** One call of `move(direction)` takes s to t. */
  ghost predicate MoveSpec(s: Snapshot, direction: int, t: Snapshot)
    ensures MoveSpec(s, direction, t) ==> t.width == s.width && t.height == s.height
    ensures MoveSpec(s, direction, t) && s.gameOver ==> t.gameOver
    ensures MoveSpec(s, direction, t) && !s.gameOver && DirectionCorrect(direction) ==>
              t.head == (if Blocked(s, direction) then s.head else Neighbour(s.head, direction))
  {
    if s.gameOver then t == s
    else if !DirectionCorrect(direction) then FoodPlaced(Restart(s), t)
    else if Blocked(s, direction) then t == s.(gameOver := true)
    else
      var n := Neighbour(s.head, direction);
      if s.food == Some(n) then FoodPlaced(Advance(s, n), t)
      else t == Advance(s, n)
  }

  // ---------------------------------------------------------------------
  // Properties of the rules

  /** The cell right of the head is free after `init_snake` on a board at
      least 4 wide, so its food placement always succeeds. */
  lemma RestartHasFreeCell(s: Snapshot)
    requires s.width >= 4 && s.height >= 1
    ensures WellFormed(Restart(s).(food := None))
    ensures IsFree(Restart(s), Cell(s.width / 2 + 1, s.height / 2))
  {
  }

  /** `init_snake` always yields a live game with food that keeps the
      invariant, whatever state it starts from. */
  lemma RestartIsValid(s: Snapshot, t: Snapshot)
    requires s.width >= 4 && s.height >= 1
    requires FoodPlaced(Restart(s), t)
    ensures Invariant(t) && t.food.Some? && !t.gameOver && !t.win
  {
    RestartHasFreeCell(s);
  }

  /** Moving into the cell beside the head keeps the shape of the snake. */
  lemma AdvanceKeepsShape(s: Snapshot, direction: int)
    requires WellFormed(s) && DirectionCorrect(direction) && !Blocked(s, direction)
    ensures WellFormed(Advance(s, Neighbour(s.head, direction)).(food := None))
  {
  }

  /** `move` keeps the invariant: the snake keeps its shape, the flags stay
      consistent, and food never lands on the snake. */
  lemma MovePreservesInvariant(s: Snapshot, direction: int, t: Snapshot)
    requires Invariant(s) && MoveSpec(s, direction, t)
    ensures Invariant(t)
  {
    if !s.gameOver && !DirectionCorrect(direction) {
      RestartIsValid(s, t);
    } else if !s.gameOver && !Blocked(s, direction) {
      AdvanceKeepsShape(s, direction);
    }
  }

  /** Length: a move grows the body by at most one segment, and by exactly
      one when and only when it is a successful move onto the food. */
  lemma MoveLength(s: Snapshot, direction: int, t: Snapshot)
    requires Invariant(s) && MoveSpec(s, direction, t)
    ensures |t.snake| <= |s.snake| + 1
    ensures |t.snake| == |s.snake| + 1 <==>
              !s.gameOver && DirectionCorrect(direction) && !Blocked(s, direction) &&
              s.food == Some(Neighbour(s.head, direction))
  {
  }

  /** A successful move: the head shifts one cell in the direction, the old
      head becomes snake[0], and the body keeps its length unless food is
      eaten. A blocked move only sets game_over; on a finished game nothing
      changes. */
  lemma MoveOutcome(s: Snapshot, direction: int, t: Snapshot)
    requires Invariant(s) && MoveSpec(s, direction, t)
    ensures s.gameOver ==> t == s
    ensures !s.gameOver && DirectionCorrect(direction) && Blocked(s, direction) ==>
              t.gameOver && t.snake == s.snake && t.head == s.head && t.food == s.food && t.win == s.win
    ensures !s.gameOver && DirectionCorrect(direction) && !Blocked(s, direction) ==>
              var n := Neighbour(s.head, direction);
              t.head == n && t.snake[0] == s.head && t.snake[1..] == s.snake[..|t.snake| - 1] &&
              |t.snake| == |s.snake| + (if s.food == Some(n) then 1 else 0)
    ensures !s.gameOver && !DirectionCorrect(direction) ==>
              t.head == Cell(s.width / 2, s.height / 2) &&
              t.snake == [Cell(s.width / 2 - 1, s.height / 2), Cell(s.width / 2 - 2, s.height / 2)] &&
              t.food.Some? && !t.gameOver && !t.win
  {
    if !s.gameOver && !DirectionCorrect(direction) {
      RestartIsValid(s, t);
    }
  }

  /** Stepping into the current tail is a collision: the tail has not left
      the body when the check runs. */
  lemma TailIsBlocking(s: Snapshot, direction: int)
    requires Invariant(s) && DirectionCorrect(direction)
    requires Neighbour(s.head, direction) == s.snake[|s.snake| - 1]
    ensures Blocked(s, direction)
  {
  }

  /** Reading the rendered grid back: 2 exactly at the head, 1 exactly on
      the body, 3 exactly at the food, 0 everywhere else. */
  lemma RenderedCells(s: Snapshot, c: Cell)
    requires s.width >= 0 && s.height >= 0 && WellFormed(s) && InBounds(s.width, s.height, c)
    ensures |Render(s)| == s.height && |Render(s)[c.y]| == s.width
    ensures Render(s)[c.y][c.x] == 2 <==> c == s.head
    ensures Render(s)[c.y][c.x] == 1 <==> c in s.snake
    ensures Render(s)[c.y][c.x] == 3 <==> s.food == Some(c)
    ensures Render(s)[c.y][c.x] == 0 <==> IsFree(s, c) && s.food != Some(c)
  {
  }

  /** The grid does not show the flags. */
  lemma RenderIgnoresFlags(s: Snapshot, t: Snapshot)
    requires s.width >= 0 && s.height >= 0
    requires t == s.(gameOver := t.gameOver, win := t.win)
    ensures Render(t) == Render(s)
  {
    forall y | 0 <= y < s.height ensures Render(t)[y] == Render(s)[y] {
    }
  }

  // ---------------------------------------------------------------------
  // Counting cells: food is missing exactly when the snake fills the board

  /** The cells of row y, columns 0 to width - 1. */
  function Row(width: int, y: int): set<Cell>
    decreases width
  {
    if width <= 0 then {} else Row(width - 1, y) + {Cell(width - 1, y)}
  }

  /** The cells of rows 0 to height - 1. */
  function AllCells(width: int, height: int): set<Cell>
    decreases height
  {
    if height <= 0 then {} else AllCells(width, height - 1) + Row(width, height - 1)
  }

  lemma {:induction false} RowCells(width: int, y: int, c: Cell)
    ensures c in Row(width, y) <==> c.y == y && 0 <= c.x < width
    decreases width
  {
    if width > 0 {
      RowCells(width - 1, y, c);
    }
  }

  lemma {:induction false} BoardCells(width: int, height: int, c: Cell)
    ensures c in AllCells(width, height) <==> InBounds(width, height, c)
    decreases height
  {
    if height > 0 {
      BoardCells(width, height - 1, c);
      RowCells(width, height - 1, c);
    }
  }

  lemma {:induction false} RowSize(width: nat, y: int)
    ensures |Row(width, y)| == width
  {
    if width > 0 {
      RowSize(width - 1, y);
      RowCells(width - 1, y, Cell(width - 1, y));
    }
  }

  lemma {:induction false} BoardSize(width: nat, height: nat)
    ensures |AllCells(width, height)| == width * height
  {
    if height > 0 {
      var lower, top := AllCells(width, height - 1), Row(width, height - 1);
      BoardSize(width, height - 1);
      RowSize(width, height - 1);
      forall c | c in top ensures c !in lower {
        RowCells(width, height - 1, c);
        BoardCells(width, height - 1, c);
      }
      assert lower !! top;
      assert width * height == width * (height - 1) + width;
    }
  }

  function Cells(q: seq<Cell>): set<Cell>
  {
    set c | c in q
  }

  lemma {:induction false} DistinctCells(q: seq<Cell>)
    requires forall i, j :: 0 <= i < j < |q| ==> q[i] != q[j]
    ensures |Cells(q)| == |q|
  {
    if q != [] {
      DistinctCells(q[1..]);
      assert Cells(q) == {q[0]} + Cells(q[1..]);
      assert q[0] !in Cells(q[1..]);
    } else {
      assert Cells(q) == {};
    }
  }

  /** The cells head and body occupy. */
  function Taken(s: Snapshot): set<Cell>
  {
    {s.head} + Cells(s.snake)
  }

  /** A well-formed snake occupies |snake| + 1 distinct cells of the board. */
  lemma TakenOnBoard(s: Snapshot)
    requires WellFormed(s)
    ensures Taken(s) <= AllCells(s.width, s.height)
    ensures |Taken(s)| == |s.snake| + 1
  {
    DistinctCells(s.snake);
    forall c | c in Taken(s) ensures c in AllCells(s.width, s.height) {
      BoardCells(s.width, s.height, c);
    }
  }

  /** `place_food` finds a free cell exactly when head and body together
      cover fewer than width * height cells; so it declares a win exactly
      when the snake fills the board. */
  lemma FreeCellIffRoom(s: Snapshot)
    requires s.width >= 0 && s.height >= 0 && WellFormed(s)
    ensures (exists c :: IsFree(s, c)) <==> |s.snake| + 1 < s.width * s.height
  {
    var board, taken := AllCells(s.width, s.height), Taken(s);
    BoardSize(s.width, s.height);
    TakenOnBoard(s);
    assert taken + (board - taken) == board;
    assert |board - taken| == |board| - |taken|;
    forall c ensures IsFree(s, c) <==> c in board - taken {
      BoardCells(s.width, s.height, c);
    }
    if |board - taken| > 0 {
      var c :| c in board - taken;
      assert IsFree(s, c);
    }
  }
}
