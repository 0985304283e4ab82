/** The observation the environment of src/rl/snake_env.py hands to the
    policy: 11 channels of height x width cells, flattened row by row and
    concatenated, and the history of the last 4 of them stacked oldest first.
    Values are exact reals; each of these functions reads the engine state
    only. */
module Encoding {
  import opened Seqs
  import opened Board

  const NumChannels: nat := 11
  const HistoryLength: nat := 4

  /** Channel numbers, in the order the observation concatenates them. */
  const BodyChannel := 0
  const HeadChannel := 1
  const AppleChannel := 2
  const BehindHeadChannel := 3
  const FirstDirectionChannel := 4
  const DxChannel := 8
  const DyChannel := 9
  const DangerChannel := 10

  /** Entries of one observation: 11 channels of width * height cells. */
  function ObservationLength(width: nat, height: nat): nat
  {
    NumChannels * (width * height)
  }

  /** The all-zero observation the history starts with. */
  function ZeroObservation(width: nat, height: nat): seq<real>
  {
    Repeat(0.0, ObservationLength(width, height))
  }

  function Indicator(b: bool): real
  {
    if b then 1.0 else 0.0
  }

  /** `_get_direction`: compares the head with the neck, snake[0]. Note that
      the labels are those of the opposite move: after `move(1)` (down) the
      head is below the neck and this gives 0. */
  function Direction(head: Cell, snake: seq<Cell>): (r: int)
    ensures -1 <= r <= 3
    ensures r == 0 <==> |snake| > 0 && head.x == snake[0].x && head.y > snake[0].y
    ensures r == 1 <==> |snake| > 0 && head.x == snake[0].x && head.y < snake[0].y
    ensures r == 2 <==> |snake| > 0 && head.y == snake[0].y && head.x > snake[0].x
    ensures r == 3 <==> |snake| > 0 && head.y == snake[0].y && head.x < snake[0].x
  {
    if |snake| == 0 then -1
    else
      var body := snake[0];
      if head.x == body.x && head.y > body.y then 0
      else if head.x == body.x && head.y < body.y then 1
      else if head.y == body.y && head.x > body.x then 2
      else if head.y == body.y && head.x < body.x then 3
      else -1
  }

  /** The label `Direction` gives after a successful move in each direction:
      0 and 1 swap, 2 and 3 swap. */
  function Mirror(direction: int): int
  {
    if direction == 0 then 1
    else if direction == 1 then 0
    else if direction == 2 then 3
    else 2
  }

  /** `_get_danger_vector`: entry d is 1 when the cell `move(d)` heads for
      collides (up, down, left, right). */
  function DangerVector(s: Snapshot): (danger: seq<real>)
    ensures |danger| == 4
    ensures forall d :: 0 <= d < 4 ==> danger[d] == Indicator(Blocked(s, d))
  {
    var headX, headY := s.head.x, s.head.y;
    [Indicator(CheckCollision(s.width, s.height, s.snake, headX, headY - 1)),
     Indicator(CheckCollision(s.width, s.height, s.snake, headX, headY + 1)),
     Indicator(CheckCollision(s.width, s.height, s.snake, headX - 1, headY)),
     Indicator(CheckCollision(s.width, s.height, s.snake, headX + 1, headY))]
  }

  /** What `_get_observation` needs to succeed: a grid of the board's shape,
      food to measure against, a neck on the board, and a first row wide
      enough for the danger vector. */
  predicate Observable(s: Snapshot, grid: seq<seq<int>>)
  {
    s.width >= 4 && s.height >= 1 &&
    |grid| == s.height && (forall r :: 0 <= r < |grid| ==> |grid[r]| == s.width) &&
    s.food.Some? &&
    (|s.snake| > 0 ==> InBounds(s.width, s.height, s.snake[0]))
  }

  /** Every well-formed state of a board the engine is used with, with food
      on the board, can be observed from its rendered grid. */
  lemma RenderedIsObservable(s: Snapshot)
    requires s.width >= 4 && s.height >= 1 && WellFormed(s) && s.food.Some?
    ensures Observable(s, Render(s))
  {
  }

  /** Cell (x, y) of channel c. */
  function ChannelValue(s: Snapshot, grid: seq<seq<int>>, c: int, x: int, y: int): (v: real)
    requires Observable(s, grid) && 0 <= c < NumChannels && InBounds(s.width, s.height, Cell(x, y))
    ensures c != DxChannel && c != DyChannel ==> v == 0.0 || v == 1.0
    ensures c == DangerChannel && y > 0 ==> v == 0.0
  {
    if c == BodyChannel then Indicator(grid[y][x] == 1)
    else if c == HeadChannel then Indicator(grid[y][x] == 2)
    else if c == AppleChannel then Indicator(grid[y][x] == 3)
    else if c == BehindHeadChannel then Indicator(|s.snake| > 0 && s.snake[0] == Cell(x, y))
    else if c < DxChannel then Indicator(Direction(s.head, s.snake) == c - FirstDirectionChannel)
    else if c == DxChannel then (s.food.value.x - s.head.x) as real / s.width as real
    else if c == DyChannel then (s.food.value.y - s.head.y) as real / s.height as real
    else if y == 0 && x < 4 then DangerVector(s)[x]
    else 0.0
  }

  /** Channel c as a grid: height rows of width cells. */
  function Channel(s: Snapshot, grid: seq<seq<int>>, c: int): seq<seq<real>>
    requires Observable(s, grid) && 0 <= c < NumChannels
  {
    seq(s.height, y requires 0 <= y < s.height =>
      seq(s.width, x requires 0 <= x < s.width => ChannelValue(s, grid, c, x, y)))
  }

  /** Every channel flattened row by row, in channel order. */
  function Flattened(s: Snapshot, grid: seq<seq<int>>): (flat: seq<seq<real>>)
    requires Observable(s, grid)
    ensures |flat| == NumChannels
    ensures forall c :: 0 <= c < NumChannels ==>
              flat[c] == Concat(Channel(s, grid, c)) && |flat[c]| == s.width * s.height
  {
    var flat := seq(NumChannels, c requires 0 <= c < NumChannels => Concat(Channel(s, grid, c)));
    assert forall c :: 0 <= c < NumChannels ==> |flat[c]| == s.width * s.height by {
      forall c | 0 <= c < NumChannels ensures |flat[c]| == s.width * s.height {
        ConcatLength(Channel(s, grid, c), s.width);
      }
    }
    flat
  }

  /** `_get_observation`: the flattened channels concatenated. */
  function Observation(s: Snapshot, grid: seq<seq<int>>): (obs: seq<real>)
    requires Observable(s, grid)
    ensures |obs| == ObservationLength(s.width, s.height)
  {
    ConcatLength(Flattened(s, grid), s.width * s.height);
    Concat(Flattened(s, grid))
  }

  /** Where a cell sits in the flat observation: cell (x, y) of channel c is
      entry c * width * height + y * width + x. */
  lemma ObservationAt(s: Snapshot, grid: seq<seq<int>>, c: int, x: int, y: int)
    requires Observable(s, grid) && 0 <= c < NumChannels && InBounds(s.width, s.height, Cell(x, y))
    ensures 0 <= c * (s.width * s.height) + y * s.width + x < ObservationLength(s.width, s.height)
    ensures Observation(s, grid)[c * (s.width * s.height) + y * s.width + x] == ChannelValue(s, grid, c, x, y)
  {
    var area := s.width * s.height;
    var flat := Flattened(s, grid);
    ConcatAt(Channel(s, grid, c), s.width, y, x);
    assert s.height * s.width == area;
    ConcatAt(flat, area, c, y * s.width + x);
    assert Observation(s, grid) == Concat(flat);
  }

  /** Decoding the body and head channels of an observation of a rendered,
      well-formed state: they are 1 exactly on the body and at the head, and
      0 elsewhere. */
  lemma ObservedBodyAndHead(s: Snapshot, grid: seq<seq<int>>, c: Cell)
    requires s.width >= 4 && s.height >= 1 && WellFormed(s) && s.food.Some?
    requires grid == Render(s) && InBounds(s.width, s.height, c)
    ensures Observable(s, grid)
    ensures var obs, area, at := Observation(s, grid), s.width * s.height, c.y * s.width + c.x;
            0 <= at < area && |obs| == NumChannels * area &&
            BodyChannel * area + at < |obs| && HeadChannel * area + at < |obs| &&
            obs[BodyChannel * area + at] == Indicator(c in s.snake) &&
            obs[HeadChannel * area + at] == Indicator(c == s.head)
  {
    RenderedIsObservable(s);
    BlockIndexBound(c.y, s.height, s.width, c.x);
    assert s.height * s.width == s.width * s.height;
    RenderedCells(s, c);
    ObservationAt(s, grid, BodyChannel, c.x, c.y);
    ObservationAt(s, grid, HeadChannel, c.x, c.y);
  }

  /** Decoding the apple and behind-head channels: they are 1 exactly at the
      food and at snake[0], and 0 elsewhere. */
  lemma ObservedAppleAndNeck(s: Snapshot, grid: seq<seq<int>>, c: Cell)
    requires s.width >= 4 && s.height >= 1 && WellFormed(s) && s.food.Some?
    requires grid == Render(s) && InBounds(s.width, s.height, c)
    ensures Observable(s, grid)
    ensures var obs, area, at := Observation(s, grid), s.width * s.height, c.y * s.width + c.x;
            0 <= at < area && |obs| == NumChannels * area &&
            AppleChannel * area + at < |obs| && BehindHeadChannel * area + at < |obs| &&
            obs[AppleChannel * area + at] == Indicator(s.food == Some(c)) &&
            obs[BehindHeadChannel * area + at] == Indicator(|s.snake| > 0 && c == s.snake[0])
  {
    RenderedIsObservable(s);
    BlockIndexBound(c.y, s.height, s.width, c.x);
    assert s.height * s.width == s.width * s.height;
    RenderedCells(s, c);
    ObservationAt(s, grid, AppleChannel, c.x, c.y);
    ObservationAt(s, grid, BehindHeadChannel, c.x, c.y);
  }

  /** The direction and hazard channels: channel 4 + k is all ones when
      `Direction` is k and all zeros otherwise, so at most one of the four is
      filled; the danger channel holds the danger vector in the first four
      cells of its first row and 0 everywhere else. */
  lemma ObservedDirectionAndDanger(s: Snapshot, grid: seq<seq<int>>, k: int, x: int, y: int)
    requires Observable(s, grid) && 0 <= k < 4 && InBounds(s.width, s.height, Cell(x, y))
    ensures var obs, area, at := Observation(s, grid), s.width * s.height, y * s.width + x;
            0 <= at < area && |obs| == NumChannels * area &&
            0 <= (FirstDirectionChannel + k) * area + at < |obs| && DangerChannel * area + at < |obs| &&
            obs[(FirstDirectionChannel + k) * area + at] == Indicator(Direction(s.head, s.snake) == k) &&
            obs[DangerChannel * area + at] == (if y == 0 && x < 4 then DangerVector(s)[x] else 0.0)
  {
    BlockIndexBound(y, s.height, s.width, x);
    assert s.height * s.width == s.width * s.height;
    ObservationAt(s, grid, FirstDirectionChannel + k, x, y);
    ObservationAt(s, grid, DangerChannel, x, y);
  }

  /** After a successful move in direction d the neck is the old head, one
      cell against d, so `Direction` reports Mirror(d). */
  lemma DirectionAfterMove(s: Snapshot, direction: int, t: Snapshot)
    requires Invariant(s) && !s.gameOver && DirectionCorrect(direction) && !Blocked(s, direction)
    requires MoveSpec(s, direction, t)
    ensures Direction(t.head, t.snake) == Mirror(direction)
  {
    MoveOutcome(s, direction, t);
  }

  /** Danger entry d is 1 exactly when `move(d)` on a live game loses it:
      the game ends without being won. */
  lemma DangerMeansLoss(s: Snapshot, direction: int, t: Snapshot)
    requires Invariant(s) && !s.gameOver && DirectionCorrect(direction)
    requires MoveSpec(s, direction, t)
    ensures DangerVector(s)[direction] == 1.0 <==> t.gameOver && !t.win
  {
    if !Blocked(s, direction) {
      var n := Neighbour(s.head, direction);
      if s.food == Some(n) {
        assert t.gameOver ==> t.win;
      }
    }
  }

  /** History entries keep one observation's length when the oldest is
      dropped and a new observation appended. */
  lemma PushKeepsShape(history: seq<seq<real>>, obs: seq<real>, len: nat)
    requires |history| == HistoryLength && |obs| == len
    requires forall k :: 0 <= k < |history| ==> |history[k]| == len
    ensures var next := history[1..] + [obs];
            |next| == HistoryLength && forall k :: 0 <= k < |next| ==> |next[k]| == len
  {
  }

  /** `_get_combined_observation`: the history concatenated oldest first. */
  function Stacked(history: seq<seq<real>>, len: nat): (r: seq<real>)
    requires |history| == HistoryLength
    requires forall k :: 0 <= k < |history| ==> |history[k]| == len
    ensures |r| == HistoryLength * len
  {
    ConcatLength(history, len);
    Concat(history)
  }

  /** With 4 entries of len values each, block k of the stacked observation
      is history[k]: entry i of it sits at k * len + i. */
  lemma StackedAt(history: seq<seq<real>>, len: nat, k: int, i: int)
    requires |history| == HistoryLength
    requires forall b :: 0 <= b < |history| ==> |history[b]| == len
    requires 0 <= k < HistoryLength && 0 <= i < len
    ensures 0 <= k * len + i < |Stacked(history, len)|
    ensures Stacked(history, len)[k * len + i] == history[k][i]
  {
    ConcatAt(history, len, k, i);
  }
}
