/** Concrete runs of the tick and the keydown handler, for any random
    draws. States are described cell by cell, one tick per lemma, and the
    runs are then chained. */
module Scenarios {
  import opened Optional
  import opened Grid
  import opened Food
  import opened Game
  import opened Input

  /** Running east with nothing buffered. */
  predicate RunningEast(s: GameState) {
    !s.gameOver && s.dir == East && s.buffered.None?
  }

  /** A snake lying on the row `z = 0` leaves the rest of the board free. */
  lemma OneRowLeavesRoom(cells: seq<Cell>)
    requires forall i :: 0 <= i < |cells| ==> cells[i].z == 0
    ensures !Full(cells)
  {
    assert InBounds(Cell(0, 1)) && Cell(0, 1) !in cells;
  }

  /** First tick from the start with food at `(3, 0)`: the snake moves. */
  lemma FirstTickMoves(s0: GameState, d1: seq<Cell>)
    requires RunningEast(s0) && IsDrawBatch(d1) && s0.food == Some(Cell(3, 0)) && s0.score == 0
    requires |s0.snake| == 3 && s0.snake[0] == Cell(1, 0) && s0.snake[1] == Cell(0, 0) && s0.snake[2] == Cell(-1, 0)
    ensures var s1 := Step(s0, d1);
            RunningEast(s1) && s1.food == Some(Cell(3, 0)) && s1.score == 0
            && |s1.snake| == 3 && s1.snake[0] == Cell(2, 0) && s1.snake[1] == Cell(1, 0) && s1.snake[2] == Cell(0, 0)
  {
    var s1 := Step(s0, d1);
    assert s1.snake[1..] == s0.snake[..2];
  }

  /** Second tick: the head reaches the food, the snake grows to four cells
      and the score becomes 1. */
  lemma SecondTickEats(s1: GameState, d2: seq<Cell>)
    requires RunningEast(s1) && IsDrawBatch(d2) && s1.food == Some(Cell(3, 0)) && s1.score == 0
    requires |s1.snake| == 3 && s1.snake[0] == Cell(2, 0) && s1.snake[1] == Cell(1, 0) && s1.snake[2] == Cell(0, 0)
    ensures var s2 := Step(s1, d2);
            RunningEast(s2) && s2.score == 1 && |s2.snake| == 4
            && s2.snake[0] == Cell(3, 0) && s2.snake[1] == Cell(2, 0) && s2.snake[2] == Cell(1, 0) && s2.snake[3] == Cell(0, 0)
  {
    var s2 := Step(s1, d2);
    assert s2.snake[1..] == s1.snake;
  }

  /** After the second tick the food is respawned on the board, off the
      lengthened snake. */
  lemma SecondTickRespawns(s1: GameState, d2: seq<Cell>)
    requires RunningEast(s1) && IsDrawBatch(d2) && s1.food == Some(Cell(3, 0)) && s1.score == 0
    requires |s1.snake| == 3 && s1.snake[0] == Cell(2, 0) && s1.snake[1] == Cell(1, 0) && s1.snake[2] == Cell(0, 0)
    ensures var s2 := Step(s1, d2);
            s2.food.Some? && InBounds(s2.food.value) && s2.food.value !in s2.snake
  {
    var s2 := Step(s1, d2);
    assert s2.snake[1..] == s1.snake;
    assert forall i :: 0 <= i < |s2.snake| ==> s2.snake[i].z == 0;
    OneRowLeavesRoom(s2.snake);
  }

  /** Third tick: the head moves on to `(4, 0)`; the length stays 4 unless
      the respawn happened to put the food exactly there. */
  lemma ThirdTickMoves(s2: GameState, d3: seq<Cell>)
    requires RunningEast(s2) && IsDrawBatch(d3) && s2.score == 1 && |s2.snake| == 4
    requires s2.snake[0] == Cell(3, 0) && s2.snake[1] == Cell(2, 0) && s2.snake[2] == Cell(1, 0) && s2.snake[3] == Cell(0, 0)
    ensures var s3 := Step(s2, d3);
            !s3.gameOver && s3.snake[0] == Cell(4, 0)
            && (s2.food != Some(Cell(4, 0)) ==> |s3.snake| == 4 && s3.score == 1)
            && (s2.food == Some(Cell(4, 0)) ==> |s3.snake| == 5 && s3.score == 2)
  {
    assert Cell(4, 0) !in s2.snake;
  }

  /** The three ticks in a row from the starting snake with food at `(3, 0)`. */
  lemma ThreeTicksEast(s0: GameState, d1: seq<Cell>, d2: seq<Cell>, d3: seq<Cell>)
    requires RunningEast(s0) && s0.food == Some(Cell(3, 0)) && s0.score == 0
    requires |s0.snake| == 3 && s0.snake[0] == Cell(1, 0) && s0.snake[1] == Cell(0, 0) && s0.snake[2] == Cell(-1, 0)
    requires IsDrawBatch(d1) && IsDrawBatch(d2) && IsDrawBatch(d3)
    ensures var s1 := Step(s0, d1);
            !s1.gameOver && |s1.snake| == 3 && s1.snake[0] == Cell(2, 0) && s1.score == 0
    ensures var s2 := Step(Step(s0, d1), d2);
            !s2.gameOver && |s2.snake| == 4 && s2.snake[0] == Cell(3, 0) && s2.score == 1
            && s2.food.Some? && InBounds(s2.food.value) && s2.food.value !in s2.snake
    ensures var s2 := Step(Step(s0, d1), d2);
            var s3 := Step(s2, d3);
            !s3.gameOver && s3.snake[0] == Cell(4, 0)
            && (s2.food != Some(Cell(4, 0)) ==> |s3.snake| == 4 && s3.score == 1)
            && (s2.food == Some(Cell(4, 0)) ==> |s3.snake| == 5 && s3.score == 2)
  {
    FirstTickMoves(s0, d1);
    var s1 := Step(s0, d1);
    SecondTickEats(s1, d2);
    SecondTickRespawns(s1, d2);
    ThirdTickMoves(Step(s1, d2), d3);
  }

  /** Moving east into a free cell of the last column `x = 9` is legal,
      whether or not the food is there. */
  lemma LastColumnEastIsLegal(s: GameState, d: seq<Cell>)
    requires RunningEast(s) && IsDrawBatch(d)
    requires |s.snake| > 0 && s.snake[0] == Cell(8, 0) && Cell(9, 0) !in s.snake
    ensures !Step(s, d).gameOver && Step(s, d).snake[0] == Cell(9, 0)
  {
  }

  /** Moving west into a free cell of the first column `x = -10` is legal,
      whether or not the food is there. */
  lemma FirstColumnWestIsLegal(s: GameState, d: seq<Cell>)
    requires !s.gameOver && s.dir == West && s.buffered.None? && IsDrawBatch(d)
    requires |s.snake| > 0 && s.snake[0] == Cell(-9, 0) && Cell(-10, 0) !in s.snake
    ensures !Step(s, d).gameOver && Step(s, d).snake[0] == Cell(-10, 0)
  {
  }

  /** One step further out, on either side, is a wall collision. */
  lemma PastTheWallEnds(s: GameState, d: seq<Cell>)
    requires !s.gameOver && s.buffered.None? && IsDrawBatch(d) && |s.snake| > 0
    requires (s.snake[0] == Cell(9, 0) && s.dir == East) || (s.snake[0] == Cell(-10, 0) && s.dir == West)
    ensures Step(s, d).gameOver && Step(s, d).snake == s.snake
  {
  }

  /** Pressing the reverse of the heading is dropped, so the next tick keeps
      the heading. */
  lemma ReversalIgnored(s: GameState, key: string, d1: seq<Cell>, d2: seq<Cell>)
    requires Valid(s) && !s.gameOver && s.buffered.None? && IsDrawBatch(d1) && IsDrawBatch(d2)
    requires KeyDirection(key) == Some(Neg(s.dir))
    ensures HandleKey(s, key, d1) == s
    ensures Step(HandleKey(s, key, d1), d2).dir == s.dir
  {
  }

  /** The tail is still an obstacle when the head moves onto it: the
      collision test runs before the tail would be dropped. */
  lemma TailIsAnObstacle(s: GameState, d: seq<Cell>)
    requires IsDrawBatch(d) && !s.gameOver && |s.snake| > 0
    requires Translate(s.snake[0], if s.buffered.Some? then s.buffered.value else s.dir) == s.snake[|s.snake| - 1]
    ensures Step(s, d).gameOver && Step(s, d).snake == s.snake
  {
  }

  /** A well-shaped snake whose head sits just west of its own tail, so that
      heading east runs into the tail. */
  lemma TailChaseShape(cells: seq<Cell>)
    requires cells == [Cell(0, 0), Cell(0, 1), Cell(1, 1), Cell(1, 0)]
    ensures WellShaped(cells) && Translate(cells[0], East) == cells[|cells| - 1]
  {
    assert Adjacent(cells[0], cells[1]) && Adjacent(cells[1], cells[2]) && Adjacent(cells[2], cells[3]);
  }
}
