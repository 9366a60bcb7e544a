/** The simulation state and the one-tick transition (`step`), together with
    the game-over and restart transitions of the two-phase life cycle. */
module Game {
  import opened Optional
  import opened Grid
  import opened Food

  /** Length of the snake at start and after a restart. */
  const StartLen: int := 3

  /** Everything the tick logic reads or writes: the snake (head first),
      the heading, the one-slot buffer, the food cell (None until the first
      spawn), the score and the phase flag. The render loop's accumulator is
      kept beside it, in `RenderLoop.Scheduler`. */
  datatype GameState = GameState(
    snake: seq<Cell>,
    dir: Vec,
    buffered: Option<Vec>,
    food: Option<Cell>,
    score: nat,
    gameOver: bool)

  /** The starting snake: head at `gx = 1`, trailing towards `-x`. */
  function InitialSnake(): (cells: seq<Cell>)
    ensures cells == [Cell(1, 0), Cell(0, 0), Cell(-1, 0)]
  {
    seq(StartLen, i => Cell(1 - i, 0))
  }

  predicate Distinct(cells: seq<Cell>) {
    forall i, j :: 0 <= i < j < |cells| ==> cells[i] != cells[j]
  }

  /** Consecutive segments are neighbours on the board. */
  predicate Connected(cells: seq<Cell>) {
    forall i :: 0 <= i < |cells| - 1 ==> Adjacent(cells[i], cells[i + 1])
  }

  predicate AllInBounds(cells: seq<Cell>) {
    forall i :: 0 <= i < |cells| ==> InBounds(cells[i])
  }

  /** A new head collides with the wall or with the snake as it stands
      before the move, its tail included. */
  predicate Collides(cells: seq<Cell>, newHead: Cell) {
    !InBounds(newHead) || newHead in cells
  }

  /** The shape of the snake: non-empty, on the board, no cell twice, each
      segment next to the one before it. */
  predicate WellShaped(cells: seq<Cell>) {
    |cells| >= 1 && AllInBounds(cells) && Distinct(cells) && Connected(cells)
  }

  /** The heading is a unit vector and a buffered heading is a unit vector
      that does not reverse it. */
  predicate HeadingOk(s: GameState) {
    IsUnit(s.dir) && (s.buffered.Some? ==> IsUnit(s.buffered.value) && s.buffered.value != Neg(s.dir))
  }

  /** Food is on the board and off the snake, except when the snake covers
      the whole board: the one case in which a spawn fails and leaves the
      eaten cell as the food cell. */
  ghost predicate FoodOk(s: GameState) {
    s.food.Some? && InBounds(s.food.value) && (s.food.value !in s.snake || Full(s.snake))
  }

  /** The invariant of every reachable state. */
  ghost predicate Valid(s: GameState) {
    WellShaped(s.snake) && HeadingOk(s) && FoodOk(s)
  }

  /** The state built by `createScene`: the starting snake heading east and
      a first food spawn (there is no earlier food cell). */
  function Init(draws: seq<Cell>): (s: GameState)
    requires IsDrawBatch(draws)
    ensures s.snake == InitialSnake() && s.dir == East && s.buffered.None?
    ensures s.score == 0 && !s.gameOver
    ensures s.food.Some? && InBounds(s.food.value) && s.food.value !in s.snake
    ensures s.food == Respawn(s.snake, draws, None)
  {
    InitialSnakeLeavesRoom();
    GameState(InitialSnake(), East, None, Respawn(InitialSnake(), draws, None), 0, false)
  }

  /** The logical part of `endGame`: the phase flag is raised and nothing
      else changes. */
  function EndGame(s: GameState): (r: GameState)
    ensures r.gameOver
    ensures r.(gameOver := s.gameOver) == s
  {
    s.(gameOver := true)
  }

  /** `restartGame`: the canonical starting state with fresh food. */
  function Restart(s: GameState, draws: seq<Cell>): (r: GameState)
    requires IsDrawBatch(draws)
    ensures r.snake == [Cell(1, 0), Cell(0, 0), Cell(-1, 0)]
    ensures r.dir == East && r.buffered.None? && r.score == 0 && !r.gameOver
    ensures r.food.Some? && InBounds(r.food.value) && r.food.value !in r.snake
    ensures r.food == Respawn(r.snake, draws, s.food)
  {
    InitialSnakeLeavesRoom();
    GameState(InitialSnake(), East, None, Respawn(InitialSnake(), draws, s.food), 0, false)
  }

  /** `step`: one tick. A buffered heading is committed and the buffer
      cleared; the new head is checked against the wall and then against the
      whole pre-move snake; otherwise the head is prepended and either the
      tail is dropped or, on food, the snake grows, the score rises and food
      is respawned against the lengthened snake. */
  function Step(s: GameState, draws: seq<Cell>): (r: GameState)
    requires !s.gameOver ==> |s.snake| > 0
    requires IsDrawBatch(draws)
    ensures s.gameOver ==> r == s
    ensures !s.gameOver ==> r.buffered.None?
    ensures !s.gameOver ==> r.dir == (if s.buffered.Some? then s.buffered.value else s.dir)
    ensures !s.gameOver ==> (r.gameOver <==> Collides(s.snake, Translate(s.snake[0], r.dir)))
    ensures !s.gameOver && r.gameOver ==>
              r.snake == s.snake && r.score == s.score && r.food == s.food
    ensures !r.gameOver ==> |r.snake| > 0 && r.snake[0] == Translate(s.snake[0], r.dir)
    ensures !r.gameOver && s.food != Some(r.snake[0]) ==>
              r.snake[1..] == s.snake[..|s.snake| - 1] && r.score == s.score && r.food == s.food
    ensures !r.gameOver && s.food == Some(r.snake[0]) ==>
              r.snake[1..] == s.snake && r.score == s.score + 1 && r.food == Respawn(r.snake, draws, s.food)
    ensures |r.snake| >= |s.snake|
  {
    if s.gameOver then s
    else
      var dir := if s.buffered.Some? then s.buffered.value else s.dir;
      var committed := s.(dir := dir, buffered := None);
      var newHead := Translate(s.snake[0], dir);
      if !InBounds(newHead) then EndGame(committed)
      else if newHead in s.snake then EndGame(committed)
      else
        var ateFood := s.food == Some(newHead);
        var grown := [newHead] + s.snake;
        if !ateFood then committed.(snake := grown[..|grown| - 1])
        else committed.(snake := grown, score := s.score + 1, food := Respawn(grown, draws, s.food))
  }

  /** A cell of the board that the starting snake leaves free. */
  lemma InitialSnakeLeavesRoom()
    ensures !Full(InitialSnake())
  {
    assert InBounds(Cell(-HalfGrid, -HalfGrid));
    assert Cell(-HalfGrid, -HalfGrid) !in InitialSnake();
  }

  /** The state built at start-up satisfies the invariant. */
  lemma InitValid(draws: seq<Cell>)
    requires IsDrawBatch(draws)
    ensures Valid(Init(draws))
  {
    var s := Init(draws);
    assert Adjacent(s.snake[0], s.snake[1]) && Adjacent(s.snake[1], s.snake[2]);
  }

  /** Restarting yields a state satisfying the invariant. */
  lemma RestartValid(s: GameState, draws: seq<Cell>)
    requires IsDrawBatch(draws)
    ensures Valid(Restart(s, draws))
  {
    var r := Restart(s, draws);
    assert Adjacent(r.snake[0], r.snake[1]) && Adjacent(r.snake[1], r.snake[2]);
  }

  /** Restart forgets everything about the state it starts from: restarting
      twice gives the canonical state both times. */
  lemma RestartIsCanonical(s: GameState, t: GameState, draws: seq<Cell>)
    requires IsDrawBatch(draws)
    ensures Restart(s, draws) == Restart(t, draws)
  {
    InitialSnakeLeavesRoom();
  }

  /** Prepending a free, in-bounds neighbour of the head keeps the snake's
      shape, both when the tail is kept and when it is dropped. */
  lemma PrependKeepsShape(cells: seq<Cell>, newHead: Cell)
    requires |cells| >= 1 && AllInBounds(cells) && Distinct(cells) && Connected(cells)
    requires InBounds(newHead) && newHead !in cells && Adjacent(newHead, cells[0])
    ensures AllInBounds([newHead] + cells) && Distinct([newHead] + cells) && Connected([newHead] + cells)
    ensures AllInBounds([newHead] + cells[..|cells| - 1])
    ensures Distinct([newHead] + cells[..|cells| - 1])
    ensures Connected([newHead] + cells[..|cells| - 1])
  {
    var grown := [newHead] + cells;
    assert forall i :: 1 <= i < |grown| ==> grown[i] == cells[i - 1];
    var moved := [newHead] + cells[..|cells| - 1];
    assert forall i :: 1 <= i < |moved| ==> moved[i] == cells[i - 1];
  }

  /** A tick that ends the game only commits the heading. */
  lemma CollisionKeepsValid(s: GameState, r: GameState)
    requires Valid(s)
    requires r == s.(dir := r.dir, buffered := None, gameOver := true)
    requires IsUnit(r.dir)
    ensures Valid(r)
  {
  }

  /** A tick that moves without eating keeps the invariant. */
  lemma MoveKeepsValid(s: GameState, r: GameState, newHead: Cell)
    requires Valid(s) && s.food != Some(newHead)
    requires InBounds(newHead) && newHead !in s.snake && Adjacent(newHead, s.snake[0])
    requires r == s.(snake := [newHead] + s.snake[..|s.snake| - 1], dir := r.dir, buffered := None)
    requires IsUnit(r.dir)
    ensures Valid(r)
  {
    PrependKeepsShape(s.snake, newHead);
    assert !Full(s.snake);
    assert forall c :: c in r.snake ==> c == newHead || c in s.snake;
  }

  /** A tick that eats keeps the invariant; when the lengthened snake covers
      the board the food cell is the one just eaten. */
  lemma EatKeepsValid(s: GameState, r: GameState, newHead: Cell, draws: seq<Cell>)
    requires Valid(s) && s.food == Some(newHead) && IsDrawBatch(draws)
    requires InBounds(newHead) && newHead !in s.snake && Adjacent(newHead, s.snake[0])
    requires r == s.(snake := [newHead] + s.snake, dir := r.dir, buffered := None, score := s.score + 1,
                     food := Respawn([newHead] + s.snake, draws, s.food))
    requires IsUnit(r.dir)
    ensures Valid(r)
  {
    PrependKeepsShape(s.snake, newHead);
    assert newHead in r.snake;
  }

  /** One tick preserves the invariant. */
  lemma StepPreservesValid(s: GameState, draws: seq<Cell>)
    requires Valid(s) && IsDrawBatch(draws)
    ensures Valid(Step(s, draws))
  {
    if !s.gameOver {
      var r := Step(s, draws);
      var dir := if s.buffered.Some? then s.buffered.value else s.dir;
      var newHead := Translate(s.snake[0], dir);
      assert IsUnit(r.dir) && Adjacent(newHead, s.snake[0]);
      if Collides(s.snake, newHead) {
        CollisionKeepsValid(s, r);
      } else if s.food == Some(newHead) {
        EatKeepsValid(s, r, newHead, draws);
      } else {
        MoveKeepsValid(s, r, newHead);
      }
    }
  }

  /** The heading after a tick is never the exact reverse of the heading
      before it: a buffered heading was checked against the current one. */
  lemma StepNeverReverses(s: GameState, draws: seq<Cell>)
    requires Valid(s) && IsDrawBatch(draws)
    ensures Step(s, draws).dir != Neg(s.dir)
  {
    UnitIsNotItsReverse(s.dir);
  }
}
