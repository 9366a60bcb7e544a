/** Food placement (`respawnFood`): up to 200 random candidate cells, then a
    row-major scan of the whole board for the first free cell. The random
    source is modelled by the batch of candidate cells it would produce. */
module Food {
  import opened Optional
  import opened Grid

  /** Number of random candidates tried before the deterministic scan. */
  const MaxAttempts: int := 200

  /** What the random source supplies to one call: 200 candidate cells, each
      drawn from `[-HalfGrid, HalfGrid)` on both axes. */
  predicate IsDrawBatch(draws: seq<Cell>) {
    |draws| == MaxAttempts && forall i :: 0 <= i < |draws| ==> InBounds(draws[i])
  }

  /** Every cell of the board is occupied by the snake. */
  ghost predicate Full(snake: seq<Cell>) {
    forall c :: InBounds(c) ==> c in snake
  }

  /** The random phase: the index of the first candidate from attempt `i`
      onwards that the snake does not occupy. */
  function FirstFreeDraw(draws: seq<Cell>, snake: seq<Cell>, i: nat): (r: Option<nat>)
    requires |draws| == MaxAttempts && i <= MaxAttempts
    ensures r.Some? ==> i <= r.value < |draws| && draws[r.value] !in snake
    ensures r.Some? ==> forall j :: i <= j < r.value ==> draws[j] in snake
    ensures r.None? <==> forall j :: i <= j < |draws| ==> draws[j] in snake
    decreases MaxAttempts - i
  {
    if i == MaxAttempts then None
    else if draws[i] !in snake then Some(i)
    else FirstFreeDraw(draws, snake, i + 1)
  }

  /** The fallback phase: the first free cell at or after `Cell(gx, gz)` in
      row-major order (`gz` outer, `gx` inner), or None if there is none. */
  function ScanFrom(snake: seq<Cell>, gz: int, gx: int): (r: Option<Cell>)
    requires -HalfGrid <= gz <= HalfGrid && -HalfGrid <= gx <= HalfGrid
    ensures r.Some? ==> InBounds(r.value) && r.value !in snake
    ensures r.Some? ==> !RowMajorLess(r.value, Cell(gx, gz))
    ensures r.Some? ==> forall c :: InBounds(c) && !RowMajorLess(c, Cell(gx, gz)) && RowMajorLess(c, r.value) ==> c in snake
    ensures r.None? ==> forall c :: InBounds(c) && !RowMajorLess(c, Cell(gx, gz)) ==> c in snake
    decreases HalfGrid - gz, HalfGrid - gx
  {
    if gz == HalfGrid then None
    else if gx == HalfGrid then ScanFrom(snake, gz + 1, -HalfGrid)
    else if Cell(gx, gz) !in snake then Some(Cell(gx, gz))
    else ScanFrom(snake, gz, gx + 1)
  }

  /** `respawnFood`: the new food cell, or `previous` unchanged when the snake
      covers the whole board (the source then returns without a spawn). */
  function Respawn(snake: seq<Cell>, draws: seq<Cell>, previous: Option<Cell>): (r: Option<Cell>)
    requires IsDrawBatch(draws)
    ensures !Full(snake) ==> r.Some? && InBounds(r.value) && r.value !in snake
    ensures Full(snake) ==> r == previous
    ensures (exists i :: 0 <= i < |draws| && draws[i] !in snake) ==>
              exists i :: 0 <= i < |draws| && r == Some(draws[i]) && forall j :: 0 <= j < i ==> draws[j] in snake
    ensures (forall i :: 0 <= i < |draws| ==> draws[i] in snake) && !Full(snake) ==>
              forall c :: InBounds(c) && RowMajorLess(c, r.value) ==> c in snake
  {
    match FirstFreeDraw(draws, snake, 0)
    case Some(i) => Some(draws[i])
    case None =>
      match ScanFrom(snake, -HalfGrid, -HalfGrid)
      case Some(c) => Some(c)
      case None => previous
  }
}
