/** The keydown handler: restart while the game is over, otherwise at most
    one buffered heading per tick, with reversals rejected. */
module Input {
  import opened Optional
  import opened Grid
  import opened Food
  import opened Game

  /** The key table: arrow keys and `w`/`s`/`a`/`d`, with north (`+z`)
      pointing away from the camera. */
  const Directions: map<string, Vec> := map[
    "ArrowUp" := North,
    "ArrowDown" := South,
    "ArrowLeft" := West,
    "ArrowRight" := East,
    "w" := North,
    "s" := South,
    "a" := West,
    "d" := East
  ]

  /** Lower-casing of one character; only the Latin capitals are folded. */
  function LowerChar(c: char): (l: char)
    ensures 'A' <= c <= 'Z' ==> 'a' <= l <= 'z' && l as int - 'a' as int == c as int - 'A' as int
    ensures !('A' <= c <= 'Z') ==> l == c
  {
    if 'A' <= c <= 'Z' then (c as int - 'A' as int + 'a' as int) as char else c
  }

  /** Single-character keys are lower-cased; named keys are kept as they are. */
  function FoldKey(key: string): (k: string)
    ensures |k| == |key|
    ensures |key| != 1 ==> k == key
    ensures |key| == 1 ==> k == [LowerChar(key[0])]
  {
    if |key| == 1 then [LowerChar(key[0])] else key
  }

  /** The heading a key selects: the folded key is looked up first, then the
      key as typed. */
  function KeyDirection(key: string): (d: Option<Vec>)
    ensures d.Some? ==> IsUnit(d.value)
    ensures d.Some? <==> FoldKey(key) in Directions || key in Directions
  {
    var folded := FoldKey(key);
    if folded in Directions then Some(Directions[folded])
    else if key in Directions then Some(Directions[key])
    else None
  }

  /** The keys that select each heading, as the user can type them: the
      arrow key, the letter and its capital; no other key selects one. */
  lemma {:induction false} KeysPerHeading(key: string)
    ensures KeyDirection(key) == Some(North) <==> key in {"ArrowUp", "w", "W"}
    ensures KeyDirection(key) == Some(South) <==> key in {"ArrowDown", "s", "S"}
    ensures KeyDirection(key) == Some(West) <==> key in {"ArrowLeft", "a", "A"}
    ensures KeyDirection(key) == Some(East) <==> key in {"ArrowRight", "d", "D"}
    ensures KeyDirection(key).Some? ==> KeyDirection(key).value in {North, South, West, East}
  {
    if |key| == 1 {
      var c := key[0];
      assert key == [c];
      assert FoldKey(key) == [LowerChar(c)];
    }
  }

  predicate IsRestartKey(key: string) {
    key == "r" || key == "R"
  }

  /** The keydown handler. While the game is over, `r`/`R` restarts. Any
      other key may only fill the empty buffer with a known heading that is
      not the reverse of the current one; the phase is not consulted for it. */
  function HandleKey(s: GameState, key: string, draws: seq<Cell>): (r: GameState)
    requires IsDrawBatch(draws)
    ensures s.gameOver && IsRestartKey(key) ==> r == Restart(s, draws)
    ensures !(s.gameOver && IsRestartKey(key)) ==> r == s.(buffered := r.buffered)
    ensures !(s.gameOver && IsRestartKey(key)) ==>
              (r.buffered != s.buffered <==>
                 s.buffered.None? && KeyDirection(key).Some? && KeyDirection(key).value != Neg(s.dir))
    ensures !(s.gameOver && IsRestartKey(key)) && r.buffered != s.buffered ==> r.buffered == KeyDirection(key)
  {
    if s.gameOver && IsRestartKey(key) then Restart(s, draws)
    else
      match KeyDirection(key)
      case None => s
      case Some(d) =>
        if s.buffered.Some? then s
        else if d.x == -s.dir.x && d.z == -s.dir.z then s
        else s.(buffered := Some(d))
  }

  /** A capital letter key behaves exactly as its lower-case form. */
  lemma CaseFolded(s: GameState, c: char, draws: seq<Cell>)
    requires IsDrawBatch(draws) && 'A' <= c <= 'Z'
    ensures HandleKey(s, [c], draws) == HandleKey(s, [LowerChar(c)], draws)
  {
    if c == 'R' {
      assert [LowerChar(c)] == "r";
    } else {
      assert !IsRestartKey([c]) && !IsRestartKey([LowerChar(c)]);
      assert FoldKey([LowerChar(c)]) == FoldKey([c]);
      assert [c] !in Directions;
    }
  }

  /** Restart is reached only through `r`/`R` while the game is over, and
      `r`/`R` while running changes nothing. */
  lemma RestartOnlyWhenOver(s: GameState, key: string, draws: seq<Cell>)
    requires IsDrawBatch(draws)
    ensures s.gameOver && !HandleKey(s, key, draws).gameOver ==> IsRestartKey(key)
    ensures !s.gameOver && IsRestartKey(key) ==> HandleKey(s, key, draws) == s
  {
    if IsRestartKey(key) {
      assert FoldKey(key) == "r";
      assert "r" !in Directions && "R" !in Directions;
    }
  }

  /** Pressing `r` twice after a game over restarts once: the second press
      meets a running game and has no effect. */
  lemma RestartTwiceIsRestartOnce(s: GameState, d1: seq<Cell>, d2: seq<Cell>)
    requires IsDrawBatch(d1) && IsDrawBatch(d2) && s.gameOver
    ensures HandleKey(HandleKey(s, "r", d1), "r", d2) == HandleKey(s, "r", d1)
  {
    RestartOnlyWhenOver(HandleKey(s, "r", d1), "r", d2);
  }

  /** Unknown keys leave the state unchanged, and so does a second press in
      the same tick. */
  lemma IgnoredKeys(s: GameState, key: string, draws: seq<Cell>)
    requires IsDrawBatch(draws) && !(s.gameOver && IsRestartKey(key))
    ensures KeyDirection(key).None? ==> HandleKey(s, key, draws) == s
    ensures s.buffered.Some? ==> HandleKey(s, key, draws) == s
  {
  }

  /** Key handling preserves the invariant. */
  lemma HandleKeyPreservesValid(s: GameState, key: string, draws: seq<Cell>)
    requires Valid(s) && IsDrawBatch(draws)
    ensures Valid(HandleKey(s, key, draws))
  {
    if s.gameOver && IsRestartKey(key) {
      RestartValid(s, draws);
    }
  }
}
