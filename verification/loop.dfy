/** The fixed-timestep scheduler of the render loop: elapsed frame time is
    added to an accumulator and one tick runs per whole 130 ms interval. */
module RenderLoop {
  import opened Grid
  import opened Food
  import opened Game

  /** Milliseconds of simulated time per tick. */
  const StepIntervalMs: nat := 130

  /** The game together with the accumulator of elapsed milliseconds not yet
      spent on ticks (`stepAccumulator`). */
  datatype Scheduler = Scheduler(game: GameState, acc: nat)

  /** One draw batch for every tick the loop may run. */
  predicate AllDrawBatches(batches: seq<seq<Cell>>) {
    forall i :: 0 <= i < |batches| ==> IsDrawBatch(batches[i])
  }

  /** The reference for the catch-up loop: `n` ticks in a row, the `k`-th
      with the `k`-th draw batch. */
  function StepN(g: GameState, batches: seq<seq<Cell>>, n: nat): (r: GameState)
    requires n <= |batches| && AllDrawBatches(batches)
    requires !g.gameOver ==> |g.snake| > 0
    ensures !r.gameOver ==> |r.snake| > 0
    ensures g.gameOver ==> r == g
    ensures r.score >= g.score
    decreases n
  {
    if n == 0 then g else StepN(Step(g, batches[0]), batches[1..], n - 1)
  }

  /** The number of whole intervals in `acc`, counted the way the loop
      counts them: by repeated subtraction. */
  function Ticks(acc: nat): (n: nat)
    decreases acc
  {
    if acc < StepIntervalMs then 0 else 1 + Ticks(acc - StepIntervalMs)
  }

  /** What is left of `acc` once every whole interval is subtracted. */
  function Leftover(acc: nat): (m: nat)
    decreases acc
  {
    if acc < StepIntervalMs then acc else Leftover(acc - StepIntervalMs)
  }

  /** Repeated subtraction computes the quotient and the remainder: a frame
      that brings the accumulator to `t` runs `t / 130` ticks and keeps
      `t % 130` for the next frame. */
  lemma {:induction false} TicksAreQuotient(acc: nat)
    ensures Ticks(acc) == acc / StepIntervalMs
    ensures Leftover(acc) == acc % StepIntervalMs
    decreases acc
  {
    if acc >= StepIntervalMs {
      TicksAreQuotient(acc - StepIntervalMs);
      SubtractInterval(acc);
    }
  }

  /** The inner `while` of the render loop: tick and subtract the interval
      for as long as at least one interval has accumulated, consuming one
      draw batch per tick. */
  function Drain(g: GameState, acc: nat, batches: seq<seq<Cell>>): (r: Scheduler)
    requires Ticks(acc) <= |batches| && AllDrawBatches(batches)
    requires !g.gameOver ==> |g.snake| > 0
    ensures r.acc < StepIntervalMs
    decreases acc
  {
    if acc < StepIntervalMs then Scheduler(g, acc)
    else Drain(Step(g, batches[0]), acc - StepIntervalMs, batches[1..])
  }

  /** One tick followed by the remaining `n - 1`. */
  lemma StepNUnfold(g: GameState, batches: seq<seq<Cell>>, n: nat)
    requires 1 <= n <= |batches| && AllDrawBatches(batches) && (!g.gameOver ==> |g.snake| > 0)
    ensures AllDrawBatches(batches[1..]) && IsDrawBatch(batches[0])
    ensures StepN(g, batches, n) == StepN(Step(g, batches[0]), batches[1..], n - 1)
  {
  }

  /** The catch-up loop runs exactly one tick per whole interval, in order,
      and keeps the rest of the accumulated time. */
  lemma {:induction false} DrainIsStepN(g: GameState, acc: nat, batches: seq<seq<Cell>>)
    requires Ticks(acc) <= |batches| && AllDrawBatches(batches)
    requires !g.gameOver ==> |g.snake| > 0
    ensures Drain(g, acc, batches) == Scheduler(StepN(g, batches, Ticks(acc)), Leftover(acc))
    decreases acc
  {
    if acc >= StepIntervalMs {
      DrainIsStepN(Step(g, batches[0]), acc - StepIntervalMs, batches[1..]);
      StepNUnfold(g, batches, Ticks(acc));
    }
  }

  /** One render-loop callback with `dt` elapsed milliseconds. Nothing
      accumulates or ticks while the game is over; otherwise the elapsed time
      is added and the catch-up loop drains it. A game over in mid-frame
      does not stop the loop: the remaining ticks are no-ops and the
      accumulator is still drained. */
  function Frame(l: Scheduler, dt: nat, batches: seq<seq<Cell>>): (r: Scheduler)
    requires AllDrawBatches(batches)
    requires !l.game.gameOver ==> Ticks(l.acc + dt) <= |batches| && |l.game.snake| > 0
    ensures l.game.gameOver ==> r == l
    ensures !l.game.gameOver ==> r.game == StepN(l.game, batches, Ticks(l.acc + dt))
    ensures !l.game.gameOver ==> r.acc == Leftover(l.acc + dt)
  {
    if l.game.gameOver then l
    else
      DrainIsStepN(l.game, l.acc + dt, batches);
      Drain(l.game, l.acc + dt, batches)
  }

  /** A frame runs `(acc + dt) / 130` ticks and keeps `(acc + dt) % 130`. */
  lemma FrameRunsQuotientTicks(l: Scheduler, dt: nat, batches: seq<seq<Cell>>)
    requires AllDrawBatches(batches)
    requires !l.game.gameOver ==> Ticks(l.acc + dt) <= |batches| && |l.game.snake| > 0
    ensures !l.game.gameOver ==>
              Ticks(l.acc + dt) == (l.acc + dt) / StepIntervalMs
              && Frame(l, dt, batches).game == StepN(l.game, batches, (l.acc + dt) / StepIntervalMs)
              && Frame(l, dt, batches).acc == (l.acc + dt) % StepIntervalMs
  {
    if !l.game.gameOver {
      var a := l.acc + dt;
      TicksAreQuotient(a);
      var r := Frame(l, dt, batches);
      assert r.game == StepN(l.game, batches, Ticks(a)) && r.acc == Leftover(a);
    }
  }

  /** Subtracting one interval removes one tick from the quotient and keeps
      the remainder. */
  lemma SubtractInterval(a: nat)
    requires a >= StepIntervalMs
    ensures a / StepIntervalMs >= 1
    ensures (a - StepIntervalMs) / StepIntervalMs == a / StepIntervalMs - 1
    ensures (a - StepIntervalMs) % StepIntervalMs == a % StepIntervalMs
  {
    var q, m := (a - 130) / 130, (a - 130) % 130;
    assert a - 130 == q * 130 + m && 0 <= m < 130;
    assert a == (q + 1) * 130 + m;
  }

  /** A run of ticks preserves the invariant. */
  lemma {:induction false} StepNPreservesValid(g: GameState, batches: seq<seq<Cell>>, n: nat)
    requires n <= |batches| && AllDrawBatches(batches) && Valid(g)
    ensures Valid(StepN(g, batches, n))
    decreases n
  {
    if n > 0 {
      StepPreservesValid(g, batches[0]);
      StepNPreservesValid(Step(g, batches[0]), batches[1..], n - 1);
    }
  }

  /** The scheduler invariant: a valid game and less than one interval
      pending. */
  ghost predicate ValidScheduler(l: Scheduler) {
    Valid(l.game) && l.acc < StepIntervalMs
  }

  /** A render-loop callback preserves the invariant. */
  lemma FramePreservesValid(l: Scheduler, dt: nat, batches: seq<seq<Cell>>)
    requires ValidScheduler(l) && AllDrawBatches(batches)
    requires !l.game.gameOver ==> Ticks(l.acc + dt) <= |batches|
    ensures ValidScheduler(Frame(l, dt, batches))
  {
    if !l.game.gameOver {
      StepNPreservesValid(l.game, batches, Ticks(l.acc + dt));
    }
  }
}

/** The host's two callback sources, key presses and render frames, applied
    one after another to the state built at start-up. */
module Session {
  import opened Grid
  import opened Food
  import opened Game
  import opened Input
  import opened RenderLoop

  /** One host callback, with the random draws it may consume. */
  datatype Event =
    | KeyDown(key: string, draws: seq<Cell>)
    | RenderFrame(dt: nat, batches: seq<seq<Cell>>)

  /** The draws supplied with an event suffice for it: a frame starts with
      less than one interval accumulated, so it runs at most
      `(129 + dt) / 130` ticks. */
  predicate WellSupplied(e: Event) {
    match e
    case KeyDown(_, draws) => IsDrawBatch(draws)
    case RenderFrame(dt, batches) =>
      AllDrawBatches(batches) && (StepIntervalMs - 1 + dt) / StepIntervalMs <= |batches|
  }

  /** One callback: a key press goes to the keydown handler, a frame to the
      render loop. The invariant survives either, and a key press (restart
      included) leaves the accumulator alone. */
  function Deliver(l: Scheduler, e: Event): (r: Scheduler)
    requires ValidScheduler(l) && WellSupplied(e)
    ensures ValidScheduler(r)
    ensures e.KeyDown? ==> r.acc == l.acc
  {
    match e
    case KeyDown(key, draws) =>
      HandleKeyPreservesValid(l.game, key, draws);
      Scheduler(HandleKey(l.game, key, draws), l.acc)
    case RenderFrame(dt, batches) =>
      assert (l.acc + dt) / StepIntervalMs <= (StepIntervalMs - 1 + dt) / StepIntervalMs;
      TicksAreQuotient(l.acc + dt);
      FramePreservesValid(l, dt, batches);
      Frame(l, dt, batches)
  }

  /** Delivering the events in order; every state passed through satisfies
      the invariant. */
  function Run(l: Scheduler, events: seq<Event>): (r: Scheduler)
    requires ValidScheduler(l)
    requires forall i :: 0 <= i < |events| ==> WellSupplied(events[i])
    ensures ValidScheduler(r)
    decreases |events|
  {
    if |events| == 0 then l else Run(Deliver(l, events[0]), events[1..])
  }

  /** The state at start-up, with nothing accumulated. */
  function Start(draws: seq<Cell>): (l: Scheduler)
    requires IsDrawBatch(draws)
    ensures ValidScheduler(l) && l.acc == 0
  {
    InitValid(draws);
    Scheduler(Init(draws), 0)
  }

  /** Every state reachable from start-up is in bounds, duplicate-free,
      connected and non-empty, with food on the board and less than one
      interval pending. */
  lemma ReachableStatesAreValid(draws: seq<Cell>, events: seq<Event>)
    requires IsDrawBatch(draws)
    requires forall i :: 0 <= i < |events| ==> WellSupplied(events[i])
    ensures ValidScheduler(Run(Start(draws), events))
  {
  }
}
