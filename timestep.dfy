/**
 * The fixed-timestep loop of `Game::run`: each pass drains the pending events,
 * adds the time elapsed since the previous pass to an accumulator, and then,
 * while the accumulator exceeds one timestep, takes a timestep off it, drains
 * the events again and runs one update. Times are whole microseconds, as
 * sf::Time stores them.
 */
module FixedTimestep {
  import opened Vectors
  import opened Helicopter

  /**
   * One timestep: sf::seconds(1.0f / 60.0f) converted to microseconds by
   * truncation, 16666.67 becoming 16666.
   */
  const TimePerFrame: int := 16666

  /**
   * The loop's state: the sprite, the accumulator, how many event batches were
   * drained, how many updates ran, and how many passes of the outer loop
   * (clock readings) were made.
   */
  datatype Loop = Loop(sprite: Helo, acc: int, polled: nat, updates: nat, passes: nat)

  /** The state at the start of `run`: a zero accumulator and no work done. */
  function Start(s: Helo): Loop
  {
    Loop(s, 0, 0, 0, 0)
  }

  /**
   * The events that the `i`-th drain finds pending: batch `i` of `polls`, or
   * none once the recorded batches are used up.
   */
  function Poll(polls: seq<seq<Event>>, i: nat): seq<Event>
  {
    if i < |polls| then polls[i] else []
  }

  /** The total of the first readings of the clock. */
  function Total(elapsed: seq<nat>): nat
    decreases |elapsed|
  {
    if elapsed == [] then 0 else Total(elapsed[..|elapsed| - 1]) + elapsed[|elapsed| - 1]
  }

  /**
   * The inner loop: while the accumulator exceeds a timestep, subtract it, drain,
   * update. It makes no pass of the outer loop and leaves at most one timestep
   * in the accumulator.
   */
  function Inner(m: Loop, polls: seq<seq<Event>>, norm: Vec2 -> real): (r: Result<Loop>)
    ensures r.Ok? ==> r.value.passes == m.passes && r.value.acc <= TimePerFrame
    decreases m.acc
  {
    if m.acc <= TimePerFrame then Ok(m)
    else
      match Drain(m.sprite, Poll(polls, m.polled), norm)
      case DivisionByZero => DivisionByZero
      case Ok(s1) =>
        Inner(Loop(Update(s1), m.acc - TimePerFrame, m.polled + 1, m.updates + 1, m.passes),
              polls, norm)
  }

  /**
   * The outer loop, for as many passes as there are clock readings in `elapsed`
   * or until the window is closed: drain, add the elapsed time, run the inner
   * loop. Rendering changes none of this state and is left out. The loop never
   * goes back a pass nor past the last reading, and stops only when the readings
   * run out or the window is closed.
   */
  function Outer(m: Loop, elapsed: seq<nat>, polls: seq<seq<Event>>, norm: Vec2 -> real): (r: Result<Loop>)
    ensures r.Ok? && m.passes <= |elapsed| ==> m.passes <= r.value.passes <= |elapsed|
    ensures r.Ok? ==> r.value.passes >= |elapsed| || !r.value.sprite.windowOpen
    decreases |elapsed| - m.passes
  {
    if |elapsed| <= m.passes || !m.sprite.windowOpen then Ok(m)
    else
      match Drain(m.sprite, Poll(polls, m.polled), norm)
      case DivisionByZero => DivisionByZero
      case Ok(s1) =>
        match Inner(Loop(s1, m.acc + elapsed[m.passes], m.polled + 1, m.updates, m.passes + 1),
                    polls, norm)
        case DivisionByZero => DivisionByZero
        case Ok(m2) => Outer(m2, elapsed, polls, norm)
  }

  /** One iteration of the inner loop, for a run of it that divides by nothing. */
  lemma InnerStep(m: Loop, polls: seq<seq<Event>>, norm: Vec2 -> real)
    requires m.acc > TimePerFrame && Inner(m, polls, norm).Ok?
    ensures Drain(m.sprite, Poll(polls, m.polled), norm).Ok?
    ensures var s1 := Drain(m.sprite, Poll(polls, m.polled), norm).value;
      Inner(m, polls, norm)
      == Inner(Loop(Update(s1), m.acc - TimePerFrame, m.polled + 1, m.updates + 1, m.passes), polls, norm)
  {
  }

  /** One pass of the outer loop, for a run of it that divides by nothing. */
  lemma OuterStep(m: Loop, elapsed: seq<nat>, polls: seq<seq<Event>>, norm: Vec2 -> real)
    requires m.passes < |elapsed| && m.sprite.windowOpen && Outer(m, elapsed, polls, norm).Ok?
    ensures Drain(m.sprite, Poll(polls, m.polled), norm).Ok?
    ensures var s1 := Drain(m.sprite, Poll(polls, m.polled), norm).value;
      var entry := Loop(s1, m.acc + elapsed[m.passes], m.polled + 1, m.updates, m.passes + 1);
      && Inner(entry, polls, norm).Ok?
      && Outer(m, elapsed, polls, norm) == Outer(Inner(entry, polls, norm).value, elapsed, polls, norm)
  {
    match Drain(m.sprite, Poll(polls, m.polled), norm)
    case DivisionByZero =>
      assert false;
    case Ok(s1) =>
      OuterEnter(m, s1, elapsed, polls, norm);
  }

  /** The second half of one pass of the outer loop: the inner loop, entered after a drain. */
  lemma OuterEnter(m: Loop, s1: Helo, elapsed: seq<nat>, polls: seq<seq<Event>>, norm: Vec2 -> real)
    requires m.passes < |elapsed| && m.sprite.windowOpen && Outer(m, elapsed, polls, norm).Ok?
    requires Drain(m.sprite, Poll(polls, m.polled), norm) == Ok(s1)
    ensures var entry := Loop(s1, m.acc + elapsed[m.passes], m.polled + 1, m.updates, m.passes + 1);
      && Inner(entry, polls, norm).Ok?
      && Outer(m, elapsed, polls, norm) == Outer(Inner(entry, polls, norm).value, elapsed, polls, norm)
  {
  }

  // ============================================================ properties

  /**
   * The inner loop leaves an accumulator of at most one timestep unchanged;
   * otherwise it subtracts whole timesteps until what is left lies in
   * (0, TimePerFrame], so that an accumulator that starts non-negative ends in
   * [0, TimePerFrame]. It runs one update and one drain per timestep subtracted,
   * does not read the clock, and never clears the exit flag; once the exit flag
   * is set, any update it runs closes the window.
   */
  lemma {:induction false} InnerSettles(m: Loop, polls: seq<seq<Event>>, norm: Vec2 -> real)
    requires Inner(m, polls, norm).Ok?
    ensures var r := Inner(m, polls, norm).value;
      && r.acc + (r.updates - m.updates) * TimePerFrame == m.acc
      && r.updates >= m.updates
      && r.polled - m.polled == r.updates - m.updates
      && r.passes == m.passes
      && r.acc <= TimePerFrame
      && (m.acc <= TimePerFrame ==> r == m)
      && (m.acc > TimePerFrame ==> 0 < r.acc)
      && (0 <= m.acc ==> 0 <= r.acc)
      && (m.sprite.exitGame ==> r.sprite.exitGame)
      && (m.sprite.exitGame && r.updates > m.updates ==> !r.sprite.windowOpen)
    decreases m.acc
  {
    if m.acc > TimePerFrame {
      InnerStep(m, polls, norm);
      var events := Poll(polls, m.polled);
      DrainEffect(m.sprite, events, norm);
      var s1 := Drain(m.sprite, events, norm).value;
      UpdateEffect(s1);
      var next := Loop(Update(s1), m.acc - TimePerFrame, m.polled + 1, m.updates + 1, m.passes);
      InnerSettles(next, polls, norm);
      assert Inner(m, polls, norm) == Inner(next, polls, norm);
    }
  }

  /**
   * The time balance of `run`: from an accumulator in [0, TimePerFrame] that
   * accounts for all the time read so far, the loop ends with an accumulator in
   * [0, TimePerFrame] that still does, so that the elapsed time read equals
   * the time left in the accumulator plus one timestep per update; and the
   * loop never clears the exit flag.
   */
  lemma {:induction false} OuterBalance(m: Loop, elapsed: seq<nat>, polls: seq<seq<Event>>,
                                        norm: Vec2 -> real)
    requires m.passes <= |elapsed|
    requires 0 <= m.acc <= TimePerFrame
    requires m.acc + m.updates * TimePerFrame == Total(elapsed[..m.passes])
    requires Outer(m, elapsed, polls, norm).Ok?
    ensures var r := Outer(m, elapsed, polls, norm).value;
      && m.passes <= r.passes <= |elapsed|
      && 0 <= r.acc <= TimePerFrame
      && r.acc + r.updates * TimePerFrame == Total(elapsed[..r.passes])
      && (m.sprite.exitGame ==> r.sprite.exitGame)
    decreases |elapsed| - m.passes
  {
    if m.passes < |elapsed| && m.sprite.windowOpen {
      OuterStep(m, elapsed, polls, norm);
      var s1 := Drain(m.sprite, Poll(polls, m.polled), norm).value;
      var entry := Loop(s1, m.acc + elapsed[m.passes], m.polled + 1, m.updates, m.passes + 1);
      var m2 := Inner(entry, polls, norm).value;
      assert Outer(m, elapsed, polls, norm) == Outer(m2, elapsed, polls, norm);
      assert m2.passes == m.passes + 1 && 0 <= m2.acc <= TimePerFrame
          && m2.acc + m2.updates * TimePerFrame == Total(elapsed[..m2.passes])
          && (m.sprite.exitGame ==> m2.sprite.exitGame) by {
        DrainEffect(m.sprite, Poll(polls, m.polled), norm);
        InnerSettles(entry, polls, norm);
        assert elapsed[..m.passes + 1][..m.passes] == elapsed[..m.passes];
        assert Total(elapsed[..m.passes + 1]) == Total(elapsed[..m.passes]) + elapsed[m.passes];
      }
      OuterBalance(m2, elapsed, polls, norm);
    }
  }

  /**
   * A whole run from the start: every microsecond read from the clock is either
   * left in the accumulator, which ends in [0, TimePerFrame], or was spent on an
   * update, one timestep each.
   */
  /** The inner loop keeps the game's invariant. */
  lemma {:induction false} InnerKeepsInv(m: Loop, polls: seq<seq<Event>>, norm: Vec2 -> real)
    requires Inner(m, polls, norm).Ok? && Inv(m.sprite)
    ensures Inv(Inner(m, polls, norm).value.sprite)
    decreases m.acc
  {
    if m.acc > TimePerFrame {
      InnerStep(m, polls, norm);
      var s1 := Drain(m.sprite, Poll(polls, m.polled), norm).value;
      DrainKeepsInv(m.sprite, Poll(polls, m.polled), norm);
      InnerKeepsInv(Loop(Update(s1), m.acc - TimePerFrame, m.polled + 1, m.updates + 1, m.passes),
                    polls, norm);
    }
  }

  /** The outer loop keeps the game's invariant. */
  lemma {:induction false} OuterKeepsInv(m: Loop, elapsed: seq<nat>, polls: seq<seq<Event>>,
                                         norm: Vec2 -> real)
    requires Outer(m, elapsed, polls, norm).Ok? && Inv(m.sprite)
    ensures Inv(Outer(m, elapsed, polls, norm).value.sprite)
    decreases |elapsed| - m.passes
  {
    if m.passes < |elapsed| && m.sprite.windowOpen {
      OuterStep(m, elapsed, polls, norm);
      var s1 := Drain(m.sprite, Poll(polls, m.polled), norm).value;
      var entry := Loop(s1, m.acc + elapsed[m.passes], m.polled + 1, m.updates, m.passes + 1);
      DrainKeepsInv(m.sprite, Poll(polls, m.polled), norm);
      InnerKeepsInv(entry, polls, norm);
      OuterKeepsInv(Inner(entry, polls, norm).value, elapsed, polls, norm);
    }
  }

  lemma RunBalance(s: Helo, elapsed: seq<nat>, polls: seq<seq<Event>>, norm: Vec2 -> real)
    requires Outer(Start(s), elapsed, polls, norm).Ok?
    ensures var r := Outer(Start(s), elapsed, polls, norm).value;
      && r.passes <= |elapsed|
      && 0 <= r.acc <= TimePerFrame
      && r.acc + r.updates * TimePerFrame == Total(elapsed[..r.passes])
      && (r.passes == |elapsed| || !r.sprite.windowOpen)
      && (Inv(s) ==> Inv(r.sprite))
  {
    assert elapsed[..0] == [];
    OuterBalance(Start(s), elapsed, polls, norm);
    if Inv(s) {
      OuterKeepsInv(Start(s), elapsed, polls, norm);
    }
  }
}
