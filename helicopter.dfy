/**
 * The helicopter sprite of the airwolf demo as a value: every field the game
 * updates per tick or per input event, and one pure transition per member
 * function of `Game` that changes them (animateHelo, move, procressMouse,
 * processKeys, the event dispatch of processEvents, update).
 */
module Helicopter {
  import opened Vectors
  import opened CppNumerics

  /** `Direction` in the source: the state of the movement state machine. */
  datatype Direction = None | Left | Right

  /** sf::IntRect: the sub-rectangle of the sprite sheet that is drawn. */
  datatype IntRect = IntRect(left: int, top: int, width: int, height: int)

  datatype Key = Escape | OtherKey(code: int)

  datatype MouseButton = LeftButton | RightButton | MiddleButton | XButton1 | XButton2

  /** The platform events the game reacts to; every other kind is `OtherEvent`. */
  datatype Event =
    | Closed
    | KeyPressed(key: Key)
    | MouseButtonPressed(button: MouseButton, x: int, y: int)
    | OtherEvent

  /** The outcome of a step that may divide by zero, which the source leaves undefined. */
  datatype Result<T> = Ok(value: T) | DivisionByZero

  const InitialIncrement: real := 0.24
  const FastIncrement: real := 0.5
  const SlowIncrement: real := 0.25
  const FastPitch: real := 1.0
  const SlowPitch: real := 0.5
  const FrameWidth: int := 180
  const FrameHeight: int := 64

  /**
   * The state of the game that the simulation touches. `pitch` is the pitch of
   * the looping engine sound, `position`, `scale` and `textureRect` are those of
   * the drawn sprite, `windowOpen` is whether the window is still open.
   */
  datatype Helo = Helo(
    location: Vec2,
    target: Vec2,
    velocity: Vec2,
    speed: real,
    facing: Direction,
    currentFrame: int,
    frameCounter: real,
    frameIncrement: real,
    pitch: real,
    position: Vec2,
    scale: Vec2,
    textureRect: IntRect,
    exitGame: bool,
    windowOpen: bool)

  /** The sprite-sheet rectangle of one frame: frames are stacked vertically, 64 pixels apart. */
  function FrameRect(frame: int): IntRect
  {
    IntRect(0, FrameHeight * frame, FrameWidth, FrameHeight)
  }

  /** One of the four frames' rectangles. */
  predicate IsFrameRect(r: IntRect)
  {
    r == FrameRect(0) || r == FrameRect(1) || r == FrameRect(2) || r == FrameRect(3)
  }

  /**
   * The state after construction: the window is open, no exit was asked for,
   * the sprite is idle at `start`, shows the third frame's rectangle while its
   * frame number is 0, and the engine sound plays at the slow pitch. It
   * satisfies the invariant.
   */
  function Initial(start: Vec2, speed: real): (r: Helo)
    ensures Inv(r)
  {
    Helo(start, Vec2(0.0, 0.0), Vec2(0.0, 0.0), speed, None,
         0, 0.0, InitialIncrement, SlowPitch,
         start, Vec2(1.0, 1.0), FrameRect(2), false, true)
  }

  /**
   * What holds of every state the game reaches: the animation counter is not
   * negative, the frame number is one of the four frames and is the counter's
   * floor modulo 4, the drawn rectangle is
   * one of theirs, the sprite is drawn at the location, increment and pitch are
   * the fast ones exactly while moving, the flip matches the direction, and the
   * window closes only once an exit was asked for.
   */
  predicate Inv(s: Helo)
  {
    && 0.0 <= s.frameCounter
    && 0 <= s.currentFrame < 4
    && s.currentFrame == s.frameCounter.Floor % 4
    && IsFrameRect(s.textureRect)
    && s.position == s.location
    && (s.facing == None ==>
          s.pitch == SlowPitch
          && (s.frameIncrement == InitialIncrement || s.frameIncrement == SlowIncrement))
    && (s.facing != None ==> s.frameIncrement == FastIncrement && s.pitch == FastPitch)
    && (s.facing == Right ==> s.scale == Vec2(1.0, 1.0))
    && (s.facing == Left ==> s.scale == Vec2(-1.0, 1.0))
    && (!s.windowOpen ==> s.exitGame)
  }

  // ---------------------------------------------------------------- animation

  /**
   * animateHelo: advance the counter, derive the frame, redraw only on a change
   * of frame. It keeps the invariant.
   */
  function Animate(s: Helo): (r: Helo)
    ensures Inv(s) ==> Inv(r)
  {
    var counter := s.frameCounter + s.frameIncrement;
    var frame := Rem4(Trunc(counter));
    if frame != s.currentFrame then
      s.(frameCounter := counter, currentFrame := frame, textureRect := FrameRect(frame))
    else
      s.(frameCounter := counter)
  }

  /** `n` consecutive animation steps. */
  function AnimateN(s: Helo, n: nat): Helo
    decreases n
  {
    if n == 0 then s else Animate(AnimateN(s, n - 1))
  }

  // ----------------------------------------------------------------- movement

  /** The arrival effects: back to idle, slow animation, slow engine. */
  function Arrive(s: Helo): Helo
  {
    s.(facing := None, frameIncrement := SlowIncrement, pitch := SlowPitch)
  }

  /**
   * move: while not idle, step by the velocity, redraw there, and stop once the
   * x coordinate has strictly passed the target in the direction of travel. The
   * two arrival tests run one after the other, as in the source. It keeps the
   * invariant.
   */
  function Move(s: Helo): (r: Helo)
    ensures Inv(s) ==> Inv(r)
  {
    if s.facing == None then s
    else
      var loc := Add(s.location, s.velocity);
      var moved := s.(location := loc, position := loc);
      var afterRight :=
        if moved.facing == Right && moved.location.x > moved.target.x then Arrive(moved) else moved;
      if afterRight.facing == Left && afterRight.location.x < afterRight.target.x then
        Arrive(afterRight)
      else
        afterRight
  }

  /** The sum of `n` copies of `c`: `n` ticks' worth of a per-tick amount. */
  function Repeated(n: nat, c: real): real
    decreases n
  {
    if n == 0 then 0.0 else Repeated(n - 1, c) + c
  }

  /** `n` consecutive movement steps. */
  function MoveN(s: Helo, n: nat): Helo
    decreases n
  {
    if n == 0 then s else MoveN(Move(s), n - 1)
  }

  /** How far along x the target still lies in the direction of travel. */
  function Remaining(s: Helo): real
  {
    match s.facing
    case None => 0.0
    case Right => s.target.x - s.location.x
    case Left => s.location.x - s.target.x
  }

  /** How far along x one tick carries the sprite in the direction of travel. */
  function Progress(s: Helo): real
  {
    match s.facing
    case None => 0.0
    case Right => s.velocity.x
    case Left => -s.velocity.x
  }

  // -------------------------------------------------------------------- input

  /** The displacement from the sprite to a clicked point. */
  function ClickDisplacement(s: Helo, x: int, y: int): Vec2
  {
    Sub(Vec2(x as real, y as real), s.location)
  }

  /**
   * procressMouse: a middle click aims the sprite at the clicked point with a
   * velocity of the displacement's direction scaled by the speed, speeds up
   * animation and engine, and faces right exactly when the click lies strictly
   * right of the sprite. `norm` is the displacement's length as the source
   * computes it (std::sqrtf of the sum of the squared components); a zero
   * length is a division by zero. A defined click keeps the invariant.
   */
  function Mouse(s: Helo, button: MouseButton, x: int, y: int, norm: Vec2 -> real): (r: Result<Helo>)
    ensures r.Ok? && Inv(s) ==> Inv(r.value)
  {
    if button != MiddleButton then Ok(s)
    else
      var d := ClickDisplacement(s, x, y);
      var length := norm(d);
      if length == 0.0 then DivisionByZero
      else
        var right := x as real > s.location.x;
        Ok(s.(target := Vec2(x as real, y as real),
              velocity := Mul(Div(d, length), s.speed),
              frameIncrement := FastIncrement,
              pitch := FastPitch,
              facing := if right then Right else Left,
              scale := if right then Vec2(1.0, 1.0) else Vec2(-1.0, 1.0)))
  }

  /** processKeys: Escape asks to exit. It keeps the invariant. */
  function Keys(s: Helo, key: Key): (r: Helo)
    ensures Inv(s) ==> Inv(r)
  {
    if key == Escape then s.(exitGame := true) else s
  }

  /** One pass of the body of the event loop of processEvents; it keeps the invariant. */
  function Dispatch(s: Helo, e: Event, norm: Vec2 -> real): (r: Result<Helo>)
    ensures r.Ok? && Inv(s) ==> Inv(r.value)
  {
    match e
    case Closed => Ok(s.(exitGame := true))
    case KeyPressed(key) => Ok(Keys(s, key))
    case MouseButtonPressed(button, x, y) => Mouse(s, button, x, y, norm)
    case OtherEvent => Ok(s)
  }

  /** processEvents: handle the pending events in order. */
  function Drain(s: Helo, events: seq<Event>, norm: Vec2 -> real): (r: Result<Helo>)
    decreases |events|
  {
    if events == [] then Ok(s)
    else
      match Dispatch(s, events[0], norm)
      case DivisionByZero => DivisionByZero
      case Ok(s1) => Drain(s1, events[1..], norm)
  }

  predicate RequestsExit(e: Event)
  {
    e == Closed || e == KeyPressed(Escape)
  }

  /**
   * update: close the window once an exit was asked for, then animate, then
   * move. It keeps the invariant.
   */
  function Update(s: Helo): (r: Helo)
    ensures Inv(s) ==> Inv(r)
  {
    var s1 := if s.exitGame then s.(windowOpen := false) else s;
    Move(Animate(s1))
  }

  // ============================================================ properties

  /**
   * One animation step adds exactly the increment to the counter; from a
   * non-negative counter the frame is the truncated counter modulo 4, one of
   * 0..3; the rectangle changes exactly when the frame does, to that frame's;
   * nothing else changes.
   */
  lemma AnimateStep(s: Helo)
    ensures var r := Animate(s);
      && r.frameCounter == s.frameCounter + s.frameIncrement
      && (0.0 <= r.frameCounter ==>
            0 <= r.currentFrame < 4 && r.currentFrame == r.frameCounter.Floor % 4)
      && (r.currentFrame != s.currentFrame ==> r.textureRect == FrameRect(r.currentFrame))
      && (r.currentFrame == s.currentFrame ==> r.textureRect == s.textureRect)
      && r.(frameCounter := s.frameCounter, currentFrame := s.currentFrame,
            textureRect := s.textureRect) == s
  {
  }

  /** The counter and frame part of `AnimateStep`. */
  lemma AnimateFrame(s: Helo)
    ensures Animate(s).frameIncrement == s.frameIncrement
    ensures Animate(s).frameCounter == s.frameCounter + s.frameIncrement
    ensures var r := Animate(s);
      0.0 <= r.frameCounter ==> 0 <= r.currentFrame < 4 && r.currentFrame == r.frameCounter.Floor % 4
  {
  }

  /**
   * `n` animation steps add `n` increments to the counter (the increment itself
   * is not changed by animation), and after at least one step from a
   * non-negative counter the frame is the counter's floor modulo 4.
   */
  lemma {:induction false} AnimateTicks(s: Helo, n: nat)
    ensures AnimateN(s, n).frameIncrement == s.frameIncrement
    ensures AnimateN(s, n).frameCounter == s.frameCounter + Repeated(n, s.frameIncrement)
    ensures var r := AnimateN(s, n);
      n > 0 && 0.0 <= r.frameCounter ==>
        0 <= r.currentFrame < 4 && r.currentFrame == r.frameCounter.Floor % 4
    decreases n
  {
    if n > 0 {
      var before := AnimateN(s, n - 1);
      AnimateTicks(s, n - 1);
      AnimateFrame(before);
      assert AnimateN(s, n) == Animate(before);
    }
  }

  /** An idle sprite does not move: nothing changes. */
  lemma MoveWhenIdle(s: Helo)
    requires s.facing == None
    ensures Move(s) == s
  {
  }

  /**
   * A moving sprite steps by its velocity exactly once and is redrawn there; the
   * velocity and target never change; it arrives (idle, slow animation, slow
   * pitch) exactly when its x has strictly passed the target's in its direction,
   * and otherwise keeps direction, increment and pitch. Nothing else changes.
   */
  lemma MoveWhenMoving(s: Helo)
    requires s.facing != None
    ensures var r := Move(s);
      var loc := Add(s.location, s.velocity);
      var arrived := (s.facing == Right && loc.x > s.target.x)
                     || (s.facing == Left && loc.x < s.target.x);
      && r.location == loc
      && r.position == loc
      && r.velocity == s.velocity
      && r.target == s.target
      && (arrived ==> r == Arrive(s.(location := loc, position := loc)))
      && (!arrived ==> r == s.(location := loc, position := loc))
      && (r.facing == None <==> arrived)
  {
  }

  /**
   * In the direction-free terms of `Remaining` and `Progress`: a moving sprite
   * arrives in the next step exactly when the remaining distance is less than one
   * step, and otherwise the distance shrinks by one step.
   */
  lemma MoveAlongTrack(s: Helo)
    requires s.facing != None
    ensures var r := Move(s);
      && (Remaining(s) < Progress(s) ==>
            r.facing == None && r.frameIncrement == SlowIncrement && r.pitch == SlowPitch)
      && (Progress(s) <= Remaining(s) ==>
            r.facing == s.facing && Remaining(r) == Remaining(s) - Progress(s)
            && Progress(r) == Progress(s))
  {
  }

  /**
   * A sprite that gains on its target along x arrives after finitely many ticks:
   * `n` is the first tick count whose travel exceeds the remaining distance; it
   * keeps its direction until then, ends idle with the slow increment and pitch,
   * and has travelled exactly `n` velocities along x. From in front of the
   * target, `n` is floor(remaining / progress) + 1.
   */
  lemma Arrives(s: Helo) returns (n: nat)
    requires s.facing != None && Progress(s) > 0.0
    ensures 1 <= n
    ensures 0.0 <= Remaining(s) ==> n == (Remaining(s) / Progress(s)).Floor + 1
    ensures Remaining(s) < Repeated(n, Progress(s))
    ensures n == 1 || Repeated(n - 1, Progress(s)) <= Remaining(s)
    ensures forall j :: 0 <= j < n ==> MoveN(s, j).facing == s.facing
    ensures var r := MoveN(s, n);
      r.facing == None && r.frameIncrement == SlowIncrement && r.pitch == SlowPitch
      && r.location.x == s.location.x + Repeated(n, s.velocity.x)
  {
    var k := Budget(Remaining(s), Progress(s));
    n := ArrivesWithin(s, k);
    if 0.0 <= Remaining(s) {
      FirstTickPast(Remaining(s), Progress(s), n);
    }
  }

  /** `Arrives` for a sprite known to arrive within `k` ticks. */
  lemma {:induction false} ArrivesWithin(s: Helo, k: nat) returns (n: nat)
    requires s.facing != None && Progress(s) > 0.0
    requires Remaining(s) < Repeated(k, Progress(s))
    ensures 1 <= n
    ensures Remaining(s) < Repeated(n, Progress(s))
    ensures n == 1 || Repeated(n - 1, Progress(s)) <= Remaining(s)
    ensures forall j :: 0 <= j < n ==> MoveN(s, j).facing == s.facing
    ensures var r := MoveN(s, n);
      r.facing == None && r.frameIncrement == SlowIncrement && r.pitch == SlowPitch
      && r.location.x == s.location.x + Repeated(n, s.velocity.x)
    decreases k
  {
    MoveAlongTrack(s);
    MoveWhenMoving(s);
    var m := Move(s);
    var p := Progress(s);
    if Remaining(s) < p {
      n := 1;
      assert MoveN(s, 1) == MoveN(m, 0) == m;
      assert MoveN(s, 0) == s;
    } else {
      assert k != 0;
      var i := ArrivesWithin(m, k - 1);
      n := i + 1;
      RepeatedFirst(i, s.velocity.x);
      if i > 1 {
        RepeatedFirst(i - 1, p);
      }
      forall j | 0 <= j < n
        ensures MoveN(s, j).facing == s.facing
      {
        if j > 0 {
          assert MoveN(s, j) == MoveN(m, j - 1);
        }
      }
      assert MoveN(s, n) == MoveN(m, i);
    }
  }

  /**
   * A sprite moving left with no horizontal velocity, standing on its target's
   * x, never arrives: the left arrival test is strict, so it keeps moving
   * vertically for ever.
   */
  lemma {:induction false} NeverArrivesVertically(s: Helo, n: nat)
    requires s.facing == Left && s.velocity.x == 0.0 && s.location.x == s.target.x
    ensures MoveN(s, n).facing == Left && MoveN(s, n).location.x == s.location.x
    decreases n
  {
    if n > 0 {
      NeverArrivesVertically(Move(s), n - 1);
    }
  }

  /**
   * A run of the model from a fixed start: idle at (400, 300), a middle click
   * at (600, 300) sets off right at full speed along x with the fast increment
   * and pitch; the sprite keeps moving right until the tick whose step carries
   * it strictly past x = 600, which is tick floor(200 / speed) + 1, and that
   * same tick makes it idle and slow.
   */
  lemma ScenarioFlyRight(speed: real, norm: Vec2 -> real) returns (n: nat)
    requires 0.0 < speed
    requires norm(Vec2(200.0, 0.0)) == 200.0
    ensures var c := Mouse(Initial(Vec2(400.0, 300.0), speed), MiddleButton, 600, 300, norm);
      && c.Ok?
      && c.value.facing == Right && c.value.velocity == Vec2(speed, 0.0)
      && c.value.frameIncrement == FastIncrement && c.value.pitch == FastPitch
      && n == (200.0 / speed).Floor + 1
      && (forall j :: 0 <= j < n ==> MoveN(c.value, j).facing == Right)
      && var r := MoveN(c.value, n);
         r.facing == None && r.location.x > 600.0
         && r.frameIncrement == SlowIncrement && r.pitch == SlowPitch
  {
    var c := Mouse(Initial(Vec2(400.0, 300.0), speed), MiddleButton, 600, 300, norm);
    assert c.Ok? && c.value.velocity == Vec2(speed, 0.0);
    assert Remaining(c.value) == 200.0 && Progress(c.value) == speed;
    n := Arrives(c.value);
  }

  /** A mouse button other than the middle one changes nothing. */
  lemma MouseOtherButton(s: Helo, button: MouseButton, x: int, y: int, norm: Vec2 -> real)
    requires button != MiddleButton
    ensures Mouse(s, button, x, y, norm) == Ok(s)
  {
  }

  /** A middle click divides by zero exactly when the displacement's computed length is zero. */
  lemma MouseDefinedness(s: Helo, x: int, y: int, norm: Vec2 -> real)
    ensures Mouse(s, MiddleButton, x, y, norm).DivisionByZero?
        <==> norm(ClickDisplacement(s, x, y)) == 0.0
  {
  }

  /**
   * A middle click divides by zero exactly when the displacement's computed
   * length is zero; otherwise it aims at the clicked
   * point with the normalised displacement scaled by the speed, sets the fast
   * increment and pitch, faces right with scale (1,1) exactly when the click is
   * strictly right of the sprite and left with scale (-1,1) otherwise, and
   * leaves the location and everything else unchanged.
   */
  lemma MouseMiddle(s: Helo, x: int, y: int, norm: Vec2 -> real)
    ensures var d := ClickDisplacement(s, x, y);
      var length := norm(d);
      var r := Mouse(s, MiddleButton, x, y, norm);
      && (r.DivisionByZero? <==> length == 0.0)
      && (r.Ok? ==>
            var t := r.value;
            && t.target == Vec2(x as real, y as real)
            && t.velocity == Vec2(d.x / length * s.speed, d.y / length * s.speed)
            && t.frameIncrement == FastIncrement
            && t.pitch == FastPitch
            && t.facing != None
            && (t.facing == Right <==> x as real > s.location.x)
            && (t.facing == Right ==> t.scale == Vec2(1.0, 1.0))
            && (t.facing == Left ==> t.scale == Vec2(-1.0, 1.0))
            && t.location == s.location
            && t.(target := s.target, velocity := s.velocity, frameIncrement := s.frameIncrement,
                  pitch := s.pitch, facing := s.facing, scale := s.scale) == s)
  {
  }

  /**
   * With a length that is zero exactly for the zero vector, a middle click
   * divides by zero exactly when it hits the sprite's own location.
   */
  lemma ClickOnSpriteDividesByZero(s: Helo, x: int, y: int, norm: Vec2 -> real)
    requires var d := ClickDisplacement(s, x, y); norm(d) == 0.0 <==> d == Vec2(0.0, 0.0)
    ensures Mouse(s, MiddleButton, x, y, norm).DivisionByZero?
        <==> Vec2(x as real, y as real) == s.location
  {
    MouseDefinedness(s, x, y, norm);
    assert ClickDisplacement(s, x, y) == Vec2(0.0, 0.0)
       <==> Vec2(x as real, y as real) == s.location;
  }

  /**
   * At a positive speed and a positive length, a middle click off the
   * sprite's vertical line sets it heading for the target: a positive distance
   * still to go and a positive gain per tick, so that `Arrives` applies.
   */
  lemma MouseHeadsForTarget(s: Helo, x: int, y: int, norm: Vec2 -> real)
    requires s.speed > 0.0
    requires norm(ClickDisplacement(s, x, y)) > 0.0
    requires x as real != s.location.x
    ensures Mouse(s, MiddleButton, x, y, norm).Ok?
    ensures var t := Mouse(s, MiddleButton, x, y, norm).value;
      t.facing != None && Remaining(t) > 0.0 && Progress(t) > 0.0
  {
    var d := ClickDisplacement(s, x, y);
    var length := norm(d);
    MouseMiddle(s, x, y, norm);
    if d.x > 0.0 {
      assert d.x / length > 0.0;
      assert d.x / length * s.speed > 0.0;
    } else {
      assert d.x / length < 0.0;
      assert d.x / length * s.speed < 0.0;
    }
  }

  /**
   * A middle click straight above or below the sprite (same x) leaves it facing
   * left with no horizontal velocity on its target's x: by
   * `NeverArrivesVertically` it never arrives.
   */
  lemma MouseVerticalClick(s: Helo, x: int, y: int, norm: Vec2 -> real)
    requires x as real == s.location.x
    requires Mouse(s, MiddleButton, x, y, norm).Ok?
    ensures var t := Mouse(s, MiddleButton, x, y, norm).value;
      t.facing == Left && t.velocity.x == 0.0 && t.location.x == t.target.x
  {
  }

  /**
   * Handling one event never moves the sprite and never clears the exit flag;
   * it sets the flag exactly for Closed and Escape, or if it was already set.
   */
  lemma DispatchEffect(s: Helo, e: Event, norm: Vec2 -> real)
    requires Dispatch(s, e, norm).Ok?
    ensures var r := Dispatch(s, e, norm).value;
      && r.location == s.location
      && r.frameCounter == s.frameCounter && r.currentFrame == s.currentFrame
      && r.windowOpen == s.windowOpen
      && (r.exitGame <==> s.exitGame || RequestsExit(e))
  {
    if e.MouseButtonPressed? {
      if e.button == MiddleButton {
        MouseMiddle(s, e.x, e.y, norm);
      }
    }
  }

  /** A click off the sprite is defined when the length is non-zero on non-zero vectors. */
  lemma MouseOffSprite(s: Helo, button: MouseButton, x: int, y: int, norm: Vec2 -> real)
    requires forall d: Vec2 :: d != Vec2(0.0, 0.0) ==> norm(d) != 0.0
    requires Vec2(x as real, y as real) != s.location
    ensures Mouse(s, button, x, y, norm).Ok?
  {
    if button == MiddleButton {
      assert ClickDisplacement(s, x, y) != Vec2(0.0, 0.0);
      MouseDefinedness(s, x, y, norm);
    }
  }

  /** Draining a whole batch keeps the invariant, one event at a time. */
  lemma {:induction false} DrainKeepsInv(s: Helo, events: seq<Event>, norm: Vec2 -> real)
    requires Drain(s, events, norm).Ok? && Inv(s)
    ensures Inv(Drain(s, events, norm).value)
    decreases |events|
  {
    if events != [] {
      var s1 := Dispatch(s, events[0], norm).value;
      DrainKeepsInv(s1, events[1..], norm);
    }
  }

  /**
   * Draining a batch of events never moves the sprite or touches its
   * animation or window, and leaves the exit flag set exactly when it was set
   * before or some event of the batch asked to exit: the flag is a latch.
   */
  lemma {:induction false} DrainEffect(s: Helo, events: seq<Event>, norm: Vec2 -> real)
    requires Drain(s, events, norm).Ok?
    ensures var r := Drain(s, events, norm).value;
      && r.location == s.location
      && r.frameCounter == s.frameCounter && r.currentFrame == s.currentFrame
      && r.windowOpen == s.windowOpen
      && (r.exitGame <==> s.exitGame || exists i :: 0 <= i < |events| && RequestsExit(events[i]))
    decreases |events|
  {
    if events != [] {
      DispatchEffect(s, events[0], norm);
      var s1 := Dispatch(s, events[0], norm).value;
      DrainEffect(s1, events[1..], norm);
      if s1.exitGame && !s.exitGame {
        assert RequestsExit(events[0]);
      }
      if exists i :: 0 <= i < |events[1..]| && RequestsExit(events[1..][i]) {
        var i :| 0 <= i < |events[1..]| && RequestsExit(events[1..][i]);
        assert RequestsExit(events[i + 1]);
      }
      if exists i :: 0 <= i < |events| && RequestsExit(events[i]) {
        var i :| 0 <= i < |events| && RequestsExit(events[i]);
        if i > 0 {
          assert RequestsExit(events[1..][i - 1]);
        }
      }
    }
  }

  /**
   * A batch in which no click lands on the sprite cannot divide by zero, given
   * a length that is non-zero on non-zero vectors.
   */
  lemma {:induction false} DrainDefined(s: Helo, events: seq<Event>, norm: Vec2 -> real)
    requires forall d: Vec2 :: d != Vec2(0.0, 0.0) ==> norm(d) != 0.0
    requires forall i :: 0 <= i < |events| && events[i].MouseButtonPressed?
                           && events[i].button == MiddleButton ==>
               Vec2(events[i].x as real, events[i].y as real) != s.location
    ensures Drain(s, events, norm).Ok?
    decreases |events|
  {
    if events != [] {
      var e := events[0];
      if e.MouseButtonPressed? {
        if e.button == MiddleButton {
          MouseOffSprite(s, e.button, e.x, e.y, norm);
        } else {
          MouseOtherButton(s, e.button, e.x, e.y, norm);
        }
      }
      DispatchEffect(s, e, norm);
      var s1 := Dispatch(s, e, norm).value;
      forall i | 0 <= i < |events[1..]| && events[1..][i].MouseButtonPressed?
                 && events[1..][i].button == MiddleButton
        ensures Vec2(events[1..][i].x as real, events[1..][i].y as real) != s1.location
      {
        assert events[1..][i] == events[i + 1];
      }
      DrainDefined(s1, events[1..], norm);
    }
  }

  /**
   * One update closes the window exactly when an exit was asked for (the flag
   * itself stays as it was), and still animates and then moves: the counter
   * grows by the increment in force before this tick's move, and a moving
   * sprite steps by its velocity.
   */
  lemma UpdateEffect(s: Helo)
    ensures var r := Update(s);
      && r.exitGame == s.exitGame
      && r.windowOpen == (s.windowOpen && !s.exitGame)
      && r.frameCounter == s.frameCounter + s.frameIncrement
      && r.velocity == s.velocity && r.target == s.target
      && (s.facing == None ==> r.location == s.location && r.facing == None)
      && (s.facing != None ==> r.location == Add(s.location, s.velocity))
  {
    var s1 := if s.exitGame then s.(windowOpen := false) else s;
    AnimateStep(s1);
    if s.facing != None {
      MoveWhenMoving(Animate(s1));
    }
  }

  // ------------------------------------------------------- arithmetic helpers

  /** `Repeated` peels its first summand as well as its last. */
  lemma {:induction false} RepeatedFirst(k: nat, c: real)
    ensures Repeated(k + 1, c) == c + Repeated(k, c)
    decreases k
  {
    if k > 0 {
      RepeatedFirst(k - 1, c);
    }
  }

  /** `Repeated` is multiplication by a natural number. */
  lemma {:induction false} RepeatedIsProduct(k: nat, c: real)
    ensures Repeated(k, c) == k as real * c
    decreases k
  {
    if k > 0 {
      RepeatedIsProduct(k - 1, c);
      assert k as real * c == (k - 1) as real * c + c;
    }
  }

  /** The first number of steps of `p` whose sum exceeds `d >= 0` is floor(d / p) + 1. */
  lemma FirstTickPast(d: real, p: real, n: nat)
    requires 0.0 <= d && 0.0 < p && 1 <= n
    requires d < Repeated(n, p)
    requires n == 1 || Repeated(n - 1, p) <= d
    ensures n == (d / p).Floor + 1
  {
    RepeatedIsProduct(n, p);
    RepeatedIsProduct(n - 1, p);
    BelowProduct(d, n as real, p);
    BelowProduct(d, (n - 1) as real, p);
  }

  /** Dividing by a positive `p` keeps a comparison with a multiple of `p`. */
  lemma BelowProduct(x: real, a: real, p: real)
    requires 0.0 < p
    ensures x < a * p <==> x / p < a
  {
    var q := x / p;
    assert x == q * p;
    if q < a {
      PositiveProduct(a - q, p);
      assert (a - q) * p == a * p - q * p;
    } else {
      assert (q - a) * p == q * p - a * p;
      if q > a {
        PositiveProduct(q - a, p);
      }
    }
  }

  /** A tick count large enough to cover distance `r` at `p` per tick. */
  lemma Budget(r: real, p: real) returns (k: nat)
    requires 0.0 < p
    ensures r < Repeated(k, p)
  {
    if r < 0.0 {
      k := 0;
    } else {
      var q := r / p;
      k := q.Floor + 1;
      assert q * p == r;
      assert k as real - q > 0.0;
      PositiveProduct(k as real - q, p);
      assert (k as real - q) * p == k as real * p - q * p;
      RepeatedIsProduct(k, p);
    }
  }

  lemma PositiveProduct(a: real, b: real)
    requires 0.0 < a && 0.0 < b
    ensures 0.0 < a * b
  {
  }
}
