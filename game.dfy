/**
 * The `Game` class of the airwolf demo, reduced to the state its simulation
 * updates in place. Each method changes the fields as the member function of
 * the same name does and is proved to move the abstract state `State()` by the
 * matching transition of `Helicopter` or `FixedTimestep`, keeping `Valid()`.
 */
module Airwolf {
  import opened Vectors
  import opened CppNumerics
  import H = Helicopter
  import opened FixedTimestep

  class Game {
    var location: Vec2
    var target: Vec2
    var velocity: Vec2
    const speed: real
    var facing: H.Direction
    var currentFrame: int
    var frameCounter: real
    var frameIncrement: real
    /** The pitch of the looping engine sound. */
    var pitch: real
    /** Position, scale and texture rectangle of the drawn helicopter sprite. */
    var spritePosition: Vec2
    var spriteScale: Vec2
    var textureRect: H.IntRect
    var exitGame: bool
    /** Whether the window is still open. */
    var windowOpen: bool

    ghost function State(): H.Helo
      reads this
    {
      H.Helo(location, target, velocity, speed, facing, currentFrame, frameCounter,
             frameIncrement, pitch, spritePosition, spriteScale, textureRect, exitGame, windowOpen)
    }

    ghost predicate Valid()
      reads this
    {
      H.Inv(State())
    }

    /**
     * The constructor together with setupSprite and setupAudio: open window,
     * idle sprite at `start`, third frame's rectangle, slow engine pitch.
     */
    constructor (start: Vec2, speed: real)
      ensures Valid()
      ensures State() == H.Initial(start, speed)
    {
      location := start;
      target := Vec2(0.0, 0.0);
      velocity := Vec2(0.0, 0.0);
      this.speed := speed;
      facing := H.None;
      currentFrame := 0;
      frameCounter := 0.0;
      frameIncrement := H.InitialIncrement;
      pitch := H.SlowPitch;
      spritePosition := start;
      spriteScale := Vec2(1.0, 1.0);
      textureRect := H.IntRect(0, 128, H.FrameWidth, H.FrameHeight);
      exitGame := false;
      windowOpen := true;
    }

    /** animateHelo */
    method AnimateHelo()
      requires Valid()
      modifies this
      ensures Valid()
      ensures State() == H.Animate(old(State()))
    {
      frameCounter := frameCounter + frameIncrement;
      var newFrameNumber := Rem4(Trunc(frameCounter));
      if newFrameNumber != currentFrame {
        currentFrame := newFrameNumber;
        textureRect := H.FrameRect(currentFrame);
      }
    }

    /** move */
    method Move()
      requires Valid()
      modifies this
      ensures Valid()
      ensures State() == H.Move(old(State()))
    {
      if facing != H.None {
        location := Add(location, velocity);
        spritePosition := location;
        if facing == H.Right && location.x > target.x {
          facing := H.None;
          frameIncrement := H.SlowIncrement;
          pitch := H.SlowPitch;
        }
        if facing == H.Left && location.x < target.x {
          facing := H.None;
          frameIncrement := H.SlowIncrement;
          pitch := H.SlowPitch;
        }
      }
    }

    /**
     * procressMouse. It is only called for mouse-button events; `norm` computes
     * a displacement's length as the source does, and the click must not make
     * that length zero, which would divide by zero.
     */
    method ProcessMouse(e: H.Event, norm: Vec2 -> real)
      requires Valid()
      requires e.MouseButtonPressed?
      requires H.Mouse(State(), e.button, e.x, e.y, norm).Ok?
      modifies this
      ensures Valid()
      ensures State() == H.Mouse(old(State()), e.button, e.x, e.y, norm).value
    {
      if e.button == H.MiddleButton {
        var displacement := Sub(Vec2(e.x as real, e.y as real), location);
        target := Vec2(e.x as real, e.y as real);
        var length := norm(displacement);
        displacement := Div(displacement, length);
        displacement := Mul(displacement, speed);
        velocity := displacement;
        frameIncrement := H.FastIncrement;
        pitch := H.FastPitch;
        if e.x as real > location.x {
          facing := H.Right;
          spriteScale := Vec2(1.0, 1.0);
        } else {
          facing := H.Left;
          spriteScale := Vec2(-1.0, 1.0);
        }
      }
    }

    /** processKeys, only called for key-press events. */
    method ProcessKeys(e: H.Event)
      requires Valid()
      requires e.KeyPressed?
      modifies this
      ensures Valid()
      ensures State() == H.Keys(old(State()), e.key)
    {
      if e.key == H.Escape {
        exitGame := true;
      }
    }

    /** processEvents: handle every pending event, in order. */
    method ProcessEvents(events: seq<H.Event>, norm: Vec2 -> real)
      requires Valid()
      requires H.Drain(State(), events, norm).Ok?
      modifies this
      ensures Valid()
      ensures State() == H.Drain(old(State()), events, norm).value
    {
      var i := 0;
      while i < |events|
        invariant 0 <= i <= |events|
        invariant Valid()
        invariant H.Drain(State(), events[i..], norm) == H.Drain(old(State()), events, norm)
      {
        var e := events[i];
        assert events[i..] == [e] + events[i + 1..];
        if e.Closed? {
          exitGame := true;
        }
        if e.KeyPressed? {
          ProcessKeys(e);
        }
        if e.MouseButtonPressed? {
          ProcessMouse(e, norm);
        }
        i := i + 1;
      }
    }

    /** update: close the window once an exit was asked for, then animate, then move. */
    method Update()
      requires Valid()
      modifies this
      ensures Valid()
      ensures State() == H.Update(old(State()))
    {
      if exitGame {
        windowOpen := false;
      }
      AnimateHelo();
      Move();
    }

    /**
     * run. The n-th drain finds the events of `Poll(polls, n)` pending, the n-th
     * reading of the clock is `elapsed[n]`, and the loop makes one pass per
     * reading while the window is open. `render` changes none of the state and
     * is left out. Returns the final accumulator, the number of updates, and the
     * number of passes made.
     */
    method Run(polls: seq<seq<H.Event>>, elapsed: seq<nat>, norm: Vec2 -> real)
      returns (acc: int, updates: nat, passes: nat)
      requires Valid()
      requires Outer(Start(State()), elapsed, polls, norm).Ok?
      modifies this
      ensures Valid()
      ensures var r := Outer(Start(old(State())), elapsed, polls, norm).value;
        State() == r.sprite && acc == r.acc && updates == r.updates && passes == r.passes
      ensures 0 <= acc <= TimePerFrame
      ensures passes <= |elapsed| && acc + updates * TimePerFrame == Total(elapsed[..passes])
      ensures passes == |elapsed| || !windowOpen
    {
      acc, updates, passes := 0, 0, 0;
      var polled := 0;
      ghost var outcome := Outer(Start(State()), elapsed, polls, norm);
      while windowOpen && passes < |elapsed|
        invariant Valid()
        invariant 0 <= acc <= TimePerFrame
        invariant passes <= |elapsed|
        invariant acc + updates * TimePerFrame == Total(elapsed[..passes])
        invariant outcome.Ok?
        invariant Outer(Loop(State(), acc, polled, updates, passes), elapsed, polls, norm) == outcome
        decreases |elapsed| - passes
      {
        ghost var before := Loop(State(), acc, polled, updates, passes);
        OuterStep(before, elapsed, polls, norm);
        ProcessEvents(Poll(polls, polled), norm);
        polled := polled + 1;
        assert elapsed[..passes + 1][..passes] == elapsed[..passes];
        acc := acc + elapsed[passes];
        passes := passes + 1;
        ghost var entry := Loop(State(), acc, polled, updates, passes);
        assert entry == Loop(H.Drain(before.sprite, Poll(polls, before.polled), norm).value,
                             before.acc + elapsed[before.passes], before.polled + 1, before.updates,
                             before.passes + 1);
        InnerSettles(entry, polls, norm);
        acc, polled, updates := CatchUp(acc, polled, updates, passes, polls, norm);
      }
    }

    /**
     * The inner loop of `run`: while more than one timestep is pending, spend
     * one, drain the queue and update. The pass number does not change.
     */
    method CatchUp(acc0: int, polled0: nat, updates0: nat, passes: nat,
                   polls: seq<seq<H.Event>>, norm: Vec2 -> real)
      returns (acc: int, polled: nat, updates: nat)
      requires Valid()
      requires Inner(Loop(State(), acc0, polled0, updates0, passes), polls, norm).Ok?
      modifies this
      ensures Valid()
      ensures Inner(Loop(old(State()), acc0, polled0, updates0, passes), polls, norm).value
              == Loop(State(), acc, polled, updates, passes)
    {
      acc, polled, updates := acc0, polled0, updates0;
      ghost var settled := Inner(Loop(State(), acc, polled, updates, passes), polls, norm).value;
      while acc > TimePerFrame
        invariant Valid()
        invariant Inner(Loop(State(), acc, polled, updates, passes), polls, norm) == H.Ok(settled)
        decreases acc
      {
        ghost var current := Loop(State(), acc, polled, updates, passes);
        InnerStep(current, polls, norm);
        acc := acc - TimePerFrame;
        ProcessEvents(Poll(polls, polled), norm);
        polled := polled + 1;
        Update();
        updates := updates + 1;
        assert Loop(State(), acc, polled, updates, passes)
            == Loop(H.Update(H.Drain(current.sprite, Poll(polls, current.polled), norm).value),
                    current.acc - TimePerFrame, current.polled + 1, current.updates + 1,
                    current.passes);
      }
    }
  }
}
