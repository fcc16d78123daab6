# airwolf: the helicopter sprite's simulation, in Dafny

The airwolf demo shows one helicopter sprite in an SFML window. The sprite cycles through four frames of a sprite sheet, and a looping engine sound plays. A middle-button click sends the sprite flying towards the clicked point. On arrival the animation slows down and the engine's pitch drops. This project models the part of `Game` that is not SFML plumbing:

- the per-tick animation (`animateHelo`);
- the movement state machine (`move`);
- the input handlers (`procressMouse`, `processKeys`) and the event dispatch of `processEvents`;
- `update`;
- the fixed-timestep loop of `run`.

Layout:

- `vectors.dfy` (module `Vectors`): `sf::Vector2f` arithmetic, with floats modelled as reals.
- `cpp_numerics.dfy` (module `CppNumerics`): C++'s `static_cast<int>` (truncation toward zero) and C++'s `%` by 4 (the remainder takes the sign of the dividend).
- `helicopter.dfy` (module `Helicopter`):
  - the state the simulation touches, as a value `Helo`;
  - one pure transition per member function (`Animate`, `Move`, `Mouse`, `Keys`, `Dispatch`, `Drain`, `Update`);
  - the invariant `Inv` that every reachable state keeps;
  - the lemmas about these transitions.
- `timestep.dfy` (module `FixedTimestep`):
  - the inner and outer loops of `run` as functions `Inner` and `Outer` over a loop state (sprite, accumulator, counters);
  - their lemmas.
- `game.dfy` (module `Airwolf`): the class `Game` with the source's fields. It changes them in place and has one method per member function. `run`'s outer `while` loop is in `Run`; its inner loop is the method `CatchUp`. Each method is proved to move `State()` by the matching transition and to keep `Valid()`.

How the model handles the source's external pieces:

- Floats are `real`, so IEEE rounding is not modelled.
- `sf::Time` is modelled as whole microseconds. One timestep is `sf::seconds(1.0f/60.0f)` = 16666 µs.
- Events reach the model as abstract `Event` values. The n-th call of `processEvents` finds batch n of a `polls` sequence pending.
- The n-th `clock.restart()` returns `elapsed[n]`.
- `std::sqrtf` of the squared displacement is the parameter `norm: Vec2 -> real`. The model does not fix what length it returns.
- If `norm` returns zero, `procressMouse` would divide by zero, and the source's behaviour is then undefined. The model marks that case as the outcome `DivisionByZero` of `Result` instead of giving it a value. The methods require that this outcome does not occur.

## Model

| member | source | states |
|---|---|---|
| CppNumerics.Trunc | airwolf/airwolf/Game.cpp:196 | the cast truncates toward zero: for r >= 0 the result i satisfies i <= r < i+1; for r < 0 it satisfies i-1 < r <= i |
| CppNumerics.Rem4 | airwolf/airwolf/Game.cpp:197 | `a % 4` as C++ computes it: congruent to a modulo 4, in [0,4) for a >= 0 and in (-4,0] for a < 0 |
| Helicopter.Initial | airwolf/airwolf/Game.h:42-44 | the state after construction (Game.cpp:19-26, with the rect set at Game.cpp:187-188 and the pitch at Game.cpp:239) satisfies Inv. That state is: frame 0 with counter 0.0, so the frame is floor(counter) mod 4; increment 0.24; pitch 0.5; rect (0,128,180,64), one of the frame rects; sprite idle at its start and drawn there; window open; no exit |
| Helicopter.Animate | airwolf/airwolf/Game.cpp:192-208 | animateHelo keeps Inv. In particular the frame stays floor(counter) mod 4 and in 0..3, the counter stays >= 0, and the rect stays one of the four frame rects. AnimateStep states the step itself |
| Helicopter.Move | airwolf/airwolf/Game.cpp:210-229 | move keeps Inv: moving iff increment 0.5 and pitch 1.0; idle gives pitch 0.5 and increment 0.24 or 0.25; the sprite is drawn at its location. MoveWhenIdle and MoveWhenMoving state the step itself |
| Helicopter.Mouse | airwolf/airwolf/Game.cpp:101-130 | a click that does not divide by zero keeps Inv, including that the flip matches the direction. MouseMiddle states the effect |
| Helicopter.Keys | airwolf/airwolf/Game.cpp:93-99 | processKeys keeps Inv. DispatchEffect states the effect |
| Helicopter.Dispatch | airwolf/airwolf/Game.cpp:73-84 | handling one event, when it does not divide by zero, keeps Inv |
| Helicopter.DrainKeepsInv | airwolf/airwolf/Game.cpp:68-86 | draining a whole batch, when it does not divide by zero, keeps Inv, by induction over the batch |
| Helicopter.Update | airwolf/airwolf/Game.cpp:136-144 | update keeps Inv, including that the window is closed only once an exit was asked for |
| Helicopter.AnimateStep | airwolf/airwolf/Game.cpp:192-208 | one animation step adds exactly the increment to the counter. From a non-negative counter, the frame is the counter's floor mod 4, in 0..3. The texture rect becomes (0, 64*frame, 180, 64) exactly when the frame changes, and is otherwise untouched. Nothing else changes |
| Helicopter.AnimateFrame | airwolf/airwolf/Game.cpp:194-197 | the counter and frame part of AnimateStep: the counter grows by the increment, the increment is unchanged, and the frame is floor(counter) mod 4 |
| Helicopter.AnimateTicks | airwolf/airwolf/Game.cpp:194-197 | n animation steps add n increments to the counter. After at least one step from a non-negative counter, the frame is floor(counter) mod 4 |
| Helicopter.MoveWhenIdle | airwolf/airwolf/Game.cpp:212 | with facing None, `move` changes nothing |
| Helicopter.MoveWhenMoving | airwolf/airwolf/Game.cpp:212-228 | when moving, location and drawn position advance by the velocity exactly once, and velocity and target are never modified. The sprite arrives exactly on a strict overshoot along x in its direction (Right and x > target.x, or Left and x < target.x). Arriving applies the arrival effects once; otherwise facing, increment and pitch are kept |
| Helicopter.MoveAlongTrack | airwolf/airwolf/Game.cpp:214-227 | the sprite arrives in this tick iff the remaining distance along x is less than one step. If it does not arrive, the remaining distance shrinks by exactly one step and the direction is kept |
| Helicopter.Arrives | airwolf/airwolf/Game.cpp:214-227 | a sprite that gains on its target along x arrives after n >= 1 ticks, where n is the first tick count whose travel exceeds the remaining distance. From in front of the target, n = floor(remaining / progress) + 1. It keeps its direction before tick n and then is idle with increment 0.25 and pitch 0.5, having moved exactly n velocities along x |
| Helicopter.ArrivesWithin | airwolf/airwolf/Game.cpp:214-227 | the same as Arrives, for a sprite known to arrive within a given number of ticks |
| Helicopter.NeverArrivesVertically | airwolf/airwolf/Game.cpp:222 | a sprite facing Left with zero x-velocity on its target's x never arrives: the strict `<` never fires |
| Helicopter.ScenarioFlyRight | airwolf/airwolf/Game.cpp:105-127 | worked example: idle at (400,300), a middle click at (600,300) gives facing Right, velocity (speed,0), increment 0.5 and pitch 1.0. The sprite moves right until tick floor(200 / speed) + 1, the one that carries it past x = 600, and that same tick makes it idle and slow |
| Helicopter.MouseOtherButton | airwolf/airwolf/Game.cpp:105 | a non-middle button leaves all state unchanged |
| Helicopter.MouseDefinedness | airwolf/airwolf/Game.cpp:111-112 | a middle click divides by zero exactly when the computed length of the displacement is zero |
| Helicopter.MouseMiddle | airwolf/airwolf/Game.cpp:105-127 | a defined middle click sets the following: target = click point; velocity = displacement / length * speed; increment 0.5; pitch 1.0; facing Right with scale (1,1) iff click.x > location.x, else Left with scale (-1,1), so never None. The location and every other field are unchanged |
| Helicopter.ClickOnSpriteDividesByZero | airwolf/airwolf/Game.cpp:107-112 | if the length is zero only for the zero vector, a middle click divides by zero exactly when it lands on the sprite's own location |
| Helicopter.MouseOffSprite | airwolf/airwolf/Game.cpp:107-112 | a click off the sprite is defined, provided the length is non-zero on non-zero vectors |
| Helicopter.MouseHeadsForTarget | airwolf/airwolf/Game.cpp:107-127 | at positive speed and positive length, a middle click off the sprite's vertical line leaves a positive distance to go and a positive gain per tick, so Arrives applies |
| Helicopter.MouseVerticalClick | airwolf/airwolf/Game.cpp:117-125 | a middle click with click.x == location.x gives facing Left, zero x-velocity and location.x == target.x, so by NeverArrivesVertically the sprite never arrives |
| Helicopter.DispatchEffect | airwolf/airwolf/Game.cpp:73-84 | handling one event (processKeys included) never moves the sprite, never changes its frame counter, frame number or window, and never clears the exit flag. It sets the flag iff the event is Closed or an Escape key press, or the flag was already set |
| Helicopter.DrainEffect | airwolf/airwolf/Game.cpp:68-86 | draining a batch keeps the location, frame counter, frame number and window. Afterwards the exit flag is set iff it was set before or some event of the batch was Closed or Escape: the flag is a latch |
| Helicopter.DrainDefined | airwolf/airwolf/Game.cpp:71-85 | a batch with no middle click on the sprite cannot divide by zero, provided the length is non-zero on non-zero vectors |
| Helicopter.UpdateEffect | airwolf/airwolf/Game.cpp:136-144 | update closes the window iff the exit flag is set and leaves the flag unchanged. It still animates and then moves: the counter grows by the increment in force before this tick's move, and a moving sprite steps by its velocity |
| FixedTimestep.Inner | airwolf/airwolf/Game.cpp:54-59 | the inner loop does not read the clock and leaves at most one timestep in the accumulator |
| FixedTimestep.Outer | airwolf/airwolf/Game.cpp:44-62 | the outer loop never goes back a pass and never passes the last clock reading. It stops only when the readings run out or the window is closed |
| FixedTimestep.InnerKeepsInv | airwolf/airwolf/Game.cpp:54-59 | the inner loop, when it does not divide by zero, keeps Inv, by induction over the timesteps taken |
| FixedTimestep.OuterKeepsInv | airwolf/airwolf/Game.cpp:50-61 | the outer loop, when it does not divide by zero, keeps Inv, by induction over the passes |
| FixedTimestep.InnerSettles | airwolf/airwolf/Game.cpp:54-59 | the accumulator plus one timestep per update equals the starting accumulator. One drain runs per update. An accumulator of at most one timestep (equality allowed, as the test is a strict `>`) is left untouched; otherwise the loop ends in (0, TimePerFrame]; it starts >= 0 implies it ends in [0, TimePerFrame]. The exit flag is never cleared, and with it set, any update closes the window |
| FixedTimestep.OuterBalance | airwolf/airwolf/Game.cpp:50-61 | from a balanced state, the outer loop ends with accumulator in [0, TimePerFrame]. The time read from the clock equals the accumulator plus one timestep per update. It never clears the exit flag |
| FixedTimestep.RunBalance | airwolf/airwolf/Game.cpp:44-62 | a whole `run` from a zero accumulator ends with the accumulator in [0, TimePerFrame] and the time read equal to the accumulator plus one timestep per update. It stops only when the readings run out or the window is closed, and it keeps Inv |
| Airwolf.Game.constructor | airwolf/airwolf/Game.cpp:19-26 | the constructor, with the sprite and audio setup, yields the initial state, which satisfies Valid |
| Airwolf.Game.AnimateHelo | airwolf/airwolf/Game.cpp:192-208 | the fields change as Animate says, and Valid is kept |
| Airwolf.Game.Move | airwolf/airwolf/Game.cpp:210-229 | the fields change as Move says, and Valid is kept |
| Airwolf.Game.ProcessMouse | airwolf/airwolf/Game.cpp:101-130 | for a mouse-button event that does not divide by zero, the fields change as Mouse says, and Valid is kept |
| Airwolf.Game.ProcessKeys | airwolf/airwolf/Game.cpp:93-99 | for a key-press event, Escape sets the exit flag and any other key changes nothing |
| Airwolf.Game.ProcessEvents | airwolf/airwolf/Game.cpp:68-86 | the event loop applies Drain to the whole batch, in order, and keeps Valid |
| Airwolf.Game.Update | airwolf/airwolf/Game.cpp:136-144 | the fields change as Update says: close if exiting, then animate, then move |
| Airwolf.Game.CatchUp | airwolf/airwolf/Game.cpp:54-59 | the inner `while` loop ends in the state Inner gives: same sprite, accumulator, counters and pass, and it keeps Valid |
| Airwolf.Game.Run | airwolf/airwolf/Game.cpp:44-62 | the nested loops end in the state Outer gives, with the accumulator in [0, TimePerFrame]. The microseconds read equal the accumulator plus one timestep per update. The loop stopped because the readings ran out or the window closed |

## Notes on the code's behaviour

- **Velocity on arrival.** `move` never resets `m_velocity`, so an idle sprite keeps the velocity of its last flight. `MoveWhenMoving` states that the velocity is unchanged.
- **Increment while idle.** The initial increment is 0.24 (Game.h:44), but arrival sets 0.25. The invariant `Inv` therefore allows either value while idle.
- **Click on the sprite.** A middle click on the sprite's own location makes the displacement zero, and `procressMouse` then divides by a zero length. The model does not give that case defined behaviour (`ClickOnSpriteDividesByZero`).
- **Arrival tick.** Arrival happens in the same `move` call that overshoots the target (see `Arrives` and `ScenarioFlyRight`).
- **Initial texture rect.** The initial texture rect is frame 2's, (0,128,180,64), while the frame number is 0. `animateHelo` redraws only when the frame changes, so that rect stays until the counter reaches 1. A comment in `animateHelo` gives frame 3's top as 196, but the code computes 64*3 = 192. The model follows the code.
- **Vertical click.** A middle click straight above or below the sprite faces Left with zero x-velocity. Arrival is never detected, so the sprite keeps flying vertically (`MouseVerticalClick`, `NeverArrivesVertically`).

## Left out

- Rendering (`render`, `clear`/`draw`/`display`), the window's event polling, and the window itself. `isOpen` is the field `windowOpen`, and `close` clears it.
- Asset loading (`setupFontAndText`, and the file loading in `setupSprite` and `setupAudio`): file I/O that only logs on failure. The constructor keeps the values these set: rect (0,128,180,64), position = location, pitch 0.5.
- Sound playback. The pitch is a plain field.
- The exact value of `std::sqrtf`. It is the parameter `norm`. The lemmas that need a value require only that the length is zero exactly for the zero vector, or positive.
- IEEE single-precision rounding. Reals have no rounding, no loss of increments at large counter values, and no NaN.
- Range limits of the integer types: 32-bit `int` for the cast and frame, and 64-bit `sf::Time`. The model's integers are unbounded, so they never overflow.
- The declarations of `m_location`, `m_target`, `m_velocity`, `m_speed`, `m_facing`, `Direction` and `m_sound`. Game.h does not declare them, so the model declares them itself:
  - the start location and the speed are constructor parameters;
  - target and velocity start at (0,0), `sf::Vector2f`'s default;
  - the sprite starts facing None.
- Wall-clock time. Each `clock.restart()` reading is an element of `elapsed`.
- The endless outer loop. The model makes one pass per recorded reading, so the loop ends when the readings run out or the window closes.
