# Gravity simulator: a Dafny model

The program is a small pygame toy. A planet sits at the centre of a 720 x 450
window. The user launches rockets with two clicks: the first click stores an
anchor, the second fires a rocket from the anchor toward the click. Every frame,
each rocket is drawn, pulled toward the planet by one semi-implicit Euler step,
and removed from the list once it leaves the window or reaches the planet.

The model covers the simulation core of `main.py`:

- `physics.dfy` (module `Physics`) holds the constants of lines 7-22 and the
  rocket's state as a value. It also holds one step of `Rocket.move` as a
  function, `create_rocket` as a function, and the off-screen and collision
  tests.
- `rockets.dfy` (module `Rockets`) is the `Rocket` class, whose fields
  `Move` updates in place. It also holds `CreateRocket`, which allocates a
  rocket.
- `staging.dfy` (module `Staging`) is the two-click protocol on
  `temp_obj_pos`, as pure functions over the run of clicks.
- `lists.dfy` (module `Lists`) holds `list.remove` (remove the first
  occurrence) and the no-repeats predicate on sequences.
- `frames.dfy` (module `Frames`) specifies one pass of the update loop on
  values. Each slot of the list, as it was when the frame began, meets one of
  three fates: passed over, moved and kept, or moved and removed. From the
  fates follow the list after the frame, the state of every rocket, and the
  draw calls.
- `simulation.dfy` (module `Simulation`) is the state of `main()`: the list
  `objects` and the anchor `temp_obj_pos`, as a class. Its methods are the
  event handling, and the frame loop itself as an index loop that removes in
  place (`Sweep`), proved against `Frames`. `Tick` is one pass of the main
  loop.

Positions and velocities are `real`. The trigonometry (`atan2`, `cos`, `sin`,
`degrees`) is a parameter of type `Trig`. `Trig.toward(dx, dy)` stands for
(cos t, sin t) with t = atan2(dy, dx). `Trig.heading(dx, dy)` stands for
degrees(atan2(dy, dx)). Lemmas that need the real direction assume it is the
unit vector along (dx, dy) (`IsUnitToward`). The distance is never square-rooted:
`distance ** 2` is the squared distance `Dist2`. The collision test
`sqrt(d2) <= PLANET_RADIUS` is stated as `d2 <= PLANET_RADIUS ** 2`.
`CollidedMatchesDistance` shows the two agree.

## Behaviour kept from the code

- The update loop removes rockets from the list it is iterating. Python's list
  iterator walks an index, so the rocket that slides into the freed slot is
  passed over for that frame: it is not drawn, moved or tested. Iterating a
  copy of the list would visit every rocket once per frame. The model follows
  `main.py`:
  - `FateAt` says a slot is passed over exactly when the slot before it was
    removed.
  - `SecondOfTwoLeaversSkipped` exhibits two rockets leaving side by side,
    where the second one stays in the list unmoved.
  - `FrameMatchesSnapshotIff` states exactly when the loop agrees with snapshot
    iteration: no rocket other than the last is removed.
- Nothing guards against a rocket sitting exactly on the planet centre:
  `Rocket.move` divides by `distance ** 2` and raises. A guard could clamp the
  distance or remove the rocket; the program has none, and the model adds
  none. Stepping requires `CanStep`, and `Tick` requires that no rocket is
  launched from the centre. `FrameKeepsCanStep` and `KeptCanStep` prove
  that a rocket kept after its move can move again. The frame loop requires
  every rocket in the list to be able to move, although `main.py` only moves
  the rockets the iterator reaches: a rocket launched from the centre raises
  in the first frame that visits it, which can be a frame after its launch
  when it is passed over in its first frame.
- The launch velocity divides the drag by the literal 75 (`LaunchScale`).
  `VEL_SCALE = 100` is declared and never read.
- `if temp_obj_pos:` only tests whether an anchor is stored. A stored anchor is
  a non-empty tuple, and even (0, 0) is truthy. The model uses `Option`.

## Model

| member | source | states |
|---|---|---|
| `Physics.Square` | main.py:56-57 | a square is never negative and is positive for a non-zero number, so `distance ** 2` is a valid divisor off the centre |
| `Physics.Dist2` | main.py:56-57 | the squared distance to the planet is non-negative, and positive whenever the point is not the planet centre |
| `Physics.CanStep` | main.py:57-59 | `Rocket.move` divides by the rocket's mass and by `distance ** 2`; a rocket can move when neither is zero; `KeptCanStep` and `LaunchCanStep` state when that holds |
| `Physics.Acceleration` | main.py:56-59 | force / mass equals G * PLANET_MASS / d^2, whatever the rocket's mass, and is positive |
| `Physics.Step` | main.py:51-72 | one move keeps the mass; position advances by the NEW velocity (velocity is updated first); the heading is that of the new velocity |
| `Physics.StepPullsTowardPlanet` | main.py:56-66 | with exact trigonometry, one step changes the velocity by a vector of length G * PLANET_MASS / d^2 pointing from the rocket at the planet centre |
| `Physics.OffScreen` | main.py:141 | the off-screen test compares strictly against the window edges; an off-screen point is never the planet centre |
| `Physics.Collided` | main.py:142 | the collision test `sqrt(dx^2 + dy^2) <= PLANET_RADIUS` on squares; the planet centre always collides, and a point that does not collide is not the centre |
| `Physics.Leaves` | main.py:141-143 | a moved rocket is removed when it is off screen or has collided; `LeavesIff` gives the exact kept region |
| `Physics.LeavesIff` | main.py:141-143 | a moved rocket is kept exactly when it is inside the closed window rectangle and strictly farther than PLANET_RADIUS from the centre |
| `Physics.CollidedMatchesDistance` | main.py:142 | the squared collision test agrees with `sqrt(...) <= PLANET_RADIUS` for the non-negative root |
| `Physics.RemovalBoundaries` | main.py:141-142 | the window edges count as on screen (strict comparisons); a rocket exactly PLANET_RADIUS away is removed, one unit farther is not |
| `Physics.KeptCanStep` | main.py:141-143 | a rocket kept after its move is not at the planet centre, so its next move does not divide by zero |
| `Physics.Launch` | main.py:96-101 | a launch starts at the anchor with mass ROCKET_MASS, and anchor + 75 * velocity is the pointer position |
| `Physics.LaunchExample` | main.py:96-101 | a drag from (0, 0) to (150, 0) gives velocity (2, 0) and mass 5 |
| `Physics.LaunchCanStep` | main.py:96-101 | a rocket launched from any anchor but the planet centre can move |
| `Lists.RemoveFirst` | main.py:144 | `list.remove(x)` is called only with an x in the list (Python raises ValueError otherwise) and shortens the list by one |
| `Lists.RemoveFirstMultiset` | main.py:144 | `list.remove(x)` takes out exactly one copy of x |
| `Lists.RemoveFirstAt` | main.py:144 | when x first occurs at index i, `list.remove(x)` deletes exactly slot i |
| `Rockets.Rocket.constructor` | main.py:34-49 | `Rocket.__init__` stores the six fields as given |
| `Rockets.Rocket.Move` | main.py:51-72 | `Rocket.move` leaves the fields in the state `Step` gives the old ones |
| `Rockets.CreateRocket` | main.py:84-101 | `create_rocket` returns a new rocket in the state `Launch` gives the anchor and pointer |
| `Staging.Click` | main.py:124-131 | with no anchor a click stores it and launches nothing; with one it launches exactly one rocket (anchor, click) and clears the anchor |
| `Staging.Clicks` | main.py:120-131 | a run of clicks applied one at a time to the stored anchor; `ClicksCount`, `ClicksPairUp` and `AnchorsFromClicks` state what it gives |
| `Staging.ClicksCount` | main.py:124-131 | over any run of clicks, two clicks make one launch: 2 * launches + anchors held after = clicks + anchors held before |
| `Staging.ClicksAppend` | main.py:120-131 | two runs of clicks compose: the second starts from the anchor the first leaves, and the launches concatenate |
| `Staging.ClicksPairUp` | main.py:120-131 | from no anchor, launch j goes from click 2j to click 2j+1, and an odd last click is left as the anchor |
| `Staging.ThreeClicks` | main.py:124-131 | clicks A, B, C from no anchor launch one rocket from A toward B and leave C as the anchor |
| `Staging.AnchorsFromClicks` | main.py:124-131 | every launch and the final anchor come from the initial anchor or from one of the clicks |
| `Frames.Trunc` | main.py:80 | `int()` on a float truncates toward zero |
| `Frames.DrawOf` | main.py:79-80 | `Rocket.draw` blits the image centred at `(int(x), int(y))` rotated by `270 - angle`; `Trunc` states the truncation |
| `Frames.FatesFrom` | main.py:135-144 | the fates of slots k.. of the loop, one per slot; a slot reached without a pending skip is visited; `FatesFromAt` states each slot's fate |
| `Frames.FrameFates` | main.py:135-144 | the fates of one frame, one per slot; the first rocket is always visited; `FateAt` states each slot's fate |
| `Frames.Settle` | main.py:138 | the state a rocket is left in by its fate: a passed-over rocket is not moved, a visited one is in its moved state whether kept or removed |
| `Frames.VisitedDraws` | main.py:137 | the `obj.draw()` calls of the loop, one per visited slot in list order, none for a passed-over slot; `AdvanceKept`, `AdvanceDropped` and `Sweep` state what it gives |
| `Frames.SettleAll` | main.py:138 | each rocket's state after the frame, slot by slot, as `Settle` of its fate; `SettleAllAt` states it per slot |
| `Frames.Preview` | main.py:146-150 | while an anchor is stored the guide line and one preview rocket are drawn, otherwise nothing |
| `Frames.FateAt` | main.py:135-144 | in one frame a slot is passed over exactly when the slot before it was removed; every other rocket moves by `Step` once and is removed exactly when its moved state leaves |
| `Frames.Surviving` | main.py:144 | the list after the frame is shorter by the number of removed slots |
| `Frames.SurvivingIsSubsequence` | main.py:135-144 | the list after a frame is an order-preserving subsequence of the list before it: nothing is added or reordered |
| `Frames.SurvivingMembership` | main.py:135-144 | a rocket is still in the list after the frame exactly when its slot was not removed |
| `Frames.SurvivingDistinct` | main.py:135-144 | removing rockets keeps the list free of repeated objects |
| `Frames.FrameMatchesSnapshotIff` | main.py:135-144 | the in-place loop treats the list as snapshot iteration would if and only if no rocket but the last is removed |
| `Frames.SecondOfTwoLeaversSkipped` | main.py:135-144 | two rockets far left of the window: the first is removed, the second is passed over and stays in the list |
| `Frames.LeftOfWindowLeaves` | main.py:51-72 | a rocket at rest 1000 units left of the window is still off screen after one move |
| `Frames.RemoveAtSlot` | main.py:144 | mid-frame, `objects.remove(obj)` on the rocket of slot k deletes that slot and no other |
| `Frames.AdvanceKept` | main.py:135-144 | visiting a slot whose rocket stays adds it to the kept prefix, adds one draw call and moves only that slot |
| `Frames.AdvanceDropped` | main.py:135-144 | visiting a slot whose rocket is removed moves only that slot, adds one draw call and passes over the next slot |
| `Frames.ReachedStart` | main.py:133-135 | before the loop the list is untouched and only the background is drawn |
| `Frames.ReachedNext` | main.py:135 | while the list index is in range it points at the rocket of the current slot, still in its state before the frame |
| `Frames.ReachedKept` | main.py:137-143 | a visit that keeps the rocket resumes at the next slot with the list index one further |
| `Frames.ReachedDropped` | main.py:137-144 | a visit that removes the rocket resumes past the slot after it, with the list index one further |
| `Frames.ReachedEnd` | main.py:135-144 | when the list index runs off the list, the list, the rocket states and the draw calls are those of the whole frame |
| `Frames.FrameKeepsCanStep` | main.py:135-144 | after a frame every rocket left in the list can move again and has kept its mass |
| `Frames.SettleAllAt` | main.py:137-138 | after the frame a passed-over rocket keeps its state and every visited rocket is in the state of its one move |
| `Simulation.ClickPoints` | main.py:118-124 | the pointer position read once per frame, repeated once per MOUSEBUTTONDOWN event, never more clicks than events; `ClickPointsCount` and `ClickPointsAtMouse` state what it gives |
| `Simulation.Launches` | main.py:127-128 | `create_rocket` applied to each shot in order, one state per shot; `LaunchesAt` states launch j |
| `Simulation.AnyQuit` | main.py:121-122 | `running = False` is set when some event is QUIT; `AnyQuitIff` states that |
| `Simulation.ClickPointsCount` | main.py:118-124 | a frame has exactly one click per MOUSEBUTTONDOWN event |
| `Simulation.ClickPointsAtMouse` | main.py:118-131 | every click of a frame is at the one pointer position read for the frame, there is one click per MOUSEBUTTONDOWN event, and so some click exactly when such an event came |
| `Simulation.LaunchesAt` | main.py:127-128 | rocket j appended in a frame is in the state `create_rocket` gives shot j |
| `Simulation.OnEvent` | main.py:120-131 | one event: MOUSEBUTTONDOWN acts as a click at the pointer, any other event leaves the anchor and launches nothing; `OnEventIsClicks` ties it to `Clicks` |
| `Simulation.OnEventIsClicks` | main.py:120-131 | one event acts on the anchor as a run of clicks at its click positions |
| `Simulation.AnyQuitIff` | main.py:121-122 | the frame asks the loop to stop exactly when some event is QUIT |
| `Simulation.AfterEvents` | main.py:120-131 | the frame's events taken one at a time in order; `AfterEventsIsClicks` ties it to `Clicks` |
| `Simulation.AfterEventsIsClicks` | main.py:120-131 | taking the events one at a time gives the anchor and launches of the frame's clicks in order |
| `Simulation.Simulation.constructor` | main.py:111-112 | the program starts with no rockets and no anchor |
| `Simulation.Simulation.OnMouseDown` | main.py:124-131 | a click updates the anchor as `Click` says and appends exactly the launched rocket, fresh, at the end; the list stays free of repeats |
| `Simulation.Simulation.HandleEvent` | main.py:120-131 | one event: QUIT is reported, a click acts as `OnMouseDown`, other events change nothing |
| `Simulation.Simulation.ProcessEvents` | main.py:118-131 | after a frame's events the anchor and the appended rockets are those of the frame's clicks in order, earlier rockets untouched, and the quit flag says whether a QUIT came |
| `Simulation.Simulation.Frame` | main.py:133-150 | the drawing and update loop leaves the surviving slots in order, every rocket in the state its fate gives it, and the draw calls of the visited slots then the preview; the anchor is unchanged and the preview rocket is not added |
| `Simulation.Simulation.Tick` | main.py:115-152 | one pass of the main loop: the frame's clicks append their launches as new rocket objects, then the update loop runs over the extended list |
| `Simulation.Simulation.DrawPreview` | main.py:146-150 | with an anchor stored, the guide line and a preview rocket built by `create_rocket` are drawn; no rocket in the list changes |
| `Simulation.Sweep` | main.py:135-144 | the index loop with in-place removal ends with the list, the rocket states and the draw calls that the fates of the frame give |
| `Simulation.AfterSweep` | main.py:135-144 | after the loop the list is free of repeats and every rocket left has the launch mass and can move |
| `Simulation.MoveSlot` | main.py:138 | moving the rocket of one slot changes that slot's state and no other, as the rockets are distinct objects |

## Left out

- Window setup, image loading, blitting and display updates (main.py:4-11, 24-26, 74-81, 152-154) are pygame I/O. Drawing is recorded as a trace of `Draw` values. `Rocket.draw` becomes the image centre `(int(x), int(y))` and the rotation `270 - angle`.
- `pygame.event.get()`, `pygame.mouse.get_pos()` and `clock.tick(60)` (main.py:115-120) are I/O. The events and the pointer position are parameters of `Tick`. The frame rate appears only as the constant `Fps`.
- The `while running` loop and `pygame.quit()` (main.py:108-114, 154) are driver control flow. `Tick` models one pass; the quit flag it returns is what the loop would test.
- Trigonometry (main.py:60-63, 72, 98) is floating-point library code. It is supplied as the `Trig` parameter and not computed.
- Floating-point rounding, NaN and infinities are not modelled. Positions and velocities are exact reals, and `math.sqrt` is avoided by comparing squares.
- `Physics.Step`: the heading is whatever `Trig.heading` returns. Its relation to the velocity vector is not stated, because atan2 is not modelled.
- `Simulation.Simulation.Tick`: does not restate each rocket's state after the frame; `Frame` states it for the list the events leave.
- `Simulation.Sweep`: iterates a local sequence and stores it back in `objects` after the loop, where Python mutates the one list object in place. Nothing else holds the list during the loop, so the observable result is the same.
