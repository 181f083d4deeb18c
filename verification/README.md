# autocanvasc core, modelled in Dafny

autocanvasc is a small retained-mode scene manager for an HTML canvas. It
keeps a list of positioned, animatable elements and a pan/zoom camera. It
routes mouse events to the elements and redraws them at a fixed frame rate.
This project models its core as pure functions over immutable datatypes,
with numbers idealised as Dafny `real`. The core has three parts.

- **The animation engine.** `ACC_Task` and `ACC_Dynamic` live in the
  modules `Tasks` and `Dynamics`. A dynamic is a number with an optional
  bound formula and a queue of linear tasks. A tick applies
  `delta * dt / max_ms` per task and advances the task's clock. It drops a
  task as soon as the task is dead. The `for ... of` loop over a list that
  is spliced while it is walked is modelled as the index walk it really
  is (`Dynamics.Walk`). The walk is proved equal to a per-task reference
  (`Dynamics.Fates`): each task is ticked and kept, ticked and dropped, or
  passed over. A task is passed over exactly when the task before it was
  dropped.
- **Elements.** `ACC_Component` and `ACC_Image` live in `Elements` and
  `Images`. This part covers:
  - the rendered box under the camera and the render flags;
  - the strict-interior hit test;
  - the HOVER / PRESS / CLICK / RELEASE state machine of `collide`,
    including the fall-through from CLICK into RELEASE.

  User handlers are modelled as `Signal`s appended to a trace. The image
  subclass is the `Picture` case of `Shape`. `Images.Tick` and
  `Images.Collide` do the dispatch between the two classes.
- **The canvas controller.** `AutoCanvas` lives in `States` (the camera
  and pointer records), `Camera` (`zoom` and `raw_zoom`) and `Canvas`.
  `Canvas` holds:
  - the two-layer component list;
  - the mouse-down, mouse-move and mouse-up handlers with their
    back-to-front routing loops;
  - the wheel and resize handlers;
  - the tick loop of `refresh`.

  A handler returns the new canvas and the list of visits its routing
  loop made. Each visit is a component index and the handlers that
  component fired.

Routing is parameterised by a `Policy`, which decides what each loop passes
to `collide` as `override`. `AsWritten` is what the program does: it passes
the running `found` flag itself. `Claimed` is the protocol the program
evidently intends: no override until some component reports a hit, then a
forced miss. The pointer handlers take the policy as an argument; with
`AsWritten` they are the program. See "Findings".

Two behaviours a reader might expect are not what the code does:

- `tick` does not re-evaluate a bound formula after running the tasks
  (`Dynamics.Tick` leaves the formula alone).
- The routing loops do not let the topmost hit element win. The `override`
  parameter of `collide` (class/Image.ts:83-96) becomes the verdict
  whenever it is defined, and the loops always define it (see "## Findings").

## Model

| member | source | states |
|---|---|---|
| Tasks.IsDead | class/Task.ts:46-48 | A task is dead once its elapsed time reaches its duration. Durations are positive, so a dead task has run for some time. |
| Tasks.NewTask | class/Task.ts:12-27 | A new task holds the given delta, duration and easing. Its elapsed time is 0 and it is not dead. |
| Tasks.Advance | class/Task.ts:34-41 | One tick moves the elapsed time by exactly `dt`. Delta, duration and easing never change, so neither does the per-tick increment. |
| Tasks.RunAccumulates | class/Task.ts:34-41 | After `n` ticks of `dt`, the elapsed time has grown by `n*dt` and the fixed fields are unchanged. The target has moved by `n` times `delta*dt/max_ms`. |
| Tasks.LinearTaskConverges | class/Task.ts:34-48 | With a duration of `k*dt` (`k >= 1`), `k` ticks apply exactly `delta` and leave the task dead. Every shorter run leaves it alive. |
| Dynamics.NewDynamic | class/Dynamic.ts:10-12 | A new dynamic holds the value, with no formula and no tasks. |
| Dynamics.Get | class/Dynamic.ts:30-32 | `get` returns the cached value. Nothing is re-evaluated on reading. |
| Dynamics.SetValue | class/Dynamic.ts:18-20 | `set(number)` makes `get` return that number. Formula and queue are unchanged. |
| Dynamics.Fix | class/Dynamic.ts:37-41 | `fix` is the identity without a formula. Otherwise only the value changes, to what the formula evaluates to. |
| Dynamics.SetFormula | class/Dynamic.ts:18-25 | `set(callback)` binds the formula and sets the value to its evaluation at once. The queue is unchanged. |
| Dynamics.FixIdempotent | class/Dynamic.ts:37-41 | Fixing twice in the same surroundings equals fixing once. Fixing never touches the formula or the queue. |
| Dynamics.AddTask | class/Dynamic.ts:47-49 | The queue grows by one at its end. Earlier tasks, the value and the formula are unchanged. |
| Dynamics.TickTask | class/Task.ts:34-41 | Ticking a task against a dynamic advances the task. It adds `delta*dt/max_ms` to the value and leaves formula and queue alone. |
| Dynamics.Walk | class/Dynamic.ts:55-62 | The `for ... of` loop with `splice`, as the index walk it is: it never touches the formula and never grows the queue. Dynamics.WalkMatchesFates relates it to the reference. |
| Dynamics.FatesShape | class/Dynamic.ts:55-62 | In one pass, each task is either passed over unchanged or ticked once. A ticked task is dropped exactly when it is dead afterwards. The first task is always ticked. A task is passed over exactly when its predecessor was dropped. |
| Dynamics.WalkMatchesFates | class/Dynamic.ts:55-62 | The index walk with splicing leaves the prefix before the index alone. It replaces the rest by the survivors of the reference fates and adds exactly the increments of the ticked tasks. |
| Dynamics.Tick | class/Dynamic.ts:55-62 | `tick` leaves the survivors in their original order: skipped tasks as they were, kept tasks ticked. It adds the ticked tasks' increments to the value and never reads or changes the formula. The queue never grows. |
| Dynamics.FollowerNotTicked | class/Dynamic.ts:55-62 | When the first task dies, the task behind it is not ticked in that call: it comes out exactly as it went in. |
| Dynamics.SingleTaskProgress | class/Dynamic.ts:55-62 | With a single fresh task lasting `k` frames, after `j < k` ticks the task is still queued, advanced `j` times, and the value has moved by `j` increments. |
| Dynamics.SingleTaskConverges | class/Dynamic.ts:55-62 | That single task moves the value by exactly `delta` in `k` ticks and is gone afterwards. |
| Elements.NewComponent | class/Component.ts:18-45 | A new component holds the given position, with no formulas and no tasks. Its base scale is a fresh dynamic holding 1, with no formula and no tasks. All render and interaction flags are false. |
| Elements.NewImage | class/Image.ts:1-3 | An image starts as a new component at the position (class/Component.ts:41-45). It has the given intrinsic size, and `render_centered` starts false. |
| Elements.TickComponent | class/Component.ts:51-55 | `tick` advances `x`, `y` and the base scale once each with the same `dt`. Every flag and the shape are unchanged. |
| Elements.OnResize | class/Component.ts:25-28 | The default `on_resize` fixes `x` and `y`: each keeps its formula and its tasks, and a bound formula sets its value. Every other field of the component is untouched. |
| Elements.CollideBase | class/Component.ts:73-80 | The base `collide` never hits, changes nothing and fires nothing. |
| Images.TickImage | class/Image.ts:5-8 | The image tick advances `x` and `y` once and the base scale twice. Everything else is as in the base tick. |
| Images.ImageScaleTwice | class/Image.ts:5-8 | A base-scale task meant to last two frames finishes in one image tick. The base tick alone would have advanced it once. |
| Images.RenderWidth | class/Image.ts:23-29 | The width is the intrinsic width times the base scale, times the camera scale unless scaling is ignored. |
| Images.RenderHeight | class/Image.ts:36-42 | The height follows the same rule as the width. |
| Images.RenderX | class/Image.ts:49-58 | When translation is ignored, x is the raw position and no centring applies. Otherwise it is `pos*scale + pan`, less half the width when centred. |
| Images.RenderY | class/Image.ts:65-74 | The y coordinate follows the same rule as x. |
| Images.CenteredOnAnchor | class/Image.ts:49-74 | A centred image's box has its centre at the mapped position. |
| Images.Inside | class/Image.ts:97-102 | The strict-interior test against the rendered box. A point can only be inside a box with positive width and height. |
| Images.EdgesAreMisses | class/Image.ts:93-103 | A point on any edge of the rendered box is not a hit. |
| Images.HitIffInsideWorldBox | class/Image.ts:93-103 | For an uncentred, unflagged image under a positive scale, a screen point hits exactly when its world point lies strictly inside the image's world rectangle. |
| Images.React | class/Image.ts:106-133 | HOVER sets the hover flag to the verdict and fires `on_hover` or `on_hover_stop` only on a change. PRESS sets the press flag and fires `on_press` only for a hit that was not already pressed. CLICK fires `on_click` on a hit, then releases. RELEASE clears the press and fires `on_release` if it was pressed. Only the two flags ever change. |
| Images.SignalsTrackState | class/Image.ts:106-133 | Each handler fires exactly when its flag transition happens. `on_click` fires exactly for a hitting click. At most two handlers fire per call. |
| Images.ReactIdempotent | class/Image.ts:106-133 | Repeating an event with the same verdict changes nothing and fires nothing. The exception is a hitting click, which fires `on_click` again. |
| Images.CollideImage | class/Image.ts:86-135 | A supplied override is the verdict, with no geometry. Otherwise the verdict is the strict-interior test. The state machine runs on that verdict. |
| Images.Tick | class/Image.ts:5-8 | The virtual `tick`: a plain component gets the base tick and an image the image tick. |
| Images.Collide | class/Image.ts:86-135 | The dispatched `collide` changes only the interaction flags. Without an override, its verdict is the component's own hit test. |
| States.NewTransform | types.ts:11-17 | A new camera has no pan, no drag snapshot and unit scale. |
| States.NewMouse | types.ts:30-36 | A new pointer is at the origin and not pressed. |
| States.ScreenWorldRoundTrip | class/AutoCanvas.ts:230-231 | For any non-zero scale, the world-to-screen and screen-to-world maps are inverse to each other. |
| Camera.Clamp | class/AutoCanvas.ts:188 | `max(min(v, hi), lo)` keeps a value already in `[lo, hi]`, gives `lo` below and `hi` above. With crossed bounds the result is `lo`. |
| Camera.NewTransformInRange | class/AutoCanvas.ts:5-7 | The initial scale 1 lies within `[0.1, 15]`. |
| Camera.RawZoom | class/AutoCanvas.ts:186-191 | The scale always ends in `[0.1, 15]`. It is `scale*amount` when that is in range, 15 above and 0.1 below. The pan becomes `pan*amount - about*(amount-1)`, with the unclamped amount. |
| Camera.ZoomFactor | class/AutoCanvas.ts:170-175 | From an in-range scale, a request that keeps `scale*request` in range passes unchanged. One that would overshoot becomes exactly `15/scale`, and one that would undershoot exactly `0.1/scale`. A positive request gives a positive factor with `scale*factor` in range. |
| Camera.Zoom | class/AutoCanvas.ts:170-178 | `zoom` is `raw_zoom` with the capped factor. It leaves the scale in range, and from an in-range scale `raw_zoom` does not clamp. |
| Camera.RawZoomKeepsPivot | class/AutoCanvas.ts:186-191 | When `raw_zoom` does not clamp, the world point under the pivot is the same before and after. |
| Camera.ZoomKeepsPivot | class/AutoCanvas.ts:170-191 | `zoom` from an in-range scale keeps the world point under the cursor fixed. |
| Camera.RawZoomClampMovesPivot | class/AutoCanvas.ts:186-191 | Called directly with a factor past the bounds, `raw_zoom` clamps the scale but pans with the unclamped factor, so the pivot drifts (3 becomes 20). |
| Canvas.Components | class/AutoCanvas.ts:124-126 | The `components` getter: the civilian layer, then the priority layer, nothing dropped or added. |
| Canvas.NewCanvas | class/AutoCanvas.ts:117-143 | A new canvas has empty layers, a fresh pointer and camera, and 60 frames a second. |
| Canvas.NewCanvasValid | class/AutoCanvas.ts:117-143 | A new canvas satisfies the layering and scale-range invariant and has no components. |
| Canvas.AddComponent | class/AutoCanvas.ts:132-138 | The hoisting flag read at add time picks the layer, and the component is appended to that layer. |
| Canvas.AddComponentOrder | class/AutoCanvas.ts:124-138 | Adding keeps the layers consistent and keeps every existing component in place. The new component goes last overall if hoisted, otherwise last among the civilian ones. |
| Canvas.HoistedLast | class/AutoCanvas.ts:124-138 | In the `components` list every component added while hoisted comes after every component added while not hoisted. |
| Canvas.Override | class/AutoCanvas.ts:47-52 | As written, the override is always defined: it is `found` itself. Under the intended protocol it is undefined until a hit and a forced miss afterwards. |
| Canvas.Route | class/AutoCanvas.ts:47-52 | The back-to-front loop shared by the three pointer handlers. It keeps the list's length and records one visit per step. |
| Canvas.RouteFrame | class/AutoCanvas.ts:47-52 | A routing loop leaves components above its start alone and changes only interaction flags. |
| Canvas.RouteOrder | class/AutoCanvas.ts:48 | The loop visits indices `n-1` down to `0`, once each, and never forgets a hit. |
| Canvas.AsWrittenNeverDetects | class/AutoCanvas.ts:84-89 | As written, `found` stays false. Every component is called with a forced miss and reacts exactly as `collide(..., false)` does. |
| Canvas.MissSignals | class/Image.ts:94-96 | A forced miss can only fire `on_hover_stop` or `on_release`. |
| Canvas.ClaimedFound | class/AutoCanvas.ts:47-52 | Under the intended protocol the loop ends claimed exactly when some component hits. |
| Canvas.ClaimedRouting | class/AutoCanvas.ts:47-52 | Under the intended protocol, each component is left to its own hit test exactly when no component above it hits. Otherwise it is forced to miss. The visit log records what each call fired. |
| Canvas.ClaimedTopmostWins | class/AutoCanvas.ts:47-52 | Under the intended protocol, a visit that fires `on_hover`, `on_press` or `on_click` is to a component that hits, with no hit above it. |
| Canvas.Dispatch | class/AutoCanvas.ts:47-52 | A routing loop changes neither pointer nor camera, keeps both layer sizes, and records one visit per component. |
| Canvas.DispatchOrder | class/AutoCanvas.ts:48 | The visits run from the last component to the first, so each component is visited exactly once. |
| Canvas.DispatchTopmostWins | class/AutoCanvas.ts:47-52 | Under the intended protocol, a handler fires `on_hover`, `on_press` or `on_click` only at a component that hits, with no hit above it. |
| Canvas.DispatchForcedMiss | class/AutoCanvas.ts:61-68 | As written, each routed component ends as after a forced miss. No visit fires anything but `on_hover_stop` or `on_release`. |
| Canvas.DispatchLayered | class/AutoCanvas.ts:84-89 | Routing, under either policy, keeps the layers consistent. |
| Canvas.MouseDown | class/AutoCanvas.ts:39-53 | mousedown marks the pointer pressed at the event position and copies the pan into the drag snapshot, then routes PRESS. |
| Canvas.Classify | class/AutoCanvas.ts:62-63 | A release is classified as either CLICK or RELEASE. |
| Canvas.ClickWithinRadius | class/AutoCanvas.ts:62-63 | For the Euclidean distance between press and release, the event is CLICK exactly when the distance is below 5. |
| Canvas.MouseUp | class/AutoCanvas.ts:55-69 | mouseup leaves the pointer unpressed and the camera alone, and routes the classified event. |
| Canvas.MouseMove | class/AutoCanvas.ts:71-90 | mousemove records the position. While pressed, the pan becomes the snapshot plus the move since the press; otherwise the pan is unchanged. Then it routes HOVER. |
| Canvas.DragMoves | class/AutoCanvas.ts:74-81 | Over any non-empty run of moves while pressed, the press point, the snapshot and the scale stay fixed. The pan is the snapshot plus the displacement from the press point to the last position. |
| Canvas.DragIsRelative | class/AutoCanvas.ts:71-81 | After a press and any non-empty run of moves, the pan is the pan at press time plus the displacement from the press point to the last position, however many moves came between. The scale is unchanged and the pointer is still pressed. |
| Canvas.Wheel | class/AutoCanvas.ts:100-102 | The wheel zooms about the cursor and leaves the scale in range. |
| Canvas.TickAll | class/AutoCanvas.ts:204-206 | Every component is ticked once, in order, with the same period. |
| Canvas.Refresh | class/AutoCanvas.ts:199-206 | `refresh` ticks the whole `components` list (civilian, then hoisted) once with `1000/fps`. It leaves pointer and camera alone. |
| Canvas.ResizeAll | class/AutoCanvas.ts:95-97 | Every component gets its default `on_resize`, in order. |
| Canvas.Resize | class/AutoCanvas.ts:92-98 | resize is one `refresh`, then every component's `on_resize`. Pointer and camera are unchanged. |
| Canvas.HandlersKeepValid | class/AutoCanvas.ts:39-102 | Adding, the three pointer handlers under either policy, the wheel, refresh and resize all keep consistent layers and an in-range scale. |
| Canvas.HandlersNeverFireHits | class/AutoCanvas.ts:39-90 | As written, none of the pointer handlers ever fires `on_hover`, `on_press` or `on_click`. |
| Canvas.LonePressIgnored | class/AutoCanvas.ts:39-53 | As written, pressing on a canvas holding one component fires nothing and leaves the component exactly as it was. This holds wherever the press lands and whatever the component's state. |
| Canvas.PressInsideNeverFires | class/AutoCanvas.ts:47-52 | On a new canvas with one 10x10 image at the origin, a press at (5,5) is inside the image, yet nothing fires and the image stays unpressed. |
| Canvas.LonePressClaimed | class/AutoCanvas.ts:39-53 | Under the intended protocol, pressing inside the single unpressed component of a new canvas fires `on_press` and marks it pressed. |
| Canvas.PressInsideClaimed | class/AutoCanvas.ts:39-53 | On the same input, the mousedown handler under the intended protocol fires `on_press` and marks the image pressed. |

## Left out

- Drawing and DOM plumbing are not modelled. This covers canvas creation, `correctDimensions`, listener registration, `ACC_Image.refresh`, and the fill and debug text of `refresh`, including `performance.now`. They are output only. `refresh` is modelled by its tick loop.
- Timers are not modelled: `setInterval` and `clearInterval` in the constructor and in the `target_fps` setter. The frame period is `1000 / fps` with `fps` a positive real.
- `Math.pow(SCALE_STRENGTH, -deltaY)` in the wheel handler is not modelled. Camera.Zoom and Canvas.Wheel take the resulting factor as their argument.
- `** 0.5` in mouseup is not modelled. Canvas.Classify compares the squared distance against 25, and Canvas.ClickWithinRadius proves that this equals the distance test.
- IEEE-754 rounding, NaN and Infinity are not modelled: numbers are `real`. A task's duration and the frame rate are positive by type, so `max_ms = 0` and `fps = 0` are excluded.
- Camera.ZoomFactor, Camera.Zoom and Canvas.Wheel: they require a non-zero scale. The program divides by the scale there. A zero scale cannot arise from the clamped camera but is not excluded by the type.
- User handler bodies are not modelled. Firing a handler is a `Signal` in the returned trace; the defaults do nothing. A custom `on_resize` is not modelled; only the default, which fixes `x` and `y`, is.
- Canvas.ResizeAll: one evaluation of formulas is used for the whole resize pass. In the program the cells are fixed one after another, so a formula that reads a cell fixed earlier in the same pass sees its new value. The model cannot express that.
- Formulas are user code. A formula is an identity, and its current value comes from an evaluation argument.
- Object identity is not modelled. The same task object shared between dynamics or queued twice (the `indexOf` corner case of `tick`) is out, and values have value semantics. The `parent` back-reference is out because the core never reads it.
- Image loading is not modelled: the intrinsic width and height are given non-negative reals.
- The debug read-out at class/AutoCanvas.ts:230-231 is out. Only its screen-to-world formula is used, as States.ToWorld.
- Elements.TickComponent and Images.TickImage state each tick in terms of Dynamics.Tick, and the properties of one dynamic's tick are proved once there.
- Canvas.HoistedLast: the model treats `render_hoisted` as fixed once a component is added. The program lets it change later without moving the component, and then the order holds only for the flag as it was at add time.
- Canvas.Classify: its contract states only that the result is CLICK or RELEASE. The threshold itself is stated by Canvas.ClickWithinRadius.

## Findings

| source | as written | input that shows it | evidently intended | confidence | as-written member | corrected member |
|---|---|---|---|---|---|---|
| class/AutoCanvas.ts:47-52, 61-68, 84-89 with class/Image.ts:94-96 | Each routing loop passes `found` (initially `false`) as `override`. `collide` treats any override other than `undefined` as the verdict, so every component sees `detected = false`. Hover, press and click handlers never fire from the canvas handlers. | A new canvas with one 10x10 image at (0,0), pressed at (5,5): the point is inside, yet `on_press` does not fire and the image is not marked pressed. | No override until some component hits, then a forced miss for the components below it. The topmost hit component acts. | not executed | Canvas.PressInsideNeverFires | Canvas.DispatchTopmostWins |

Under the policy `AsWritten`, the handlers in `Canvas` behave as the
program does, and `Canvas.HandlersNeverFireHits` states the consequence.
The intended protocol is the policy `Claimed`, which the same handlers
accept. `Canvas.ClaimedRouting` and `Canvas.ClaimedTopmostWins` prove that
under it only the topmost hit component can fire, for the routing loop and
(`Canvas.DispatchTopmostWins`) for every handler. `Canvas.PressInsideClaimed`
applies the corrected mousedown handler to the finding's input.
