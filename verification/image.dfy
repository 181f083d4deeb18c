/**
 * The image element (ACC_Image): its on-screen box under the camera and
 * the render flags, its strict-interior hit test, and the hover / press /
 * click / release state machine of `collide`. The module closes with the
 * dynamic dispatch between the base component and the image.
 */
module Images {
  import opened Common
  import Dynamics
  import Tasks
  import opened States
  import opened Elements

  /** The image `tick`: the base tick, then the base scale once more. */
  function TickImage(c: Component, dt: real): (r: Component)
    ensures r.x == Dynamics.Tick(c.x, dt) && r.y == Dynamics.Tick(c.y, dt)
    ensures r.baseScale == Dynamics.Tick(Dynamics.Tick(c.baseScale, dt), dt)
    ensures r == TickComponent(c, dt).(baseScale := r.baseScale)
  {
    var b := TickComponent(c, dt);
    b.(baseScale := Dynamics.Tick(b.baseScale, dt))
  }

  /** Rendered width: intrinsic width times base scale, times the camera scale unless ignored. */
  function RenderWidth(c: Component, tr: Transform): (w: real)
    requires c.shape.Picture?
    ensures w == c.shape.width * Dynamics.Get(c.baseScale) * (if c.ignoreScaling then 1.0 else tr.scale)
  {
    var w := c.shape.width * Dynamics.Get(c.baseScale);
    if !c.ignoreScaling then w * tr.scale else w
  }

  /** Rendered height, like the width. */
  function RenderHeight(c: Component, tr: Transform): (h: real)
    requires c.shape.Picture?
    ensures h == c.shape.height * Dynamics.Get(c.baseScale) * (if c.ignoreScaling then 1.0 else tr.scale)
  {
    var h := c.shape.height * Dynamics.Get(c.baseScale);
    if !c.ignoreScaling then h * tr.scale else h
  }

  /**
   * Rendered left edge: the raw position when translation is ignored (and
   * then centring is not applied either); otherwise the position mapped to
   * the screen, moved left by half the width when centred.
   */
  function RenderX(c: Component, tr: Transform): (rx: real)
    requires c.shape.Picture?
    ensures c.ignoreTranslation ==> rx == Dynamics.Get(c.x)
    ensures !c.ignoreTranslation ==>
      rx == ToScreen(tr.x, tr.scale, Dynamics.Get(c.x)) - (if c.shape.centered then RenderWidth(c, tr) / 2.0 else 0.0)
  {
    if c.ignoreTranslation then Dynamics.Get(c.x)
    else
      var x := Dynamics.Get(c.x) * tr.scale + tr.x;
      if c.shape.centered then x - RenderWidth(c, tr) / 2.0 else x
  }

  /** Rendered top edge, like the left edge. */
  function RenderY(c: Component, tr: Transform): (ry: real)
    requires c.shape.Picture?
    ensures c.ignoreTranslation ==> ry == Dynamics.Get(c.y)
    ensures !c.ignoreTranslation ==>
      ry == ToScreen(tr.y, tr.scale, Dynamics.Get(c.y)) - (if c.shape.centered then RenderHeight(c, tr) / 2.0 else 0.0)
  {
    if c.ignoreTranslation then Dynamics.Get(c.y)
    else
      var y := Dynamics.Get(c.y) * tr.scale + tr.y;
      if c.shape.centered then y - RenderHeight(c, tr) / 2.0 else y
  }

  /** The geometric hit test: strictly inside the rendered box, edges excluded. */
  predicate Inside(c: Component, tr: Transform, px: real, py: real)
    requires c.shape.Picture?
    ensures Inside(c, tr, px, py) ==> RenderWidth(c, tr) > 0.0 && RenderHeight(c, tr) > 0.0
  {
    && px > RenderX(c, tr)
    && px < RenderX(c, tr) + RenderWidth(c, tr)
    && py > RenderY(c, tr)
    && py < RenderY(c, tr) + RenderHeight(c, tr)
  }

  /** Whether a component would report a hit at `(px, py)` when no override is given. */
  predicate Hits(c: Component, tr: Transform, px: real, py: real)
  {
    c.shape.Picture? && Inside(c, tr, px, py)
  }

  /**
   * The event switch of `collide`, given the hit verdict. Only the two
   * interaction flags can change. CLICK falls through into RELEASE, so a
   * pressed component hit by a click fires `on_click` and then
   * `on_release`; RELEASE clears the press whether or not it hits.
   */
  function React(c: Component, ev: EventType, detected: bool): (r: Collision)
    ensures r.detected == detected
    ensures r.component == c.(isHovering := r.component.isHovering, isClicked := r.component.isClicked)
    ensures ev == Hover ==>
      && r.component.isHovering == detected && r.component.isClicked == c.isClicked
      && r.signals == (if detected && !c.isHovering then [OnHover]
                       else if !detected && c.isHovering then [OnHoverStop] else [])
    ensures ev == Press ==>
      && r.component.isClicked == (c.isClicked || detected) && r.component.isHovering == c.isHovering
      && r.signals == (if detected && !c.isClicked then [OnPress] else [])
    ensures ev == Click ==>
      && !r.component.isClicked && r.component.isHovering == c.isHovering
      && r.signals == (if detected then [OnClick] else []) + (if c.isClicked then [OnRelease] else [])
    ensures ev == Release ==>
      && !r.component.isClicked && r.component.isHovering == c.isHovering
      && r.signals == (if c.isClicked then [OnRelease] else [])
  {
    match ev
    case Hover =>
      if detected && !c.isHovering then Collision(detected, c.(isHovering := true), [OnHover])
      else if !detected && c.isHovering then Collision(detected, c.(isHovering := false), [OnHoverStop])
      else Collision(detected, c, [])
    case Press =>
      if detected && !c.isClicked then Collision(detected, c.(isClicked := true), [OnPress])
      else Collision(detected, c, [])
    case Click =>
      var clicked := if detected then [OnClick] else [];
      ReleaseStep(c, detected, clicked)
    case Release =>
      ReleaseStep(c, detected, [])
  }

  /** The RELEASE case, entered directly or by falling through from CLICK. */
  function ReleaseStep(c: Component, detected: bool, fired: seq<Signal>): Collision
  {
    if c.isClicked then Collision(detected, c.(isClicked := false), fired + [OnRelease])
    else Collision(detected, c, fired)
  }

  /** The image `collide`: an override is taken as the verdict, else the geometric test. */
  function CollideImage(c: Component, tr: Transform, px: real, py: real, ev: EventType,
                        override: Option<bool>): (r: Collision)
    requires c.shape.Picture?
    ensures override.Some? ==> r.detected == override.value
    ensures override == None ==> r.detected == Inside(c, tr, px, py)
    ensures r == React(c, ev, r.detected)
  {
    var detected := match override
      case Some(b) => b
      case None => Inside(c, tr, px, py);
    React(c, ev, detected)
  }

  /** `tick` as dispatched on the element's class. */
  function Tick(c: Component, dt: real): (r: Component)
    ensures c.shape.Plain? ==> r == TickComponent(c, dt)
    ensures c.shape.Picture? ==> r == TickImage(c, dt)
  {
    match c.shape
    case Plain => TickComponent(c, dt)
    case Picture(_, _, _) => TickImage(c, dt)
  }

  /** `collide` as dispatched on the element's class. */
  function Collide(c: Component, tr: Transform, px: real, py: real, ev: EventType,
                   override: Option<bool>): (r: Collision)
    ensures c.shape.Plain? ==> r == CollideBase(c, tr, px, py, ev, override)
    ensures c.shape.Picture? ==> r == CollideImage(c, tr, px, py, ev, override)
    ensures r.component == c.(isHovering := r.component.isHovering, isClicked := r.component.isClicked)
    ensures override == None ==> r.detected == Hits(c, tr, px, py)
  {
    match c.shape
    case Plain => CollideBase(c, tr, px, py, ev, override)
    case Picture(_, _, _) => CollideImage(c, tr, px, py, ev, override)
  }

  /** A point on any edge of the rendered box is not a hit. */
  lemma EdgesAreMisses(c: Component, tr: Transform, px: real, py: real)
    requires c.shape.Picture?
    requires || px == RenderX(c, tr) || px == RenderX(c, tr) + RenderWidth(c, tr)
             || py == RenderY(c, tr) || py == RenderY(c, tr) + RenderHeight(c, tr)
    ensures !Hits(c, tr, px, py)
    ensures !CollideImage(c, tr, px, py, Hover, None).detected
  {
  }

  /**
   * For a plain, uncentred image under a positive camera scale, a screen
   * point hits exactly when the world point it maps back to lies strictly
   * inside the image's world rectangle.
   */
  lemma HitIffInsideWorldBox(c: Component, tr: Transform, px: real, py: real)
    requires c.shape.Picture? && !c.shape.centered
    requires !c.ignoreTranslation && !c.ignoreScaling
    requires tr.scale > 0.0
    ensures var wx := ToWorld(tr.x, tr.scale, px);
            var wy := ToWorld(tr.y, tr.scale, py);
            var b := Dynamics.Get(c.baseScale);
      Hits(c, tr, px, py) <==>
        && Dynamics.Get(c.x) < wx < Dynamics.Get(c.x) + c.shape.width * b
        && Dynamics.Get(c.y) < wy < Dynamics.Get(c.y) + c.shape.height * b
  {
    var s := tr.scale;
    var b := Dynamics.Get(c.baseScale);
    AxisInside(Dynamics.Get(c.x), c.shape.width * b, tr.x, s, px);
    AxisInside(Dynamics.Get(c.y), c.shape.height * b, tr.y, s, py);
  }

  /** One axis of `HitIffInsideWorldBox`. */
  lemma AxisInside(pos: real, size: real, pan: real, s: real, p: real)
    requires s > 0.0
    ensures (p > pos * s + pan && p < pos * s + pan + size * s) <==>
            (pos < ToWorld(pan, s, p) < pos + size)
  {
    var w := ToWorld(pan, s, p);
    assert p == w * s + pan;
    if p > pos * s + pan {
      assert w * s > pos * s;
    }
    if w > pos {
      assert w * s > pos * s;
    }
    if p < pos * s + pan + size * s {
      assert w * s < (pos + size) * s;
    }
    if w < pos + size {
      assert w * s < (pos + size) * s;
    }
  }

  /** A centred image's rendered box is centred on its mapped position. */
  lemma CenteredOnAnchor(c: Component, tr: Transform)
    requires c.shape.Picture? && c.shape.centered && !c.ignoreTranslation
    ensures RenderX(c, tr) + RenderWidth(c, tr) / 2.0 == ToScreen(tr.x, tr.scale, Dynamics.Get(c.x))
    ensures RenderY(c, tr) + RenderHeight(c, tr) / 2.0 == ToScreen(tr.y, tr.scale, Dynamics.Get(c.y))
  {
  }

  /**
   * The handlers fired mirror the flag transitions: `on_hover` fires exactly
   * when hovering switches on, `on_hover_stop` exactly when it switches off,
   * `on_press` exactly when the press flag switches on, `on_release`
   * exactly when it switches off, and `on_click` exactly for a click that
   * hits; each at most once per call.
   */
  lemma SignalsTrackState(c: Component, ev: EventType, detected: bool)
    ensures var r := React(c, ev, detected).component;
            var ss := React(c, ev, detected).signals;
      && (OnHover in ss <==> !c.isHovering && r.isHovering)
      && (OnHoverStop in ss <==> c.isHovering && !r.isHovering)
      && (OnPress in ss <==> !c.isClicked && r.isClicked)
      && (OnRelease in ss <==> c.isClicked && !r.isClicked)
      && (OnClick in ss <==> ev == Click && detected)
      && |ss| <= 2
  {
  }

  /**
   * Delivering the same event with the same verdict again fires nothing new
   * and changes nothing: hover and press fire once per state change, not
   * once per event. Only a repeated hitting click fires `on_click` again.
   */
  lemma ReactIdempotent(c: Component, ev: EventType, detected: bool)
    ensures var once := React(c, ev, detected).component;
      && React(once, ev, detected).component == once
      && React(once, ev, detected).signals == (if ev == Click && detected then [OnClick] else [])
  {
  }

  /**
   * The image ticks its base scale twice per frame: a fresh base-scale task
   * meant to last two frames is finished after one, while the position
   * animations advance at the normal rate.
   */
  lemma ImageScaleTwice(c: Component, delta: real, dt: Positive)
    requires c.shape.Picture?
    requires c.baseScale.tasks == [Tasks.NewTask(delta, 2.0 * dt, Tasks.Linear)]
    ensures TickImage(c, dt).baseScale == c.baseScale.(raw := c.baseScale.raw + delta, tasks := [])
    ensures TickComponent(c, dt).baseScale.tasks == [Tasks.Advance(c.baseScale.tasks[0], dt)]
  {
    Dynamics.SingleTaskConverges(c.baseScale, delta, dt, 2);
    assert Dynamics.TickTimes(c.baseScale, dt, 2) == Dynamics.Tick(Dynamics.Tick(c.baseScale, dt), dt);
    Dynamics.TickSingle(c.baseScale, dt);
  }

  /**
   * The reference case: an image spanning `[0,10] x [0,10]` under the new
   * camera misses at the left edge `(0,5)` and hits at the centre `(5,5)`.
   */
  lemma UnitBoxExample(c: Component)
    requires c == NewImage(0.0, 0.0, 10.0, 10.0)
    ensures !Hits(c, NewTransform(), 0.0, 5.0)
    ensures Hits(c, NewTransform(), 5.0, 5.0)
  {
  }
}
