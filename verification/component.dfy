/**
 * The generic scene element (ACC_Component): two animatable coordinates, an
 * animatable base scale, render flags and the hover/press interaction
 * flags. The only subclass, the image, lives in the `Images` module; the
 * two are told apart by `shape`.
 */
module Elements {
  import opened Common
  import Dynamics
  import opened States

  /** The pointer events a component can receive. */
  datatype EventType = Hover | Press | Click | Release

  /**
   * The user handlers a component can fire. Their bodies are user code and
   * their defaults do nothing, so firing one is recorded as a signal in the
   * returned trace and has no other effect.
   */
  datatype Signal = OnHover | OnHoverStop | OnPress | OnClick | OnRelease

  /** An intrinsic image dimension, in pixels. */
  type Extent = r: real | r >= 0.0

  /**
   * `Plain` is the base class, `Picture` the image subclass with its
   * intrinsic size and the `render_centered` flag.
   */
  datatype Shape = Plain | Picture(width: Extent, height: Extent, centered: bool)

  datatype Component = Component(
    x: Dynamics.Dynamic,
    y: Dynamics.Dynamic,
    ignoreTranslation: bool,
    ignoreScaling: bool,
    hoisted: bool,
    baseScale: Dynamics.Dynamic,
    isHovering: bool,
    isClicked: bool,
    shape: Shape)

  /** The outcome of `collide`: the hit verdict, the new state, the handlers fired in order. */
  datatype Collision = Collision(detected: bool, component: Component, signals: seq<Signal>)

  /** The base-class constructor at the given position. */
  function NewComponent(x: real, y: real): (c: Component)
    ensures c.x == Dynamics.NewDynamic(x) && c.y == Dynamics.NewDynamic(y)
    ensures Dynamics.Get(c.x) == x && c.x.callback == None && c.x.tasks == []
    ensures Dynamics.Get(c.y) == y && c.y.callback == None && c.y.tasks == []
    ensures Dynamics.Get(c.baseScale) == 1.0 && c.baseScale.tasks == []
    ensures c.baseScale == Dynamics.NewDynamic(1.0)
    ensures !c.ignoreTranslation && !c.ignoreScaling && !c.hoisted
    ensures !c.isHovering && !c.isClicked
    ensures c.shape == Plain
  {
    Component(Dynamics.NewDynamic(x), Dynamics.NewDynamic(y), false, false, false,
              Dynamics.NewDynamic(1.0), false, false, Plain)
  }

  /**
   * An image element at the given position whose picture has the given
   * intrinsic size; it starts out like any component and not centred.
   */
  function NewImage(x: real, y: real, width: Extent, height: Extent): (c: Component)
    ensures c.shape == Picture(width, height, false)
    ensures c.(shape := Plain) == NewComponent(x, y)
  {
    NewComponent(x, y).(shape := Picture(width, height, false))
  }

  /**
   * The base `tick`: each animatable advances once with the same `dt`;
   * flags, interaction state and shape are left alone.
   */
  function TickComponent(c: Component, dt: real): (r: Component)
    ensures r.x == Dynamics.Tick(c.x, dt) && r.y == Dynamics.Tick(c.y, dt)
    ensures r.baseScale == Dynamics.Tick(c.baseScale, dt)
    ensures r.ignoreTranslation == c.ignoreTranslation && r.ignoreScaling == c.ignoreScaling
    ensures r.hoisted == c.hoisted && r.shape == c.shape
    ensures r.isHovering == c.isHovering && r.isClicked == c.isClicked
  {
    c.(x := Dynamics.Tick(c.x, dt), y := Dynamics.Tick(c.y, dt),
       baseScale := Dynamics.Tick(c.baseScale, dt))
  }

  /**
   * The default `on_resize` handler: re-evaluates the formulas bound to the
   * position; nothing but the two position values changes, and each keeps
   * its formula and its tasks.
   */
  function OnResize(c: Component, eval: Dynamics.Eval): (r: Component)
    ensures r.(x := c.x, y := c.y) == c
    ensures r.x.callback == c.x.callback && r.x.tasks == c.x.tasks
    ensures r.y.callback == c.y.callback && r.y.tasks == c.y.tasks
    ensures c.x.callback == None ==> r.x == c.x
    ensures c.x.callback.Some? ==> Dynamics.Get(r.x) == eval(c.x.callback.value) && r.x.tasks == c.x.tasks
    ensures c.y.callback == None ==> r.y == c.y
    ensures c.y.callback.Some? ==> Dynamics.Get(r.y) == eval(c.y.callback.value) && r.y.tasks == c.y.tasks
  {
    c.(x := Dynamics.Fix(c.x, eval), y := Dynamics.Fix(c.y, eval))
  }

  /**
   * The base `collide`: nothing is ever hit, whatever the override, and no
   * state changes.
   */
  function CollideBase(c: Component, transform: Transform, px: real, py: real, ev: EventType,
                          override: Option<bool>): (r: Collision)
    ensures !r.detected && r.component == c && r.signals == []
  {
    Collision(false, c, [])
  }
}
