/**
 * The two plain records the canvas keeps about the camera and the pointer
 * (ACC_TransformState and ACC_MouseState), and the screen/world mapping the
 * camera defines.
 */
module States {

  /**
   * Camera: pan offset `x`, `y` (world to screen), the pan snapshot taken
   * when a drag starts, and a uniform `scale`.
   */
  datatype Transform = Transform(x: real, y: real, bufferedX: real, bufferedY: real, scale: real)

  /** Pointer: last known position, and where and whether it is pressed. */
  datatype Mouse = Mouse(x: real, y: real, pressedX: real, pressedY: real, pressed: bool)

  /** A new camera: no pan, no drag snapshot, unit scale. */
  function NewTransform(): (t: Transform)
    ensures t.x == 0.0 && t.y == 0.0
    ensures t.bufferedX == 0.0 && t.bufferedY == 0.0
    ensures t.scale == 1.0
  {
    Transform(0.0, 0.0, 0.0, 0.0, 1.0)
  }

  /** A new pointer state: at the origin and not pressed. */
  function NewMouse(): (m: Mouse)
    ensures m.x == 0.0 && m.y == 0.0 && m.pressedX == 0.0 && m.pressedY == 0.0
    ensures !m.pressed
  {
    Mouse(0.0, 0.0, 0.0, 0.0, false)
  }

  /** World to screen along one axis: `pos * scale + pan`. */
  function ToScreen(pan: real, scale: real, w: real): real
  {
    w * scale + pan
  }

  /** Screen to world along one axis: `(screen - pan) / scale`. */
  function ToWorld(pan: real, scale: real, s: real): real
    requires scale != 0.0
  {
    (s - pan) / scale
  }

  /** The two mappings are inverse to each other whenever the scale is not zero. */
  lemma ScreenWorldRoundTrip(pan: real, scale: real, v: real)
    requires scale != 0.0
    ensures ToWorld(pan, scale, ToScreen(pan, scale, v)) == v
    ensures ToScreen(pan, scale, ToWorld(pan, scale, v)) == v
  {
  }
}
