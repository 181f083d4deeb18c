/**
 * The camera part of the canvas controller (AutoCanvas `zoom` and
 * `raw_zoom`): the scale bounds, the clamped zoom factor and the
 * pivot-preserving pan update.
 */
module Camera {
  import opened States

  const ScaleMin: real := 0.1
  const ScaleMax: real := 15.0

  /**
   * `Math.max(Math.min(v, hi), lo)`: `hi` wins first, then `lo`, so when
   * the bounds are crossed the lower one is the result.
   */
  function Clamp(v: real, lo: real, hi: real): (r: real)
    ensures lo <= hi ==> lo <= r <= hi
    ensures lo <= v <= hi ==> r == v
    ensures v < lo ==> r == lo
    ensures lo <= hi < v ==> r == hi
    ensures hi < lo ==> r == lo
  {
    var m := if v < hi then v else hi;
    if m > lo then m else lo
  }

  predicate ScaleInRange(tr: Transform)
  {
    ScaleMin <= tr.scale <= ScaleMax
  }

  /** A new camera starts within the scale bounds. */
  lemma NewTransformInRange()
    ensures ScaleInRange(NewTransform())
  {
  }

  /**
   * `raw_zoom`: multiplies the scale by `amount` and clamps it, then pans
   * so that the point `about` stays put, using the unclamped `amount`.
   */
  function RawZoom(tr: Transform, amount: real, aboutX: real, aboutY: real): (r: Transform)
    ensures ScaleInRange(r)
    ensures ScaleMin <= tr.scale * amount <= ScaleMax ==> r.scale == tr.scale * amount
    ensures tr.scale * amount > ScaleMax ==> r.scale == ScaleMax
    ensures tr.scale * amount < ScaleMin ==> r.scale == ScaleMin
    ensures r.x == tr.x * amount - aboutX * (amount - 1.0)
    ensures r.y == tr.y * amount - aboutY * (amount - 1.0)
    ensures r.bufferedX == tr.bufferedX && r.bufferedY == tr.bufferedY
  {
    var scale := Clamp(tr.scale * amount, ScaleMin, ScaleMax);
    tr.(scale := scale,
        x := tr.x * amount - aboutX * (amount - 1.0),
        y := tr.y * amount - aboutY * (amount - 1.0))
  }

  /**
   * The factor `zoom` hands to `raw_zoom`: the requested factor clamped to
   * `[ScaleMin/scale, ScaleMax/scale]`. From an in-range scale, a request
   * that keeps the product in range passes unchanged, one that would
   * overshoot becomes exactly `ScaleMax/scale` and one that would
   * undershoot exactly `ScaleMin/scale`; a positive request gives a
   * positive factor whose product is in range.
   */
  function ZoomFactor(tr: Transform, requested: real): (f: real)
    requires tr.scale != 0.0
    ensures ScaleInRange(tr) && requested > 0.0 ==>
      f > 0.0 && ScaleMin <= tr.scale * f <= ScaleMax
    ensures ScaleInRange(tr) && ScaleMin <= tr.scale * requested <= ScaleMax ==> f == requested
    ensures ScaleInRange(tr) && tr.scale * requested > ScaleMax ==> f == ScaleMax / tr.scale
    ensures ScaleInRange(tr) && tr.scale * requested < ScaleMin ==> f == ScaleMin / tr.scale
  {
    var f := Clamp(requested, ScaleMin / tr.scale, ScaleMax / tr.scale);
    if ScaleInRange(tr) then ZoomFactorInRange(tr.scale, requested, f); f else f
  }

  /** `ZoomFactor` from an in-range scale, where both bounds are positive and ordered. */
  lemma ZoomFactorInRange(s: real, requested: real, f: real)
    requires ScaleMin <= s <= ScaleMax
    requires f == Clamp(requested, ScaleMin / s, ScaleMax / s)
    ensures requested > 0.0 ==> f > 0.0 && ScaleMin <= s * f <= ScaleMax
    ensures ScaleMin <= s * requested <= ScaleMax ==> f == requested
    ensures s * requested > ScaleMax ==> f == ScaleMax / s
    ensures s * requested < ScaleMin ==> f == ScaleMin / s
  {
    DivideBound(s, ScaleMin / s, ScaleMax);
    DivideBound(s, requested, ScaleMin);
    DivideBound(s, requested, ScaleMax);
    DivideBound(s, f, ScaleMin);
    DivideBound(s, f, ScaleMax);
  }

  /** Comparing `v` with `m / s` is comparing `s * v` with `m`, for a positive `s`. */
  lemma DivideBound(s: real, v: real, m: real)
    requires s > 0.0
    ensures s * (m / s) == m
    ensures v <= m / s <==> s * v <= m
    ensures v < m / s <==> s * v < m
  {
    var q := m / s;
    assert s * q == m;
    if v <= q {
      MultiplyMonotone(s, v, q);
    } else {
      MultiplyMonotone(s, q, v);
    }
  }

  /** Multiplying by a positive factor keeps the order, strict or not. */
  lemma MultiplyMonotone(s: real, a: real, b: real)
    requires s > 0.0 && a <= b
    ensures s * a <= s * b
    ensures a < b ==> s * a < s * b
  {
    assert s * b - s * a == s * (b - a);
  }

  /** `zoom`: clamp the requested factor against the current scale, then `raw_zoom`. */
  function Zoom(tr: Transform, requested: real, aboutX: real, aboutY: real): (r: Transform)
    requires tr.scale != 0.0
    ensures ScaleInRange(r)
    ensures r == RawZoom(tr, ZoomFactor(tr, requested), aboutX, aboutY)
    ensures ScaleInRange(tr) && requested > 0.0 ==> r.scale == tr.scale * ZoomFactor(tr, requested)
  {
    RawZoom(tr, ZoomFactor(tr, requested), aboutX, aboutY)
  }

  /** The pan update of `raw_zoom` fixes the pivot's world coordinate on one axis. */
  lemma PivotAxis(pan: real, s: real, f: real, about: real)
    requires s != 0.0 && f != 0.0
    ensures ToWorld(pan * f - about * (f - 1.0), s * f, about) == ToWorld(pan, s, about)
  {
    var num := about - (pan * f - about * (f - 1.0));
    assert num == f * (about - pan);
    assert num / (s * f) == (about - pan) / s by {
      assert (about - pan) / s * (s * f) == num;
    }
  }

  /**
   * Whenever `raw_zoom` does not clamp, the pivot maps to the same world
   * point before and after.
   */
  lemma RawZoomKeepsPivot(tr: Transform, amount: real, aboutX: real, aboutY: real)
    requires tr.scale != 0.0 && amount != 0.0
    requires ScaleMin <= tr.scale * amount <= ScaleMax
    ensures var r := RawZoom(tr, amount, aboutX, aboutY);
      && ToWorld(r.x, r.scale, aboutX) == ToWorld(tr.x, tr.scale, aboutX)
      && ToWorld(r.y, r.scale, aboutY) == ToWorld(tr.y, tr.scale, aboutY)
  {
    PivotAxis(tr.x, tr.scale, amount, aboutX);
    PivotAxis(tr.y, tr.scale, amount, aboutY);
  }

  /**
   * `zoom` from an in-range scale never lets `raw_zoom` clamp, so the point
   * under the cursor stays under the cursor.
   */
  lemma ZoomKeepsPivot(tr: Transform, requested: real, aboutX: real, aboutY: real)
    requires ScaleInRange(tr) && requested > 0.0
    ensures var r := Zoom(tr, requested, aboutX, aboutY);
      && ToWorld(r.x, r.scale, aboutX) == ToWorld(tr.x, tr.scale, aboutX)
      && ToWorld(r.y, r.scale, aboutY) == ToWorld(tr.y, tr.scale, aboutY)
  {
    RawZoomKeepsPivot(tr, ZoomFactor(tr, requested), aboutX, aboutY);
  }

  /**
   * Called directly with a factor past the bounds, `raw_zoom` clamps the
   * scale but pans with the unclamped factor, and the pivot drifts: from
   * the new camera, a factor of 100 about `(3, 0)` moves the world point
   * under `x = 3` from 3 to 20.
   */
  lemma RawZoomClampMovesPivot()
    ensures ToWorld(NewTransform().x, NewTransform().scale, 3.0) == 3.0
    ensures RawZoom(NewTransform(), 100.0, 3.0, 0.0).scale == ScaleMax
    ensures var r := RawZoom(NewTransform(), 100.0, 3.0, 0.0);
      ToWorld(r.x, r.scale, 3.0) == 20.0
  {
    var r := RawZoom(NewTransform(), 100.0, 3.0, 0.0);
    assert r.scale == 15.0;
    assert r.x == -297.0;
  }
}
