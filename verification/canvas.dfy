/**
 * The canvas controller (AutoCanvas) without its drawing surface: the
 * two-layer component list, the pointer handlers with their back-to-front
 * routing loops, the wheel zoom, and the per-frame tick loop.
 */
module Canvas {
  import opened Common
  import Dynamics
  import opened States
  import opened Elements
  import opened Images
  import opened Camera

  /** The frame rate a new canvas runs at. */
  const DefaultFps: real := 60.0

  /** Press and release closer than this many pixels make a click. */
  const ClickRadius: real := 5.0

  /**
   * `civilian` holds the components added without `render_hoisted`,
   * `priority` those added with it; `fps` is the target frame rate.
   */
  datatype Canvas = Canvas(civilian: seq<Component>, priority: seq<Component>,
                           mouse: Mouse, transform: Transform, fps: Positive)

  /** A new canvas: no components, fresh pointer and camera, 60 frames a second. */
  function NewCanvas(): (cv: Canvas)
    ensures cv.civilian == [] && cv.priority == []
    ensures cv.mouse == NewMouse() && cv.transform == NewTransform()
    ensures cv.fps == DefaultFps
  {
    Canvas([], [], NewMouse(), NewTransform(), DefaultFps)
  }

  /** The period of one frame, `1000 / target_fps` milliseconds. */
  function FrameMs(cv: Canvas): Positive
  {
    1000.0 / cv.fps
  }

  /** The `components` getter: civilian components first, then the hoisted ones. */
  function Components(cv: Canvas): (cs: seq<Component>)
    ensures |cs| == |cv.civilian| + |cv.priority|
    ensures cs[..|cv.civilian|] == cv.civilian && cs[|cv.civilian|..] == cv.priority
  {
    cv.civilian + cv.priority
  }

  /** `addComponent`: the flag read at add time picks the layer; appended at its end. */
  function AddComponent(cv: Canvas, c: Component): (r: Canvas)
    ensures c.hoisted ==> r == cv.(priority := cv.priority + [c])
    ensures !c.hoisted ==> r == cv.(civilian := cv.civilian + [c])
  {
    if c.hoisted then cv.(priority := cv.priority + [c])
    else cv.(civilian := cv.civilian + [c])
  }

  /** Each layer holds only the components whose hoisting flag matches it. */
  predicate Layered(cv: Canvas)
  {
    && (forall i :: 0 <= i < |cv.civilian| ==> !cv.civilian[i].hoisted)
    && (forall i :: 0 <= i < |cv.priority| ==> cv.priority[i].hoisted)
  }

  /** The canvas invariant: layers consistent and the scale within bounds. */
  predicate Valid(cv: Canvas)
  {
    Layered(cv) && ScaleInRange(cv.transform)
  }

  /** A new canvas satisfies the invariant. */
  lemma NewCanvasValid()
    ensures Valid(NewCanvas())
    ensures Components(NewCanvas()) == []
  {
  }

  /**
   * Adding keeps the layers consistent, keeps everything already present
   * in place, and puts the new component last among its own layer.
   */
  lemma AddComponentOrder(cv: Canvas, c: Component)
    requires Layered(cv)
    ensures var r := AddComponent(cv, c);
      && Layered(r)
      && |Components(r)| == |Components(cv)| + 1
      && (c.hoisted ==> Components(r) == Components(cv) + [c])
      && (!c.hoisted ==> Components(r) == cv.civilian + [c] + cv.priority)
  {
  }

  /** In a layered canvas every hoisted component comes after every other one. */
  lemma HoistedLast(cv: Canvas)
    requires Layered(cv)
    ensures forall i, j :: 0 <= i < j < |Components(cv)| && Components(cv)[i].hoisted ==>
      Components(cv)[j].hoisted
  {
    var cs := Components(cv);
    assert forall k :: 0 <= k < |cv.civilian| ==> cs[k] == cv.civilian[k];
    assert forall k :: |cv.civilian| <= k < |cs| ==> cs[k] == cv.priority[k - |cv.civilian|];
  }

  // --------------------------------------------------------------------------
  // Routing

  /**
   * What each routing loop passes as `override` given the running `found`
   * flag. `AsWritten` is the program: `found` itself, which is never
   * `undefined`. `Claimed` is the evidently intended protocol: no override
   * until some component is hit, a forced miss afterwards.
   */
  datatype Policy = AsWritten | Claimed

  function Override(p: Policy, found: bool): (o: Option<bool>)
    ensures p == AsWritten ==> o == Some(found)
    ensures p == Claimed ==> (o == None <==> !found) && (o.Some? ==> !o.value)
  {
    match p
    case AsWritten => Some(found)
    case Claimed => if found then Some(false) else None
  }

  /** The handlers fired by one component's `collide` call. */
  datatype Visit = Visit(index: nat, signals: seq<Signal>)

  /** The list after a routing loop, the final `found`, and the visits in call order. */
  datatype Routed = Routed(components: seq<Component>, found: bool, visits: seq<Visit>)

  /**
   * The loop `for (i = n - 1; i >= 0; i--)` over the first `i` components:
   * component `i-1` goes first, and `found` becomes true once a call
   * reports a hit. Only interaction flags ever change.
   */
  function Route(p: Policy, cs: seq<Component>, tr: Transform, px: real, py: real,
                 ev: EventType, i: nat, found: bool): (r: Routed)
    requires i <= |cs|
    ensures |r.components| == |cs| && |r.visits| == i
    decreases i
  {
    if i == 0 then Routed(cs, found, [])
    else
      var hit := Collide(cs[i - 1], tr, px, py, ev, Override(p, found));
      var rest := Route(p, cs[i - 1 := hit.component], tr, px, py, ev, i - 1, found || hit.detected);
      Routed(rest.components, rest.found, [Visit(i - 1, hit.signals)] + rest.visits)
  }

  /**
   * The routing loop leaves the components at and above `i` alone and only
   * ever changes interaction flags.
   */
  lemma {:induction false} RouteFrame(p: Policy, cs: seq<Component>, tr: Transform, px: real, py: real,
                                      ev: EventType, i: nat, found: bool)
    requires i <= |cs|
    ensures var r := Route(p, cs, tr, px, py, ev, i, found);
      && (forall k :: i <= k < |cs| ==> r.components[k] == cs[k])
      && (forall k :: 0 <= k < |cs| ==>
            r.components[k] == cs[k].(isHovering := r.components[k].isHovering, isClicked := r.components[k].isClicked))
    decreases i
  {
    if i > 0 {
      var hit := Collide(cs[i - 1], tr, px, py, ev, Override(p, found));
      var cs' := cs[i - 1 := hit.component];
      var r := Route(p, cs, tr, px, py, ev, i, found);
      var rest := Route(p, cs', tr, px, py, ev, i - 1, found || hit.detected);
      assert r.components == rest.components by {
        RouteStep(p, cs, tr, px, py, ev, i, found);
      }
      RouteFrame(p, cs', tr, px, py, ev, i - 1, found || hit.detected);
      forall k | 0 <= k < |cs|
        ensures r.components[k] == cs[k].(isHovering := r.components[k].isHovering, isClicked := r.components[k].isClicked)
      {
        if k == i - 1 {
          assert cs'[k] == hit.component;
        } else {
          assert cs'[k] == cs[k];
        }
      }
    }
  }

  /**
   * The routing loop visits components `i-1` down to `0`, once each and in
   * that order, and never forgets a claim.
   */
  lemma {:induction false} RouteOrder(p: Policy, cs: seq<Component>, tr: Transform, px: real, py: real,
                                      ev: EventType, i: nat, found: bool)
    requires i <= |cs|
    ensures var r := Route(p, cs, tr, px, py, ev, i, found);
      && (forall m :: 0 <= m < i ==> r.visits[m].index == i - 1 - m)
      && (found ==> r.found)
    decreases i
  {
    if i > 0 {
      var hit := Collide(cs[i - 1], tr, px, py, ev, Override(p, found));
      RouteStep(p, cs, tr, px, py, ev, i, found);
      RouteOrder(p, cs[i - 1 := hit.component], tr, px, py, ev, i - 1, found || hit.detected);
    }
  }

  /** One turn of the routing loop: the topmost call, then the loop over the rest. */
  lemma RouteStep(p: Policy, cs: seq<Component>, tr: Transform, px: real, py: real,
                  ev: EventType, i: nat, found: bool)
    requires 0 < i <= |cs|
    ensures var hit := Collide(cs[i - 1], tr, px, py, ev, Override(p, found));
            var rest := Route(p, cs[i - 1 := hit.component], tr, px, py, ev, i - 1, found || hit.detected);
            var r := Route(p, cs, tr, px, py, ev, i, found);
      r.components == rest.components && r.found == rest.found && r.visits == [Visit(i - 1, hit.signals)] + rest.visits
  {
  }

  /** As written, the loop never records a hit. */
  lemma {:induction false} AsWrittenFound(cs: seq<Component>, tr: Transform, px: real, py: real,
                                          ev: EventType, i: nat)
    requires i <= |cs|
    ensures !Route(AsWritten, cs, tr, px, py, ev, i, false).found
    decreases i
  {
    if i > 0 {
      var hit := Collide(cs[i - 1], tr, px, py, ev, Some(false));
      RouteStep(AsWritten, cs, tr, px, py, ev, i, false);
      AsWrittenFound(cs[i - 1 := hit.component], tr, px, py, ev, i - 1);
    }
  }

  /** `AsWrittenNeverDetects` for one component `k`. */
  lemma {:induction false} AsWrittenAt(cs: seq<Component>, tr: Transform, px: real, py: real,
                                       ev: EventType, i: nat, k: nat)
    requires k < i <= |cs|
    ensures var r := Route(AsWritten, cs, tr, px, py, ev, i, false);
            var hit := Collide(cs[k], tr, px, py, ev, Some(false));
      r.components[k] == hit.component && r.visits[i - 1 - k].signals == hit.signals
    decreases i, 1
  {
    var hit := Collide(cs[i - 1], tr, px, py, ev, Some(false));
    var cs' := cs[i - 1 := hit.component];
    if k == i - 1 {
      RouteStep(AsWritten, cs, tr, px, py, ev, i, false);
      RouteFrame(AsWritten, cs', tr, px, py, ev, i - 1, false);
    } else {
      AsWrittenBelow(cs, tr, px, py, ev, i, k);
    }
  }

  /** A lower component sees the rest of the loop, still with `found` false. */
  lemma {:induction false} AsWrittenBelow(cs: seq<Component>, tr: Transform, px: real, py: real,
                                          ev: EventType, i: nat, k: nat)
    requires k < i - 1 && i <= |cs|
    ensures var r := Route(AsWritten, cs, tr, px, py, ev, i, false);
            var hit := Collide(cs[k], tr, px, py, ev, Some(false));
      r.components[k] == hit.component && r.visits[i - 1 - k].signals == hit.signals
    decreases i, 0
  {
    var top := Collide(cs[i - 1], tr, px, py, ev, Some(false));
    var cs' := cs[i - 1 := top.component];
    var r := Route(AsWritten, cs, tr, px, py, ev, i, false);
    var rest := Route(AsWritten, cs', tr, px, py, ev, i - 1, false);
    assert r.components == rest.components && r.visits == [Visit(i - 1, top.signals)] + rest.visits by {
      RouteStep(AsWritten, cs, tr, px, py, ev, i, false);
      assert !top.detected;
    }
    var hit := Collide(cs[k], tr, px, py, ev, Some(false));
    assert rest.components[k] == hit.component && rest.visits[i - 2 - k].signals == hit.signals by {
      assert cs'[k] == cs[k];
      AsWrittenAt(cs', tr, px, py, ev, i - 1, k);
    }
    LaterVisit(r, rest, Visit(i - 1, top.signals), k, i, hit.component, hit.signals);
  }

  /**
   * As written, every component is told `override = false`: nothing is
   * ever detected, `found` stays false, and each component reacts as to a
   * miss.
   */
  lemma AsWrittenNeverDetects(cs: seq<Component>, tr: Transform, px: real, py: real,
                              ev: EventType, i: nat)
    requires i <= |cs|
    ensures var r := Route(AsWritten, cs, tr, px, py, ev, i, false);
      && !r.found
      && (forall k :: 0 <= k < i ==> r.components[k] == Collide(cs[k], tr, px, py, ev, Some(false)).component)
      && (forall k :: 0 <= k < i ==> r.visits[i - 1 - k].signals == Collide(cs[k], tr, px, py, ev, Some(false)).signals)
  {
    AsWrittenFound(cs, tr, px, py, ev, i);
    forall k | 0 <= k < i
      ensures var r := Route(AsWritten, cs, tr, px, py, ev, i, false);
        && r.components[k] == Collide(cs[k], tr, px, py, ev, Some(false)).component
        && r.visits[i - 1 - k].signals == Collide(cs[k], tr, px, py, ev, Some(false)).signals
    {
      AsWrittenAt(cs, tr, px, py, ev, i, k);
    }
  }

  /** A forced miss can only stop hovering or release a press. */
  lemma MissSignals(c: Component, tr: Transform, px: real, py: real, ev: EventType)
    ensures forall s :: s in Collide(c, tr, px, py, ev, Some(false)).signals ==>
      s == OnHoverStop || s == OnRelease
  {
    if c.shape.Picture? {
      SignalsTrackState(c, ev, false);
    }
  }

  /** Whether some component with index in `[lo, hi)` hit-tests at the point. */
  predicate HitAmong(cs: seq<Component>, tr: Transform, px: real, py: real, lo: nat, hi: nat)
    requires hi <= |cs|
  {
    exists j :: lo <= j < hi && Hits(cs[j], tr, px, py)
  }

  /** The hit tests over a range only look at the components in it. */
  lemma HitAmongFrame(cs: seq<Component>, cs': seq<Component>, tr: Transform, px: real, py: real, lo: nat, hi: nat)
    requires hi <= |cs| && hi <= |cs'|
    requires forall j :: lo <= j < hi ==> cs'[j] == cs[j]
    ensures HitAmong(cs', tr, px, py, lo, hi) == HitAmong(cs, tr, px, py, lo, hi)
  {
    if HitAmong(cs, tr, px, py, lo, hi) {
      var j :| lo <= j < hi && Hits(cs[j], tr, px, py);
      assert Hits(cs'[j], tr, px, py);
    }
  }

  /** Extending a range by its top element adds that element's hit test. */
  lemma HitAmongTop(cs: seq<Component>, tr: Transform, px: real, py: real, lo: nat, hi: nat)
    requires lo < hi <= |cs|
    ensures HitAmong(cs, tr, px, py, lo, hi) == (HitAmong(cs, tr, px, py, lo, hi - 1) || Hits(cs[hi - 1], tr, px, py))
  {
  }

  /** The first call of the intended loop: its verdict is the component's own hit unless already claimed. */
  lemma ClaimedFirst(c: Component, tr: Transform, px: real, py: real, ev: EventType, found: bool)
    ensures var hit := Collide(c, tr, px, py, ev, Override(Claimed, found));
      found || hit.detected <==> found || Hits(c, tr, px, py)
  {
  }

  /**
   * The override the intended loop hands to component `k` of the first `i`:
   * a forced miss when the event was claimed before the loop or by a
   * component above `k`, none otherwise.
   */
  function ClaimOverride(cs: seq<Component>, tr: Transform, px: real, py: real,
                         found: bool, k: nat, i: nat): Option<bool>
    requires k < i <= |cs|
  {
    if found || HitAmong(cs, tr, px, py, k + 1, i) then Some(false) else None
  }

  /** The override of a lower component is unaffected by the call on component `i-1`. */
  lemma ClaimOverrideShift(cs: seq<Component>, c: Component, tr: Transform, px: real, py: real,
                           found: bool, k: nat, i: nat)
    requires k < i - 1 && i <= |cs|
    ensures ClaimOverride(cs[i - 1 := c], tr, px, py, found || Hits(cs[i - 1], tr, px, py), k, i - 1)
         == ClaimOverride(cs, tr, px, py, found, k, i)
  {
    HitAmongFrame(cs, cs[i - 1 := c], tr, px, py, k + 1, i - 1);
    HitAmongTop(cs, tr, px, py, k + 1, i);
  }

  /** After the topmost call, a lower component's override is the one it had before. */
  lemma ClaimOverrideStep(cs: seq<Component>, tr: Transform, px: real, py: real, ev: EventType,
                          found: bool, k: nat, i: nat)
    requires k < i - 1 && i <= |cs|
    ensures var hit := Collide(cs[i - 1], tr, px, py, ev, Override(Claimed, found));
      ClaimOverride(cs[i - 1 := hit.component], tr, px, py, found || hit.detected, k, i - 1)
        == ClaimOverride(cs, tr, px, py, found, k, i)
  {
    var hit := Collide(cs[i - 1], tr, px, py, ev, Override(Claimed, found));
    ClaimedFirst(cs[i - 1], tr, px, py, ev, found);
    ClaimOverrideShift(cs, hit.component, tr, px, py, found, k, i);
  }

  /** Under the intended protocol the loop ends claimed exactly when some component hits. */
  lemma {:induction false} ClaimedFound(cs: seq<Component>, tr: Transform, px: real, py: real,
                                        ev: EventType, i: nat, found: bool)
    requires i <= |cs|
    ensures Route(Claimed, cs, tr, px, py, ev, i, found).found <==> found || HitAmong(cs, tr, px, py, 0, i)
    decreases i
  {
    if i > 0 {
      var hit := Collide(cs[i - 1], tr, px, py, ev, Override(Claimed, found));
      var cs' := cs[i - 1 := hit.component];
      ClaimedFirst(cs[i - 1], tr, px, py, ev, found);
      ClaimedFound(cs', tr, px, py, ev, i - 1, found || hit.detected);
      HitAmongFrame(cs, cs', tr, px, py, 0, i - 1);
      HitAmongTop(cs, tr, px, py, 0, i);
    }
  }

  /** `ClaimedRouting` for one component `k`. */
  lemma {:induction false} ClaimedAt(cs: seq<Component>, tr: Transform, px: real, py: real,
                                     ev: EventType, i: nat, found: bool, k: nat)
    requires k < i <= |cs|
    ensures var r := Route(Claimed, cs, tr, px, py, ev, i, found);
            var hit := Collide(cs[k], tr, px, py, ev, ClaimOverride(cs, tr, px, py, found, k, i));
      r.components[k] == hit.component && r.visits[i - 1 - k].signals == hit.signals
    decreases i, 1
  {
    if k == i - 1 {
      ClaimedAtTop(cs, tr, px, py, ev, i, found);
    } else {
      ClaimedAtBelow(cs, tr, px, py, ev, i, found, k);
    }
  }

  /** The first component called is the topmost, with the incoming override. */
  lemma ClaimedAtTop(cs: seq<Component>, tr: Transform, px: real, py: real,
                     ev: EventType, i: nat, found: bool)
    requires 0 < i <= |cs|
    ensures var r := Route(Claimed, cs, tr, px, py, ev, i, found);
            var hit := Collide(cs[i - 1], tr, px, py, ev, ClaimOverride(cs, tr, px, py, found, i - 1, i));
      r.components[i - 1] == hit.component && r.visits[0].signals == hit.signals
  {
    var hit := Collide(cs[i - 1], tr, px, py, ev, Override(Claimed, found));
    RouteStep(Claimed, cs, tr, px, py, ev, i, found);
    RouteFrame(Claimed, cs[i - 1 := hit.component], tr, px, py, ev, i - 1, found || hit.detected);
    assert ClaimOverride(cs, tr, px, py, found, i - 1, i) == Override(Claimed, found);
  }

  /** A lower component sees the rest of the loop, started after the topmost call. */
  lemma {:induction false} ClaimedAtBelow(cs: seq<Component>, tr: Transform, px: real, py: real,
                                          ev: EventType, i: nat, found: bool, k: nat)
    requires k < i - 1 && i <= |cs|
    ensures var r := Route(Claimed, cs, tr, px, py, ev, i, found);
            var hit := Collide(cs[k], tr, px, py, ev, ClaimOverride(cs, tr, px, py, found, k, i));
      r.components[k] == hit.component && r.visits[i - 1 - k].signals == hit.signals
    decreases i, 0
  {
    var top := Collide(cs[i - 1], tr, px, py, ev, Override(Claimed, found));
    var cs' := cs[i - 1 := top.component];
    var found' := found || top.detected;
    var r := Route(Claimed, cs, tr, px, py, ev, i, found);
    var rest := Route(Claimed, cs', tr, px, py, ev, i - 1, found');
    assert r.components == rest.components && r.visits == [Visit(i - 1, top.signals)] + rest.visits by {
      RouteStep(Claimed, cs, tr, px, py, ev, i, found);
    }
    var hit := Collide(cs[k], tr, px, py, ev, ClaimOverride(cs, tr, px, py, found, k, i));
    assert rest.components[k] == hit.component && rest.visits[i - 2 - k].signals == hit.signals by {
      ClaimOverrideStep(cs, tr, px, py, ev, found, k, i);
      assert cs'[k] == cs[k];
      ClaimedAt(cs', tr, px, py, ev, i - 1, found', k);
    }
    LaterVisit(r, rest, Visit(i - 1, top.signals), k, i, hit.component, hit.signals);
  }

  /** What the rest of the loop recorded for component `k` survives the topmost visit in front. */
  lemma LaterVisit(r: Routed, rest: Routed, first: Visit, k: nat, i: nat, c: Component, signals: seq<Signal>)
    requires k < i - 1 && |rest.visits| == i - 1 && k < |rest.components|
    requires r.components == rest.components && r.visits == [first] + rest.visits
    requires rest.components[k] == c && rest.visits[i - 2 - k].signals == signals
    ensures r.components[k] == c && r.visits[i - 1 - k].signals == signals
  {
  }

  /**
   * Under the intended protocol each component is left to its own hit test
   * exactly when nothing above it (and nothing before the loop) claimed the
   * event, and is told to miss otherwise; the visit log records what each
   * of those calls fired.
   */
  lemma ClaimedRouting(cs: seq<Component>, tr: Transform, px: real, py: real,
                       ev: EventType, i: nat, found: bool)
    requires i <= |cs|
    ensures var r := Route(Claimed, cs, tr, px, py, ev, i, found);
      forall k :: 0 <= k < i ==>
        var hit := Collide(cs[k], tr, px, py, ev, ClaimOverride(cs, tr, px, py, found, k, i));
        r.components[k] == hit.component && r.visits[i - 1 - k].signals == hit.signals
  {
    forall k | 0 <= k < i
      ensures var r := Route(Claimed, cs, tr, px, py, ev, i, found);
        var hit := Collide(cs[k], tr, px, py, ev, ClaimOverride(cs, tr, px, py, found, k, i));
        r.components[k] == hit.component && r.visits[i - 1 - k].signals == hit.signals
    {
      ClaimedAt(cs, tr, px, py, ev, i, found, k);
    }
  }

  /**
   * With the intended protocol only the topmost component under the point
   * can fire `on_hover`, `on_press` or `on_click`: every visit that fires
   * one of them is to a component that hits while none above it does.
   */
  lemma ClaimedTopmostWins(cs: seq<Component>, tr: Transform, px: real, py: real, ev: EventType)
    ensures var r := Route(Claimed, cs, tr, px, py, ev, |cs|, false);
      forall m :: 0 <= m < |cs| && (OnHover in r.visits[m].signals || OnPress in r.visits[m].signals ||
                                    OnClick in r.visits[m].signals) ==>
        var k := |cs| - 1 - m;
        Hits(cs[k], tr, px, py) && !HitAmong(cs, tr, px, py, k + 1, |cs|)
  {
    forall k | 0 <= k < |cs|
      ensures var ss := Route(Claimed, cs, tr, px, py, ev, |cs|, false).visits[|cs| - 1 - k].signals;
        (OnHover in ss || OnPress in ss || OnClick in ss) ==>
          Hits(cs[k], tr, px, py) && !HitAmong(cs, tr, px, py, k + 1, |cs|)
    {
      ClaimedFiresAt(cs, tr, px, py, ev, k);
    }
  }

  /** `ClaimedTopmostWins` for the visit to component `k`. */
  lemma ClaimedFiresAt(cs: seq<Component>, tr: Transform, px: real, py: real, ev: EventType, k: nat)
    requires k < |cs|
    ensures var ss := Route(Claimed, cs, tr, px, py, ev, |cs|, false).visits[|cs| - 1 - k].signals;
      (OnHover in ss || OnPress in ss || OnClick in ss) ==>
        Hits(cs[k], tr, px, py) && !HitAmong(cs, tr, px, py, k + 1, |cs|)
  {
    var o := ClaimOverride(cs, tr, px, py, false, k, |cs|);
    var hit := Collide(cs[k], tr, px, py, ev, o);
    ClaimedAt(cs, tr, px, py, ev, |cs|, false, k);
    if OnHover in hit.signals || OnPress in hit.signals || OnClick in hit.signals {
      MissSignals(cs[k], tr, px, py, ev);
      assert o == None;
      if cs[k].shape.Picture? {
        SignalsTrackState(cs[k], ev, Inside(cs[k], tr, px, py));
      }
    }
  }

  // --------------------------------------------------------------------------
  // Handlers

  /** Writes a routed list back into the two layers it was read from. */
  function Scatter(cv: Canvas, cs: seq<Component>): (r: Canvas)
    requires |cs| == |Components(cv)|
    ensures Components(r) == cs
    ensures |r.civilian| == |cv.civilian| && |r.priority| == |cv.priority|
    ensures r.mouse == cv.mouse && r.transform == cv.transform && r.fps == cv.fps
  {
    var n := |cv.civilian|;
    assert cs == cs[..n] + cs[n..];
    cv.(civilian := cs[..n], priority := cs[n..])
  }

  /** A handler's new canvas and the handlers fired, in call order. */
  datatype Reaction = Reaction(canvas: Canvas, visits: seq<Visit>)

  /**
   * The routing loop shared by the three pointer handlers: the current
   * components, back to front, each called with the override the policy
   * derives from the running `found` flag, written back into their layers.
   * The program is the `AsWritten` policy.
   */
  function Dispatch(p: Policy, cv: Canvas, px: real, py: real, ev: EventType): (r: Reaction)
    ensures r.canvas.mouse == cv.mouse && r.canvas.transform == cv.transform && r.canvas.fps == cv.fps
    ensures |r.canvas.civilian| == |cv.civilian| && |r.canvas.priority| == |cv.priority|
    ensures |r.visits| == |Components(cv)|
  {
    var cs := Components(cv);
    var routed := Route(p, cs, cv.transform, px, py, ev, |cs|, false);
    Reaction(Scatter(cv, routed.components), routed.visits)
  }

  /**
   * A routing pass visits the components back to front: the `m`-th visit
   * is to index `n-1-m`, so each of the `n` components is visited once.
   */
  lemma DispatchOrder(p: Policy, cv: Canvas, px: real, py: real, ev: EventType)
    ensures var r := Dispatch(p, cv, px, py, ev);
      forall m :: 0 <= m < |r.visits| ==> r.visits[m].index == |Components(cv)| - 1 - m
  {
    var cs := Components(cv);
    RouteVisitOrder(p, cs, cv.transform, px, py, ev);
    assert Dispatch(p, cv, px, py, ev).visits == Route(p, cs, cv.transform, px, py, ev, |cs|, false).visits;
  }

  /** `RouteOrder` for a whole list, started unclaimed. */
  lemma RouteVisitOrder(p: Policy, cs: seq<Component>, tr: Transform, px: real, py: real, ev: EventType)
    ensures forall m :: 0 <= m < |cs| ==> Route(p, cs, tr, px, py, ev, |cs|, false).visits[m].index == |cs| - 1 - m
  {
    RouteOrder(p, cs, tr, px, py, ev, |cs|, false);
  }

  /**
   * As written, every component gets the forced-miss reaction, so nothing
   * but hover stops and releases fires, whatever lies under the pointer.
   */
  lemma DispatchForcedMiss(cv: Canvas, px: real, py: real, ev: EventType)
    ensures var r := Dispatch(AsWritten, cv, px, py, ev);
      && (forall k :: 0 <= k < |Components(cv)| ==>
            Components(r.canvas)[k] == Collide(Components(cv)[k], cv.transform, px, py, ev, Some(false)).component)
      && (forall m, s :: 0 <= m < |r.visits| && s in r.visits[m].signals ==> s == OnHoverStop || s == OnRelease)
  {
    var cs := Components(cv);
    var routed := Route(AsWritten, cs, cv.transform, px, py, ev, |cs|, false);
    AsWrittenNeverDetects(cs, cv.transform, px, py, ev, |cs|);
    forall m, s | 0 <= m < |routed.visits| && s in routed.visits[m].signals
      ensures s == OnHoverStop || s == OnRelease
    {
      MissSignals(cs[|cs| - 1 - m], cv.transform, px, py, ev);
    }
  }

  /**
   * With the intended protocol, a handler fires `on_hover`, `on_press` or
   * `on_click` only at the topmost component under the pointer.
   */
  lemma DispatchTopmostWins(cv: Canvas, px: real, py: real, ev: EventType)
    ensures var r := Dispatch(Claimed, cv, px, py, ev);
            var cs := Components(cv);
      forall m :: 0 <= m < |r.visits| && (OnHover in r.visits[m].signals || OnPress in r.visits[m].signals ||
                                          OnClick in r.visits[m].signals) ==>
        Hits(cs[|cs| - 1 - m], cv.transform, px, py) && !HitAmong(cs, cv.transform, px, py, |cs| - m, |cs|)
  {
    var cs := Components(cv);
    ClaimedTopmostWins(cs, cv.transform, px, py, ev);
    assert Dispatch(Claimed, cv, px, py, ev).visits == Route(Claimed, cs, cv.transform, px, py, ev, |cs|, false).visits;
  }

  /** Routing changes only interaction flags, so the layers stay consistent. */
  lemma DispatchLayered(p: Policy, cv: Canvas, px: real, py: real, ev: EventType)
    requires Layered(cv)
    ensures Layered(Dispatch(p, cv, px, py, ev).canvas)
  {
    var cs := Components(cv);
    var n := |cv.civilian|;
    var routed := Route(p, cs, cv.transform, px, py, ev, |cs|, false);
    assert forall k :: 0 <= k < |cs| ==> routed.components[k].hoisted == cs[k].hoisted by {
      RouteFrame(p, cs, cv.transform, px, py, ev, |cs|, false);
    }
    var r := Dispatch(p, cv, px, py, ev).canvas;
    assert Components(r) == routed.components;
    forall k | 0 <= k < |r.civilian|
      ensures !r.civilian[k].hoisted
    {
      assert r.civilian[k] == Components(r)[k] && cs[k] == cv.civilian[k];
    }
    forall k | 0 <= k < |r.priority|
      ensures r.priority[k].hoisted
    {
      assert r.priority[k] == Components(r)[n + k] && cs[n + k] == cv.priority[k];
    }
  }

  /**
   * `mousedown`: marks the pointer pressed at the event position, snapshots
   * the pan for dragging, then routes PRESS.
   */
  function MouseDown(p: Policy, cv: Canvas, ex: real, ey: real): (r: Reaction)
    ensures r.canvas.mouse == cv.mouse.(pressed := true, pressedX := ex, pressedY := ey)
    ensures r.canvas.transform == cv.transform.(bufferedX := cv.transform.x, bufferedY := cv.transform.y)
    ensures r == Dispatch(p, cv.(mouse := r.canvas.mouse, transform := r.canvas.transform), ex, ey, Press)
  {
    var m := cv.mouse.(pressed := true, pressedX := ex, pressedY := ey);
    var tr := cv.transform.(bufferedX := cv.transform.x, bufferedY := cv.transform.y);
    Dispatch(p, cv.(mouse := m, transform := tr), ex, ey, Press)
  }

  /**
   * The release classification: a click when the squared distance from
   * the press point is below `ClickRadius` squared, a release otherwise.
   */
  function Classify(m: Mouse, ex: real, ey: real): (ev: EventType)
    ensures ev == Click || ev == Release
  {
    var dx := m.pressedX - ex;
    var dy := m.pressedY - ey;
    if dx * dx + dy * dy < ClickRadius * ClickRadius then Click else Release
  }

  /**
   * Comparing squares is comparing distances: for the Euclidean distance
   * `dist` between press and release, the event is a click exactly when
   * `dist < 5`.
   */
  lemma ClickWithinRadius(m: Mouse, ex: real, ey: real, dist: real)
    requires dist >= 0.0
    requires dist * dist == (m.pressedX - ex) * (m.pressedX - ex) + (m.pressedY - ey) * (m.pressedY - ey)
    ensures Classify(m, ex, ey) == Click <==> dist < ClickRadius
  {
    if dist < ClickRadius {
      assert dist * dist <= dist * ClickRadius;
      assert dist * ClickRadius < ClickRadius * ClickRadius;
      assert dist * dist < ClickRadius * ClickRadius;
    } else {
      assert dist * dist >= dist * ClickRadius;
      assert dist * ClickRadius >= ClickRadius * ClickRadius;
      assert dist * dist >= ClickRadius * ClickRadius;
    }
  }

  /**
   * `mouseup`: the pointer is no longer pressed, the camera is untouched,
   * and CLICK or RELEASE is routed depending on how far it moved since the
   * press.
   */
  function MouseUp(p: Policy, cv: Canvas, ex: real, ey: real): (r: Reaction)
    ensures !r.canvas.mouse.pressed
    ensures r.canvas.mouse == cv.mouse.(pressed := false)
    ensures r.canvas.transform == cv.transform
    ensures r == Dispatch(p, cv.(mouse := r.canvas.mouse), ex, ey, Classify(cv.mouse, ex, ey))
  {
    var m := if cv.mouse.pressed then cv.mouse.(pressed := false) else cv.mouse;
    var ev := Classify(cv.mouse, ex, ey);
    Dispatch(p, cv.(mouse := m), ex, ey, ev)
  }

  /**
   * `mousemove`: records the position; while pressed, the pan becomes the
   * snapshot plus the displacement since the press; then routes HOVER.
   */
  function MouseMove(p: Policy, cv: Canvas, ex: real, ey: real): (r: Reaction)
    ensures r.canvas.mouse == cv.mouse.(x := ex, y := ey)
    ensures cv.mouse.pressed ==>
      r.canvas.transform == cv.transform.(x := cv.transform.bufferedX + (ex - cv.mouse.pressedX),
                                          y := cv.transform.bufferedY + (ey - cv.mouse.pressedY))
    ensures !cv.mouse.pressed ==> r.canvas.transform == cv.transform
    ensures r == Dispatch(p, cv.(mouse := r.canvas.mouse, transform := r.canvas.transform), ex, ey, Hover)
  {
    var m := cv.mouse.(x := ex, y := ey);
    var tr := if m.pressed then
        cv.transform.(x := cv.transform.bufferedX + ex - m.pressedX,
                      y := cv.transform.bufferedY + ey - m.pressedY)
      else cv.transform;
    Dispatch(p, cv.(mouse := m, transform := tr), ex, ey, Hover)
  }

  /** A run of `mousemove` events, one per position, in order. */
  function MoveAll(p: Policy, cv: Canvas, moves: seq<(real, real)>): Canvas
    decreases |moves|
  {
    if moves == [] then cv
    else MoveAll(p, MouseMove(p, cv, moves[0].0, moves[0].1).canvas, moves[1..])
  }

  /**
   * Dragging is relative to the press: after a `mousedown` and any
   * non-empty run of moves, the pan is the pan at press time plus the
   * displacement from the press point to the last position, however many
   * moves came in between.
   */
  lemma DragIsRelative(p: Policy, cv: Canvas, px: real, py: real, moves: seq<(real, real)>)
    requires |moves| > 0
    ensures var r := MoveAll(p, MouseDown(p, cv, px, py).canvas, moves);
            var last := moves[|moves| - 1];
      && r.transform.x == cv.transform.x + (last.0 - px)
      && r.transform.y == cv.transform.y + (last.1 - py)
      && r.transform.scale == cv.transform.scale
      && r.mouse.pressed
  {
    var c := MouseDown(p, cv, px, py).canvas;
    DragMoves(p, c, moves);
  }

  lemma {:induction false} DragMoves(p: Policy, c: Canvas, moves: seq<(real, real)>)
    requires c.mouse.pressed && |moves| > 0
    ensures var r := MoveAll(p, c, moves);
            var last := moves[|moves| - 1];
      && r.mouse.pressed && r.mouse.pressedX == c.mouse.pressedX && r.mouse.pressedY == c.mouse.pressedY
      && r.transform.bufferedX == c.transform.bufferedX && r.transform.bufferedY == c.transform.bufferedY
      && r.transform.scale == c.transform.scale
      && r.transform.x == c.transform.bufferedX + (last.0 - c.mouse.pressedX)
      && r.transform.y == c.transform.bufferedY + (last.1 - c.mouse.pressedY)
    decreases |moves|
  {
    var next := MouseMove(p, c, moves[0].0, moves[0].1).canvas;
    if |moves| > 1 {
      DragMoves(p, next, moves[1..]);
      assert moves[1..][|moves[1..]| - 1] == moves[|moves| - 1];
    }
  }

  /** The wheel handler: zoom about the cursor with the requested factor. */
  function Wheel(cv: Canvas, requested: real, ex: real, ey: real): (r: Canvas)
    requires cv.transform.scale != 0.0
    ensures ScaleInRange(r.transform)
    ensures r == cv.(transform := Zoom(cv.transform, requested, ex, ey))
  {
    cv.(transform := Zoom(cv.transform, requested, ex, ey))
  }

  /** Every component ticked once with the same `dt`, order kept. */
  function TickAll(cs: seq<Component>, dt: real): (r: seq<Component>)
    ensures |r| == |cs|
    ensures forall k :: 0 <= k < |cs| ==> r[k] == Images.Tick(cs[k], dt)
    decreases |cs|
  {
    if cs == [] then [] else [Images.Tick(cs[0], dt)] + TickAll(cs[1..], dt)
  }

  /** Ticking a list part by part is ticking the whole list. */
  lemma {:induction false} TickAllConcat(a: seq<Component>, b: seq<Component>, dt: real)
    ensures TickAll(a + b, dt) == TickAll(a, dt) + TickAll(b, dt)
    decreases |a|
  {
    if a == [] {
      assert a + b == b;
    } else {
      assert (a + b)[1..] == a[1..] + b;
      TickAllConcat(a[1..], b, dt);
    }
  }

  /** Ticking moves animations only; the hoisting flag is untouched. */
  lemma TickAllKeepsHoisted(cs: seq<Component>, dt: real)
    ensures forall k :: 0 <= k < |cs| ==> TickAll(cs, dt)[k].hoisted == cs[k].hoisted
  {
  }

  /**
   * The tick loop of `refresh`: every component, civilian then hoisted,
   * ticks once with the frame period; pointer and camera are untouched.
   */
  function Refresh(cv: Canvas): (r: Canvas)
    ensures Components(r) == TickAll(Components(cv), FrameMs(cv))
    ensures |r.civilian| == |cv.civilian| && |r.priority| == |cv.priority|
    ensures r.mouse == cv.mouse && r.transform == cv.transform && r.fps == cv.fps
  {
    var dt := FrameMs(cv);
    TickAllConcat(cv.civilian, cv.priority, dt);
    cv.(civilian := TickAll(cv.civilian, dt), priority := TickAll(cv.priority, dt))
  }

  /** Every component's default `on_resize`, in order. */
  function ResizeAll(cs: seq<Component>, eval: Dynamics.Eval): (r: seq<Component>)
    ensures |r| == |cs|
    ensures forall k :: 0 <= k < |cs| ==> r[k] == OnResize(cs[k], eval)
    decreases |cs|
  {
    if cs == [] then [] else [OnResize(cs[0], eval)] + ResizeAll(cs[1..], eval)
  }

  /** Resizing a list part by part is resizing the whole list. */
  lemma {:induction false} ResizeAllConcat(a: seq<Component>, b: seq<Component>, eval: Dynamics.Eval)
    ensures ResizeAll(a + b, eval) == ResizeAll(a, eval) + ResizeAll(b, eval)
    decreases |a|
  {
    if a == [] {
      assert a + b == b;
    } else {
      assert (a + b)[1..] == a[1..] + b;
      ResizeAllConcat(a[1..], b, eval);
    }
  }

  /**
   * The resize handler: one `refresh` (so one tick of every component),
   * then every component's default `on_resize`, which re-evaluates bound
   * positions in the new surroundings.
   */
  function Resize(cv: Canvas, eval: Dynamics.Eval): (r: Canvas)
    ensures Components(r) == ResizeAll(Components(Refresh(cv)), eval)
    ensures |r.civilian| == |cv.civilian| && |r.priority| == |cv.priority|
    ensures r.mouse == cv.mouse && r.transform == cv.transform && r.fps == cv.fps
  {
    var t := Refresh(cv);
    ResizeAllConcat(t.civilian, t.priority, eval);
    t.(civilian := ResizeAll(t.civilian, eval), priority := ResizeAll(t.priority, eval))
  }

  /** Ticking and resizing keep the layers consistent. */
  lemma RefreshResizeLayered(cv: Canvas, eval: Dynamics.Eval)
    requires Layered(cv)
    ensures Layered(Refresh(cv))
    ensures Layered(Resize(cv, eval))
  {
    var dt := FrameMs(cv);
    TickAllKeepsHoisted(cv.civilian, dt);
    TickAllKeepsHoisted(cv.priority, dt);
  }

  /** Every handler keeps the canvas invariant. */
  lemma HandlersKeepValid(p: Policy, cv: Canvas, c: Component, ex: real, ey: real, requested: real, eval: Dynamics.Eval)
    requires Valid(cv)
    ensures Valid(AddComponent(cv, c))
    ensures Valid(MouseDown(p, cv, ex, ey).canvas)
    ensures Valid(MouseMove(p, cv, ex, ey).canvas)
    ensures Valid(MouseUp(p, cv, ex, ey).canvas)
    ensures Valid(Wheel(cv, requested, ex, ey))
    ensures Valid(Refresh(cv))
    ensures Valid(Resize(cv, eval))
  {
    assert Valid(AddComponent(cv, c)) by {
      AddComponentOrder(cv, c);
    }
    assert Valid(MouseDown(p, cv, ex, ey).canvas) by {
      var down := MouseDown(p, cv, ex, ey).canvas;
      DispatchLayered(p, cv.(mouse := down.mouse, transform := down.transform), ex, ey, Press);
    }
    assert Valid(MouseMove(p, cv, ex, ey).canvas) by {
      var moved := MouseMove(p, cv, ex, ey).canvas;
      DispatchLayered(p, cv.(mouse := moved.mouse, transform := moved.transform), ex, ey, Hover);
    }
    assert Valid(MouseUp(p, cv, ex, ey).canvas) by {
      var up := MouseUp(p, cv, ex, ey).canvas;
      DispatchLayered(p, cv.(mouse := up.mouse), ex, ey, Classify(cv.mouse, ex, ey));
    }
    RefreshResizeLayered(cv, eval);
  }

  /**
   * As written, the pointer handlers fire no `on_hover`, `on_press` or
   * `on_click` at all, whatever lies under the pointer.
   */
  lemma HandlersNeverFireHits(cv: Canvas, ex: real, ey: real)
    ensures forall m, s :: 0 <= m < |MouseDown(AsWritten, cv, ex, ey).visits| && s in MouseDown(AsWritten, cv, ex, ey).visits[m].signals ==>
      s == OnHoverStop || s == OnRelease
    ensures forall m, s :: 0 <= m < |MouseMove(AsWritten, cv, ex, ey).visits| && s in MouseMove(AsWritten, cv, ex, ey).visits[m].signals ==>
      s == OnHoverStop || s == OnRelease
    ensures forall m, s :: 0 <= m < |MouseUp(AsWritten, cv, ex, ey).visits| && s in MouseUp(AsWritten, cv, ex, ey).visits[m].signals ==>
      s == OnHoverStop || s == OnRelease
  {
    var down := MouseDown(AsWritten, cv, ex, ey).canvas;
    DispatchForcedMiss(cv.(mouse := down.mouse, transform := down.transform), ex, ey, Press);
    var moved := MouseMove(AsWritten, cv, ex, ey).canvas;
    DispatchForcedMiss(cv.(mouse := moved.mouse, transform := moved.transform), ex, ey, Hover);
    var up := MouseUp(AsWritten, cv, ex, ey).canvas;
    DispatchForcedMiss(cv.(mouse := up.mouse), ex, ey, Classify(cv.mouse, ex, ey));
  }

  /**
   * As written, pressing on a canvas holding a single component fires
   * nothing and leaves the component exactly as it was, wherever the press
   * lands and whatever its state.
   */
  lemma LonePressIgnored(c: Component, px: real, py: real)
    ensures var r := MouseDown(AsWritten, AddComponent(NewCanvas(), c), px, py);
      r.visits == [Visit(0, [])] && Components(r.canvas) == [c]
  {
    var cv := AddComponent(NewCanvas(), c);
    var r := MouseDown(AsWritten, cv, px, py);
    var cv1 := cv.(mouse := r.canvas.mouse, transform := r.canvas.transform);
    var cs := Components(cv1);
    assert cs == [c];
    var tr := cv1.transform;
    var hit := Collide(c, tr, px, py, Press, Some(false));
    assert hit.signals == [] && hit.component == c;
    RouteStep(AsWritten, cs, tr, px, py, Press, 1, false);
    assert cs[0 := hit.component] == cs;
    var routed := Route(AsWritten, cs, tr, px, py, Press, 1, false);
    assert routed.visits == [Visit(0, [])];
    assert Components(r.canvas) == routed.components;
  }

  /**
   * The discrepancy on a concrete input: one image spanning `[0,10] x
   * [0,10]` on a new canvas, pressed at its centre. The hit test says the
   * point is inside, yet as written `on_press` does not fire and the image
   * is not marked pressed.
   */
  lemma PressInsideNeverFires(img: Component)
    requires img == NewImage(0.0, 0.0, 10.0, 10.0)
    ensures Hits(img, NewTransform(), 5.0, 5.0)
    ensures var r := MouseDown(AsWritten, AddComponent(NewCanvas(), img), 5.0, 5.0);
      r.visits == [Visit(0, [])] && Components(r.canvas) == [img] && !img.isClicked
  {
    UnitBoxExample(img);
    LonePressIgnored(img, 5.0, 5.0);
  }

  /**
   * Under the intended protocol, pressing inside the single unpressed
   * component of a new canvas fires `on_press` and marks it pressed.
   */
  lemma LonePressClaimed(c: Component, px: real, py: real)
    requires !c.isClicked && Hits(c, NewTransform(), px, py)
    ensures var r := MouseDown(Claimed, AddComponent(NewCanvas(), c), px, py);
      r.visits == [Visit(0, [OnPress])] && Components(r.canvas) == [c.(isClicked := true)]
  {
    var cv := AddComponent(NewCanvas(), c);
    var r := MouseDown(Claimed, cv, px, py);
    var cv1 := cv.(mouse := r.canvas.mouse, transform := r.canvas.transform);
    var cs := Components(cv1);
    assert cs == [c];
    var tr := cv1.transform;
    assert tr == NewTransform();
    var hit := Collide(c, tr, px, py, Press, None);
    assert hit.detected && c.shape.Picture?;
    assert hit.signals == [OnPress] && hit.component == c.(isClicked := true);
    RouteStep(Claimed, cs, tr, px, py, Press, 1, false);
    var routed := Route(Claimed, cs, tr, px, py, Press, 1, false);
    assert routed.visits == [Visit(0, [OnPress])];
    assert Components(r.canvas) == routed.components;
  }

  /**
   * On the same input, the mousedown handler under the intended protocol
   * fires `on_press` and marks the image pressed.
   */
  lemma PressInsideClaimed(img: Component)
    requires img == NewImage(0.0, 0.0, 10.0, 10.0)
    ensures var r := MouseDown(Claimed, AddComponent(NewCanvas(), img), 5.0, 5.0);
      && r.visits == [Visit(0, [OnPress])]
      && Components(r.canvas) == [img.(isClicked := true)]
  {
    UnitBoxExample(img);
    LonePressClaimed(img, 5.0, 5.0);
  }
}
