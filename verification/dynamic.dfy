/**
 * An animatable number (ACC_Dynamic): a cached value `raw`, an optional
 * bound formula that recomputes it on demand, and an ordered queue of
 * animation tasks applied on every tick.
 */
module Dynamics {
  import opened Common
  import opened Tasks

  /**
   * A bound formula (the program's `() => number` callback). Its body is
   * user code, so the model only keeps its identity; what it evaluates to
   * at a given moment is supplied by an `Eval` argument.
   */
  datatype Formula = Formula(id: nat)

  /** The value every formula would return if called right now. */
  type Eval = Formula -> real

  datatype Dynamic = Dynamic(raw: real, callback: Option<Formula>, tasks: seq<Task>)

  /** A new cell holds the given value, with no formula and no tasks. */
  function NewDynamic(value: real): (d: Dynamic)
    ensures d.raw == value && d.callback == None && d.tasks == []
  {
    Dynamic(value, None, [])
  }

  /** The cached value; a bound formula is not re-evaluated. */
  function Get(d: Dynamic): real
  {
    d.raw
  }

  /** `set(number)`: writes the cached value and nothing else. */
  function SetValue(d: Dynamic, value: real): (r: Dynamic)
    ensures Get(r) == value
    ensures r.callback == d.callback && r.tasks == d.tasks
  {
    d.(raw := value)
  }

  /** `fix()`: re-evaluates the bound formula, if there is one. */
  function Fix(d: Dynamic, eval: Eval): (r: Dynamic)
    ensures d.callback == None ==> r == d
    ensures d.callback.Some? ==> r == d.(raw := eval(d.callback.value))
  {
    match d.callback
    case None => d
    case Some(f) => SetValue(d, eval(f))
  }

  /** `set(callback)`: binds the formula and fixes the value at once. */
  function SetFormula(d: Dynamic, f: Formula, eval: Eval): (r: Dynamic)
    ensures r.callback == Some(f) && Get(r) == eval(f)
    ensures r.tasks == d.tasks
  {
    Fix(d.(callback := Some(f)), eval)
  }

  /** `addTask`: appends to the end of the queue. */
  function AddTask(d: Dynamic, t: Task): (r: Dynamic)
    ensures |r.tasks| == |d.tasks| + 1
    ensures r.tasks[..|d.tasks|] == d.tasks && r.tasks[|d.tasks|] == t
    ensures r.raw == d.raw && r.callback == d.callback
  {
    d.(tasks := d.tasks + [t])
  }

  /**
   * `ACC_Task.tick(target, dt)`: the task advances its clock and writes
   * `get() + increment` back through `set(number)`.
   */
  function TickTask(t: Task, target: Dynamic, dt: real): (r: (Task, Dynamic))
    ensures r.0 == Advance(t, dt)
    ensures r.1.raw == target.raw + t.delta * (dt / t.maxMs)
    ensures r.1.callback == target.callback && r.1.tasks == target.tasks
  {
    (Advance(t, dt), SetValue(target, Get(target) + Increment(t, dt)))
  }

  /** `splice(i, 1)`. */
  function RemoveAt<T>(s: seq<T>, i: nat): (r: seq<T>)
    requires i < |s|
    ensures |r| == |s| - 1
  {
    s[..i] + s[i + 1..]
  }

  /**
   * The `for ... of` loop of `tick` as the index walk it is: the task at the
   * live index `i` is ticked, spliced out if it is now dead, and the index
   * moves on by one either way, so after a removal the task that slid into
   * slot `i` is passed over.
   */
  function Walk(d: Dynamic, i: nat, dt: real): (r: Dynamic)
    ensures r.callback == d.callback
    ensures |r.tasks| <= |d.tasks|
    decreases |d.tasks| - i
  {
    if i >= |d.tasks| then d
    else
      var ticked := TickTask(d.tasks[i], d, dt);
      var d1 := ticked.1;
      if IsDead(ticked.0) then
        Walk(d1.(tasks := RemoveAt(d1.tasks, i)), i + 1, dt)
      else Walk(d1.(tasks := d1.tasks[i := ticked.0]), i + 1, dt)
  }

  /**
   * What one call of `tick` does to each task of the queue, in the queue's
   * original order: it is passed over, or it is ticked and then kept or
   * dropped.
   */
  datatype Fate = Skipped(task: Task) | Kept(ticked: Task) | Dropped(ticked: Task)

  /**
   * The fate of every task of `ts`, read left to right; `skip` says that
   * the task just before `ts[0]` was ticked and dropped.
   */
  function Fates(ts: seq<Task>, dt: real, skip: bool): (fs: seq<Fate>)
    ensures |fs| == |ts|
    decreases |ts|
  {
    if ts == [] then []
    else if skip then [Skipped(ts[0])] + Fates(ts[1..], dt, false)
    else
      var a := Advance(ts[0], dt);
      if IsDead(a) then [Dropped(a)] + Fates(ts[1..], dt, true)
      else [Kept(a)] + Fates(ts[1..], dt, false)
  }

  /**
   * Every task is either passed over untouched or ticked exactly once, and
   * a ticked task is dropped exactly when it is dead afterwards. The first
   * task is always ticked, and a task is passed over exactly when the one
   * before it was dropped.
   */
  lemma {:induction false} FatesShape(ts: seq<Task>, dt: real, skip: bool)
    ensures var fs := Fates(ts, dt, skip);
      && (forall k :: 0 <= k < |ts| ==>
            (fs[k].Skipped? ==> fs[k].task == ts[k]) &&
            (!fs[k].Skipped? ==> fs[k].ticked == Advance(ts[k], dt) && (fs[k].Dropped? <==> IsDead(fs[k].ticked))))
      && (|ts| > 0 ==> (fs[0].Skipped? <==> skip))
      && (forall k :: 0 <= k < |ts| - 1 ==> (fs[k + 1].Skipped? <==> fs[k].Dropped?))
    decreases |ts|
  {
    if ts != [] {
      var a := Advance(ts[0], dt);
      var next := !skip && IsDead(a);
      FatesShape(ts[1..], dt, next);
      var fs := Fates(ts, dt, skip);
      var gs := Fates(ts[1..], dt, next);
      assert fs == [fs[0]] + gs;
      forall k | 1 <= k < |ts|
        ensures fs[k] == gs[k - 1] && ts[k] == ts[1..][k - 1]
      {
      }
    }
  }

  /** The queue left behind: skipped tasks as they were, kept ones ticked. */
  function Survivors(fs: seq<Fate>): (r: seq<Task>)
    ensures |r| <= |fs|
    ensures |r| == |fs| ==> forall k :: 0 <= k < |fs| ==> !fs[k].Dropped?
  {
    if fs == [] then []
    else
      match fs[0]
      case Skipped(t) => [t] + Survivors(fs[1..])
      case Kept(t) => [t] + Survivors(fs[1..])
      case Dropped(_) => Survivors(fs[1..])
  }

  /** The total change applied to the value by the tasks that were ticked. */
  function Change(fs: seq<Fate>, dt: real): real
  {
    if fs == [] then 0.0
    else
      match fs[0]
      case Skipped(_) => Change(fs[1..], dt)
      case Kept(t) => Increment(t, dt) + Change(fs[1..], dt)
      case Dropped(t) => Increment(t, dt) + Change(fs[1..], dt)
  }

  /** `Survivors` and `Change` read one fate at a time. */
  lemma SurvivorsChangeCons(f: Fate, gs: seq<Fate>, dt: real)
    ensures Survivors([f] + gs) == (if f.Dropped? then [] else [if f.Skipped? then f.task else f.ticked]) + Survivors(gs)
    ensures Change([f] + gs, dt) == (if f.Skipped? then 0.0 else Increment(f.ticked, dt)) + Change(gs, dt)
  {
    assert ([f] + gs)[1..] == gs;
  }

  /** One step of the walk when the task at `i` dies. */
  lemma WalkDropStep(d: Dynamic, i: nat, dt: real)
    requires i < |d.tasks| && IsDead(Advance(d.tasks[i], dt))
    ensures Walk(d, i, dt) == Walk(d.(raw := d.raw + Increment(d.tasks[i], dt), tasks := RemoveAt(d.tasks, i)), i + 1, dt)
  {
  }

  /** One step of the walk when the task at `i` survives. */
  lemma WalkKeepStep(d: Dynamic, i: nat, dt: real)
    requires i < |d.tasks| && !IsDead(Advance(d.tasks[i], dt))
    ensures Walk(d, i, dt) == Walk(d.(raw := d.raw + Increment(d.tasks[i], dt), tasks := d.tasks[i := Advance(d.tasks[i], dt)]), i + 1, dt)
  {
  }

  /** The fates of `ts`, whose first task is ticked and dies. */
  lemma FatesDropHead(ts: seq<Task>, dt: real)
    requires |ts| >= 1 && IsDead(Advance(ts[0], dt))
    ensures |ts| == 1 ==> Fates(ts, dt, false) == [Dropped(Advance(ts[0], dt))]
    ensures |ts| >= 2 ==> Fates(ts, dt, false) == [Dropped(Advance(ts[0], dt)), Skipped(ts[1])] + Fates(ts[2..], dt, false)
  {
    if |ts| >= 2 {
      assert ts[1..][1..] == ts[2..];
      assert [Dropped(Advance(ts[0], dt))] + ([Skipped(ts[1])] + Fates(ts[2..], dt, false))
          == [Dropped(Advance(ts[0], dt)), Skipped(ts[1])] + Fates(ts[2..], dt, false);
    }
  }

  /** The fates of `ts`, whose first task is ticked and survives. */
  lemma FatesKeepHead(ts: seq<Task>, dt: real)
    requires |ts| >= 1 && !IsDead(Advance(ts[0], dt))
    ensures Fates(ts, dt, false) == [Kept(Advance(ts[0], dt))] + Fates(ts[1..], dt, false)
  {
  }

  /**
   * The index walk agrees with the fates read off the original queue: the
   * prefix already behind the index is untouched, and the rest is replaced
   * by its survivors.
   */
  lemma {:induction false} WalkMatchesFates(d: Dynamic, i: nat, dt: real)
    requires i <= |d.tasks|
    ensures var fs := Fates(d.tasks[i..], dt, false);
      Walk(d, i, dt) == d.(raw := d.raw + Change(fs, dt), tasks := d.tasks[..i] + Survivors(fs))
    decreases |d.tasks| - i, 1
  {
    if i < |d.tasks| {
      if IsDead(Advance(d.tasks[i], dt)) {
        WalkDrop(d, i, dt);
      } else {
        WalkKeep(d, i, dt);
      }
    } else {
      assert d.tasks[..i] == d.tasks;
    }
  }

  lemma {:induction false} WalkDrop(d: Dynamic, i: nat, dt: real)
    requires i < |d.tasks| && IsDead(Advance(d.tasks[i], dt))
    ensures var fs := Fates(d.tasks[i..], dt, false);
      Walk(d, i, dt) == d.(raw := d.raw + Change(fs, dt), tasks := d.tasks[..i] + Survivors(fs))
    decreases |d.tasks| - i, 0
  {
    var ts := d.tasks;
    var a := Advance(ts[i], dt);
    WalkDropStep(d, i, dt);
    FatesDropHead(ts[i..], dt);
    var e := d.(raw := d.raw + Increment(ts[i], dt), tasks := RemoveAt(ts, i));
    if i + 1 < |ts| {
      WalkMatchesFates(e, i + 1, dt);
      assert ts[i..][2..] == ts[i + 2..];
      WalkDropMiddle(d, e, i, dt);
    } else {
      assert e.tasks == ts[..i];
      SurvivorsChangeCons(Dropped(a), [], dt);
    }
  }

  /** `WalkDrop` when a task follows the dropped one: the follower joins the untouched prefix. */
  lemma WalkDropMiddle(d: Dynamic, e: Dynamic, i: nat, dt: real)
    requires i + 1 < |d.tasks|
    requires e == d.(raw := d.raw + Increment(d.tasks[i], dt), tasks := RemoveAt(d.tasks, i))
    ensures var gs := Fates(d.tasks[i + 2..], dt, false);
            var fs := [Dropped(Advance(d.tasks[i], dt)), Skipped(d.tasks[i + 1])] + gs;
            var gs' := Fates(e.tasks[i + 1..], dt, false);
      && e.(raw := e.raw + Change(gs', dt), tasks := e.tasks[..i + 1] + Survivors(gs'))
         == d.(raw := d.raw + Change(fs, dt), tasks := d.tasks[..i] + Survivors(fs))
  {
    var ts := d.tasks;
    var a := Advance(ts[i], dt);
    var u := ts[i + 1];
    var rest := e.tasks;
    assert rest[i + 1..] == ts[i + 2..];
    assert rest[..i + 1] == ts[..i] + [u];
    var gs := Fates(ts[i + 2..], dt, false);
    assert [Dropped(a), Skipped(u)] + gs == [Dropped(a)] + ([Skipped(u)] + gs);
    SurvivorsChangeCons(Dropped(a), [Skipped(u)] + gs, dt);
    SurvivorsChangeCons(Skipped(u), gs, dt);
  }

  lemma {:induction false} WalkKeep(d: Dynamic, i: nat, dt: real)
    requires i < |d.tasks| && !IsDead(Advance(d.tasks[i], dt))
    ensures var fs := Fates(d.tasks[i..], dt, false);
      Walk(d, i, dt) == d.(raw := d.raw + Change(fs, dt), tasks := d.tasks[..i] + Survivors(fs))
    decreases |d.tasks| - i, 0
  {
    var ts := d.tasks;
    var t := ts[i];
    var a := Advance(t, dt);
    WalkKeepStep(d, i, dt);
    var e := d.(raw := d.raw + Increment(t, dt), tasks := ts[i := a]);
    WalkMatchesFates(e, i + 1, dt);
    assert e.tasks[i + 1..] == ts[i + 1..];
    assert e.tasks[..i + 1] == ts[..i] + [a];
    FatesKeepHead(ts[i..], dt);
    assert ts[i..][1..] == ts[i + 1..];
    var gs := Fates(ts[i + 1..], dt, false);
    SurvivorsChangeCons(Kept(a), gs, dt);
  }

  /**
   * `tick(dt)`: one pass of the task queue. The queue only shrinks, keeps
   * the order of what survives, loses exactly the tasks that were ticked
   * and died, and the formula is neither read nor re-applied.
   */
  function Tick(d: Dynamic, dt: real): (r: Dynamic)
    ensures var fs := Fates(d.tasks, dt, false);
      r.tasks == Survivors(fs) && r.raw == d.raw + Change(fs, dt)
    ensures r.callback == d.callback
    ensures |r.tasks| <= |d.tasks|
  {
    WalkMatchesFates(d, 0, dt);
    assert d.tasks[0..] == d.tasks;
    Walk(d, 0, dt)
  }

  /**
   * When the first task dies on this tick, the task right behind it slides
   * into its slot and is passed over: it comes out exactly as it went in.
   */
  lemma FollowerNotTicked(d: Dynamic, dt: real)
    requires |d.tasks| >= 2 && IsDead(Advance(d.tasks[0], dt))
    ensures |Tick(d, dt).tasks| >= 1 && Tick(d, dt).tasks[0] == d.tasks[1]
    ensures Tick(d, dt).raw == d.raw + Increment(d.tasks[0], dt) + Change(Fates(d.tasks[2..], dt, false), dt)
  {
    var ts := d.tasks;
    FatesDropHead(ts, dt);
    var gs := Fates(ts[2..], dt, false);
    assert [Dropped(Advance(ts[0], dt)), Skipped(ts[1])] + gs == [Dropped(Advance(ts[0], dt))] + ([Skipped(ts[1])] + gs);
    SurvivorsChangeCons(Dropped(Advance(ts[0], dt)), [Skipped(ts[1])] + gs, dt);
    SurvivorsChangeCons(Skipped(ts[1]), gs, dt);
  }

  /** Re-evaluating twice in the same surroundings is the same as once. */
  lemma FixIdempotent(d: Dynamic, eval: Eval)
    ensures Fix(Fix(d, eval), eval) == Fix(d, eval)
    ensures Fix(d, eval).tasks == d.tasks && Fix(d, eval).callback == d.callback
  {
  }

  /** `n` consecutive ticks of `dt`. */
  function TickTimes(d: Dynamic, dt: real, n: nat): Dynamic
    decreases n
  {
    if n == 0 then d else TickTimes(Tick(d, dt), dt, n - 1)
  }

  /** One more tick of a task is one more `Advance` and one more increment. */
  lemma {:induction false} RunSnoc(t: Task, dt: real, j: nat)
    ensures Run(t, dt, j + 1) == Advance(Run(t, dt, j), dt)
    ensures RunChange(t, dt, j + 1) == RunChange(t, dt, j) + Increment(t, dt)
    decreases j
  {
    RunAccumulates(t, dt, j);
    RunAccumulates(t, dt, j + 1);
    if j > 0 {
      RunSnoc(Advance(t, dt), dt, j - 1);
    }
  }

  /** Ticking a value whose queue holds a single task. */
  lemma TickSingle(d: Dynamic, dt: real)
    requires |d.tasks| == 1
    ensures var a := Advance(d.tasks[0], dt);
      Tick(d, dt) == d.(raw := d.raw + Increment(d.tasks[0], dt), tasks := if IsDead(a) then [] else [a])
  {
    var a := Advance(d.tasks[0], dt);
    if IsDead(a) {
      assert Fates(d.tasks, dt, false) == [Dropped(a)];
      SurvivorsChangeCons(Dropped(a), [], dt);
    } else {
      assert Fates(d.tasks, dt, false) == [Kept(a)];
      SurvivorsChangeCons(Kept(a), [], dt);
    }
  }

  /** One frame of a value whose only task has run `j - 1` of its `k` frames. */
  lemma SingleTaskStep(d: Dynamic, prev: Dynamic, t: Task, dt: Positive, k: nat, j: nat)
    requires 1 <= j <= k && t.curMs == 0.0 && t.maxMs == k as real * dt
    requires prev == d.(raw := d.raw + RunChange(t, dt, j - 1), tasks := [Run(t, dt, j - 1)])
    ensures Tick(prev, dt) == d.(raw := d.raw + RunChange(t, dt, j), tasks := if j < k then [Run(t, dt, j)] else [])
  {
    var before := Run(t, dt, j - 1);
    var a := Advance(before, dt);
    TickSingle(prev, dt);
    RunSnoc(t, dt, j - 1);
    assert a == Run(t, dt, j);
    RunAccumulates(t, dt, j - 1);
    assert Increment(before, dt) == Increment(t, dt);
    RunAccumulates(t, dt, j);
    MultipleOrder(j, k, dt);
    assert IsDead(a) <==> j >= k;
  }

  /**
   * A value driven by one fresh task whose duration is `k` frames: after
   * `j < k` frames the task is still queued, advanced `j` times, and the
   * value has moved by `j` increments; after `k` frames the queue is empty.
   */
  lemma {:induction false} SingleTaskProgress(d: Dynamic, delta: real, dt: Positive, k: nat, j: nat)
    requires k >= 1 && j <= k
    requires d.tasks == [NewTask(delta, k as real * dt, Linear)]
    ensures var t := NewTask(delta, k as real * dt, Linear);
      TickTimes(d, dt, j) == d.(raw := d.raw + RunChange(t, dt, j), tasks := if j < k then [Run(t, dt, j)] else [])
    decreases j
  {
    var t := NewTask(delta, k as real * dt, Linear);
    if j > 0 {
      SingleTaskProgress(d, delta, dt, k, j - 1);
      TickTimesSnoc(d, dt, j - 1);
      SingleTaskStep(d, TickTimes(d, dt, j - 1), t, dt, k, j);
    }
  }

  /** `j` frames last less than `k` frames exactly when `j < k`. */
  lemma MultipleOrder(j: nat, k: nat, dt: Positive)
    ensures j as real * dt >= k as real * dt <==> j >= k
  {
    if j < k {
      assert (k - j) as real * dt > 0.0;
    } else {
      assert (j - k) as real * dt >= 0.0;
    }
  }

  /** After exactly `k` frames the value has moved by exactly `delta`. */
  lemma SingleTaskConverges(d: Dynamic, delta: real, dt: Positive, k: nat)
    requires k >= 1
    requires d.tasks == [NewTask(delta, k as real * dt, Linear)]
    ensures TickTimes(d, dt, k) == d.(raw := d.raw + delta, tasks := [])
  {
    SingleTaskProgress(d, delta, dt, k, k);
    LinearTaskConverges(delta, dt, k, Linear);
  }

  lemma {:induction false} TickTimesSnoc(d: Dynamic, dt: real, n: nat)
    ensures TickTimes(d, dt, n + 1) == Tick(TickTimes(d, dt, n), dt)
    decreases n
  {
    if n > 0 {
      TickTimesSnoc(Tick(d, dt), dt, n - 1);
    }
  }
}
