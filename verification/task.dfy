/**
 * A timed animation task (ACC_Task): it changes the value of the animatable
 * cell it is ticked against by a fixed total `delta`, spread over `maxMs`
 * milliseconds, and reports itself dead once its elapsed time reaches that
 * duration.
 */
module Tasks {
  import opened Common

  /** Easing curves a task may follow; the program defines only LINEAR. */
  datatype EaseType = Linear

  /**
   * `delta`, `maxMs` and `easeType` are fixed at construction; only
   * `curMs`, the elapsed time, moves.
   */
  datatype Task = Task(delta: real, maxMs: Positive, easeType: EaseType, curMs: real)

  /** A fresh task: nothing has elapsed yet, so it is alive. */
  function NewTask(delta: real, ms: Positive, easeType: EaseType): (t: Task)
    ensures t.delta == delta && t.maxMs == ms && t.easeType == easeType
    ensures t.curMs == 0.0
    ensures !IsDead(t)
  {
    Task(delta, ms, easeType, 0.0)
  }

  /** A task is dead once its elapsed time has reached its duration. */
  predicate IsDead(t: Task)
    ensures IsDead(t) ==> t.curMs > 0.0
  {
    t.curMs >= t.maxMs
  }

  /** The change one tick of `dt` milliseconds applies to the task's target. */
  function Increment(t: Task, dt: real): real
  {
    match t.easeType
    case Linear => t.delta * (dt / t.maxMs)
  }

  /** The task's own state after one tick of `dt` milliseconds. */
  function Advance(t: Task, dt: real): (r: Task)
    ensures r.delta == t.delta && r.maxMs == t.maxMs && r.easeType == t.easeType
    ensures r.curMs - t.curMs == dt
    ensures Increment(r, dt) == Increment(t, dt)
  {
    match t.easeType
    case Linear => t.(curMs := t.curMs + dt)
  }

  /** The task after `n` consecutive ticks of `dt`. */
  function Run(t: Task, dt: real, n: nat): Task
    decreases n
  {
    if n == 0 then t else Run(Advance(t, dt), dt, n - 1)
  }

  /** The total change `n` consecutive ticks of `dt` apply to the target. */
  function RunChange(t: Task, dt: real, n: nat): real
    decreases n
  {
    if n == 0 then 0.0 else Increment(t, dt) + RunChange(Advance(t, dt), dt, n - 1)
  }

  /**
   * Ticking accumulates linearly: after `n` ticks the elapsed time has grown
   * by `n*dt`, the fixed fields are unchanged, and the target has moved by
   * `n` times the per-tick increment.
   */
  lemma {:induction false} RunAccumulates(t: Task, dt: real, n: nat)
    ensures Run(t, dt, n).delta == t.delta && Run(t, dt, n).maxMs == t.maxMs
    ensures Run(t, dt, n).easeType == t.easeType
    ensures Run(t, dt, n).curMs == t.curMs + n as real * dt
    ensures RunChange(t, dt, n) == n as real * Increment(t, dt)
    decreases n
  {
    if n > 0 {
      RunAccumulates(Advance(t, dt), dt, n - 1);
    }
  }

  /**
   * When the duration is an exact multiple `k*dt` of the tick, a fresh task
   * applies exactly `delta` in `k` ticks and is dead then, and it is alive
   * after every shorter run.
   */
  lemma LinearTaskConverges(delta: real, dt: Positive, k: nat, easeType: EaseType)
    requires k >= 1
    ensures var t := NewTask(delta, k as real * dt, easeType);
      && RunChange(t, dt, k) == delta
      && IsDead(Run(t, dt, k))
      && forall j: nat :: j < k ==> !IsDead(Run(t, dt, j))
  {
    var t := NewTask(delta, k as real * dt, easeType);
    RunAccumulates(t, dt, k);
    assert Increment(t, dt) == delta * (dt / (k as real * dt));
    calc {
      k as real * (delta * (dt / (k as real * dt)));
      delta * ((k as real * dt) / (k as real * dt));
      delta;
    }
    forall j: nat | j < k
      ensures !IsDead(Run(t, dt, j))
    {
      RunAccumulates(t, dt, j);
      assert j as real * dt < k as real * dt;
    }
  }
}
