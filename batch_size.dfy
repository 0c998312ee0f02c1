/** The adaptive batch-size controller and the task-count rule that feeds it
    (alpha_zero/executor_scope.rs). */
module ExecutorScope {
  import opened GameTypes

  function Max(a: nat, b: nat): nat { if a >= b then a else b }

  /** The controller's whole state: the current batch ceiling, the external
      maximum, and the hysteresis ratio `num / denom`. */
  datatype Controller = Controller(current: nat, maxSize: nat, num: nat, denom: nat)

  /** The state the controller is meant to stay in: a ratio at most one and a
      ceiling between one and the maximum. */
  predicate WellFormed(c: Controller)
  {
    1 <= c.num <= c.denom && 1 <= c.current <= c.maxSize
  }

  /** What the controller's integer arithmetic can evaluate without an unsigned
      underflow (`current * denom - 1`) or a division by zero. */
  predicate Computable(c: Controller)
  {
    c.current >= 1 && c.num >= 1 && c.denom >= 1
  }

  /** A fresh controller starts at its maximum. */
  function Initial(maxSize: nat, ratio: (nat, nat)): (c: Controller)
    ensures c.current == c.maxSize == maxSize
    ensures (c.num, c.denom) == ratio
  {
    Controller(maxSize, maxSize, ratio.0, ratio.1)
  }

  /** The growth threshold `min(max, (current * denom - 1) / num + 1)`, which is
      `min(max, ceil(current * denom / num))`. */
  function UpperBound(c: Controller): (u: nat)
    requires Computable(c)
    ensures u <= c.maxSize
  {
    var p := c.current * c.denom;
    ProductPositive(c.current, c.denom);
    Min((p - 1) / c.num + 1, c.maxSize)
  }

  /** The threshold is `min(max, ceil(current * denom / num))`: never above the
      ceiling of the ratio, and below the maximum the least `u` with
      `u * num >= current * denom`. */
  lemma UpperBoundCeiling(c: Controller)
    requires Computable(c)
    ensures var u := UpperBound(c);
      (u - 1) * c.num < c.current * c.denom
    ensures var u := UpperBound(c);
      u == c.maxSize || c.current * c.denom <= u * c.num
  {
    var p := c.current * c.denom;
    ProductPositive(c.current, c.denom);
    var q := (p - 1) / c.num + 1;
    DivBounds(p - 1, c.num);
    assert (q - 1) * c.num <= p - 1 < q * c.num;
  }

  lemma ProductPositive(a: nat, b: nat)
    requires a >= 1 && b >= 1
    ensures a * b >= 1
  {
    MulMono(a, 1, b);
  }

  /** The shrunk ceiling `max(current * num / denom, 1)`. */
  function Shrunk(c: Controller): (s: nat)
    requires c.denom >= 1
    ensures s >= 1 && s >= c.current * c.num / c.denom
    ensures s == 1 || s == c.current * c.num / c.denom
  {
    Max(c.current * c.num / c.denom, 1)
  }

  lemma DivBounds(a: nat, b: nat)
    requires b >= 1
    ensures (a / b) * b <= a < (a / b + 1) * b
  {
  }

  /** One observation of the task count: grow, shrink or hold, returning the new
      ceiling only when a command should be sent. */
  function TaskCountStep(c: Controller, tasks: nat): (Controller, Option<nat>)
    requires Computable(c)
  {
    var upper := UpperBound(c);
    if tasks >= upper then
      var grown := Min(tasks, c.maxSize);
      if grown != c.current then (c.(current := grown), Some(grown)) else (c, None)
    else if tasks < c.current then
      (c.(current := Shrunk(c)), Some(Shrunk(c)))
    else
      (c, None)
  }

  /** A new external maximum: the ceiling is clamped only when it now exceeds it. */
  function MaxChangeStep(c: Controller, maxSize: nat): (Controller, Option<nat>)
  {
    if c.current > maxSize then (c.(current := maxSize, maxSize := maxSize), Some(maxSize))
    else (c.(maxSize := maxSize), None)
  }

  /** The threshold never lies below the current ceiling, because `denom >= num`. */
  lemma UpperBoundAtLeastCurrent(c: Controller)
    requires WellFormed(c)
    ensures UpperBound(c) >= c.current
  {
    var u := UpperBound(c);
    UpperBoundCeiling(c);
    if u < c.maxSize {
      assert c.current * c.denom <= u * c.num;
      assert c.current * c.num <= c.current * c.denom by {
        MulMono(c.current, c.num, c.denom);
      }
      MulCancel(u, c.current, c.num);
    }
  }

  lemma MulMono(a: nat, b: nat, d: nat)
    requires b <= d
    ensures a * b <= a * d
  {
  }

  lemma MulCancel(a: nat, b: nat, k: nat)
    requires k >= 1 && b * k <= a * k
    ensures b <= a
  {
    if a < b {
      MulStrict(a, b, k);
    }
  }

  lemma MulStrict(a: nat, b: nat, k: nat)
    requires a < b && k >= 1
    ensures a * k < b * k
  {
  }

  /** Grow branch: at or above the threshold the ceiling becomes `min(tasks, max)`,
      and a command is issued exactly when that differs from the old ceiling. */
  lemma GrowBranch(c: Controller, tasks: nat)
    requires Computable(c) && tasks >= UpperBound(c)
    ensures TaskCountStep(c, tasks).0 == c.(current := Min(tasks, c.maxSize))
    ensures TaskCountStep(c, tasks).1 == if Min(tasks, c.maxSize) != c.current then Some(Min(tasks, c.maxSize)) else None
  {
  }

  /** Hysteresis band: between the current ceiling and the threshold nothing changes. */
  lemma HoldBand(c: Controller, tasks: nat)
    requires Computable(c) && c.current <= tasks < UpperBound(c)
    ensures TaskCountStep(c, tasks) == (c, None)
  {
  }

  /** Shrink branch: below the current ceiling the ceiling is scaled by the ratio,
      floored at one, and a command is always issued, even when the value is the
      same (a ceiling of one shrinks to one). */
  lemma {:induction false} ShrinkBranch(c: Controller, tasks: nat)
    requires WellFormed(c) && tasks < c.current
    ensures TaskCountStep(c, tasks).0 == c.(current := Shrunk(c))
    ensures TaskCountStep(c, tasks).1 == Some(Shrunk(c))
  {
    UpperBoundAtLeastCurrent(c);
  }

  /** The ceiling moves up exactly when the threshold is reached, and any value
      returned is the new ceiling. */
  lemma {:induction false} StepDirection(c: Controller, tasks: nat)
    requires WellFormed(c)
    ensures var (c', r) := TaskCountStep(c, tasks);
      && (tasks >= UpperBound(c) ==> c'.current >= c.current)
      && (tasks < UpperBound(c) ==> c'.current <= c.current)
      && (r.Some? ==> r.value == c'.current)
      && (r.None? ==> c' == c)
      && c'.maxSize == c.maxSize && c'.num == c.num && c'.denom == c.denom
  {
    UpperBoundAtLeastCurrent(c);
    var shrunk := c.current * c.num / c.denom;
    assert shrunk <= c.current by {
      MulMono(c.current, c.num, c.denom);
      DivBounds(c.current * c.num, c.denom);
      if shrunk > c.current {
        MulStrict(c.current, shrunk, c.denom);
        assert false;
      }
    }
  }

  /** With a ratio at most one, the ceiling stays between one and the maximum. */
  lemma {:induction false} TaskCountPreservesValid(c: Controller, tasks: nat)
    requires WellFormed(c)
    ensures WellFormed(TaskCountStep(c, tasks).0)
  {
    UpperBoundAtLeastCurrent(c);
    StepDirection(c, tasks);
  }

  /** A new maximum is always stored; the ceiling is clamped and reported exactly
      when it exceeded the new maximum, and otherwise left alone. */
  lemma MaxChangeFacts(c: Controller, maxSize: nat)
    requires WellFormed(c) && maxSize >= 1
    ensures MaxChangeStep(c, maxSize).0.maxSize == maxSize
    ensures MaxChangeStep(c, maxSize).1.Some? <==> c.current > maxSize
    ensures MaxChangeStep(c, maxSize).1.Some? ==> MaxChangeStep(c, maxSize).0.current == maxSize == MaxChangeStep(c, maxSize).1.value
    ensures MaxChangeStep(c, maxSize).1.None? ==> MaxChangeStep(c, maxSize).0.current == c.current
    ensures WellFormed(MaxChangeStep(c, maxSize).0)
  {
  }

  /** A new maximum of zero clamps the ceiling to zero and reports it. The state
      that leaves is outside `Computable`: the next re-evaluation's
      `current * denom - 1` is below zero, an unsigned underflow in the source. */
  lemma ZeroMaxUnderflows(c: Controller)
    requires WellFormed(c)
    ensures MaxChangeStep(c, 0) == (c.(current := 0, maxSize := 0), Some(0))
    ensures !Computable(MaxChangeStep(c, 0).0)
    ensures MaxChangeStep(c, 0).0.current * c.denom - 1 < 0
  {
  }

  /** The values the scope uses (maximum 100, ratio 5/6, starting at 100): a drop
      to 80 tasks shrinks to 83; from 83, 90 tasks hold and 100 tasks grow back;
      a ceiling of one stays one on zero tasks but is still reported. */
  lemma ControllerTable()
    ensures UpperBound(Initial(100, (5, 6))) == 100
    ensures TaskCountStep(Initial(100, (5, 6)), 80) == (Controller(83, 100, 5, 6), Some(83))
    ensures TaskCountStep(Initial(100, (5, 6)), 100) == (Initial(100, (5, 6)), None)
    ensures TaskCountStep(Controller(83, 100, 5, 6), 90) == (Controller(83, 100, 5, 6), None)
    ensures TaskCountStep(Controller(83, 100, 5, 6), 100) == (Controller(100, 100, 5, 6), Some(100))
    ensures TaskCountStep(Controller(1, 100, 5, 6), 0) == (Controller(1, 100, 5, 6), Some(1))
    ensures TaskCountStep(Controller(1, 100, 5, 6), 2) == (Controller(2, 100, 5, 6), Some(2))
  {
  }

  /** The task count fed to the controller: outstanding tasks, capped by the
      number of concurrency permits. */
  function ObservedTasks(outstanding: nat, parallelismTokens: nat): (t: nat)
    ensures t <= outstanding && t <= parallelismTokens
    ensures t == outstanding || t == parallelismTokens
  {
    Min(outstanding, parallelismTokens)
  }

  /** `BatchSizeManager`: the controller as an object whose fields are updated in place. */
  class BatchSizeManager {
    var currentBatchSize: nat
    var maxBatchSize: nat
    const changeRatio: (nat, nat)

    function State(): Controller
      reads this
    {
      Controller(currentBatchSize, maxBatchSize, changeRatio.0, changeRatio.1)
    }

    constructor (maxBatchSize: nat, changeRatio: (nat, nat))
      ensures State() == Initial(maxBatchSize, changeRatio)
    {
      this.currentBatchSize := maxBatchSize;
      this.maxBatchSize := maxBatchSize;
      this.changeRatio := changeRatio;
    }

    method OnTaskCountChange(tasks: nat) returns (r: Option<nat>)
      requires Computable(State())
      modifies this
      ensures (State(), r) == TaskCountStep(old(State()), tasks)
    {
      var (num, denom) := changeRatio;
      var p := currentBatchSize * denom;
      ProductPositive(currentBatchSize, denom);
      var upperBound := Min((p - 1) / num + 1, maxBatchSize);
      assert upperBound == UpperBound(old(State()));
      if tasks >= upperBound {
        var newBatchSize := Min(tasks, maxBatchSize);
        if newBatchSize != currentBatchSize {
          currentBatchSize := newBatchSize;
          r := Some(currentBatchSize);
        } else {
          r := None;
        }
      } else if tasks < currentBatchSize {
        assert Max((currentBatchSize * num) / denom, 1) == Shrunk(old(State()));
        currentBatchSize := Max((currentBatchSize * num) / denom, 1);
        r := Some(currentBatchSize);
      } else {
        r := None;
      }
    }

    method ChangeMaxBatchSize(maxBatchSize: nat) returns (r: Option<nat>)
      modifies this
      ensures (State(), r) == MaxChangeStep(old(State()), maxBatchSize)
    {
      this.maxBatchSize := maxBatchSize;
      if currentBatchSize > this.maxBatchSize {
        currentBatchSize := this.maxBatchSize;
        r := Some(currentBatchSize);
      } else {
        r := None;
      }
    }
  }

  /** The sequential part of `ExecutorScope`: the permit count, the number of
      outstanding tasks, the controller, and the `SetBatchSize` commands sent to
      the scheduler, in order. */
  class Scope {
    const manager: BatchSizeManager
    var parallelismTokens: nat
    var outstanding: nat
    var commands: seq<nat>

    ghost predicate Valid()
      reads this, manager
    {
      WellFormed(manager.State())
    }

    /** The scope always uses the ratio 5/6. */
    constructor (parallelism: nat, batchSize: nat)
      requires batchSize >= 1
      ensures Valid() && fresh(manager)
      ensures manager.State() == Initial(batchSize, (5, 6))
      ensures parallelismTokens == parallelism && outstanding == 0 && commands == []
    {
      manager := new BatchSizeManager(batchSize, (5, 6));
      parallelismTokens := parallelism;
      outstanding := 0;
      commands := [];
    }

    /** Spawning only registers the task; it does not re-evaluate the batch size. */
    method Spawn()
      modifies this
      ensures outstanding == old(outstanding) + 1
      ensures parallelismTokens == old(parallelismTokens) && commands == old(commands)
    {
      outstanding := outstanding + 1;
    }

    method OnTasksCountChange()
      requires Valid()
      modifies this, manager
      ensures Valid()
      ensures var (c, r) := TaskCountStep(old(manager.State()), ObservedTasks(old(outstanding), old(parallelismTokens)));
        manager.State() == c && commands == old(commands) + (if r.Some? then [r.value] else [])
      ensures outstanding == old(outstanding) && parallelismTokens == old(parallelismTokens)
    {
      TaskCountPreservesValid(manager.State(), ObservedTasks(outstanding, parallelismTokens));
      var tasks := Min(outstanding, parallelismTokens);
      var batch := manager.OnTaskCountChange(tasks);
      if batch.Some? {
        commands := commands + [batch.value];
      }
    }

    /** More permits, then a re-evaluation with the new cap. */
    method IncreaseParallelism(delta: nat)
      requires Valid()
      modifies this, manager
      ensures Valid()
      ensures parallelismTokens == old(parallelismTokens) + delta && outstanding == old(outstanding)
      ensures var (c, r) := TaskCountStep(old(manager.State()), ObservedTasks(old(outstanding), old(parallelismTokens) + delta));
        manager.State() == c && commands == old(commands) + (if r.Some? then [r.value] else [])
    {
      parallelismTokens := parallelismTokens + delta;
      OnTasksCountChange();
    }

    /** A new maximum: a clamp command if the ceiling was lowered, then a re-evaluation. */
    method SetBatchSize(batchSize: nat)
      requires Valid() && batchSize >= 1
      modifies this, manager
      ensures Valid()
      ensures var (c1, r1) := MaxChangeStep(old(manager.State()), batchSize);
        var (c2, r2) := TaskCountStep(c1, ObservedTasks(old(outstanding), old(parallelismTokens)));
        && manager.State() == c2
        && commands == old(commands) + (if r1.Some? then [r1.value] else []) + (if r2.Some? then [r2.value] else [])
      ensures outstanding == old(outstanding) && parallelismTokens == old(parallelismTokens)
    {
      MaxChangeFacts(manager.State(), batchSize);
      var v := manager.ChangeMaxBatchSize(batchSize);
      if v.Some? {
        commands := commands + [v.value];
      }
      OnTasksCountChange();
    }

    /** One task finishes (if any is outstanding), then a re-evaluation. */
    method Next() returns (completed: bool)
      requires Valid()
      modifies this, manager
      ensures Valid()
      ensures completed == (old(outstanding) > 0)
      ensures outstanding == if completed then old(outstanding) - 1 else old(outstanding)
      ensures var (c, r) := TaskCountStep(old(manager.State()), ObservedTasks(outstanding, old(parallelismTokens)));
        manager.State() == c && commands == old(commands) + (if r.Some? then [r.value] else [])
    {
      completed := outstanding > 0;
      if completed {
        outstanding := outstanding - 1;
      }
      OnTasksCountChange();
    }
  }
}
