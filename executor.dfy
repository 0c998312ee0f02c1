/** The batching loop of the network executor (alpha_zero/network_batched_executor.rs):
    `serve` gathers evaluation tasks from a channel into a batch until the batch is
    full or a deadline fires, runs the batch, and pairs every reply with the task's
    own result channel. Here `serve` is a state machine driven by events; the
    timing of `tokio::select!`, the network call and the reply tasks are left out. */
module BatchedExecutor {
  import opened GameTypes

  /** A task: the input tensor and the result channel its reply goes to. */
  datatype Task<I, R> = Task(input: I, responder: R)

  /** A batch handed to the network: inputs and the matching responders, row by row. */
  datatype Batch<I, R> = Batch(inputs: seq<I>, responses: seq<R>)

  /** `Stopped`: the loop left `'main`; `Panicked`: an `assert!` or the `usize`
      subtraction failed. */
  datatype Status = Running | Stopped | Panicked

  /** What can happen while a batch accumulates: the deadline fires, `recv_many`
      returns, the command channel yields (`None` once it is closed), a handle sends
      a task, or the last task sender is dropped. */
  datatype Event<I, R> = Deadline | Receive | Command(cmd: Option<nat>) | Send(task: Task<I, R>) | CloseSenders

  /** The loop's state: the batch ceiling `max_batch`, the wait window `acc_time`
      (in some unit of time), the buffer `buf`, the task channel's backlog and
      whether it is closed, and the batches run so far. */
  datatype Serve<I, R> = Serve(maxBatch: nat, accTime: nat, buf: seq<Task<I, R>>,
                               channel: seq<Task<I, R>>, closed: bool, status: Status,
                               batches: seq<Batch<I, R>>)

  /** `serve` starts with an empty buffer and the base window, and refuses a zero
      ceiling (its `assert!`). */
  function Start<I, R>(maxBatch: nat, base: nat, channel: seq<Task<I, R>>, closed: bool): (r: Serve<I, R>)
    ensures r.status == Running <==> maxBatch > 0
    ensures r.buf == [] && r.batches == [] && r.accTime == base && r.maxBatch == maxBatch && r.channel == channel
  {
    Serve(maxBatch, base, [], channel, closed, if maxBatch > 0 then Running else Panicked, [])
  }

  /** The batch `buf` becomes when it is popped empty into `inputs` and `responses`:
      both in reverse order of arrival, row `i` of each from the same task. */
  function Drained<I, R>(buf: seq<Task<I, R>>): (b: Batch<I, R>)
    ensures |b.inputs| == |buf| && |b.responses| == |buf|
    ensures forall i :: 0 <= i < |buf| ==> Task(b.inputs[i], b.responses[i]) == buf[|buf| - 1 - i]
  {
    if buf == [] then Batch([], [])
    else
      var rest := Drained(buf[..|buf| - 1]);
      Batch([buf[|buf| - 1].input] + rest.inputs, [buf[|buf| - 1].responder] + rest.responses)
  }

  /** The tasks of a batch in the order they arrived. */
  function Arrival<I, R>(b: Batch<I, R>): seq<Task<I, R>>
    requires |b.inputs| == |b.responses|
  {
    seq(|b.inputs|, i requires 0 <= i < |b.inputs| => Task(b.inputs[|b.inputs| - 1 - i], b.responses[|b.inputs| - 1 - i]))
  }

  /** Draining loses, duplicates and reorders nothing. */
  lemma DrainedArrival<I, R>(buf: seq<Task<I, R>>)
    ensures Arrival(Drained(buf)) == buf
  {
  }

  /** The end of a cycle: with an empty buffer the window doubles and nothing runs;
      otherwise the window is reset and the drained buffer is run as a batch. */
  function EndCycle<I, R>(base: nat, s: Serve<I, R>): Serve<I, R>
  {
    if s.buf == [] then s.(accTime := 2 * s.accTime)
    else s.(accTime := base, buf := [], batches := s.batches + [Drained(s.buf)])
  }

  /** The check after each `select!` arm: a full buffer ends the cycle. */
  function CheckFull<I, R>(base: nat, s: Serve<I, R>): Serve<I, R>
  {
    if |s.buf| >= s.maxBatch then EndCycle(base, s) else s
  }

  /** One event of the loop. `recv_many` asks for at most `max_batch - buf.len()`
      tasks and returns once that limit is zero, the channel holds a task or the
      channel is closed; it takes up to the limit from the front of the channel,
      and returning none stops the loop, which asserts that the buffer is empty. */
  function Step<I, R>(base: nat, s: Serve<I, R>, e: Event<I, R>): Serve<I, R>
  {
    if s.status != Running then s
    else match e
      case Send(t) => s.(channel := s.channel + [t])
      case CloseSenders => s.(closed := true)
      case Deadline => EndCycle(base, s)
      case Command(None) => s
      case Command(Some(k)) => CheckFull(base, s.(maxBatch := k))
      case Receive =>
        if |s.buf| > s.maxBatch then s.(status := Panicked)
        else
          var limit := s.maxBatch - |s.buf|;
          if limit > 0 && s.channel == [] && !s.closed then s
          else
            var p := Min(limit, |s.channel|);
            if p == 0 then s.(status := if s.buf == [] then Stopped else Panicked)
            else CheckFull(base, s.(buf := s.buf + s.channel[..p], channel := s.channel[p..]))
  }

  /** The buffer never holds more than the ceiling between events. */
  predicate Bounded<I, R>(s: Serve<I, R>)
  {
    |s.buf| <= s.maxBatch
  }

  /** The bound holds from the start and after every event, so the subtraction
      `max_batch - cur_len` never underflows, even when `SetBatchSize` lowers the
      ceiling below the buffer's length: the size check then ends the cycle. */
  lemma StepBounded<I, R>(base: nat, s: Serve<I, R>, e: Event<I, R>)
    requires Bounded(s)
    ensures Bounded(Step(base, s, e))
    ensures Step(base, s, e).status == Panicked ==> s.status == Panicked || (e.Receive? && s.buf != [])
  {
  }

  /** The tasks in the batches run, in arrival order. */
  function Served<I, R>(batches: seq<Batch<I, R>>): seq<Task<I, R>>
  {
    if batches == [] then []
    else
      var b := batches[|batches| - 1];
      Served(batches[..|batches| - 1]) + (if |b.inputs| == |b.responses| then Arrival(b) else [])
  }

  /** Every task sent so far: run, buffered or still in the channel, in order. */
  function Arrived<I, R>(s: Serve<I, R>): seq<Task<I, R>>
  {
    Served(s.batches) + s.buf + s.channel
  }

  lemma ServedSnoc<I, R>(batches: seq<Batch<I, R>>, buf: seq<Task<I, R>>)
    ensures Served(batches + [Drained(buf)]) == Served(batches) + buf
  {
    assert (batches + [Drained(buf)])[..|batches|] == batches;
    DrainedArrival(buf);
  }

  /** Ending a cycle moves the buffer into the batches without changing the tasks. */
  lemma EndCycleKeepsTasks<I, R>(base: nat, s: Serve<I, R>)
    ensures Arrived(EndCycle(base, s)) == Arrived(s)
    ensures Arrived(CheckFull(base, s)) == Arrived(s)
  {
    if s.buf != [] {
      ServedSnoc(s.batches, s.buf);
    }
  }

  /** A receive moves tasks from the front of the channel to the end of the buffer. */
  lemma ReceiveKeepsTasks<I, R>(base: nat, s: Serve<I, R>)
    ensures Arrived(Step(base, s, Receive)) == Arrived(s)
  {
    var r := Step(base, s, Receive);
    if s.status == Running && |s.buf| <= s.maxBatch {
      var limit := s.maxBatch - |s.buf|;
      var p := Min(limit, |s.channel|);
      if !(limit > 0 && s.channel == [] && !s.closed) && p > 0 {
        var s' := s.(buf := s.buf + s.channel[..p], channel := s.channel[p..]);
        assert r == CheckFull(base, s');
        TakeFront(Served(s.batches), s.buf, s.channel, p);
        EndCycleKeepsTasks(base, s');
      } else {
        assert r.buf == s.buf && r.channel == s.channel && r.batches == s.batches;
      }
    } else {
      assert r.buf == s.buf && r.channel == s.channel && r.batches == s.batches;
    }
  }

  lemma TakeFront<A>(served: seq<A>, buf: seq<A>, channel: seq<A>, p: nat)
    requires p <= |channel|
    ensures served + (buf + channel[..p]) + channel[p..] == served + buf + channel
  {
    assert channel == channel[..p] + channel[p..];
  }

  /** A sent task joins the end of the channel. */
  lemma SendKeepsTasks<I, R>(base: nat, s: Serve<I, R>, t: Task<I, R>)
    requires s.status == Running
    ensures Arrived(Step(base, s, Send(t))) == Arrived(s) + [t]
  {
    assert Step(base, s, Send(t)).channel == s.channel + [t];
  }

  /** No task is lost, duplicated or reordered: an event adds the sent task at the
      end of everything sent, and changes nothing else about it. */
  lemma StepKeepsTasks<I, R>(base: nat, s: Serve<I, R>, e: Event<I, R>)
    ensures Arrived(Step(base, s, e)) == Arrived(s) + (if e.Send? && s.status == Running then [e.task] else [])
  {
    if s.status != Running {
      assert Step(base, s, e) == s;
    } else if e.Receive? {
      ReceiveKeepsTasks(base, s);
    } else if e.Deadline? {
      EndCycleKeepsTasks(base, s);
    } else if e.Send? {
      SendKeepsTasks(base, s, e.task);
    } else if e.Command? && e.cmd.Some? {
      assert Step(base, s, e) == CheckFull(base, s.(maxBatch := e.cmd.value));
      EndCycleKeepsTasks(base, s.(maxBatch := e.cmd.value));
    } else {
      assert Step(base, s, e).buf == s.buf && Step(base, s, e).channel == s.channel && Step(base, s, e).batches == s.batches;
    }
  }

  /** A batch is run only at the end of a cycle, holds at least one task and never
      more than the ceiling in force before the event that ended it. */
  lemma StepBatches<I, R>(base: nat, s: Serve<I, R>, e: Event<I, R>)
    requires Bounded(s)
    ensures var r := Step(base, s, e);
      || r.batches == s.batches
      || (&& |r.batches| == |s.batches| + 1 && r.batches[..|s.batches|] == s.batches
          && 1 <= |r.batches[|s.batches|].inputs| <= s.maxBatch
          && r.buf == [] && r.accTime == base)
  {
    var r := Step(base, s, e);
    if r.batches != s.batches {
      assert r.batches[..|s.batches|] == s.batches;
    }
  }

  /** The end of a cycle doubles the window when the buffer is empty and runs no
      batch; otherwise it resets the window and runs the buffer. */
  lemma EndCycleWindow<I, R>(base: nat, s: Serve<I, R>)
    ensures var r := EndCycle(base, s);
      && (s.buf == [] ==> r.accTime == 2 * s.accTime && r.batches == s.batches)
      && (s.buf != [] ==> r.accTime == base && r.batches == s.batches + [Drained(s.buf)] && r.buf == [])
  {
  }

  /** The loop stops only on a receive of no task with an empty buffer. */
  lemma StopsOnlyEmpty<I, R>(base: nat, s: Serve<I, R>, e: Event<I, R>)
    requires s.status == Running && Step(base, s, e).status == Stopped
    ensures e.Receive? && s.buf == [] && (s.channel == [] || s.maxBatch == 0)
  {
  }

  /** Lowering the ceiling below the buffer's length ends the cycle with a batch
      larger than the new ceiling. */
  lemma LoweredCeilingExample(t: Task<int, int>)
    ensures var s := Serve(4, 10, [t, t, t], [], false, Running, []);
      var r := Step(7, s, Command(Some(2)));
      && r.maxBatch == 2 && |r.batches| == 1 && |r.batches[0].inputs| == 3 && r.accTime == 7
  {
  }

  /** A ceiling of zero stops the loop at the next receive even with tasks waiting:
      `recv_many` with a limit of zero returns zero. */
  lemma ZeroCeilingStops<I, R>(base: nat, s: Serve<I, R>, t: Task<I, R>)
    requires s.status == Running && s.buf == []
    ensures var r := Step(base, Step(base, s.(channel := [t]), Command(Some(0))), Receive);
      r.status == Stopped && r.channel == [t]
  {
  }

  /** The `'main` loop as an object: `Handle` performs one event in place. */
  class Server<I, R> {
    const base: nat
    var maxBatch: nat
    var accTime: nat
    var buf: seq<Task<I, R>>
    var channel: seq<Task<I, R>>
    var closed: bool
    var status: Status
    var batches: seq<Batch<I, R>>

    function State(): Serve<I, R>
      reads this
    {
      Serve(maxBatch, accTime, buf, channel, closed, status, batches)
    }

    /** `serve`'s set-up. */
    constructor (maxBatch0: nat, base0: nat, channel0: seq<Task<I, R>>, closed0: bool)
      ensures State() == Start(maxBatch0, base0, channel0, closed0) && base == base0
    {
      base := base0;
      maxBatch := maxBatch0;
      accTime := base0;
      buf := [];
      channel := channel0;
      closed := closed0;
      status := if maxBatch0 > 0 then Running else Panicked;
      batches := [];
    }

    /** The `buf.pop()` loop: push each popped task's input and responder in the
        same step. */
    static method Drain(buf0: seq<Task<I, R>>) returns (inputs: seq<I>, responses: seq<R>)
      ensures Batch(inputs, responses) == Drained(buf0)
    {
      var b := buf0;
      inputs, responses := [], [];
      while b != []
        invariant b == buf0[..|b|]
        invariant Drained(buf0) == Batch(inputs + Drained(b).inputs, responses + Drained(b).responses)
        decreases |b|
      {
        var t := b[|b| - 1];
        b := b[..|b| - 1];
        inputs := inputs + [t.input];
        responses := responses + [t.responder];
      }
    }

    /** The end of a cycle; `inputs` and `responses` start empty for every batch. */
    method FinishCycle()
      modifies this
      ensures State() == EndCycle(base, old(State()))
    {
      if buf == [] {
        accTime := 2 * accTime;
      } else {
        accTime := base;
        var inputs, responses := Drain(buf);
        buf := [];
        batches := batches + [Batch(inputs, responses)];
      }
    }

    method BreakIfFull()
      modifies this
      ensures State() == CheckFull(base, old(State()))
    {
      if |buf| >= maxBatch {
        FinishCycle();
      }
    }

    /** One event. */
    method Handle(e: Event<I, R>)
      modifies this
      ensures State() == Step(base, old(State()), e)
    {
      if status != Running {
        return;
      }
      match e
      case Send(t) =>
        channel := channel + [t];
      case CloseSenders =>
        closed := true;
      case Deadline =>
        FinishCycle();
      case Command(cmd) =>
        if cmd.Some? {
          maxBatch := cmd.value;
          BreakIfFull();
        }
      case Receive =>
        if |buf| > maxBatch {
          status := Panicked;
          return;
        }
        var limit := maxBatch - |buf|;
        if limit > 0 && channel == [] && !closed {
          return;
        }
        var p := Min(limit, |channel|);
        if p == 0 {
          status := if buf == [] then Stopped else Panicked;
          return;
        }
        buf := buf + channel[..p];
        channel := channel[p..];
        BreakIfFull();
    }
  }

  /* ---------- handles ---------- */

  /** A result channel; every one is a new object, with room for one reply. */
  class ResultChannel {
    const capacity: nat

    constructor ()
      ensures capacity == 1
    {
      capacity := 1;
    }
  }

  /** The task channel the executor receives from. */
  class TaskChannel {
    constructor ()
    {
    }
  }

  /** A handle: where to send tasks, and its own channel for their replies. */
  datatype Handle = Handle(taskSender: TaskChannel, result: ResultChannel)

  class Executor {
    const sender: TaskChannel

    /** `new`: a fresh task channel. */
    constructor ()
      ensures fresh(sender)
    {
      sender := new TaskChannel();
    }

    /** `mint_handle`: a handle on this executor's task channel with a new result
        channel of capacity one. */
    method MintHandle() returns (h: Handle)
      ensures h.taskSender == sender && fresh(h.result) && h.result.capacity == 1
    {
      var rc := new ResultChannel();
      h := Handle(sender, rc);
    }
  }

  /** `clone`: the same task channel, but a new result channel of capacity one, so
      replies to the clone never reach the original. */
  method CloneHandle(h: Handle) returns (r: Handle)
    ensures r.taskSender == h.taskSender && fresh(r.result) && r.result.capacity == 1
    ensures r.result != h.result
  {
    var rc := new ResultChannel();
    r := Handle(h.taskSender, rc);
  }

  /** `execute`: the task sent carries the handle's own result channel. */
  function Execute<I>(h: Handle, input: I): (e: Event<I, ResultChannel>)
    ensures e.Send? && e.task.input == input && e.task.responder == h.result
  {
    Send(Task(input, h.result))
  }
}
