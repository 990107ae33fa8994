/** The write queue of async_socket_stream.cpp: any number of enqueuers and one
    runWrite fiber, over a list and a FiberSemaphore of no permits. */
module AsyncWriter {
  import opened Prelude
  import opened Semaphores

  /** Where runWrite is: before m_fiber_sem.wait, parked in it, behind it, in the loop over a batch, or out. */
  datatype Writer = Ready | Parked | Woken | Sending(batch: seq<int>) | Out

  datatype State = State(
    list: seq<int>,      // m_list_ctxs
    sem: Sem<()>,        // only the writer waits
    writer: Writer,
    pushed: seq<int>,    // the order of the calls of enqueue, by their push
    sent: seq<int>,      // what doSend was called with, in order
    pending: nat)        // enqueuers between their push and their notify

  datatype Step =
    | Push(x: int) | Notify | Wait | Swap | Send | Disconnect

  function Init(): (r: State) {
    State([], Sem(0, []), Ready, [], [], 0)
  }

  predicate Enabled(s: State, step: Step) {
    match step
    case Push(_) => true
    case Notify => s.pending > 0
    case Wait => s.writer == Ready || s.writer == Sending([])
    case Swap => s.writer == Woken
    case Send => s.writer.Sending? && s.writer.batch != []
    case Disconnect => s.writer == Ready || s.writer == Sending([])
  }

  function Next(s: State, step: Step): (r: State)
    requires Enabled(s, step)
  {
    match step
    case Push(x) => s.(list := s.list + [x], pushed := s.pushed + [x], pending := s.pending + 1)
    case Notify =>
      s.(pending := s.pending - 1, sem := s.sem.Notify(), writer := if s.sem.Woken().Some? then Woken else s.writer)
    case Wait => s.(sem := s.sem.Wait(()), writer := if s.sem.Free() then Woken else Parked)
    case Swap => s.(list := [], writer := Sending(s.list))
    case Send => s.(sent := s.sent + [s.writer.batch[0]], writer := Sending(s.writer.batch[1..]))
    case Disconnect => s.(writer := Out)
  }

  function Batch(s: State): (r: seq<int>) {
    if s.writer.Sending? then s.writer.batch else []
  }

  /** Sent, at hand and in the list is what was enqueued, in that order. */
  predicate InOrder(s: State) {
    s.sent + Batch(s) + s.list == s.pushed
  }

  /** How often the writer has got a permit: once for each notify that is not a free permit. */
  function Grants(s: State): (r: int) {
    |s.pushed| - s.pending - s.sem.num
  }

  ghost predicate Inv(s: State) {
    && s.sem.Inv() && InOrder(s)
    && (s.writer == Parked <==> s.sem.waiting == [()]) && (s.writer != Parked <==> s.sem.waiting == [])
    && (s.writer != Woken ==> Grants(s) <= |s.pushed| - |s.list|)
  }

  lemma StepInOrder(s: State, step: Step)
    requires Inv(s) && Enabled(s, step)
    ensures InOrder(Next(s, step))
  {
    if step.Send? {
      assert s.writer.batch == [s.writer.batch[0]] + s.writer.batch[1..];
    }
  }

  lemma StepInv(s: State, step: Step)
    requires Inv(s) && Enabled(s, step)
    ensures Inv(Next(s, step))
  {
    StepInOrder(s, step);
  }

  function After(steps: seq<Step>): (r: Option<State>) {
    if steps == [] then Some(Init()) else
      var before := After(steps[..|steps| - 1]);
      if before.Some? && Enabled(before.value, steps[|steps| - 1])
      then Some(Next(before.value, steps[|steps| - 1])) else None
  }

  lemma {:induction false} RunInv(steps: seq<Step>)
    requires After(steps).Some?
    ensures Inv(After(steps).value)
  {
    if steps != [] {
      RunInv(steps[..|steps| - 1]);
      StepInv(After(steps[..|steps| - 1]).value, steps[|steps| - 1]);
    }
  }

  /** What enqueue was called with, in order. */
  function Enqueued(steps: seq<Step>): (r: seq<int>) {
    if steps == [] then [] else
      Enqueued(steps[..|steps| - 1]) + if steps[|steps| - 1].Push? then [steps[|steps| - 1].x] else []
  }

  lemma {:induction false} PushedInOrder(steps: seq<Step>)
    requires After(steps).Some?
    ensures After(steps).value.pushed == Enqueued(steps)
  {
    if steps != [] {
      PushedInOrder(steps[..|steps| - 1]);
    }
  }

  /** Nothing is lost, sent twice or out of order. */
  lemma ExactlyOnce(steps: seq<Step>)
    requires After(steps).Some?
    ensures var s := After(steps).value; s.sent <= Enqueued(steps) && s.sent + Batch(s) + s.list == Enqueued(steps)
  {
    RunInv(steps);
    PushedInOrder(steps);
    var s := After(steps).value;
    assert s.pushed == s.sent + (Batch(s) + s.list);
  }

  /** No lost wake-up: a parked writer with a filled list will be notified, by an enqueuer that is still on its way. */
  lemma NoLostWakeUp(steps: seq<Step>)
    requires After(steps).Some? && After(steps).value.writer == Parked && After(steps).value.list != []
    ensures After(steps).value.pending > 0
  {
    RunInv(steps);
  }

  /** With all enqueuers through and the writer parked, everything is sent. */
  lemma Settled(steps: seq<Step>)
    requires After(steps).Some? && After(steps).value.writer == Parked && After(steps).value.pending == 0
    ensures After(steps).value.sent == Enqueued(steps)
  {
    RunInv(steps);
    PushedInOrder(steps);
    if After(steps).value.list != [] {
      NoLostWakeUp(steps);
    }
  }

  // ----- what is enqueued can be sent -----

  lemma Extend(steps: seq<Step>, step: Step)
    requires After(steps).Some? && Enabled(After(steps).value, step)
    ensures After(steps + [step]) == Some(Next(After(steps).value, step))
  {
    assert (steps + [step])[..|steps|] == steps;
  }

  /** The loop over a batch can be gone through. */
  lemma Empties(steps: seq<Step>) returns (more: seq<Step>)
    requires After(steps).Some? && After(steps).value.writer.Sending?
    ensures After(more).Some? && steps <= more
    ensures var s, u := After(steps).value, After(more).value;
            u == s.(sent := s.sent + s.writer.batch, writer := Sending([]))
    decreases |Batch(After(steps).value)|
  {
    var s := After(steps).value;
    more := steps;
    if s.writer.batch != [] {
      Extend(steps, Send);
      more := Empties(steps + [Send]);
      assert s.sent + [s.writer.batch[0]] + s.writer.batch[1..] == s.sent + s.writer.batch;
    } else {
      assert s.sent + [] == s.sent;
    }
  }

  /** A writer that is about to wait, or waits, with a filled list can be woken. */
  lemma Wakes(steps: seq<Step>) returns (more: seq<Step>)
    requires After(steps).Some? && After(steps).value.list != []
    requires After(steps).value.writer in {Ready, Parked, Woken, Sending([])}
    ensures After(more).Some? && steps <= more
    ensures After(more).value.writer == Woken && After(more).value.pushed == After(steps).value.pushed
  {
    RunInv(steps);
    more := steps;
    if After(more).value.writer == Ready || After(more).value.writer == Sending([]) {
      Extend(more, Wait);
      more := more + [Wait];
      RunInv(more);
    }
    if After(more).value.writer == Parked {
      NoLostWakeUp(more);
      Extend(more, Notify);
      more := more + [Notify];
    }
  }

  /** From every reachable state in which the writer has not ended, the run can go on until everything that was enqueued
      has been sent. */
  lemma CanSendAll(steps: seq<Step>) returns (more: seq<Step>)
    requires After(steps).Some? && After(steps).value.writer != Out
    ensures After(more).Some? && steps <= more
    ensures After(more).value.pushed == After(steps).value.pushed == After(more).value.sent
  {
    more := steps;
    if After(more).value.writer.Sending? {
      more := Empties(more);
    }
    if After(more).value.list != [] {
      more := Wakes(more);
      Extend(more, Swap);
      more := more + [Swap];
      more := Empties(more);
    } else if After(more).value.writer == Woken {
      Extend(more, Swap);
      more := Empties(more + [Swap]);
    }
    RunInv(more);
  }
}
