/** WorkerGroup of worker.cpp as interleaved steps of submitters, workers and
    callers of waitAll, over one FiberSemaphore. */
module Workers {
  import opened Prelude
  import opened Semaphores

  /** Who waits for a permit: the submitter of a task, or a caller of waitAll. */
  datatype Waiter = Task(task: int) | Drain(caller: int)

  /** Where a task is: its submitter is parked in m_sem.wait or has the permit; it is with the scheduler, in cb,
      or back from cb with the notify still to come; or all is done. */
  datatype Phase = Parked | Granted | Queued | Running | Ending | Done

  datatype State = State(
    batchSize: nat,
    sem: Sem<Waiter>,
    finish: bool,                // m_finish
    phase: map<int, Phase>,      // for each task that shcedule was called with
    holders: set<int>,           // the tasks with a permit
    entering: set<int>,          // callers of waitAll that have found m_finish false
    held: multiset<int>,         // one entry for each permit that a caller has got
    asked: map<int, set<int>>,   // the tasks submitted when a caller called waitAll
    before: map<int, set<int>>,  // the tasks submitted when a caller that had found m_finish false set it
    returned: set<int>)          // callers whose waitAll has returned

  datatype Step =
    | Submit(t: int) | Queue(t: int) | Start(t: int) | Return(t: int) | Notify(t: int)
    | Enter(c: int) | Begin(c: int) | Acquire(c: int) | Leave(c: int)

  function Init(batchSize: nat): (s: State) {
    State(batchSize, Sem(batchSize, []), false, map[], {}, {}, multiset{}, map[], map[], {})
  }

  predicate At(s: State, t: int, p: Phase) {
    t in s.phase && s.phase[t] == p
  }

  predicate Enabled(s: State, step: Step) {
    match step
    case Submit(t) => t !in s.phase
    case Queue(t) => At(s, t, Granted)
    case Start(t) => At(s, t, Queued)
    case Return(t) => At(s, t, Running)
    case Notify(t) => At(s, t, Ending)
    case Enter(c) => c !in s.asked
    case Begin(c) => c in s.entering
    case Acquire(c) => c in s.before && c !in s.returned && Drain(c) !in s.sem.waiting && s.held[c] < s.batchSize
    case Leave(c) => c in s.before && c !in s.returned && s.held[c] == s.batchSize
  }

  /** The permit goes to w. */
  function Give(s: State, w: Waiter): (u: State) {
    match w
    case Task(t) => s.(phase := s.phase[t := Granted], holders := s.holders + {t})
    case Drain(c) => s.(held := s.held + multiset{c})
  }

  /** m_sem.wait of w. */
  function Wait(s: State, w: Waiter): (u: State) {
    var t := s.(sem := s.sem.Wait(w));
    if s.sem.Free() then Give(t, w) else t
  }

  /** m_sem.notify. */
  function Release(s: State): (u: State) {
    var t := s.(sem := s.sem.Notify());
    if s.sem.Woken().Some? then Give(t, s.sem.Woken().value) else t
  }

  function Next(s: State, step: Step): (u: State)
    requires Enabled(s, step)
  {
    match step
    case Submit(t) => Wait(s.(phase := s.phase[t := Parked]), Task(t))
    case Queue(t) => s.(phase := s.phase[t := Queued])
    case Start(t) => s.(phase := s.phase[t := Running])
    case Return(t) => s.(phase := s.phase[t := Ending])
    case Notify(t) => Release(s.(phase := s.phase[t := Done], holders := s.holders - {t}))
    case Enter(c) =>
      var u := s.(asked := s.asked[c := s.phase.Keys]);
      if s.finish then u.(returned := s.returned + {c}) else u.(entering := s.entering + {c})
    case Begin(c) => s.(entering := s.entering - {c}, finish := true, before := s.before[c := s.phase.Keys])
    case Acquire(c) => Wait(s, Drain(c))
    case Leave(c) => s.(returned := s.returned + {c})
  }

  // ----- what every step keeps -----

  ghost predicate Distinct(ws: seq<Waiter>) {
    forall i, j :: 0 <= i < j < |ws| ==> ws[i] != ws[j]
  }

  /** Free permits, those of tasks and those of callers of waitAll are the batch size. */
  predicate Conserved(s: State) {
    s.sem.num + |s.holders| + |s.held| == s.batchSize
  }

  /** A task has a permit while it is in flight, and waits in the queue while it is parked. */
  ghost predicate Tasks(s: State) {
    && (forall t :: t in s.holders <==> t in s.phase && s.phase[t] in {Granted, Queued, Running, Ending})
    && (forall t :: Task(t) in s.sem.waiting <==> At(s, t, Parked))
    && Distinct(s.sem.waiting)
  }

  ghost predicate Callers(s: State) {
    && (forall c :: Drain(c) in s.sem.waiting ==> c in s.before && c !in s.returned && s.held[c] < s.batchSize)
    && (forall c :: c in s.held ==> c in s.before && s.held[c] <= s.batchSize)
    && (forall c :: c in s.before ==> s.finish && s.before[c] <= s.phase.Keys && c !in s.entering)
    && (forall c :: c in s.entering ==> c !in s.returned)
    && (forall c :: c in s.before && c in s.returned ==> s.held[c] == s.batchSize)
  }

  ghost predicate Calls(s: State) {
    && (forall c :: c in s.asked ==> s.asked[c] <= s.phase.Keys)
    && (forall c :: c in s.before ==> c in s.asked && s.asked[c] <= s.before[c])
    && (forall c :: c in s.entering || c in s.returned ==> c in s.asked)
  }

  /** Tasks that were submitted before a caller began are ahead of it in the queue, and none of them is left in the
      queue once it has a permit and does not wait for another one. */
  ghost predicate InTurn(s: State) {
    var ws := s.sem.waiting;
    && (forall i, j :: 0 <= i < j < |ws| && ws[i].Drain? && ws[j].Task? && ws[i].caller in s.before ==>
          ws[j].task !in s.before[ws[i].caller])
    && (forall c, j :: c in s.held && c in s.before && Drain(c) !in ws && 0 <= j < |ws| && ws[j].Task? ==>
          ws[j].task !in s.before[c])
  }

  ghost predicate Inv(s: State) {
    s.sem.Inv() && Tasks(s) && Conserved(s) && Callers(s) && Calls(s) && InTurn(s)
  }

  lemma InitInv(batchSize: nat)
    ensures Inv(Init(batchSize))
  {
  }

  // Submit

  lemma PushBack(ws: seq<Waiter>, w: Waiter)
    requires Distinct(ws) && w !in ws
    ensures Distinct(ws + [w]) && forall x :: x in ws + [w] <==> x == w || x in ws
  {
  }

  lemma SubmitTasks(s: State, t: int)
    requires Inv(s) && t !in s.phase
    ensures Tasks(Next(s, Submit(t)))
  {
    assert Task(t) !in s.sem.waiting;
    PushBack(s.sem.waiting, Task(t));
  }

  lemma SubmitInTurn(s: State, t: int)
    requires Inv(s) && t !in s.phase
    ensures InTurn(Next(s, Submit(t)))
  {
    var u := Next(s, Submit(t));
    forall c | Drain(c) !in u.sem.waiting ensures Drain(c) !in s.sem.waiting {
    }
  }

  lemma SubmitInv(s: State, t: int)
    requires Inv(s) && t !in s.phase
    ensures Inv(Next(s, Submit(t)))
  {
    SubmitTasks(s, t);
    SubmitInTurn(s, t);
    assert Callers(Next(s, Submit(t)));
  }

  // Notify

  lemma PopFront(ws: seq<Waiter>)
    requires Distinct(ws) && ws != []
    ensures Distinct(ws[1..]) && ws[0] !in ws[1..]
    ensures forall w :: w in ws <==> w == ws[0] || w in ws[1..]
  {
    assert ws == [ws[0]] + ws[1..];
  }

  lemma NotifyTasks(s: State, t: int)
    requires Inv(s) && At(s, t, Ending)
    ensures Tasks(Next(s, Notify(t)))
  {
    if s.sem.waiting != [] {
      PopFront(s.sem.waiting);
    }
  }

  lemma NotifyCallers(s: State, t: int)
    requires Inv(s) && At(s, t, Ending)
    ensures Callers(Next(s, Notify(t)))
  {
    if s.sem.waiting != [] {
      PopFront(s.sem.waiting);
    }
  }

  lemma NotifyInTurn(s: State, t: int)
    requires Inv(s) && At(s, t, Ending)
    ensures InTurn(Next(s, Notify(t)))
  {
    if s.sem.waiting != [] {
      PopFront(s.sem.waiting);
    }
  }

  lemma NotifyConserved(s: State, t: int)
    requires Inv(s) && At(s, t, Ending)
    ensures Conserved(Next(s, Notify(t)))
  {
    assert |s.holders - {t}| == |s.holders| - 1;
    if s.sem.waiting != [] && s.sem.waiting[0].Task? {
      assert At(s, s.sem.waiting[0].task, Parked);
    }
  }

  lemma NotifyInv(s: State, t: int)
    requires Inv(s) && At(s, t, Ending)
    ensures Inv(Next(s, Notify(t)))
  {
    NotifyTasks(s, t);
    NotifyCallers(s, t);
    NotifyInTurn(s, t);
    NotifyConserved(s, t);
  }

  // the others

  lemma AcquireCallers(s: State, c: int)
    requires Inv(s) && Enabled(s, Acquire(c))
    ensures Callers(Next(s, Acquire(c))) && Calls(Next(s, Acquire(c)))
  {
  }

  lemma AcquireInTurn(s: State, c: int)
    requires Inv(s) && Enabled(s, Acquire(c))
    ensures InTurn(Next(s, Acquire(c)))
  {
    if !s.sem.Free() {
      assert Next(s, Acquire(c)).sem.waiting == s.sem.waiting + [Drain(c)];
    }
  }

  lemma AcquireInv(s: State, c: int)
    requires Inv(s) && Enabled(s, Acquire(c))
    ensures Inv(Next(s, Acquire(c)))
  {
    AcquireCallers(s, c);
    AcquireInTurn(s, c);
    assert Tasks(Next(s, Acquire(c)));
  }

  lemma MoveInv(s: State, t: int, from: Phase, to: Phase)
    requires Inv(s) && At(s, t, from)
    requires from in {Granted, Queued, Running, Ending} && to in {Granted, Queued, Running, Ending}
    ensures Inv(s.(phase := s.phase[t := to]))
  {
    var u := s.(phase := s.phase[t := to]);
    assert u.phase.Keys == s.phase.Keys;
    assert Tasks(u) && Callers(u) && InTurn(u);
  }

  lemma EnterInv(s: State, c: int)
    requires Inv(s) && c !in s.asked
    ensures Inv(Next(s, Enter(c)))
  {
    var u := Next(s, Enter(c));
    assert Tasks(u) && InTurn(u) && Callers(u);
  }

  lemma BeginInv(s: State, c: int)
    requires Inv(s) && c in s.entering
    ensures Inv(Next(s, Begin(c)))
  {
    var u := Next(s, Begin(c));
    assert c !in s.before && c !in s.held && Drain(c) !in s.sem.waiting;
    assert Tasks(u) && Callers(u) && Calls(u);
    BeginInTurn(s, c);
  }

  lemma BeginInTurn(s: State, c: int)
    requires Inv(s) && c in s.entering && c !in s.before && c !in s.held && Drain(c) !in s.sem.waiting
    ensures InTurn(Next(s, Begin(c)))
  {
    forall i | 0 <= i < |s.sem.waiting| && s.sem.waiting[i].Drain? ensures s.sem.waiting[i].caller != c {
      assert s.sem.waiting[i] != Drain(c);
    }
  }

  lemma LeaveInv(s: State, c: int)
    requires Inv(s) && Enabled(s, Leave(c))
    ensures Inv(Next(s, Leave(c)))
  {
    var u := Next(s, Leave(c));
    assert Tasks(u) && Callers(u) && Calls(u) && InTurn(u);
  }

  lemma StepInv(s: State, step: Step)
    requires Inv(s) && Enabled(s, step)
    ensures Inv(Next(s, step))
  {
    match step
    case Submit(t) => SubmitInv(s, t);
    case Queue(t) => MoveInv(s, t, Granted, Queued);
    case Start(t) => MoveInv(s, t, Queued, Running);
    case Return(t) => MoveInv(s, t, Running, Ending);
    case Notify(t) => NotifyInv(s, t);
    case Enter(c) => EnterInv(s, c);
    case Begin(c) => BeginInv(s, c);
    case Acquire(c) => AcquireInv(s, c);
    case Leave(c) => LeaveInv(s, c);
  }

  // ----- every run -----

  /** The state behind the steps, if each of them is possible where it is made. */
  function After(batchSize: nat, steps: seq<Step>): (r: Option<State>) {
    if steps == [] then Some(Init(batchSize)) else
      var before := After(batchSize, steps[..|steps| - 1]);
      if before.Some? && Enabled(before.value, steps[|steps| - 1])
      then Some(Next(before.value, steps[|steps| - 1])) else None
  }

  lemma {:induction false} RunInv(batchSize: nat, steps: seq<Step>)
    requires After(batchSize, steps).Some?
    ensures Inv(After(batchSize, steps).value) && After(batchSize, steps).value.batchSize == batchSize
  {
    if steps != [] {
      RunInv(batchSize, steps[..|steps| - 1]);
      StepInv(After(batchSize, steps[..|steps| - 1]).value, steps[|steps| - 1]);
    }
  }

  /** At most batchSize tasks are in flight, and free permits, tasks and callers share all the permits. */
  lemma PermitConservation(batchSize: nat, steps: seq<Step>)
    requires After(batchSize, steps).Some?
    ensures var s := After(batchSize, steps).value;
            s.sem.num + |s.holders| + |s.held| == batchSize && |s.holders| <= batchSize
  {
    RunInv(batchSize, steps);
  }

  lemma HeldAtMost(m: multiset<int>, c: int)
    ensures m[c] <= |m|
  {
    assert |m[c := 0]| == |m| - m[c];
  }

  /** When a caller that has drained the group is through, no task is in flight and everything that was submitted
      before it began is done; and this stays so: such a group never grants a permit again. */
  lemma Drained(batchSize: nat, steps: seq<Step>, c: int)
    requires 0 < batchSize && After(batchSize, steps).Some?
    requires var s := After(batchSize, steps).value; c in s.before && (c in s.returned || Enabled(s, Leave(c)))
    ensures var s := After(batchSize, steps).value;
            && s.holders == {} && s.sem.num == 0
            && forall t :: t in s.before[c] ==> At(s, t, Done)
  {
    RunInv(batchSize, steps);
    var s := After(batchSize, steps).value;
    HeldAtMost(s.held, c);
    forall t | t in s.before[c] ensures At(s, t, Done) {
      forall j | 0 <= j < |s.sem.waiting| ensures s.sem.waiting[j] != Task(t) {
        assert s.sem.waiting[j].Task? ==> s.sem.waiting[j].task !in s.before[c];
      }
      assert Task(t) !in s.sem.waiting && t !in s.holders;
    }
  }

  /** At most one caller drains the group: of two that find m_finish false, one waits for ever. */
  lemma OneDrains(batchSize: nat, steps: seq<Step>, c: int, d: int)
    requires 0 < batchSize && After(batchSize, steps).Some? && c != d
    requires var s := After(batchSize, steps).value; c in s.before && c in s.returned && d in s.before
    ensures var s := After(batchSize, steps).value; d !in s.returned && s.held[d] == 0
  {
    RunInv(batchSize, steps);
    var s := After(batchSize, steps).value;
    assert |s.held[c := 0]| == |s.held| - s.held[c];
    HeldAtMost(s.held[c := 0], d);
  }

  /** When a submitter is parked, some task is in flight, and its notify is still to come, if and only if the callers of
      waitAll do not hold all permits. When only c drains the group, these are the ones of c. */
  lemma NoLostWakeUp(batchSize: nat, steps: seq<Step>, c: int)
    requires 0 < batchSize && After(batchSize, steps).Some?
    requires After(batchSize, steps).value.sem.waiting != []
    ensures var s := After(batchSize, steps).value;
            && (s.holders != {} <==> |s.held| < batchSize)
            && ((forall d :: d in s.before ==> d == c) ==> |s.held| == s.held[c])
  {
    RunInv(batchSize, steps);
    var s := After(batchSize, steps).value;
    if forall d :: d in s.before ==> d == c {
      OnlyHolder(s.held, c);
    }
  }

  lemma OnlyHolder(m: multiset<int>, c: int)
    requires forall d :: d in m ==> d == c
    ensures |m| == m[c]
  {
    var rest := m[c := 0];
    assert forall d :: d in rest ==> d in m && d != c;
    assert rest == multiset{};
    assert |rest| == |m| - m[c];
  }

  lemma Extend(batchSize: nat, steps: seq<Step>, s: State, step: Step)
    requires After(batchSize, steps) == Some(s) && Enabled(s, step)
    ensures After(batchSize, steps + [step]) == Some(Next(s, step))
  {
    assert (steps + [step])[..|steps|] == steps;
  }

  // ----- every task runs once, and can end -----

  predicate OfTask(step: Step) {
    step.Submit? || step.Queue? || step.Start? || step.Return? || step.Notify?
  }

  /** How many steps of its own a task has made. */
  function Level(s: State, t: int): (n: nat) {
    if t !in s.phase then 0 else
      match s.phase[t]
      case Parked => 1
      case Granted => 1
      case Queued => 2
      case Running => 3
      case Ending => 4
      case Done => 5
  }

  /** Which one a step is. */
  function Rank(step: Step): (n: nat)
    requires OfTask(step)
  {
    match step
    case Submit(_) => 1
    case Queue(_) => 2
    case Start(_) => 3
    case Return(_) => 4
    case Notify(_) => 5
  }

  /** How often a step has been made, told from where its task is. */
  function Made(s: State, step: Step): (n: nat)
    requires OfTask(step)
  {
    if Rank(step) <= Level(s, step.t) then 1 else 0
  }

  lemma NextWaits(s: State)
    requires Inv(s)
    ensures s.sem.waiting != [] && s.sem.waiting[0].Task? ==> At(s, s.sem.waiting[0].task, Parked)
  {
  }

  lemma LevelStep(s: State, step: Step, t: int)
    requires Inv(s) && Enabled(s, step)
    ensures OfTask(step) ==> Level(s, step.t) == Rank(step) - 1
    ensures Level(Next(s, step), t) == if OfTask(step) && step.t == t then Rank(step) else Level(s, t)
  {
    NextWaits(s);
  }

  lemma MadeOnce(s: State, step: Step, x: Step)
    requires Inv(s) && Enabled(s, step) && OfTask(x)
    ensures Made(Next(s, step), x) == Made(s, x) + if x == step then 1 else 0
  {
    LevelStep(s, step, x.t);
    if OfTask(step) && step.t == x.t && Rank(step) == Rank(x) {
      assert step == x;
    }
  }

  /** In every run each step of a task is made once at most: it is submitted, handed to the scheduler, started, returns
      and notifies, and where it is tells which of these have been made. */
  lemma {:induction false} EachOnce(batchSize: nat, steps: seq<Step>, x: Step)
    requires After(batchSize, steps).Some? && OfTask(x)
    ensures multiset(steps)[x] == Made(After(batchSize, steps).value, x)
  {
    if steps == [] {
    } else {
      var init, step := steps[..|steps| - 1], steps[|steps| - 1];
      assert steps == init + [step];
      EachOnce(batchSize, init, x);
      RunInv(batchSize, init);
      MadeOnce(After(batchSize, init).value, step, x);
    }
  }

  /** So a callback is called at most once, and once when its task is done. */
  lemma RunsOnce(batchSize: nat, steps: seq<Step>, t: int)
    requires After(batchSize, steps).Some?
    ensures multiset(steps)[Start(t)] <= 1
    ensures At(After(batchSize, steps).value, t, Done) ==>
              multiset(steps)[Start(t)] == 1 && multiset(steps)[Return(t)] == 1 && multiset(steps)[Notify(t)] == 1
  {
    EachOnce(batchSize, steps, Start(t));
    EachOnce(batchSize, steps, Return(t));
    EachOnce(batchSize, steps, Notify(t));
  }

  function Undone(s: State): (r: set<int>) {
    set t | t in s.phase && s.phase[t] != Done
  }

  /** What the steps of one task leave as it is. */
  predicate SameCallers(s: State, u: State) {
    u.before == s.before && u.returned == s.returned && u.batchSize == s.batchSize && u.phase.Keys == s.phase.Keys
  }

  /** One step of a task that has a permit. */
  lemma Forward(batchSize: nat, steps: seq<Step>, step: Step)
    requires After(batchSize, steps).Some? && Enabled(After(batchSize, steps).value, step)
    requires step.Queue? || step.Start? || step.Return? || step.Notify?
    ensures var s, u := After(batchSize, steps).value, Next(After(batchSize, steps).value, step);
            && After(batchSize, steps + [step]) == Some(u) && SameCallers(s, u)
            && Undone(u) == Undone(s) - if step.Notify? then {step.t} else {}
  {
    var s := After(batchSize, steps).value;
    RunInv(batchSize, steps);
    Extend(batchSize, steps, s, step);
    NextWaits(s);
    assert Next(s, step).phase.Keys == s.phase.Keys;
  }

  /** From wherever a task with a permit is, it can be carried on until it is done. */
  lemma Finishes(batchSize: nat, steps: seq<Step>, t: int) returns (more: seq<Step>)
    requires After(batchSize, steps).Some? && t in After(batchSize, steps).value.holders
    ensures After(batchSize, more).Some? && steps <= more
    ensures var s, u := After(batchSize, steps).value, After(batchSize, more).value;
            At(u, t, Done) && SameCallers(s, u) && t in Undone(s) && Undone(u) == Undone(s) - {t}
  {
    RunInv(batchSize, steps);
    more := Returns(batchSize, steps, t);
    Forward(batchSize, more, Notify(t));
    EndsDone(batchSize, more, t);
    more := more + [Notify(t)];
  }

  lemma Returns(batchSize: nat, steps: seq<Step>, t: int) returns (more: seq<Step>)
    requires After(batchSize, steps).Some? && t in After(batchSize, steps).value.holders
    ensures After(batchSize, more).Some? && steps <= more
    ensures var s, u := After(batchSize, steps).value, After(batchSize, more).value;
            At(u, t, Ending) && SameCallers(s, u) && t in Undone(s) && Undone(u) == Undone(s)
    decreases 5 - Level(After(batchSize, steps).value, t)
  {
    RunInv(batchSize, steps);
    more := steps;
    var p := After(batchSize, steps).value.phase[t];
    if p != Ending {
      var step := if p == Granted then Queue(t) else if p == Queued then Start(t) else Return(t);
      Forward(batchSize, steps, step);
      StillHolds(batchSize, steps, step);
      more := Returns(batchSize, steps + [step], t);
    }
  }

  lemma StillHolds(batchSize: nat, steps: seq<Step>, step: Step)
    requires After(batchSize, steps).Some? && Enabled(After(batchSize, steps).value, step)
    requires step.Queue? || step.Start? || step.Return?
    ensures var s, u := After(batchSize, steps).value, Next(After(batchSize, steps).value, step);
            step.t in u.holders && Level(u, step.t) == Level(s, step.t) + 1
  {
    RunInv(batchSize, steps);
    LevelStep(After(batchSize, steps).value, step, step.t);
  }

  lemma EndsDone(batchSize: nat, steps: seq<Step>, t: int)
    requires After(batchSize, steps).Some? && At(After(batchSize, steps).value, t, Ending)
    ensures At(Next(After(batchSize, steps).value, Notify(t)), t, Done)
  {
    RunInv(batchSize, steps);
    NextWaits(After(batchSize, steps).value);
  }

  /** As long as nobody has begun to drain the group, every task that was submitted can be carried on until all are
      done. */
  lemma AllFinish(batchSize: nat, steps: seq<Step>) returns (more: seq<Step>)
    requires 0 < batchSize && After(batchSize, steps).Some? && After(batchSize, steps).value.before == map[]
    ensures After(batchSize, more).Some? && steps <= more
    ensures var s, u := After(batchSize, steps).value, After(batchSize, more).value;
            u.phase.Keys == s.phase.Keys && forall t :: t in u.phase ==> u.phase[t] == Done
    decreases |Undone(After(batchSize, steps).value)|
  {
    var s := After(batchSize, steps).value;
    RunInv(batchSize, steps);
    more := steps;
    if Undone(s) == {} {
      assert forall t :: t in s.phase ==> t !in Undone(s);
    } else {
      SomeHolds(s);
      var t := Member(s.holders);
      more := Finishes(batchSize, steps, t);
      Smaller(Undone(s), t);
      more := AllFinish(batchSize, more);
    }
  }

  lemma Smaller(m: set<int>, t: int)
    requires t in m
    ensures |m - {t}| < |m|
  {
  }

  lemma SomeHolds(s: State)
    requires Inv(s) && 0 < s.batchSize && s.before == map[] && Undone(s) != {}
    ensures s.holders != {}
  {
    assert forall c :: c !in s.held;
    assert s.held == multiset{};
    var t := Member(Undone(s));
    if At(s, t, Parked) {
      assert Task(t) in s.sem.waiting;
    } else {
      assert t in s.holders;
    }
  }

  /** A caller that drains the group alone can be carried on until it returns. */
  lemma DrainsAndReturns(batchSize: nat, steps: seq<Step>, c: int) returns (more: seq<Step>)
    requires After(batchSize, steps).Some? && After(batchSize, steps).value.before.Keys == {c}
    requires c !in After(batchSize, steps).value.returned
    ensures After(batchSize, more).Some? && steps <= more && c in After(batchSize, more).value.returned
    ensures After(batchSize, more).value.before == After(batchSize, steps).value.before
    decreases |Undone(After(batchSize, steps).value)|, batchSize - After(batchSize, steps).value.held[c]
  {
    var s := After(batchSize, steps).value;
    RunInv(batchSize, steps);
    if s.holders != {} {
      var t := Member(s.holders);
      more := Finishes(batchSize, steps, t);
      Smaller(Undone(s), t);
      more := DrainsAndReturns(batchSize, more, c);
    } else if s.held[c] == batchSize {
      Extend(batchSize, steps, s, Leave(c));
      more := steps + [Leave(c)];
    } else {
      OnlyHolder(s.held, c);
      assert s.sem.num > 0 && s.sem.waiting == [];
      Extend(batchSize, steps, s, Acquire(c));
      more := DrainsAndReturns(batchSize, steps + [Acquire(c)], c);
    }
  }

  /** So for every batch size but 0 there is a run in which a task was submitted before a caller, and is done when that
      caller has returned. */
  lemma SomeoneWaits(batchSize: nat, t: int, c: int) returns (run: seq<Step>)
    requires 0 < batchSize
    ensures After(batchSize, run).Some?
    ensures var s := After(batchSize, run).value;
            c in s.before && t in s.before[c] && c in s.returned && At(s, t, Done)
  {
    var s;
    run, s := Finishing(batchSize, t, c);
    assert s.before[c] == {t};
    run := DrainsAndReturns(batchSize, run, c);
    Drained(batchSize, run, c);
  }

  // ----- when waitAll waits -----

  /** Everything that was submitted before c called waitAll is done. */
  predicate AllDone(s: State, c: int)
    requires c in s.asked
  {
    forall t :: t in s.asked[c] ==> At(s, t, Done)
  }

  /** waitAll keeps its promise in every run of such a group, to every caller that found m_finish as found says: when
      it has returned, everything that was submitted before the call is done. */
  ghost predicate Waits(batchSize: nat, found: bool) {
    forall steps, c :: ReturnedIn(batchSize, steps, c, found) ==> AllDone(After(batchSize, steps).value, c)
  }

  /** A caller that found m_finish false is the one that set it. */
  ghost predicate ReturnedIn(batchSize: nat, steps: seq<Step>, c: int, found: bool)
  {
    var r := After(batchSize, steps);
    r.Some? && c in r.value.asked && c in r.value.returned && (c !in r.value.before <==> found)
  }

  /** For every batch size but 0, a caller that finds m_finish set returns while a task runs. */
  lemma SecondCallerDoesNotWait(batchSize: nat, t: int, c: int, d: int) returns (run: seq<Step>)
    requires 0 < batchSize && c != d
    ensures ReturnedIn(batchSize, run, d, true)
    ensures var s := After(batchSize, run).value; t in s.asked[d] && At(s, t, Running)
  {
    var s := Init(batchSize);
    run := [];
    Extend(batchSize, run, s, Submit(t));
    run, s := run + [Submit(t)], Next(s, Submit(t));
    Extend(batchSize, run, s, Queue(t));
    run, s := run + [Queue(t)], Next(s, Queue(t));
    Extend(batchSize, run, s, Start(t));
    run, s := run + [Start(t)], Next(s, Start(t));
    Extend(batchSize, run, s, Enter(c));
    run, s := run + [Enter(c)], Next(s, Enter(c));
    Extend(batchSize, run, s, Begin(c));
    run, s := run + [Begin(c)], Next(s, Begin(c));
    Extend(batchSize, run, s, Enter(d));
    run, s := run + [Enter(d)], Next(s, Enter(d));
  }

  /** A group of no permits never runs a task: every submitter stays parked. */
  lemma {:induction false} EmptyGroup(steps: seq<Step>, t: int)
    requires After(0, steps).Some? && t in After(0, steps).value.phase
    ensures At(After(0, steps).value, t, Parked)
  {
    RunInv(0, steps);
    var init := steps[..|steps| - 1];
    RunInv(0, init);
    EmptyStep(After(0, init).value, steps[|steps| - 1], t);
    if t in After(0, init).value.phase {
      EmptyGroup(init, t);
    }
  }

  lemma EmptyStep(s: State, step: Step, t: int)
    requires Inv(s) && s.batchSize == 0 && Enabled(s, step) && t in Next(s, step).phase
    ensures t in s.phase && At(s, t, Parked) ==> At(Next(s, step), t, Parked)
    ensures t !in s.phase ==> At(Next(s, step), t, Parked)
  {
    assert s.holders == {};
  }

  /** So its waitAll returns with everything done exactly when nothing was submitted. */
  lemma EmptyGroupExactly(steps: seq<Step>, c: int, found: bool)
    requires ReturnedIn(0, steps, c, found)
    ensures var s := After(0, steps).value; AllDone(s, c) <==> forall t :: t in s.phase ==> t !in s.asked[c]
  {
    RunInv(0, steps);
    var s := After(0, steps).value;
    forall t | t in s.asked[c] ensures !AllDone(s, c) && t in s.phase {
      EmptyGroup(steps, t);
      NotDone(s, c, t);
    }
  }

  lemma NotDone(s: State, c: int, t: int)
    requires c in s.asked && t in s.asked[c] && !At(s, t, Done)
    ensures !AllDone(s, c)
  {
  }

  /** A task is submitted and c sets m_finish. */
  lemma Finishing(batchSize: nat, t: int, c: int) returns (run: seq<Step>, s: State)
    ensures After(batchSize, run) == Some(s) && s.phase.Keys == {t} && !At(s, t, Done) && s.finish
    ensures s.batchSize == batchSize && s.asked.Keys == {c} && s.asked[c] == {t}
    ensures s.before == map[c := {t}] && s.held[c] == 0
    ensures s.returned == {}
  {
    s, run := Init(batchSize), [];
    Extend(batchSize, run, s, Submit(t));
    run, s := run + [Submit(t)], Next(s, Submit(t));
    assert s.phase.Keys == {t};
    Extend(batchSize, run, s, Enter(c));
    run, s := run + [Enter(c)], Next(s, Enter(c));
    Extend(batchSize, run, s, Begin(c));
    run, s := run + [Begin(c)], Next(s, Begin(c));
  }

  lemma LateDoesNotWait(batchSize: nat) returns (run: seq<Step>, c: int)
    ensures ReturnedIn(batchSize, run, c, true) && !AllDone(After(batchSize, run).value, c)
  {
    var s;
    run, s := Finishing(batchSize, 1, 2);
    Extend(batchSize, run, s, Enter(3));
    run, s, c := run + [Enter(3)], Next(s, Enter(3)), 3;
    assert 1 in s.asked[3] && !At(s, 1, Done);
  }

  lemma EmptyDoesNotWait() returns (run: seq<Step>, c: int)
    ensures ReturnedIn(0, run, c, false) && !AllDone(After(0, run).value, c)
  {
    var s;
    run, s := Finishing(0, 1, 2);
    Extend(0, run, s, Leave(2));
    run, s, c := run + [Leave(2)], Next(s, Leave(2)), 2;
    assert 1 in s.asked[2] && !At(s, 1, Done);
  }

  /** waitAll waits for what was submitted before it if and only if m_finish was false and the batch size is not 0. */
  lemma WaitsExactly(batchSize: nat, found: bool)
    ensures Waits(batchSize, found) <==> 0 < batchSize && !found
  {
    if 0 < batchSize && !found {
      forall steps, c | ReturnedIn(batchSize, steps, c, found) ensures AllDone(After(batchSize, steps).value, c) {
        RunInv(batchSize, steps);
        Drained(batchSize, steps, c);
      }
    } else if found {
      var run, c := LateDoesNotWait(batchSize);
    } else {
      var run, c := EmptyDoesNotWait();
    }
  }
}
