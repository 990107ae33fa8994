/** One worker of scheduler.cpp and the fibers of fiber.cpp that it switches
    between, as steps between the points where something else can happen. */
module Schedulers {
  import opened Prelude

  // ----- fibers -----

  datatype FiberState = INIT | READY | EXEC | HOLD | TERM | EXECPT

  /** The main fiber, the other ones, and which of them is t_cur_fiber (None is the main fiber). */
  datatype Fibers = Fibers(main: FiberState, of: map<int, FiberState>, cur: Option<int>)

  /** The assertions of swapIn. */
  predicate CanSwapIn(fs: Fibers, f: int)
    requires f in fs.of
  {
    fs.main == EXEC && fs.of[f] in {HOLD, INIT, READY}
  }

  function SwapIn(fs: Fibers, f: int): (r: Fibers)
    requires f in fs.of
  {
    Fibers(HOLD, fs.of[f := EXEC], Some(f))
  }

  /** The assertion of swapOut, and what run asserts when cb returns or throws. */
  predicate CanSwapOut(fs: Fibers) {
    fs.main == HOLD && fs.cur.Some? && fs.cur.value in fs.of && fs.of[fs.cur.value] == EXEC
  }

  /** The current fiber leaves in state to: yieldToHold, yieldToReady, and the two ends of run. */
  function SwapOut(fs: Fibers, to: FiberState): (r: Fibers)
    requires CanSwapOut(fs)
  {
    Fibers(EXEC, fs.of[fs.cur.value := to], None)
  }

  /** The assertion of reset. */
  predicate CanReset(fs: Fibers, f: int)
    requires f in fs.of
  {
    fs.of[f] in {TERM, EXECPT, INIT}
  }

  // ----- the worker -----

  /** A fiber, a callback, or neither: a null fiber or an empty function. */
  datatype Work = FiberWork(f: int) | CbWork | NoWork

  /** An entry of m_fibers, numbered in the order of the pushes. */
  datatype Task = Task(num: nat, work: Work, thread: int)

  datatype Kind = AsFiber | AsCallback | AsIdle

  /** Where mainFun is: before the scan, behind it, inside a fiber, back from it, before the idle fiber, or out. */
  datatype Pc = Scan | Dispatch(ft: Option<Task>, tick: bool) | Inside(kind: Kind, tick: bool)
              | Back(kind: Kind, tick: bool) | Rest(tick: bool) | Stopped

  datatype State = State(
    me: int,                // the id of this thread
    fibers: Fibers,
    idle: int,              // idleFiber
    cbFiber: Option<int>,   // cb_fiber
    queue: seq<Task>,       // m_fibers
    pc: Pc,
    pushed: nat,            // how many tasks have been scheduled
    taken: seq<Task>)       // the ones that were dequeued

  datatype Step =
    | Schedule(work: Work, thread: int)   // by anyone, at any time
    | NewFiber(f: int)                    // made by user code
    | TakeTask
    | Start(made: int)                    // made is the fiber that is made for a callback when there is none
    | Leave(to: FiberState)               // the running fiber yields or ends
    | Return
    | Idle

  function Init(me: int, idle: int): (r: State) {
    State(me, Fibers(EXEC, map[idle := INIT], None), idle, None, [], Scan, 0, [])
  }

  predicate Mine(s: State, t: Task) {
    t.thread == -1 || t.thread == s.me
  }

  /** What the scan does not pass over. */
  predicate Eligible(s: State, t: Task) {
    Mine(s, t) && !(t.work.FiberWork? && t.work.f in s.fibers.of && s.fibers.of[t.work.f] == EXEC)
  }

  /** The place of the first eligible task, or the length. */
  function FirstEligible(s: State, i: nat): (n: nat)
    requires i <= |s.queue|
    ensures i <= n <= |s.queue|
    ensures forall j :: i <= j < n ==> !Eligible(s, s.queue[j])
    ensures n < |s.queue| ==> Eligible(s, s.queue[n])
    decreases |s.queue| - i
  {
    if i == |s.queue| || Eligible(s, s.queue[i]) then i else FirstEligible(s, i + 1)
  }

  /** The assertion of the scan on the tasks up to number n that are for this thread. */
  predicate NoneEmpty(s: State, n: nat) {
    forall j :: 0 <= j <= n && j < |s.queue| && Mine(s, s.queue[j]) ==> s.queue[j].work != NoWork
  }

  /** The loop of mainFun over m_fibers; ok tells that its assertion held for every task. */
  method ScanQueue(s: State) returns (n: nat, ok: bool)
    ensures n == FirstEligible(s, 0) && (ok <==> NoneEmpty(s, n))
  {
    n, ok := 0, true;
    while n < |s.queue|
      invariant n <= |s.queue| && FirstEligible(s, n) == FirstEligible(s, 0)
      invariant ok <==> forall j :: 0 <= j < n && Mine(s, s.queue[j]) ==> s.queue[j].work != NoWork
    {
      var it := s.queue[n];
      if Mine(s, it) {
        ok := ok && it.work != NoWork;
        if Eligible(s, it) {
          return;
        }
      }
      n := n + 1;
    }
  }

  /** User code schedules its own fibers, not the idle fiber of a worker. */
  predicate Enabled(s: State, step: Step) {
    match step
    case Schedule(work, _) => work.FiberWork? ==> work.f in s.fibers.of && work.f != s.idle
    case NewFiber(f) => f !in s.fibers.of
    case TakeTask => s.pc == Scan
    case Start(id) => s.pc.Dispatch? && id !in s.fibers.of
    case Leave(to) => s.pc.Inside? && to in {HOLD, READY, TERM, EXECPT}
    case Return => s.pc.Back?
    case Idle => s.pc.Rest?
  }

  /** The fiber that runs a callback. */
  function CbFiber(s: State, id: int): (r: int) {
    if s.cbFiber.Some? then s.cbFiber.value else id
  }

  /** The assertions that the code makes in a step, in mainFun and in the functions of Fiber that it calls. */
  predicate Asserted(s: State, step: Step)
    requires Enabled(s, step)
  {
    match step
    case TakeTask => NoneEmpty(s, FirstEligible(s, 0))
    case Start(id) =>
      if s.pc.ft == None || s.pc.ft.value.work == NoWork then true
      else if s.pc.ft.value.work.FiberWork? then
        var f := s.pc.ft.value.work.f;
        f in s.fibers.of && s.fibers.of[f] != EXECPT && s.fibers.of[f] != EXEC
        && (s.fibers.of[f] != TERM ==> CanSwapIn(s.fibers, f))
      else
        (s.cbFiber.Some? ==> s.cbFiber.value in s.fibers.of && CanReset(s.fibers, s.cbFiber.value))
        && s.fibers.main == EXEC
    case Leave(_) => CanSwapOut(s.fibers)
    case Idle => !s.pc.tick ==> s.idle in s.fibers.of && CanSwapIn(s.fibers, s.idle)
    case _ => true
  }

  function Next(s: State, step: Step): (r: State)
    requires Enabled(s, step) && Asserted(s, step)
  {
    match step
    case Schedule(work, thread) => s.(queue := s.queue + [Task(s.pushed, work, thread)], pushed := s.pushed + 1)
    case NewFiber(f) => s.(fibers := s.fibers.(of := s.fibers.of[f := INIT]))
    case TakeTask =>
      var n := FirstEligible(s, 0);
      if n == |s.queue| then s.(pc := Dispatch(None, s.queue != []))
      else
        var rest := s.queue[..n] + s.queue[n + 1..];
        s.(queue := rest, taken := s.taken + [s.queue[n]], pc := Dispatch(Some(s.queue[n]), rest != []))
    case Start(id) =>
      var tick := s.pc.tick;
      if s.pc.ft == None || s.pc.ft.value.work == NoWork then s.(pc := Rest(tick))
      else if s.pc.ft.value.work.FiberWork? then
        var f := s.pc.ft.value.work.f;
        if s.fibers.of[f] == TERM then s.(pc := Rest(tick))
        else s.(fibers := SwapIn(s.fibers, f), pc := Inside(AsFiber, tick))
      else
        var f := CbFiber(s, id);
        var made := s.fibers.(of := s.fibers.of[f := INIT]);
        s.(cbFiber := Some(f), fibers := SwapIn(made, f), pc := Inside(AsCallback, tick))
    case Leave(to) => s.(fibers := SwapOut(s.fibers, to), pc := Back(s.pc.kind, s.pc.tick))
    case Return =>
      match s.pc.kind {
        case AsFiber => s.(pc := Rest(s.pc.tick))
        case AsCallback =>
          s.(pc := Rest(s.pc.tick),
             cbFiber := if s.cbFiber.Some? && s.cbFiber.value in s.fibers.of && s.fibers.of[s.cbFiber.value] == TERM
                        then s.cbFiber else None)
        case AsIdle =>
          s.(pc := if s.idle in s.fibers.of && s.fibers.of[s.idle] in {TERM, EXECPT} then Stopped else Scan)
      }
    case Idle =>
      if s.pc.tick then s.(pc := Scan)
      else s.(fibers := SwapIn(s.fibers, s.idle), pc := Inside(AsIdle, false))
  }

  // ----- what every step keeps -----

  /** Exactly one of the main fiber and the others is EXEC: the one that runs. */
  predicate OneRuns(s: State) {
    var fs := s.fibers;
    if s.pc.Inside? then
      && fs.main == HOLD && fs.cur.Some? && fs.cur.value in fs.of
      && (forall f :: f in fs.of ==> (fs.of[f] == EXEC <==> f == fs.cur.value))
    else fs.main == EXEC && fs.cur == None && forall f :: f in fs.of ==> fs.of[f] != EXEC
  }

  /** A retained cb_fiber has ended; only the running one, and the one that is just back, may be in another state. */
  predicate CbEnded(s: State) {
    s.cbFiber.Some? ==>
      && s.cbFiber.value in s.fibers.of && s.cbFiber.value != s.idle
      && (if s.pc.Inside? && s.pc.kind == AsCallback then s.fibers.cur == s.cbFiber
          else (s.pc.Back? && s.pc.kind == AsCallback) || s.fibers.of[s.cbFiber.value] == TERM)
  }

  predicate IdleReady(s: State) {
    && s.idle in s.fibers.of
    && (s.pc.Inside? ==> (s.pc.kind == AsIdle <==> s.fibers.cur == Some(s.idle)))
    && (s.pc.Stopped? || (s.pc.Back? && s.pc.kind == AsIdle) || (s.pc.Inside? && s.pc.kind == AsIdle)
        || s.fibers.of[s.idle] in {INIT, READY, HOLD})
  }

  predicate KnownWork(s: State, t: Task) {
    t.work.FiberWork? ==> t.work.f in s.fibers.of && t.work.f != s.idle
  }

  predicate Rising(ts: seq<Task>) {
    forall i, j :: 0 <= i < j < |ts| ==> ts[i].num < ts[j].num
  }

  predicate Below(ts: seq<Task>, num: nat) {
    forall i :: 0 <= i < |ts| ==> ts[i].num < num
  }

  /** What the thread may still take was pushed behind all that it has taken. */
  predicate Behind(s: State) {
    forall i :: 0 <= i < |s.queue| && Mine(s, s.queue[i]) ==> Below(s.taken, s.queue[i].num)
  }

  /** Pushes keep their order in the queue, and what is taken leaves it: each number is in one of the two. */
  predicate Ordered(s: State) {
    && Rising(s.queue) && Below(s.queue, s.pushed) && (forall i :: 0 <= i < |s.queue| ==> KnownWork(s, s.queue[i]))
    && Rising(s.taken) && Below(s.taken, s.pushed) && (forall i :: 0 <= i < |s.taken| ==> Mine(s, s.taken[i]))
    && Behind(s) && |s.queue| + |s.taken| == s.pushed
    && (s.pc.Dispatch? && s.pc.ft.Some? ==> KnownWork(s, s.pc.ft.value))
  }

  predicate Inv(s: State) {
    OneRuns(s) && CbEnded(s) && IdleReady(s) && Ordered(s)
  }

  lemma InitInv(me: int, idle: int)
    ensures Inv(Init(me, idle))
  {
  }

  /** A fiber is dispatched that has ended by an exception. */
  predicate DispatchesFailed(s: State, step: Step) {
    step.Start? && s.pc.Dispatch? && s.pc.ft.Some? && s.pc.ft.value.work.FiberWork?
    && s.pc.ft.value.work.f in s.fibers.of && s.fibers.of[s.pc.ft.value.work.f] == EXECPT
  }

  /** The first task that the scan does not pass over is empty. */
  predicate TakesEmpty(s: State, step: Step) {
    step.TakeTask? && var n := FirstEligible(s, 0); n < |s.queue| && s.queue[n].work == NoWork
  }

  /** The two ways in which an assertion of the code can fail. */
  lemma AssertsExactly(s: State, step: Step)
    requires Inv(s) && Enabled(s, step)
    ensures Asserted(s, step) <==> !DispatchesFailed(s, step) && !TakesEmpty(s, step)
  {
    if step == TakeTask {
      assert forall j :: 0 <= j < FirstEligible(s, 0) ==> !Eligible(s, s.queue[j]);
    }
  }

  lemma StepOneRuns(s: State, step: Step)
    requires Inv(s) && Enabled(s, step) && Asserted(s, step)
    ensures OneRuns(Next(s, step))
  {
  }

  lemma StepCbEnded(s: State, step: Step)
    requires Inv(s) && Enabled(s, step) && Asserted(s, step)
    ensures CbEnded(Next(s, step))
  {
  }

  lemma StepIdleReady(s: State, step: Step)
    requires Inv(s) && Enabled(s, step) && Asserted(s, step)
    ensures IdleReady(Next(s, step))
  {
  }

  lemma DropRising(ts: seq<Task>, n: nat)
    requires Rising(ts) && n < |ts|
    ensures Rising(ts[..n] + ts[n + 1..])
  {
  }

  lemma TakeBehind(s: State, u: State, n: nat)
    requires Ordered(s) && n < |s.queue| && Mine(s, s.queue[n]) && u.me == s.me
    requires forall j :: 0 <= j < n ==> !Mine(s, s.queue[j])
    requires u.queue == s.queue[..n] + s.queue[n + 1..] && u.taken == s.taken + [s.queue[n]]
    ensures Rising(u.taken) && Behind(u)
  {
    forall i | 0 <= i < |u.queue| && Mine(u, u.queue[i]) ensures Below(u.taken, u.queue[i].num) {
      assert i >= n && u.queue[i] == s.queue[i + 1];
    }
  }

  lemma TakeOrdered(s: State)
    requires Inv(s) && s.pc == Scan && Asserted(s, TakeTask)
    ensures Ordered(Next(s, TakeTask))
  {
    var n := FirstEligible(s, 0);
    if n < |s.queue| {
      forall j | 0 <= j < n ensures !Mine(s, s.queue[j]) {
        assert !Eligible(s, s.queue[j]);
      }
      DropRising(s.queue, n);
      TakeBehind(s, Next(s, TakeTask), n);
    }
  }

  lemma ScheduleOrdered(s: State, work: Work, thread: int)
    requires Inv(s) && Enabled(s, Schedule(work, thread))
    ensures Ordered(Next(s, Schedule(work, thread)))
  {
  }

  lemma StepOrdered(s: State, step: Step)
    requires Inv(s) && Enabled(s, step) && Asserted(s, step)
    ensures Ordered(Next(s, step))
  {
    match step
    case TakeTask => TakeOrdered(s);
    case Schedule(work, thread) => ScheduleOrdered(s, work, thread);
    case _ =>
  }

  lemma StepInv(s: State, step: Step)
    requires Inv(s) && Enabled(s, step) && Asserted(s, step)
    ensures Inv(Next(s, step))
  {
    StepOneRuns(s, step);
    StepCbEnded(s, step);
    StepIdleReady(s, step);
    StepOrdered(s, step);
  }

  // ----- every run -----

  function After(me: int, idle: int, steps: seq<Step>): (r: Option<State>)
    ensures r.Some? ==> Inv(r.value)
  {
    if steps == [] then
      InitInv(me, idle);
      Some(Init(me, idle))
    else
      var before := After(me, idle, steps[..|steps| - 1]);
      var step := steps[|steps| - 1];
      if before.Some? && Enabled(before.value, step) && Asserted(before.value, step) then
        StepInv(before.value, step);
        Some(Next(before.value, step))
      else None
  }

  /** In every run: exactly one fiber is EXEC, the main one or the one that is inside; between two dispatches a
      retained cb_fiber is TERM. */
  lemma OneFiberRuns(me: int, idle: int, steps: seq<Step>)
    requires After(me, idle, steps).Some?
    ensures var s := After(me, idle, steps).value;
            && (s.fibers.main == EXEC <==> !exists f :: f in s.fibers.of && s.fibers.of[f] == EXEC)
            && (forall f, g :: f in s.fibers.of && g in s.fibers.of && s.fibers.of[f] == EXEC && s.fibers.of[g] == EXEC
                  ==> f == g)
            && (s.pc == Scan && s.cbFiber.Some? ==>
                  s.cbFiber.value in s.fibers.of && s.fibers.of[s.cbFiber.value] == TERM)
  {
    var s := After(me, idle, steps).value;
    if s.pc.Inside? {
      assert s.fibers.of[s.fibers.cur.value] == EXEC;
    }
  }

  /** In every run: tasks are taken at most once and in the order of their pushes, a pinned one by its own thread only,
      and a task that this thread may take is not overtaken. */
  lemma TakenInOrder(me: int, idle: int, steps: seq<Step>)
    requires After(me, idle, steps).Some?
    ensures var s := After(me, idle, steps).value;
            && |s.queue| + |s.taken| == s.pushed
            && (forall i, j :: 0 <= i < j < |s.taken| ==> s.taken[i].num < s.taken[j].num)
            && (forall i, j :: 0 <= i < j < |s.queue| ==> s.queue[i].num < s.queue[j].num)
            && (forall i :: 0 <= i < |s.taken| ==> s.taken[i].thread == -1 || s.taken[i].thread == s.me)
            && (forall i, j :: 0 <= i < |s.queue| && 0 <= j < |s.taken| && Mine(s, s.queue[i]) ==>
                  s.taken[j].num < s.queue[i].num)
  {
    assert Inv(After(me, idle, steps).value);
  }

  // ----- what is scheduled is kept -----

  /** What was scheduled, numbered in the order of the calls. */
  function Scheduled(steps: seq<Step>): (r: seq<Task>) {
    if steps == [] then [] else
      var before, step := Scheduled(steps[..|steps| - 1]), steps[|steps| - 1];
      if step.Schedule? then before + [Task(|before|, step.work, step.thread)] else before
  }

  lemma TakeAt(taken: seq<Task>, queue: seq<Task>, n: nat)
    requires n < |queue|
    ensures multiset(taken + [queue[n]]) + multiset(queue[..n] + queue[n + 1..]) == multiset(taken) + multiset(queue)
  {
    assert queue == queue[..n] + [queue[n]] + queue[n + 1..];
  }

  lemma StepKeeps(s: State, step: Step)
    requires Enabled(s, step) && Asserted(s, step)
    ensures var u := Next(s, step);
            if step.Schedule? then
              u.pushed == s.pushed + 1 && u.taken == s.taken
              && u.queue == s.queue + [Task(s.pushed, step.work, step.thread)]
            else u.pushed == s.pushed && multiset(u.taken) + multiset(u.queue) == multiset(s.taken) + multiset(s.queue)
  {
    if step == TakeTask && FirstEligible(s, 0) < |s.queue| {
      TakeAt(s.taken, s.queue, FirstEligible(s, 0));
    }
  }

  /** In every run the tasks that were taken and the ones in the queue are the ones that were scheduled, none twice. */
  lemma {:induction false} NothingLost(me: int, idle: int, steps: seq<Step>)
    requires After(me, idle, steps).Some?
    ensures var s := After(me, idle, steps).value;
            |Scheduled(steps)| == s.pushed && multiset(Scheduled(steps)) == multiset(s.taken) + multiset(s.queue)
  {
    if steps != [] {
      var init := steps[..|steps| - 1];
      NothingLost(me, idle, init);
      StepKeeps(After(me, idle, init).value, steps[|steps| - 1]);
    }
  }

  /** How many tasks were left in the queue by the last scan. */
  function LeftOver(me: int, idle: int, steps: seq<Step>): (n: nat)
    requires After(me, idle, steps).Some?
  {
    if steps == [] then 0
    else if steps[|steps| - 1] == TakeTask then |After(me, idle, steps).value.queue|
    else LeftOver(me, idle, steps[..|steps| - 1])
  }

  lemma {:induction false} Ticks(me: int, idle: int, steps: seq<Step>)
    requires After(me, idle, steps).Some?
    ensures var pc := After(me, idle, steps).value.pc;
            pc != Scan && pc != Stopped ==> (pc.tick <==> 0 < LeftOver(me, idle, steps))
  {
    if steps != [] {
      Ticks(me, idle, steps[..|steps| - 1]);
    }
  }

  /** A worker goes into its idle fiber if and only if its last scan left nothing in the queue; else it scans again. */
  lemma IdlesExactly(me: int, idle: int, steps: seq<Step>)
    requires After(me, idle, steps).Some? && After(me, idle, steps).value.pc.Rest?
    requires After(me, idle, steps + [Idle]).Some?
    ensures var u := After(me, idle, steps + [Idle]).value;
            if 0 < LeftOver(me, idle, steps) then u.pc == Scan
            else u.pc.Inside? && u.pc.kind == AsIdle && u.fibers.cur == Some(idle)
  {
    Ticks(me, idle, steps);
    assert (steps + [Idle])[..|steps|] == steps;
    SameIdle(me, idle, steps);
  }

  lemma {:induction false} SameIdle(me: int, idle: int, steps: seq<Step>)
    requires After(me, idle, steps).Some?
    ensures After(me, idle, steps).value.idle == idle
  {
    if steps != [] {
      SameIdle(me, idle, steps[..|steps| - 1]);
    }
  }

  // ----- what is taken is run -----

  /** What became of a task that was taken: a fiber was entered, as a fiber or with a callback; or it was passed over.
      And whether its own fiber had ended before. */
  datatype Fate = Entered(kind: Kind, fiber: Option<int>, ended: bool) | PassedOver(ended: bool)

  /** Told from the states before and behind a step. */
  function FateIn(s: State, u: State): (r: seq<Fate>) {
    if !(s.pc.Dispatch? && s.pc.ft.Some? && !u.pc.Dispatch?) then []
    else if u.pc.Inside? then [EntryOf(s, u)]
    else [PassedOver(s.pc.ft.value.work.FiberWork? && Ended(s, Some(s.pc.ft.value.work.f)))]
  }

  predicate Ended(s: State, f: Option<int>) {
    f.Some? && f.value in s.fibers.of && s.fibers.of[f.value] == TERM
  }

  function EntryOf(s: State, u: State): (r: Fate)
    requires u.pc.Inside?
  {
    Entered(u.pc.kind, u.fibers.cur, u.pc.kind == AsFiber && Ended(s, u.fibers.cur))
  }

  /** A fiber other than the idle one is entered, told from the states in the same way. */
  function EntryIn(s: State, u: State): (r: seq<Fate>) {
    if !s.pc.Inside? && u.pc.Inside? && u.pc.kind != AsIdle then [EntryOf(s, u)] else []
  }

  function Fates(me: int, idle: int, steps: seq<Step>): (r: seq<Fate>)
    requires After(me, idle, steps).Some?
  {
    if steps == [] then [] else
      var init := steps[..|steps| - 1];
      Fates(me, idle, init) + FateIn(After(me, idle, init).value, After(me, idle, steps).value)
  }

  function Entries(me: int, idle: int, steps: seq<Step>): (r: seq<Fate>)
    requires After(me, idle, steps).Some?
  {
    if steps == [] then [] else
      var init := steps[..|steps| - 1];
      Entries(me, idle, init) + EntryIn(After(me, idle, init).value, After(me, idle, steps).value)
  }

  /** What has to become of a task. */
  predicate Due(t: Task, f: Fate) {
    match t.work
    case FiberWork(x) => f == Entered(AsFiber, Some(x), false) || f == PassedOver(true)
    case CbWork => f.Entered? && f.kind == AsCallback
    case NoWork => false
  }

  /** The task that is taken and not yet dispatched. */
  function InHand(s: State): (r: seq<Task>) {
    if s.pc.Dispatch? && s.pc.ft.Some? then [s.pc.ft.value] else []
  }

  ghost predicate AllDue(ts: seq<Task>, fates: seq<Fate>) {
    |ts| == |fates| && forall i :: 0 <= i < |ts| ==> Due(ts[i], fates[i])
  }

  /** The tasks that were dispatched. */
  function Dispatched(s: State): (r: seq<Task>) {
    s.taken[..Max(|s.taken| - |InHand(s)|, 0)]
  }

  predicate Holds(s: State) {
    && |InHand(s)| <= |s.taken| && s.taken == Dispatched(s) + InHand(s)
    && forall i :: 0 <= i < |InHand(s)| ==> InHand(s)[i].work != NoWork
  }

  lemma FateTake(s: State)
    requires Inv(s) && s.pc == Scan && Asserted(s, TakeTask) && Holds(s)
    ensures Holds(Next(s, TakeTask)) && Dispatched(Next(s, TakeTask)) == Dispatched(s) == s.taken
  {
    var n := FirstEligible(s, 0);
    if n < |s.queue| {
      assert Eligible(s, s.queue[n]);
    }
  }

  lemma FateStep(s: State, step: Step)
    requires Inv(s) && Enabled(s, step) && Asserted(s, step) && Holds(s)
    ensures var u, f := Next(s, step), FateIn(s, Next(s, step));
            && Holds(u) && |f| <= 1 && (f == [] ==> Dispatched(u) == Dispatched(s))
            && (f != [] ==> |InHand(s)| == 1 && Dispatched(u) == Dispatched(s) + InHand(s) && Due(InHand(s)[0], f[0]))
  {
    if step == TakeTask {
      FateTake(s);
    }
  }

  /** Nothing but a dispatch enters a fiber other than the idle one. */
  lemma EntryStep(s: State, step: Step)
    requires Inv(s) && Enabled(s, step) && Asserted(s, step) && Holds(s)
    ensures EntryIn(s, Next(s, step)) == EnteredOf(FateIn(s, Next(s, step)))
  {
  }

  function EnteredOf(fates: seq<Fate>): (r: seq<Fate>) {
    if fates == [] then [] else
      var f := fates[|fates| - 1];
      EnteredOf(fates[..|fates| - 1]) + if f.Entered? then [f] else []
  }

  lemma EnteredMore(fates: seq<Fate>, more: seq<Fate>)
    requires |more| <= 1
    ensures EnteredOf(fates + more) == EnteredOf(fates) + EnteredOf(more)
  {
    if more != [] {
      assert (fates + more)[..|fates|] == fates && more[..0] == [];
    } else {
      assert fates + more == fates;
    }
  }

  lemma DueMore(s: State, u: State, fates: seq<Fate>, f: seq<Fate>)
    requires AllDue(Dispatched(s), fates) && |f| <= 1
    requires f == [] ==> Dispatched(u) == Dispatched(s)
    requires f != [] ==> |InHand(s)| == 1 && Dispatched(u) == Dispatched(s) + InHand(s) && Due(InHand(s)[0], f[0])
    ensures AllDue(Dispatched(u), fates + f)
  {
  }

  /** In every run each task that was taken, but for the one in hand, was run or passed over once, in that order: a
      callback was run in a fiber, and a fiber entered unless it had ended. And nothing else is entered, but for the
      idle fiber. */
  lemma {:induction false} TakenIsRun(me: int, idle: int, steps: seq<Step>)
    requires After(me, idle, steps).Some?
    ensures var s := After(me, idle, steps).value;
            Holds(s) && AllDue(Dispatched(s), Fates(me, idle, steps))
    ensures Entries(me, idle, steps) == EnteredOf(Fates(me, idle, steps))
  {
    if steps == [] {
    } else {
      var init, step := steps[..|steps| - 1], steps[|steps| - 1];
      TakenIsRun(me, idle, init);
      var s, u := After(me, idle, init).value, After(me, idle, steps).value;
      var fates, f := Fates(me, idle, init), FateIn(s, u);
      FateStep(s, step);
      EntryStep(s, step);
      EnteredMore(fates, f);
      DueMore(s, u, fates, f);
      assert Fates(me, idle, steps) == fates + f;
    }
  }

  function CbTasks(ts: seq<Task>): (n: nat) {
    if ts == [] then 0 else CbTasks(ts[..|ts| - 1]) + if ts[|ts| - 1].work == CbWork then 1 else 0
  }

  function CbEntries(entries: seq<Fate>): (n: nat) {
    if entries == [] then 0 else
      var f := entries[|entries| - 1];
      CbEntries(entries[..|entries| - 1]) + if f.Entered? && f.kind == AsCallback then 1 else 0
  }

  lemma {:induction false} CbCounts(ts: seq<Task>, fates: seq<Fate>)
    requires AllDue(ts, fates)
    ensures CbEntries(EnteredOf(fates)) == CbTasks(ts)
  {
    if ts != [] {
      var n := |ts| - 1;
      CbCounts(ts[..n], fates[..n]);
      assert Due(ts[n], fates[n]);
      var e := EnteredOf(fates[..n]);
      assert (e + [fates[n]])[..|e|] == e && e + [] == e;
    }
  }

  /** So a callback fiber is entered as often as a callback was taken, except for the one in hand. */
  lemma CallbacksAreRun(me: int, idle: int, steps: seq<Step>)
    requires After(me, idle, steps).Some?
    ensures var s := After(me, idle, steps).value;
            CbEntries(Entries(me, idle, steps)) + CbTasks(InHand(s)) == CbTasks(s.taken)
  {
    TakenIsRun(me, idle, steps);
    var s := After(me, idle, steps).value;
    CbCounts(Dispatched(s), Fates(me, idle, steps));
    if InHand(s) != [] {
      assert s.taken[..|s.taken| - 1] == Dispatched(s) && InHand(s)[..0] == [];
    } else {
      assert s.taken == Dispatched(s);
    }
  }

  /** No fiber has ended by an exception, and no task is empty. */
  predicate Sound(s: State) {
    && (forall f :: f in s.fibers.of ==> s.fibers.of[f] != EXECPT)
    && (forall i :: 0 <= i < |s.queue| ==> s.queue[i].work != NoWork)
  }

  predicate Harmless(step: Step) {
    step != Leave(EXECPT) && !(step.Schedule? && step.work == NoWork)
  }

  lemma StepSound(s: State, step: Step)
    requires Sound(s) && Enabled(s, step) && Asserted(s, step) && Harmless(step)
    ensures Sound(Next(s, step))
  {
  }

  lemma {:induction false} RunSound(me: int, idle: int, steps: seq<Step>)
    requires After(me, idle, steps).Some? && forall i :: 0 <= i < |steps| ==> Harmless(steps[i])
    ensures Sound(After(me, idle, steps).value)
  {
    if steps != [] {
      RunSound(me, idle, steps[..|steps| - 1]);
      StepSound(After(me, idle, steps[..|steps| - 1]).value, steps[|steps| - 1]);
    }
  }

  /** As long as no fiber ends by an exception and no empty task is scheduled, no assertion of the scheduler or of the
      fibers can fail. */
  lemma NoAssertFails(me: int, idle: int, steps: seq<Step>, step: Step)
    requires After(me, idle, steps).Some? && Enabled(After(me, idle, steps).value, step)
    requires forall i :: 0 <= i < |steps| ==> Harmless(steps[i])
    ensures Asserted(After(me, idle, steps).value, step)
  {
    RunSound(me, idle, steps);
    AssertsExactly(After(me, idle, steps).value, step);
  }

  /** Either can happen: an empty task fails the scan of the worker that it is for. */
  lemma EmptyIsMet(me: int, idle: int, thread: int) returns (run: seq<Step>)
    requires thread == -1 || thread == me
    ensures After(me, idle, run).Some? && Enabled(After(me, idle, run).value, TakeTask)
    ensures !Asserted(After(me, idle, run).value, TakeTask)
  {
    var s := Init(me, idle);
    Extend(me, idle, [], s, Schedule(NoWork, thread));
    run, s := [] + [Schedule(NoWork, thread)], Next(s, Schedule(NoWork, thread));
    assert Eligible(s, s.queue[0]) && FirstEligible(s, 0) == 0;
  }

  lemma Extend(me: int, idle: int, steps: seq<Step>, s: State, step: Step)
    requires After(me, idle, steps) == Some(s) && Enabled(s, step) && Asserted(s, step)
    ensures After(me, idle, steps + [step]) == Some(Next(s, step))
  {
    assert (steps + [step])[..|steps|] == steps;
  }

  // ----- what is queued can be taken -----

  /** The worker has not ended, and is not about to. */
  predicate Live(s: State) {
    !s.pc.Stopped? && (s.pc == Back(AsIdle, false) || s.pc == Back(AsIdle, true) ==>
                         s.idle in s.fibers.of && s.fibers.of[s.idle] !in {TERM, EXECPT})
  }

  function Distance(s: State): (n: nat) {
    match s.pc
    case Dispatch(_, _) => 6
    case Inside(kind, _) => if kind == AsIdle then 2 else 5
    case Back(kind, _) => if kind == AsIdle then 1 else 4
    case Rest(_) => 3
    case _ => 0
  }

  lemma {:induction false} Above(ids: set<int>) returns (id: int)
    ensures forall k :: k in ids ==> k < id
    decreases |ids|
  {
    if ids == {} {
      id := 0;
    } else {
      var k := Member(ids);
      var n := Above(ids - {k});
      id := if n <= k then k + 1 else n;
      assert forall x :: x in ids ==> x == k || x in ids - {k};
    }
  }

  /** The next step towards the scan. */
  function Onwards(s: State, made: int): (r: Step) {
    match s.pc
    case Dispatch(_, _) => Start(made)
    case Inside(_, _) => Leave(HOLD)
    case Back(_, _) => Return
    case _ => Idle
  }

  lemma OnwardsStep(s: State, made: int)
    requires Inv(s) && Sound(s) && Live(s) && s.pc != Scan && made !in s.fibers.of
    ensures var step := Onwards(s, made);
            && Enabled(s, step) && Asserted(s, step) && Harmless(step)
            && Live(Next(s, step)) && Distance(Next(s, step)) < Distance(s)
            && Next(s, step).queue == s.queue && Next(s, step).pushed == s.pushed
            && Next(s, step).taken == s.taken && Next(s, step).me == s.me
  {
    AssertsExactly(s, Onwards(s, made));
  }

  /** From wherever a worker is that has not ended, it can go on to the next scan. */
  lemma ToScan(me: int, idle: int, steps: seq<Step>) returns (more: seq<Step>)
    requires After(me, idle, steps).Some?
    requires var s := After(me, idle, steps).value; Sound(s) && Live(s)
    ensures After(me, idle, more).Some? && steps <= more
    ensures var s, u := After(me, idle, steps).value, After(me, idle, more).value;
            u.pc == Scan && Sound(u) && u.queue == s.queue && u.pushed == s.pushed && u.taken == s.taken && u.me == s.me
    decreases Distance(After(me, idle, steps).value)
  {
    var s := After(me, idle, steps).value;
    more := steps;
    if s.pc != Scan {
      var made := Above(s.fibers.of.Keys);
      var step := Onwards(s, made);
      OnwardsStep(s, made);
      StepSound(s, step);
      Extend(me, idle, steps, s, step);
      more := ToScan(me, idle, steps + [step]);
    }
  }

  /** In the scan every task for this thread can be taken. */
  lemma ScanTakes(s: State)
    requires Inv(s) && Sound(s) && s.pc == Scan && exists i :: 0 <= i < |s.queue| && Mine(s, s.queue[i])
    ensures Asserted(s, TakeTask) && Live(Next(s, TakeTask)) && |Next(s, TakeTask).queue| < |s.queue|
    ensures Next(s, TakeTask).me == s.me && Next(s, TakeTask).pushed == s.pushed
  {
    AssertsExactly(s, TakeTask);
    var i :| 0 <= i < |s.queue| && Mine(s, s.queue[i]);
    assert Eligible(s, s.queue[i]);
  }

  /** From every reachable state of a worker that has not ended, in which no fiber has failed and no task is empty, the
      run can go on until every task that was queued for its thread has been taken. */
  lemma CanTakeAll(me: int, idle: int, steps: seq<Step>) returns (more: seq<Step>)
    requires After(me, idle, steps).Some?
    requires var s := After(me, idle, steps).value; Sound(s) && Live(s)
    ensures After(me, idle, more).Some? && steps <= more
    ensures var s, u := After(me, idle, steps).value, After(me, idle, more).value;
            u.pushed == s.pushed && u.me == s.me && u.pc == Scan
            && forall i :: 0 <= i < |u.queue| ==> !Mine(u, u.queue[i])
    decreases |After(me, idle, steps).value.queue|
  {
    more := ToScan(me, idle, steps);
    var s := After(me, idle, more).value;
    if exists i :: 0 <= i < |s.queue| && Mine(s, s.queue[i]) {
      ScanTakes(s);
      StepSound(s, TakeTask);
      Extend(me, idle, more, s, TakeTask);
      more := CanTakeAll(me, idle, more + [TakeTask]);
    }
  }

  /** A fiber that is queued twice. */
  lemma QueuedBoth() returns (run: seq<Step>, s: State)
    ensures After(7, 0, run) == Some(s)
    ensures s == State(7, Fibers(EXEC, map[0 := INIT, 1 := INIT], None), 0, None,
                       [Task(0, FiberWork(1), -1), Task(1, FiberWork(1), -1)], Scan, 2, [])
  {
    s := Init(7, 0);
    run := [];
    Extend(7, 0, run, s, NewFiber(1));
    run, s := run + [NewFiber(1)], Next(s, NewFiber(1));
    Extend(7, 0, run, s, Schedule(FiberWork(1), -1));
    run, s := run + [Schedule(FiberWork(1), -1)], Next(s, Schedule(FiberWork(1), -1));
    Extend(7, 0, run, s, Schedule(FiberWork(1), -1));
    run, s := run + [Schedule(FiberWork(1), -1)], Next(s, Schedule(FiberWork(1), -1));
  }

  /** And has been taken once. */
  lemma QueuedTwice() returns (run: seq<Step>, s: State)
    ensures After(7, 0, run) == Some(s)
    ensures s == State(7, Fibers(EXEC, map[0 := INIT, 1 := INIT], None), 0, None, [Task(1, FiberWork(1), -1)],
                       Dispatch(Some(Task(0, FiberWork(1), -1)), true), 2, [Task(0, FiberWork(1), -1)])
  {
    run, s := QueuedBoth();
    assert Eligible(s, s.queue[0]) && FirstEligible(s, 0) == 0;
    Extend(7, 0, run, s, TakeTask);
    run, s := run + [TakeTask], Next(s, TakeTask);
  }

  /** And a fiber that throws fails its next dispatch. */
  lemma ExceptionThenDispatch() returns (run: seq<Step>, next: Step)
    ensures After(7, 0, run).Some? && Enabled(After(7, 0, run).value, next) && !Asserted(After(7, 0, run).value, next)
  {
    var s;
    run, s := QueuedTwice();
    Extend(7, 0, run, s, Start(2));
    run, s := run + [Start(2)], Next(s, Start(2));
    Extend(7, 0, run, s, Leave(EXECPT));
    run, s := run + [Leave(EXECPT)], Next(s, Leave(EXECPT));
    Extend(7, 0, run, s, Return);
    run, s := run + [Return], Next(s, Return);
    Extend(7, 0, run, s, Idle);
    run, s := run + [Idle], Next(s, Idle);
    assert s.queue == [Task(1, FiberWork(1), -1)] && s.fibers.of[1] == EXECPT;
    assert Eligible(s, s.queue[0]) && FirstEligible(s, 0) == 0;
    Extend(7, 0, run, s, TakeTask);
    run, s := run + [TakeTask], Next(s, TakeTask);
    next := Start(2);
  }
}
