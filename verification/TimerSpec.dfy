/** TimerManager of timer.cpp as steps: timers are made, added, cancelled and deleted by anyone at any time, while
    workers sweep the set, deliver what has expired and put cyclic timers back. */
module TimerSpec {
  import opened Prelude
  import opened OrderedSets

  // ----- one sweep -----

  /** lower_bound of the sweeper's own timer, which has the address self and the time of the sweep. */
  function Due(s: seq<Stamp>, now: nat, self: int): (n: nat)
    ensures n <= |s|
  {
    LowerBound(s, Stamp(now, self))
  }

  /** What is in front of lower_bound expires no later than now and whatever expires before now is in front of it;
      of what expires at now, the address decides. */
  lemma SweepExactly(s: seq<Stamp>, now: nat, self: int, i: nat)
    requires Sorted(s) && i < |s|
    ensures i < Due(s, now, self) <==> s[i].ts < now || (s[i].ts == now && s[i].key < self)
  {
    var n := Due(s, now, self);
    if n <= i && n < i {
      assert Before(s[n], s[i]);
    }
  }

  // ----- timers -----

  /** periodic is what the timer was made with and cycle is what cancel has left of it; fired counts its deliveries and
      adds how often addTimer has put it into the set. */
  datatype Timer = Timer(ms: nat, periodic: bool, created: nat, cycle: bool, cancelled: bool, expire: nat,
                         fired: nat, adds: nat)

  /** Which timers the set holds, in its order; what the sweepers have taken out of it and not looked at yet; and what
      they have delivered and not yet looked at for its cycle. */
  datatype State = State(timers: map<int, Timer>, pending: seq<int>, taken: seq<int>, delivered: seq<int>, now: nat)

  datatype Step =
    | Make(id: int, ms: nat, cycle: bool) | Add(id: int) | Cancel(id: int) | Delete(id: int)
    | Sweep(at: nat, self: int) | Handle(i: nat) | Rearm(i: nat) | Tick(later: nat)

  function Init(now: nat): (s: State) {
    State(map[], [], [], [], now)
  }

  predicate AllIn(ids: seq<int>, timers: map<int, Timer>) {
    forall i :: 0 <= i < |ids| ==> ids[i] in timers
  }

  function StampsOf(timers: map<int, Timer>, ids: seq<int>): (s: seq<Stamp>)
    requires AllIn(ids, timers)
    ensures |s| == |ids| && forall i :: 0 <= i < |ids| ==> s[i] == Stamp(timers[ids[i]].expire, ids[i])
  {
    seq(|ids|, i requires 0 <= i < |ids| => Stamp(timers[ids[i]].expire, ids[i]))
  }

  /** Where the set looks for id, by its expiry. */
  function Place(timers: map<int, Timer>, ids: seq<int>, id: int): (n: nat)
    requires id in timers && AllIn(ids, timers)
    ensures n <= |ids|
  {
    LowerBound(StampsOf(timers, ids), Stamp(timers[id].expire, id))
  }

  predicate Found(timers: map<int, Timer>, ids: seq<int>, id: int)
    requires id in timers && AllIn(ids, timers)
  {
    var n := Place(timers, ids, id);
    n < |ids| && ids[n] == id
  }

  function Put(ids: seq<int>, n: nat, id: int): (r: seq<int>)
    requires n <= |ids|
  {
    ids[..n] + [id] + ids[n..]
  }

  function Drop(ids: seq<int>, n: nat): (r: seq<int>)
    requires n < |ids|
  {
    ids[..n] + ids[n + 1..]
  }

  /** The set with id. */
  function Insert(timers: map<int, Timer>, ids: seq<int>, id: int): (r: seq<int>)
    requires id in timers && AllIn(ids, timers)
  {
    if Found(timers, ids, id) then ids else Put(ids, Place(timers, ids, id), id)
  }

  /** The set without id. */
  function Erase(timers: map<int, Timer>, ids: seq<int>, id: int): (r: seq<int>)
    requires id in timers && AllIn(ids, timers)
  {
    if Found(timers, ids, id) then Drop(ids, Place(timers, ids, id)) else ids
  }

  predicate Known(s: State) {
    AllIn(s.pending, s.timers) && AllIn(s.taken, s.timers) && AllIn(s.delivered, s.timers)
  }

  predicate Enabled(s: State, step: Step) {
    match step
    case Make(id, _, _) => id !in s.timers
    case Add(id) => id in s.timers
    case Cancel(id) => id in s.timers
    case Delete(id) => id in s.timers
    case Sweep(at, _) => at <= s.now
    case Handle(i) => i < |s.taken|
    case Rearm(i) => i < |s.delivered|
    case Tick(later) => s.now <= later
  }

  function Stopped(t: Timer): (r: Timer) {
    t.(cancelled := true, cycle := false)
  }

  /** addTimer. */
  function Added(s: State, id: int): (u: State)
    requires Known(s) && id in s.timers
  {
    var t := s.timers[id];
    if t.cancelled || Found(s.timers, s.pending, id) then s
    else s.(pending := Insert(s.timers, s.pending, id), timers := s.timers[id := t.(adds := t.adds + 1)])
  }

  /** delTimer. */
  function Deleted(s: State, id: int): (u: State)
    requires Known(s) && id in s.timers
  {
    s.(timers := s.timers[id := Stopped(s.timers[id])], pending := Erase(s.timers, s.pending, id))
  }

  /** What a sweep takes out. */
  function Batch(s: State, at: nat, self: int): (n: nat)
    requires Known(s)
    ensures n <= |s.pending|
  {
    Due(StampsOf(s.timers, s.pending), at, self)
  }

  function Swept(s: State, at: nat, self: int): (u: State)
    requires Known(s)
  {
    var n := Batch(s, at, self);
    s.(taken := s.taken + s.pending[..n], pending := s.pending[n..])
  }

  /** One more timer of a sweep is looked at. */
  function Handled(s: State, i: nat): (u: State)
    requires Known(s) && i < |s.taken|
  {
    var id := s.taken[i];
    var t := s.timers[id];
    if t.cancelled then s.(taken := Drop(s.taken, i))
    else s.(taken := Drop(s.taken, i), timers := s.timers[id := t.(fired := t.fired + 1)],
            delivered := s.delivered + [id])
  }

  function Refreshed(s: State, id: int): (timers: map<int, Timer>)
    requires id in s.timers
  {
    s.timers[id := s.timers[id].(expire := s.now + s.timers[id].ms)]
  }

  function Entered(s: State, id: int): (u: State)
    requires Known(s) && id in s.timers
  {
    s.(timers := Refreshed(s, id), pending := Insert(Refreshed(s, id), s.pending, id))
  }

  /** A cyclic timer gets a new expiry and goes back into the set. */
  function Rearmed(s: State, i: nat): (u: State)
    requires Known(s) && i < |s.delivered|
  {
    var id := s.delivered[i];
    var u := s.(delivered := Drop(s.delivered, i));
    if !s.timers[id].cycle then u
    else if s.timers[id].cancelled then u.(timers := Refreshed(u, id))
    else Entered(u, id)
  }

  function Next(s: State, step: Step): (u: State)
    requires Known(s) && Enabled(s, step)
  {
    match step
    case Make(id, ms, cycle) =>
      s.(timers := s.timers[id := Timer(ms, cycle, s.now, cycle, false, s.now + ms, 0, 0)])
    case Add(id) => Added(s, id)
    case Cancel(id) => s.(timers := s.timers[id := Stopped(s.timers[id])])
    case Delete(id) => Deleted(s, id)
    case Sweep(at, self) => Swept(s, at, self)
    case Handle(i) => Handled(s, i)
    case Rearm(i) => Rearmed(s, i)
    case Tick(later) => s.(now := later)
  }

  // ----- what every step keeps -----

  function Count(ids: seq<int>, id: int): (n: nat) {
    multiset(ids)[id]
  }

  /** A one-shot timer has been delivered as often as it was put into the set, except for the times that it still
      waits, and unless it was cancelled. No expiry is further away than the period. */
  predicate Conserved(s: State, id: int)
    requires id in s.timers
  {
    var t := s.timers[id];
    var n := t.fired + Count(s.pending, id) + Count(s.taken, id);
    && t.expire <= s.now + t.ms
    && (t.cycle <==> t.periodic && !t.cancelled)
    && (!t.periodic ==> n <= t.adds && (!t.cancelled ==> n == t.adds))
  }

  predicate Inv(s: State) {
    Known(s) && forall id :: id in s.timers ==> Conserved(s, id)
  }

  lemma PutMembers(ids: seq<int>, n: nat, id: int, x: int)
    requires n <= |ids|
    ensures Count(Put(ids, n, id), x) == Count(ids, x) + if x == id then 1 else 0
    ensures x in Put(ids, n, id) <==> x == id || x in ids
  {
    assert ids == ids[..n] + ids[n..];
    assert x in Put(ids, n, id) <==> x in multiset(Put(ids, n, id));
  }

  lemma DropMembers(ids: seq<int>, n: nat, x: int)
    requires n < |ids|
    ensures Count(Drop(ids, n), x) == Count(ids, x) - if x == ids[n] then 1 else 0
    ensures x in Drop(ids, n) ==> x in ids
    ensures x in ids && x != ids[n] ==> x in Drop(ids, n)
  {
    assert ids == ids[..n] + [ids[n]] + ids[n + 1..];
    assert x in Drop(ids, n) <==> x in multiset(Drop(ids, n));
  }

  lemma SplitMembers(ids: seq<int>, n: nat, x: int)
    requires n <= |ids|
    ensures Count(ids[..n], x) + Count(ids[n..], x) == Count(ids, x)
    ensures x in ids <==> x in ids[..n] || x in ids[n..]
  {
    assert ids == ids[..n] + ids[n..];
  }

  lemma MoreMembers(ids: seq<int>, more: seq<int>, x: int)
    ensures Count(ids + more, x) == Count(ids, x) + Count(more, x)
    ensures x in ids + more <==> x in ids || x in more
  {
  }

  lemma NotIn(ids: seq<int>, timers: map<int, Timer>, id: int)
    requires AllIn(ids, timers) && id !in timers
    ensures id !in ids && Count(ids, id) == 0
  {
  }

  lemma PutAllIn(ids: seq<int>, timers: map<int, Timer>, n: nat, id: int)
    requires AllIn(ids, timers) && n <= |ids| && id in timers
    ensures AllIn(Put(ids, n, id), timers)
  {
  }

  lemma InsertMembers(timers: map<int, Timer>, ids: seq<int>, id: int, x: int)
    requires id in timers && AllIn(ids, timers)
    ensures AllIn(Insert(timers, ids, id), timers)
    ensures Count(Insert(timers, ids, id), x) == Count(ids, x) + if x == id && !Found(timers, ids, id) then 1 else 0
  {
    PutAllIn(ids, timers, Place(timers, ids, id), id);
    PutMembers(ids, Place(timers, ids, id), id, x);
  }

  lemma EraseMembers(timers: map<int, Timer>, ids: seq<int>, id: int, x: int)
    requires id in timers && AllIn(ids, timers)
    ensures AllIn(Erase(timers, ids, id), timers)
    ensures Count(Erase(timers, ids, id), x) == Count(ids, x) - if x == id && Found(timers, ids, id) then 1 else 0
  {
    if Found(timers, ids, id) {
      DropMembers(ids, Place(timers, ids, id), x);
    }
  }

  lemma AddInv(s: State, id: int)
    requires Inv(s) && id in s.timers
    ensures Inv(Added(s, id))
  {
    var u := Added(s, id);
    InsertMembers(s.timers, s.pending, id, id);
    forall x | x in u.timers ensures Conserved(u, x) {
      assert Conserved(s, x);
      InsertMembers(s.timers, s.pending, id, x);
    }
  }

  lemma MakeInv(s: State, id: int, ms: nat, cycle: bool)
    requires Inv(s) && id !in s.timers
    ensures Inv(Next(s, Make(id, ms, cycle)))
  {
    NotIn(s.pending, s.timers, id);
    NotIn(s.taken, s.timers, id);
    var u := Next(s, Make(id, ms, cycle));
    forall x | x in u.timers ensures Conserved(u, x) {
      if x != id {
        assert Conserved(s, x);
      }
    }
  }

  lemma DeleteInv(s: State, id: int)
    requires Inv(s) && id in s.timers
    ensures Inv(Deleted(s, id))
  {
    var u := Deleted(s, id);
    EraseMembers(s.timers, s.pending, id, id);
    forall x | x in u.timers ensures Conserved(u, x) {
      assert Conserved(s, x);
      EraseMembers(s.timers, s.pending, id, x);
    }
  }

  lemma SweepInv(s: State, at: nat, self: int)
    requires Inv(s) && at <= s.now
    ensures Inv(Swept(s, at, self))
  {
    var n := Batch(s, at, self);
    var u := Swept(s, at, self);
    forall x | x in u.timers ensures Conserved(u, x) {
      assert Conserved(s, x);
      SplitMembers(s.pending, n, x);
      MoreMembers(s.taken, s.pending[..n], x);
    }
  }

  lemma HandleInv(s: State, i: nat)
    requires Inv(s) && i < |s.taken|
    ensures Inv(Handled(s, i))
  {
    var u := Handled(s, i);
    forall x | x in u.timers ensures Conserved(u, x) {
      assert Conserved(s, x);
      DropMembers(s.taken, i, x);
    }
  }

  /** The new expiry changes no count. */
  lemma EnteredInv(s: State, id: int)
    requires Inv(s) && id in s.timers && s.timers[id].periodic
    ensures Inv(Entered(s, id))
  {
    var timers := Refreshed(s, id);
    assert AllIn(s.pending, timers);
    InsertMembers(timers, s.pending, id, id);
    var u := Entered(s, id);
    forall x | x in timers ensures Conserved(u, x) {
      assert Conserved(s, x);
      InsertMembers(timers, s.pending, id, x);
    }
  }

  lemma DeliveredInv(s: State, delivered: seq<int>)
    requires Inv(s) && AllIn(delivered, s.timers)
    ensures Inv(s.(delivered := delivered))
  {
    var u := s.(delivered := delivered);
    forall x | x in u.timers ensures Conserved(u, x) {
      assert Conserved(s, x);
    }
  }

  lemma DropAllIn(ids: seq<int>, timers: map<int, Timer>, n: nat)
    requires AllIn(ids, timers) && n < |ids|
    ensures AllIn(Drop(ids, n), timers)
  {
  }

  lemma RearmInv(s: State, i: nat)
    requires Inv(s) && i < |s.delivered|
    ensures Inv(Rearmed(s, i))
  {
    var id := s.delivered[i];
    var delivered := Drop(s.delivered, i);
    DropAllIn(s.delivered, s.timers, i);
    DeliveredInv(s, delivered);
    assert Conserved(s, id);
    if s.timers[id].cycle {
      var u := s.(delivered := delivered);
      EnteredInv(u, id);
      assert Rearmed(s, i) == Entered(u, id);
    } else {
      assert Rearmed(s, i) == s.(delivered := delivered);
    }
  }

  lemma StepInv(s: State, step: Step)
    requires Inv(s) && Enabled(s, step)
    ensures Inv(Next(s, step))
  {
    match step
    case Make(id, ms, cycle) => MakeInv(s, id, ms, cycle);
    case Add(id) => AddInv(s, id);
    case Cancel(id) =>
      assert forall x :: x in s.timers ==> Conserved(s, x);
    case Delete(id) => DeleteInv(s, id);
    case Sweep(at, self) => SweepInv(s, at, self);
    case Handle(i) => HandleInv(s, i);
    case Rearm(i) => RearmInv(s, i);
    case Tick(later) =>
      assert forall x :: x in s.timers ==> Conserved(s, x);
  }

  // ----- every run -----

  function After(now: nat, steps: seq<Step>): (r: Option<State>)
    ensures r.Some? ==> Inv(r.value)
  {
    if steps == [] then Some(Init(now)) else
      var before := After(now, steps[..|steps| - 1]);
      if before.Some? && Enabled(before.value, steps[|steps| - 1]) then
        StepInv(before.value, steps[|steps| - 1]);
        Some(Next(before.value, steps[|steps| - 1]))
      else None
  }

  lemma AfterMore(now: nat, steps: seq<Step>, step: Step)
    requires After(now, steps).Some? && Enabled(After(now, steps).value, step)
    ensures After(now, steps + [step]) == Some(Next(After(now, steps).value, step))
  {
    assert (steps + [step])[..|steps|] == steps;
  }

  lemma AddsStep(s: State, step: Step, id: int)
    requires Inv(s) && Enabled(s, step) && id in s.timers
    ensures var u := Next(s, step);
            id in u.timers && u.timers[id].adds <= s.timers[id].adds + if step == Add(id) then 1 else 0
  {
  }

  lemma MadeStep(s: State, step: Step, id: int)
    requires Inv(s) && Enabled(s, step) && id !in s.timers && id in Next(s, step).timers
    ensures Next(s, step).timers[id].adds == 0
  {
  }

  /** No timer is put into the set more often than addTimer is called with it. */
  lemma {:induction false} AddsAtMost(now: nat, steps: seq<Step>, id: int)
    requires After(now, steps).Some? && id in After(now, steps).value.timers
    ensures After(now, steps).value.timers[id].adds <= multiset(steps)[Add(id)]
  {
    if steps == [] {
    } else {
      var init, step := steps[..|steps| - 1], steps[|steps| - 1];
      assert steps == init + [step];
      var s := After(now, init).value;
      if id in s.timers {
        AddsAtMost(now, init, id);
        AddsStep(s, step, id);
      } else {
        MadeStep(s, step, id);
      }
    }
  }

  /** In every run a one-shot timer is delivered at most once for each call of addTimer that puts it into the set, so at
      most once when it is added once; and unless it is cancelled no such call is lost. */
  lemma DeliveredAtMost(now: nat, steps: seq<Step>, id: int)
    requires After(now, steps).Some? && id in After(now, steps).value.timers
    requires !After(now, steps).value.timers[id].periodic
    ensures var s := After(now, steps).value;
            var t := s.timers[id];
            && t.fired <= t.adds <= multiset(steps)[Add(id)]
            && (!t.cancelled && id !in s.pending && id !in s.taken ==> t.fired == t.adds)
  {
    var s := After(now, steps).value;
    assert Conserved(s, id);
    AddsAtMost(now, steps, id);
  }

  lemma CancelledStep(s: State, step: Step, id: int)
    requires Inv(s) && Enabled(s, step) && id in s.timers && s.timers[id].cancelled
    ensures var u := Next(s, step); id in u.timers && u.timers[id].cancelled && u.timers[id].fired == s.timers[id].fired
  {
  }

  /** What is cancelled stays cancelled and is not delivered again. */
  lemma {:induction false} CancelledIsOver(now: nat, steps: seq<Step>, k: nat, id: int)
    requires k <= |steps| && After(now, steps).Some? && After(now, steps[..k]).Some?
    requires var s := After(now, steps[..k]).value; id in s.timers && s.timers[id].cancelled
    ensures var s, u := After(now, steps[..k]).value, After(now, steps).value;
            id in u.timers && u.timers[id].cancelled && u.timers[id].fired == s.timers[id].fired
    decreases |steps|
  {
    if k == |steps| {
      assert steps[..k] == steps;
    } else {
      var init := steps[..|steps| - 1];
      assert init[..k] == steps[..k];
      CancelledIsOver(now, init, k, id);
      CancelledStep(After(now, init).value, steps[|steps| - 1], id);
    }
  }

  // ----- a one-shot timer that is added again -----

  /** What it takes to deliver the timer once more. */
  function Round(id: int, at: nat, self: int): (r: seq<Step>) {
    [Add(id), Sweep(at, self), Handle(0), Rearm(0)]
  }

  /** A state in which timer id, which is one-shot and has expired, is nowhere. */
  predicate Idle(s: State, id: int, n: nat) {
    && s.pending == [] && s.taken == [] && s.delivered == [] && id in s.timers
    && var t := s.timers[id];
       !t.cycle && !t.cancelled && t.expire < s.now && t.fired == n && t.adds == n
  }

  lemma AddIdle(s: State, id: int, n: nat)
    requires Inv(s) && Idle(s, id, n)
    ensures Added(s, id).pending == [id] && Added(s, id) ==
            s.(pending := [id], timers := s.timers[id := s.timers[id].(adds := n + 1)])
  {
    assert Put([], 0, id) == [id];
  }

  lemma SweepIdle(s: State, id: int, self: int)
    requires Inv(s) && s.pending == [id] && s.taken == [] && id in s.timers && s.timers[id].expire < s.now
    ensures Swept(s, s.now, self) == s.(pending := [], taken := [id])
  {
    SweepExactly(StampsOf(s.timers, s.pending), s.now, self, 0);
    assert [id][..1] == [id] && [id][1..] == [] && [] + [id] == [id];
  }

  lemma RoundFires(now: nat, steps: seq<Step>, id: int, n: nat, self: int)
    requires After(now, steps).Some? && Idle(After(now, steps).value, id, n)
    ensures var more := After(now, steps + Round(id, After(now, steps).value.now, self));
            more.Some? && Idle(more.value, id, n + 1)
  {
    var s := After(now, steps).value;
    var at := s.now;
    AfterMore(now, steps, Add(id));
    AddIdle(s, id, n);
    var s1 := Added(s, id);
    var one := steps + [Add(id)];
    AfterMore(now, one, Sweep(at, self));
    SweepIdle(s1, id, self);
    var s2 := s1.(pending := [], taken := [id]);
    var two := one + [Sweep(at, self)];
    AfterMore(now, two, Handle(0));
    assert Drop([id], 0) == [] && [] + [id] == [id];
    var three := two + [Handle(0)];
    AfterMore(now, three, Rearm(0));
    assert three + [Rearm(0)] == steps + Round(id, at, self);
  }

  /** The bound is met for every number of adds: a one-shot timer that is added again after it was delivered is
      delivered again. So at most once holds of a timer when it is put into the set once, and not otherwise. */
  lemma {:induction false} ReaddedFires(now: nat, id: int, ms: nat, self: int, n: nat) returns (steps: seq<Step>)
    ensures var r := After(now, steps);
            r.Some? && id in r.value.timers && !r.value.timers[id].periodic
            && r.value.timers[id].adds == n && r.value.timers[id].fired == n && Idle(r.value, id, n)
  {
    if n == 0 {
      AfterMore(now, [], Make(id, ms, false));
      AfterMore(now, [] + [Make(id, ms, false)], Tick(now + ms + 1));
      steps := [] + [Make(id, ms, false)] + [Tick(now + ms + 1)];
    } else {
      steps := ReaddedFires(now, id, ms, self, n - 1);
      var at := After(now, steps).value.now;
      RoundFires(now, steps, id, n - 1, self);
      steps := steps + Round(id, at, self);
      assert Conserved(After(now, steps).value, id);
    }
  }
}
