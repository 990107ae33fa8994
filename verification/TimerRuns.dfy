/** The order of the timer set and the pace of cyclic timers: what holds in the runs in which no cyclic timer is added
    while a sweeper has it, and what breaks in the others. */
module TimerRuns {
  import opened Prelude
  import opened OrderedSets
  import opened TimerSpec

  /** n periods. */
  function Periods(n: nat, ms: nat): (r: nat) {
    if n == 0 then 0 else Periods(n - 1, ms) + ms
  }

  lemma {:induction false} PeriodsIsProduct(n: nat, ms: nat)
    ensures Periods(n, ms) == n * ms
  {
    if n == 0 {
    } else {
      PeriodsIsProduct(n - 1, ms);
      assert n * ms == (n - 1) * ms + ms;
    }
  }

  /** The step does not add a cyclic timer that a sweeper has. */
  predicate Careful(s: State, step: Step) {
    match step
    case Add(id) => id in s.timers && s.timers[id].cycle ==> id !in s.taken && id !in s.delivered
    case _ => true
  }

  ghost predicate CarefulRun(now: nat, steps: seq<Step>)
    requires After(now, steps).Some?
  {
    steps == [] ||
    var init := steps[..|steps| - 1];
    CarefulRun(now, init) && Careful(After(now, init).value, steps[|steps| - 1])
  }

  lemma CarefulMore(now: nat, steps: seq<Step>, step: Step)
    requires After(now, steps).Some? && CarefulRun(now, steps) && Enabled(After(now, steps).value, step)
    requires Careful(After(now, steps).value, step)
    ensures After(now, steps + [step]) == Some(Next(After(now, steps).value, step)) && CarefulRun(now, steps + [step])
  {
    AfterMore(now, steps, step);
    assert (steps + [step])[..|steps|] == steps;
  }

  /** A cyclic timer is in one place at most; what is taken has expired; and a periodic timer keeps its pace. */
  predicate Steady(s: State, id: int)
    requires id in s.timers
  {
    var t := s.timers[id];
    && (t.cycle ==> Count(s.pending, id) + Count(s.taken, id) + Count(s.delivered, id) <= 1)
    && (id in s.taken ==> t.expire <= s.now)
    && (t.periodic ==> t.created + Periods(t.fired, t.ms) <= s.now)
    && (t.cycle && id !in s.delivered ==> t.created + Periods(t.fired + 1, t.ms) <= t.expire)
  }

  predicate Ordered(s: State) {
    AllIn(s.pending, s.timers) && Sorted(StampsOf(s.timers, s.pending))
  }

  predicate Tidy(s: State) {
    Inv(s) && Ordered(s) && forall id :: id in s.timers ==> Steady(s, id)
  }

  // ----- the set -----

  lemma CountIn(ids: seq<int>, x: int)
    ensures x in ids <==> Count(ids, x) > 0
  {
    assert x in ids <==> x in multiset(ids);
  }

  /** Changing a timer that is not in the list, or anything but its expiry, changes no stamp. */
  lemma SameStamps(timers: map<int, Timer>, ids: seq<int>, id: int, t: Timer)
    requires AllIn(ids, timers) && (id in ids ==> id in timers && timers[id].expire == t.expire)
    ensures AllIn(ids, timers[id := t]) && StampsOf(timers[id := t], ids) == StampsOf(timers, ids)
  {
  }

  lemma IdsDistinct(timers: map<int, Timer>, ids: seq<int>)
    requires AllIn(ids, timers) && Sorted(StampsOf(timers, ids))
    ensures Distinct(ids)
  {
    forall i, j | 0 <= i < j < |ids| ensures ids[i] != ids[j] {
      assert Before(StampsOf(timers, ids)[i], StampsOf(timers, ids)[j]);
    }
  }

  /** In an ordered set a timer is found if it is there. */
  lemma FoundIn(timers: map<int, Timer>, ids: seq<int>, id: int)
    requires id in timers && AllIn(ids, timers) && Sorted(StampsOf(timers, ids))
    ensures Found(timers, ids, id) <==> id in ids
  {
    if id in ids {
      var i :| 0 <= i < |ids| && ids[i] == id;
      LowerBoundFinds(StampsOf(timers, ids), i);
    }
  }

  lemma InsertKeeps(timers: map<int, Timer>, ids: seq<int>, id: int)
    requires id in timers && AllIn(ids, timers) && Sorted(StampsOf(timers, ids))
    ensures AllIn(Insert(timers, ids, id), timers) && Sorted(StampsOf(timers, Insert(timers, ids, id)))
  {
    FoundIn(timers, ids, id);
    if id !in ids {
      var s, t, n := StampsOf(timers, ids), Stamp(timers[id].expire, id), Place(timers, ids, id);
      assert t !in s;
      SortedInsert(s, t);
      PutAllIn(ids, timers, n, id);
      assert StampsOf(timers, Put(ids, n, id)) == s[..n] + [t] + s[n..];
    }
  }

  lemma EraseKeeps(timers: map<int, Timer>, ids: seq<int>, id: int)
    requires id in timers && AllIn(ids, timers) && Sorted(StampsOf(timers, ids))
    ensures AllIn(Erase(timers, ids, id), timers) && Sorted(StampsOf(timers, Erase(timers, ids, id)))
    ensures id !in Erase(timers, ids, id)
  {
    FoundIn(timers, ids, id);
    if id in ids {
      var s, n := StampsOf(timers, ids), Place(timers, ids, id);
      SortedRemove(s, n);
      assert StampsOf(timers, Drop(ids, n)) == s[..n] + s[n + 1..];
      IdsDistinct(timers, ids);
    }
  }

  lemma SplitKeeps(timers: map<int, Timer>, ids: seq<int>, n: nat)
    requires AllIn(ids, timers) && Sorted(StampsOf(timers, ids)) && n <= |ids|
    ensures AllIn(ids[..n], timers) && Sorted(StampsOf(timers, ids[..n]))
    ensures AllIn(ids[n..], timers) && Sorted(StampsOf(timers, ids[n..]))
    ensures ids[..n] + ids[n..] == ids
  {
    assert StampsOf(timers, ids[..n]) == StampsOf(timers, ids)[..n];
    assert StampsOf(timers, ids[n..]) == StampsOf(timers, ids)[n..];
  }

  lemma DueDivides(timers: map<int, Timer>, ids: seq<int>, now: nat, self: int)
    requires AllIn(ids, timers) && Sorted(StampsOf(timers, ids))
    ensures var n := Due(StampsOf(timers, ids), now, self);
            && (forall id :: id in ids[..n] ==> id in timers && timers[id].expire <= now)
            && (forall id :: id in ids[n..] ==> id in timers && now <= timers[id].expire)
  {
    var s := StampsOf(timers, ids);
    var n := Due(s, now, self);
    forall id | id in ids[..n] ensures id in timers && timers[id].expire <= now {
      var i :| 0 <= i < n && ids[i] == id;
      SweepExactly(s, now, self, i);
    }
    forall id | id in ids[n..] ensures id in timers && now <= timers[id].expire {
      var i :| 0 <= i < |ids| - n && ids[n..][i] == id;
      SweepExactly(s, now, self, n + i);
    }
  }

  // ----- the order -----

  /** Timer x is due between the expiry of timer id and the one that it would get now. */
  predicate Between(timers: map<int, Timer>, now: nat, id: int, x: int) {
    && id in timers && x in timers
    && Before(Stamp(timers[id].expire, id), Stamp(timers[x].expire, x))
    && Before(Stamp(timers[x].expire, x), Stamp(now + timers[id].ms, id))
  }

  /** A new expiry moves timer id past another one of the set. */
  predicate Passes(timers: map<int, Timer>, ids: seq<int>, now: nat, id: int) {
    exists x :: x in ids && Between(timers, now, id, x)
  }

  /** The step gives a new expiry to a timer that is in the set, and moves it past another one. */
  predicate Unorders(s: State, step: Step)
    requires Known(s) && Enabled(s, step)
  {
    step.Rearm? &&
    var id := s.delivered[step.i];
    s.timers[id].cycle && id in s.pending && Passes(s.timers, s.pending, s.now, id)
  }

  /** Two entries keep their order when another one is put in. */
  lemma PutKeepsOrder(ids: seq<int>, n: nat, id: int, a: nat, b: nat) returns (a': nat, b': nat)
    requires n <= |ids| && a < b < |ids|
    ensures a' < b' < |ids| + 1 && Put(ids, n, id)[a'] == ids[a] && Put(ids, n, id)[b'] == ids[b]
  {
    a', b' := if a < n then a else a + 1, if b < n then b else b + 1;
  }

  lemma InsertKeepsOrder(timers: map<int, Timer>, ids: seq<int>, id: int, a: nat, b: nat) returns (a': nat, b': nat)
    requires id in timers && AllIn(ids, timers) && a < b < |ids|
    ensures var r := Insert(timers, ids, id); a' < b' < |r| && r[a'] == ids[a] && r[b'] == ids[b]
  {
    a', b' := a, b;
    if !Found(timers, ids, id) {
      a', b' := PutKeepsOrder(ids, Place(timers, ids, id), id, a, b);
    }
  }

  lemma NotBefore(a: Stamp, b: Stamp)
    requires Before(a, b)
    ensures !Before(b, a)
  {
  }

  /** A later stamp for one entry keeps the order if no other entry is passed. */
  lemma LaterKeeps(s: seq<Stamp>, a: nat, t: Stamp)
    requires Sorted(s) && a < |s| && !Before(t, s[a])
    requires forall j :: a < j < |s| ==> Before(t, s[j])
    ensures Sorted(s[a := t])
  {
  }

  lemma LaterStamps(timers: map<int, Timer>, ids: seq<int>, a: nat, t: Timer)
    requires AllIn(ids, timers) && Distinct(ids) && a < |ids|
    ensures AllIn(ids, timers[ids[a] := t])
    ensures StampsOf(timers[ids[a] := t], ids) == StampsOf(timers, ids)[a := Stamp(t.expire, ids[a])]
  {
  }

  /** A new expiry for a timer in the set, when no other one is due in between. */
  lemma NonePassed(s: State, a: nat)
    requires Known(s) && Ordered(s) && a < |s.pending|
    requires s.timers[s.pending[a]].expire <= s.now + s.timers[s.pending[a]].ms
    requires !Passes(s.timers, s.pending, s.now, s.pending[a])
    ensures Ordered(Entered(s, s.pending[a]))
  {
    var id, stamps := s.pending[a], StampsOf(s.timers, s.pending);
    var t := Stamp(s.now + s.timers[id].ms, id);
    IdsDistinct(s.timers, s.pending);
    LaterStamps(s.timers, s.pending, a, Refreshed(s, id)[id]);
    forall j | a < j < |s.pending| ensures Before(t, stamps[j]) {
      assert Before(stamps[a], stamps[j]) && s.pending[j] in s.pending;
      assert !Between(s.timers, s.now, id, s.pending[j]);
    }
    LaterKeeps(stamps, a, t);
    FoundIn(Refreshed(s, id), s.pending, id);
  }

  /** A new expiry for a timer in the set that passes another one. */
  lemma OnePassed(s: State, a: nat, b: nat)
    requires Known(s) && Ordered(s) && a < |s.pending| && b < |s.pending|
    requires Between(s.timers, s.now, s.pending[a], s.pending[b])
    ensures !Ordered(Entered(s, s.pending[a]))
  {
    var id, stamps := s.pending[a], StampsOf(s.timers, s.pending);
    NotBefore(stamps[a], stamps[b]);
    assert a < b;
    IdsDistinct(s.timers, s.pending);
    var timers := Refreshed(s, id);
    var u := Entered(s, id);
    InsertMembers(timers, s.pending, id, id);
    var a', b' := InsertKeepsOrder(timers, s.pending, id, a, b);
    var after := StampsOf(timers, u.pending);
    NotBefore(after[b'], after[a']);
  }

  lemma EnterAgain(s: State, id: int)
    requires Known(s) && Ordered(s) && id in s.pending && s.timers[id].expire <= s.now + s.timers[id].ms
    ensures Ordered(Entered(s, id)) <==> !Passes(s.timers, s.pending, s.now, id)
  {
    var a :| 0 <= a < |s.pending| && s.pending[a] == id;
    if Passes(s.timers, s.pending, s.now, id) {
      var x :| x in s.pending && Between(s.timers, s.now, id, x);
      var b :| 0 <= b < |s.pending| && s.pending[b] == x;
      OnePassed(s, a, b);
    } else {
      NonePassed(s, a);
    }
  }

  lemma EnterNew(s: State, id: int)
    requires Known(s) && Ordered(s) && id in s.timers && id !in s.pending
    ensures Ordered(Entered(s, id))
  {
    SameStamps(s.timers, s.pending, id, Refreshed(s, id)[id]);
    InsertKeeps(Refreshed(s, id), s.pending, id);
  }

  lemma RearmOrdered(s: State, i: nat)
    requires Inv(s) && Ordered(s) && i < |s.delivered|
    ensures Ordered(Rearmed(s, i)) <==> !Unorders(s, Rearm(i))
  {
    var id := s.delivered[i];
    var u := s.(delivered := Drop(s.delivered, i));
    assert Conserved(s, id);
    DropAllIn(s.delivered, s.timers, i);
    if s.timers[id].cycle {
      assert Rearmed(s, i) == Entered(u, id);
      if id in s.pending {
        EnterAgain(u, id);
      } else {
        EnterNew(u, id);
      }
    }
  }

  lemma AddOrdered(s: State, id: int)
    requires Known(s) && Ordered(s) && id in s.timers
    ensures Ordered(Added(s, id))
  {
    InsertKeeps(s.timers, s.pending, id);
    SameStamps(s.timers, Added(s, id).pending, id, Added(s, id).timers[id]);
  }

  lemma DeleteOrdered(s: State, id: int)
    requires Known(s) && Ordered(s) && id in s.timers
    ensures Ordered(Deleted(s, id)) && id !in Deleted(s, id).pending
  {
    EraseKeeps(s.timers, s.pending, id);
    SameStamps(s.timers, Deleted(s, id).pending, id, Stopped(s.timers[id]));
  }

  /** Whatever the step is, it takes the set out of its order if and only if it moves a timer inside it past another
      one. */
  lemma StepOrdered(s: State, step: Step)
    requires Inv(s) && Ordered(s) && Enabled(s, step)
    ensures Ordered(Next(s, step)) <==> !Unorders(s, step)
  {
    match step
    case Make(id, ms, cycle) =>
      NotIn(s.pending, s.timers, id);
      SameStamps(s.timers, s.pending, id, Next(s, step).timers[id]);
    case Add(id) => AddOrdered(s, id);
    case Cancel(id) => SameStamps(s.timers, s.pending, id, Stopped(s.timers[id]));
    case Delete(id) => DeleteOrdered(s, id);
    case Sweep(at, self) => SplitKeeps(s.timers, s.pending, Batch(s, at, self));
    case Handle(i) =>
      var id := s.taken[i];
      SameStamps(s.timers, s.pending, id, s.timers[id].(fired := s.timers[id].fired + 1));
    case Rearm(i) => RearmOrdered(s, i);
    case Tick(later) =>
  }

  lemma {:induction false} PrefixRuns(now: nat, steps: seq<Step>, k: nat)
    requires k <= |steps| && After(now, steps).Some?
    ensures After(now, steps[..k]).Some?
    ensures k < |steps| ==> Enabled(After(now, steps[..k]).value, steps[k])
    decreases |steps|
  {
    if k == |steps| {
      assert steps[..k] == steps;
    } else {
      var init := steps[..|steps| - 1];
      assert init[..k] == steps[..k];
      PrefixRuns(now, init, k);
    }
  }

  /** No step of the run moves a timer inside the set past another one. */
  ghost predicate NeverUnorders(now: nat, steps: seq<Step>)
    requires After(now, steps).Some?
  {
    forall k :: 0 <= k < |steps| ==>
      && After(now, steps[..k]).Some? && Enabled(After(now, steps[..k]).value, steps[k])
      && !Unorders(After(now, steps[..k]).value, steps[k])
  }

  ghost predicate AlwaysOrdered(now: nat, steps: seq<Step>) {
    forall k :: 0 <= k <= |steps| ==> After(now, steps[..k]).Some? && Ordered(After(now, steps[..k]).value)
  }

  /** In every run the set is in its order all the time if and only if no step of it moves a timer inside the set past
      another one. */
  lemma OrderedExactly(now: nat, steps: seq<Step>)
    requires After(now, steps).Some?
    ensures AlwaysOrdered(now, steps) <==> NeverUnorders(now, steps)
  {
    if AlwaysOrdered(now, steps) {
      forall k | 0 <= k < |steps|
        ensures && After(now, steps[..k]).Some? && Enabled(After(now, steps[..k]).value, steps[k])
                && !Unorders(After(now, steps[..k]).value, steps[k])
      {
        PrefixStep(now, steps, k);
        StepOrdered(After(now, steps[..k]).value, steps[k]);
      }
    }
    if NeverUnorders(now, steps) {
      forall k | 0 <= k <= |steps| ensures After(now, steps[..k]).Some? && Ordered(After(now, steps[..k]).value) {
        OrderedUpTo(now, steps, k);
      }
    }
  }

  lemma PrefixStep(now: nat, steps: seq<Step>, k: nat)
    requires k < |steps| && After(now, steps).Some?
    ensures After(now, steps[..k]).Some? && Enabled(After(now, steps[..k]).value, steps[k])
    ensures After(now, steps[..k + 1]) == Some(Next(After(now, steps[..k]).value, steps[k]))
  {
    PrefixRuns(now, steps, k);
    AfterMore(now, steps[..k], steps[k]);
    assert steps[..k + 1] == steps[..k] + [steps[k]];
  }

  lemma {:induction false} OrderedUpTo(now: nat, steps: seq<Step>, k: nat)
    requires k <= |steps| && After(now, steps).Some? && NeverUnorders(now, steps)
    ensures After(now, steps[..k]).Some? && Ordered(After(now, steps[..k]).value)
  {
    if k == 0 {
      assert steps[..0] == [];
    } else {
      OrderedUpTo(now, steps, k - 1);
      PrefixStep(now, steps, k - 1);
      StepOrdered(After(now, steps[..k - 1]).value, steps[k - 1]);
    }
  }

  // ----- the steps -----

  lemma MakeTidy(s: State, id: int, ms: nat, cycle: bool)
    requires Tidy(s) && id !in s.timers
    ensures Tidy(Next(s, Make(id, ms, cycle)))
  {
    StepInv(s, Make(id, ms, cycle));
    NotIn(s.pending, s.timers, id);
    NotIn(s.taken, s.timers, id);
    NotIn(s.delivered, s.timers, id);
    var u := Next(s, Make(id, ms, cycle));
    StepOrdered(s, Make(id, ms, cycle));
    assert Periods(0, ms) == 0 && Periods(1, ms) == ms;
    forall x | x in u.timers ensures Steady(u, x) {
      if x != id {
        assert Steady(s, x);
      }
    }
  }

  lemma AddTidy(s: State, id: int)
    requires Tidy(s) && id in s.timers && Careful(s, Add(id))
    ensures Tidy(Added(s, id))
  {
    StepInv(s, Add(id));
    var u := Added(s, id);
    AddOrdered(s, id);
    FoundIn(s.timers, s.pending, id);
    CountIn(s.pending, id);
    CountIn(s.taken, id);
    CountIn(s.delivered, id);
    forall x | x in u.timers ensures Steady(u, x) {
      assert Steady(s, x);
      InsertMembers(s.timers, s.pending, id, x);
    }
  }

  lemma CancelTidy(s: State, id: int)
    requires Tidy(s) && id in s.timers
    ensures Tidy(Next(s, Cancel(id)))
  {
    StepInv(s, Cancel(id));
    StepOrdered(s, Cancel(id));
    assert forall x :: x in s.timers ==> Steady(s, x);
  }

  lemma DeleteTidy(s: State, id: int)
    requires Tidy(s) && id in s.timers
    ensures Tidy(Deleted(s, id)) && id !in Deleted(s, id).pending
  {
    StepInv(s, Delete(id));
    DeleteOrdered(s, id);
    var u := Deleted(s, id);
    forall x | x in u.timers ensures Steady(u, x) {
      assert Steady(s, x);
      EraseMembers(s.timers, s.pending, id, x);
    }
  }

  lemma SweepTidy(s: State, at: nat, self: int)
    requires Tidy(s) && at <= s.now
    ensures Tidy(Swept(s, at, self))
  {
    StepInv(s, Sweep(at, self));
    var n := Batch(s, at, self);
    var u := Swept(s, at, self);
    StepOrdered(s, Sweep(at, self));
    DueDivides(s.timers, s.pending, at, self);
    forall x | x in u.timers ensures Steady(u, x) {
      assert Steady(s, x);
      SplitMembers(s.pending, n, x);
      MoreMembers(s.taken, s.pending[..n], x);
    }
  }

  lemma HandleTidy(s: State, i: nat)
    requires Tidy(s) && i < |s.taken|
    ensures Tidy(Handled(s, i))
  {
    StepInv(s, Handle(i));
    var id := s.taken[i];
    var u := Handled(s, i);
    StepOrdered(s, Handle(i));
    assert Steady(s, id) && Conserved(s, id);
    CountIn(s.taken, id);
    CountIn(s.delivered, id);
    forall x | x in u.timers ensures Steady(u, x) {
      assert Steady(s, x);
      DropMembers(s.taken, i, x);
      MoreMembers(s.delivered, [id], x);
    }
  }

  /** Where a cyclic timer is that was delivered. */
  lemma OnlyDelivered(s: State, i: nat)
    requires Tidy(s) && i < |s.delivered| && s.timers[s.delivered[i]].cycle
    ensures var id := s.delivered[i];
            Count(s.pending, id) == 0 && id !in s.pending && id !in s.taken && id !in Drop(s.delivered, i)
  {
    var id := s.delivered[i];
    assert Steady(s, id);
    DropMembers(s.delivered, i, id);
    CountIn(s.pending, id);
    CountIn(s.taken, id);
    CountIn(s.delivered, id);
    CountIn(Drop(s.delivered, i), id);
  }

  lemma RearmSteady(s: State, i: nat, x: int)
    requires Tidy(s) && i < |s.delivered| && Ordered(Rearmed(s, i)) && x in s.timers
    ensures x in Rearmed(s, i).timers && Steady(Rearmed(s, i), x)
  {
    var id := s.delivered[i];
    var u := Rearmed(s, i);
    assert Steady(s, id) && Conserved(s, id) && Steady(s, x);
    DropMembers(s.delivered, i, x);
    if s.timers[id].cycle {
      OnlyDelivered(s, i);
      SameStamps(s.timers, s.pending, id, u.timers[id]);
      FoundIn(u.timers, s.pending, id);
      InsertMembers(u.timers, s.pending, id, x);
    }
  }

  lemma RearmTidy(s: State, i: nat)
    requires Tidy(s) && i < |s.delivered|
    ensures Tidy(Rearmed(s, i))
  {
    StepInv(s, Rearm(i));
    if s.timers[s.delivered[i]].cycle {
      OnlyDelivered(s, i);
    }
    RearmOrdered(s, i);
    forall x | x in Rearmed(s, i).timers ensures Steady(Rearmed(s, i), x) {
      RearmSteady(s, i, x);
    }
  }

  lemma StepTidy(s: State, step: Step)
    requires Tidy(s) && Enabled(s, step) && Careful(s, step)
    ensures Tidy(Next(s, step))
  {
    match step
    case Make(id, ms, cycle) => MakeTidy(s, id, ms, cycle);
    case Add(id) => AddTidy(s, id);
    case Cancel(id) => CancelTidy(s, id);
    case Delete(id) => DeleteTidy(s, id);
    case Sweep(at, self) => SweepTidy(s, at, self);
    case Handle(i) => HandleTidy(s, i);
    case Rearm(i) => RearmTidy(s, i);
    case Tick(later) =>
      StepInv(s, step);
      assert forall x :: x in s.timers ==> Steady(s, x);
  }

  // ----- every careful run -----

  lemma {:induction false} RunTidy(now: nat, steps: seq<Step>)
    requires After(now, steps).Some? && CarefulRun(now, steps)
    ensures Tidy(After(now, steps).value)
  {
    if steps == [] {
    } else {
      var init := steps[..|steps| - 1];
      RunTidy(now, init);
      StepTidy(After(now, init).value, steps[|steps| - 1]);
    }
  }

  /** So no step of a careful run takes the set out of its order. */
  lemma CarefulNeverUnorders(now: nat, steps: seq<Step>)
    requires After(now, steps).Some? && CarefulRun(now, steps)
    ensures NeverUnorders(now, steps)
  {
    forall k | 0 <= k <= |steps| ensures After(now, steps[..k]).Some? && Ordered(After(now, steps[..k]).value) {
      PrefixRuns(now, steps, k);
      PrefixCareful(now, steps, k);
      RunTidy(now, steps[..k]);
    }
    OrderedExactly(now, steps);
  }

  lemma {:induction false} PrefixCareful(now: nat, steps: seq<Step>, k: nat)
    requires k <= |steps| && After(now, steps).Some? && CarefulRun(now, steps) && After(now, steps[..k]).Some?
    ensures CarefulRun(now, steps[..k])
    decreases |steps|
  {
    if k == |steps| {
      assert steps[..k] == steps;
    } else {
      var init := steps[..|steps| - 1];
      assert init[..k] == steps[..k];
      PrefixCareful(now, init, k);
    }
  }

  /** In every careful run the set stays strictly ordered, and a timer of period p is delivered no more often than p
      fits into the time since it was made. */
  lemma PeriodicAtMost(now: nat, steps: seq<Step>, id: int)
    requires After(now, steps).Some? && CarefulRun(now, steps) && id in After(now, steps).value.timers
    ensures var s := After(now, steps).value;
            var t := s.timers[id];
            Ordered(s) && (t.periodic ==> t.fired * t.ms <= s.now - t.created)
  {
    RunTidy(now, steps);
    var s := After(now, steps).value;
    assert Steady(s, id);
    PeriodsIsProduct(s.timers[id].fired, s.timers[id].ms);
  }

  /** A cyclic timer that was added and is not cancelled is never lost: it is in the set or with a sweeper, and in one
      place only. */
  lemma {:induction false} CyclicStays(now: nat, steps: seq<Step>, id: int)
    requires After(now, steps).Some? && CarefulRun(now, steps) && id in After(now, steps).value.timers
    ensures var s := After(now, steps).value;
            s.timers[id].cycle && s.timers[id].adds > 0
            ==> Count(s.pending, id) + Count(s.taken, id) + Count(s.delivered, id) == 1
  {
    RunTidy(now, steps);
    if steps == [] {
    } else {
      var init, step := steps[..|steps| - 1], steps[|steps| - 1];
      var s := After(now, init).value;
      RunTidy(now, init);
      if id in s.timers {
        CyclicStays(now, init, id);
        OneStepStays(s, step, id);
      }
    }
  }

  predicate Somewhere(s: State, id: int)
    requires id in s.timers
  {
    s.timers[id].cycle && s.timers[id].adds > 0
    ==> Count(s.pending, id) + Count(s.taken, id) + Count(s.delivered, id) == 1
  }

  lemma EnteredMembers(s: State, id: int, x: int)
    requires Known(s) && Ordered(s) && id in s.timers && id !in s.pending
    ensures Count(Entered(s, id).pending, x) == Count(s.pending, x) + if x == id then 1 else 0
  {
    SameStamps(s.timers, s.pending, id, Refreshed(s, id)[id]);
    FoundIn(Refreshed(s, id), s.pending, id);
    InsertMembers(Refreshed(s, id), s.pending, id, x);
  }

  lemma RearmStays(s: State, i: nat, id: int)
    requires Tidy(s) && i < |s.delivered| && id in s.timers && Somewhere(s, id)
    ensures Somewhere(Rearmed(s, i), id)
  {
    DropMembers(s.delivered, i, id);
    var x := s.delivered[i];
    var u := s.(delivered := Drop(s.delivered, i));
    assert Conserved(s, x);
    if s.timers[x].cycle {
      assert Rearmed(s, i) == Entered(u, x);
      OnlyDelivered(s, i);
      EnteredMembers(u, x, id);
      CountIn(s.pending, x);
      CountIn(s.taken, x);
      CountIn(u.delivered, x);
    } else {
      assert Rearmed(s, i) == u;
    }
  }

  lemma AddStays(s: State, x: int, id: int)
    requires Tidy(s) && x in s.timers && Careful(s, Add(x)) && id in s.timers && Somewhere(s, id)
    ensures Somewhere(Added(s, x), id)
  {
    assert Conserved(s, id);
    FoundIn(s.timers, s.pending, x);
    InsertMembers(s.timers, s.pending, x, id);
    CountIn(s.pending, id);
    CountIn(s.taken, id);
    CountIn(s.delivered, id);
  }

  lemma SweepStays(s: State, at: nat, self: int, id: int)
    requires Known(s) && id in s.timers && Somewhere(s, id)
    ensures Somewhere(Swept(s, at, self), id)
  {
    var n := Batch(s, at, self);
    SplitMembers(s.pending, n, id);
    MoreMembers(s.taken, s.pending[..n], id);
  }

  lemma HandleStays(s: State, i: nat, id: int)
    requires Tidy(s) && i < |s.taken| && id in s.timers && Somewhere(s, id)
    ensures Somewhere(Handled(s, i), id)
  {
    assert Conserved(s, id);
    DropMembers(s.taken, i, id);
    MoreMembers(s.delivered, [s.taken[i]], id);
  }

  lemma OneStepStays(s: State, step: Step, id: int)
    requires Tidy(s) && Enabled(s, step) && Careful(s, step) && id in s.timers && Somewhere(s, id)
    ensures id in Next(s, step).timers && Somewhere(Next(s, step), id)
  {
    assert Steady(s, id) && Conserved(s, id);
    match step
    case Add(x) => AddStays(s, x, id);
    case Delete(x) => EraseMembers(s.timers, s.pending, x, id);
    case Sweep(at, self) => SweepStays(s, at, self, id);
    case Handle(i) => HandleStays(s, i, id);
    case Rearm(i) => RearmStays(s, i, id);
    case _ =>
  }

  /** In every careful run a sweep divides the set: what it takes out, in the order of expiry, has expired by then, and
      everything that expired earlier is taken. */
  lemma SweepDivides(now: nat, steps: seq<Step>, at: nat, self: int) returns (vec: seq<int>)
    requires After(now, steps).Some? && CarefulRun(now, steps) && at <= After(now, steps).value.now
    ensures var s := After(now, steps).value;
            var u := Swept(s, at, self);
            && u.taken == s.taken + vec && vec + u.pending == s.pending
            && AllIn(vec, s.timers) && Sorted(StampsOf(s.timers, vec))
            && (forall id :: id in vec ==> s.timers[id].expire <= at)
            && (forall id :: id in u.pending ==> id in s.timers && at <= s.timers[id].expire)
  {
    RunTidy(now, steps);
    var s := After(now, steps).value;
    var n := Batch(s, at, self);
    DueDivides(s.timers, s.pending, at, self);
    SplitKeeps(s.timers, s.pending, n);
    vec := s.pending[..n];
  }

  // ----- a cyclic timer that is added while a sweeper has it -----

  /** A timer that a sweeper has is added. */
  lemma AddedAgain(s: State, id: int)
    requires Tidy(s) && id in s.timers && !s.timers[id].cancelled && id !in s.pending
    ensures var u := Added(s, id);
            && Inv(u) && Ordered(u) && id in u.pending
            && u.timers == s.timers[id := s.timers[id].(adds := s.timers[id].adds + 1)]
            && u.taken == s.taken && u.delivered == s.delivered && u.now == s.now
            && forall x :: x in u.pending <==> x in s.pending || x == id
  {
    AddInv(s, id);
    AddOrdered(s, id);
    FoundIn(s.timers, s.pending, id);
    forall x ensures x in Added(s, id).pending <==> x in s.pending || x == id {
      PutMembers(s.pending, Place(s.timers, s.pending, id), id, x);
    }
  }

  /** Neither its own place in the set nor its counts matter for whom a timer would pass. */
  lemma PassesSame(s: State, u: State, id: int)
    requires id in s.timers && id in u.timers && u.timers == s.timers[id := u.timers[id]] && u.now == s.now
    requires u.timers[id].expire == s.timers[id].expire && u.timers[id].ms == s.timers[id].ms
    requires forall x :: x in u.pending <==> x in s.pending || x == id
    ensures Passes(u.timers, u.pending, u.now, id) <==> Passes(s.timers, s.pending, s.now, id)
  {
    assert !Between(u.timers, u.now, id, id) && !Between(s.timers, s.now, id, id);
    forall x ensures Between(u.timers, u.now, id, x) <==> Between(s.timers, s.now, id, x) {
    }
    if Passes(s.timers, s.pending, s.now, id) {
      var x :| x in s.pending && Between(s.timers, s.now, id, x);
      assert x in u.pending && Between(u.timers, u.now, id, x);
    }
    if Passes(u.timers, u.pending, u.now, id) {
      var x :| x in u.pending && Between(u.timers, u.now, id, x);
      assert x in s.pending && Between(s.timers, s.now, id, x);
    }
  }

  /** Where a cyclic timer is that was taken. */
  lemma OnlyTaken(s: State, id: int)
    requires Tidy(s) && id in s.taken && id in s.timers && s.timers[id].cycle
    ensures id !in s.pending && !s.timers[id].cancelled
  {
    assert Steady(s, id) && Conserved(s, id);
    CountIn(s.taken, id);
    CountIn(s.pending, id);
  }

  /** A cyclic timer that was delivered and is added before its re-arm: that moves it inside the set, out of the order,
      exactly when another one is due before its next expiry. */
  lemma CarelessUnordersLate(s: State, i: nat)
    requires Tidy(s) && i < |s.delivered| && s.timers[s.delivered[i]].cycle
    ensures var id := s.delivered[i];
            var u := Added(s, id);
            && Inv(u) && Ordered(u) && u.delivered == s.delivered
            && (Ordered(Rearmed(u, i)) <==> !Passes(s.timers, s.pending, s.now, id))
  {
    var id := s.delivered[i];
    OnlyDelivered(s, i);
    assert Conserved(s, id);
    AddedAgain(s, id);
    PassesSame(s, Added(s, id), id);
    RearmOrdered(Added(s, id), i);
  }

  /** What a sweeper does with the timer that it looks at next. */
  function Looked(s: State, i: nat): (u: State)
    requires Known(s) && i < |s.taken| && Known(Handled(s, i)) && |s.delivered| < |Handled(s, i).delivered|
  {
    Rearmed(Handled(s, i), |s.delivered|)
  }

  /** It is delivered, and nothing else changes for the set. */
  lemma HandledAgain(u: State, i: nat)
    requires Inv(u) && Ordered(u) && i < |u.taken| && !u.timers[u.taken[i]].cancelled
    ensures var id, v := u.taken[i], Handled(u, i);
            && Inv(v) && Ordered(v) && v.delivered == u.delivered + [id] && v.pending == u.pending && v.now == u.now
            && v.timers == u.timers[id := u.timers[id].(fired := u.timers[id].fired + 1)]
  {
    HandleInv(u, i);
    StepOrdered(u, Handle(i));
  }

  /** The same for one that a sweeper has taken and not looked at. */
  lemma CarelessUnorders(s: State, i: nat)
    requires Tidy(s) && i < |s.taken| && s.timers[s.taken[i]].cycle
    ensures var id := s.taken[i];
            var u := Added(s, id);
            && Inv(u) && Ordered(u) && u.taken == s.taken
            && Inv(Handled(u, i)) && |u.delivered| < |Handled(u, i).delivered|
            && (Ordered(Looked(u, i)) <==> !Passes(s.timers, s.pending, s.now, id))
  {
    var id := s.taken[i];
    OnlyTaken(s, id);
    AddedAgain(s, id);
    var u := Added(s, id);
    HandledAgain(u, i);
    var v := Handled(u, i);
    assert v.timers == s.timers[id := v.timers[id]];
    PassesSame(s, v, id);
    RearmOrdered(v, |u.delivered|);
  }

  /** Looking at the timers i and then j of the sweepers delivers timer id twice, at one time. */
  predicate FiresTwice(u: State, id: int, i: nat, j: nat, fired: nat, now: nat) {
    Inv(u) && i < |u.taken| &&
    var v := Handled(u, i);
    && Inv(v) && j < |v.taken| && v.taken[j] == id
    && var w := Handled(v, j);
       id in w.timers && w.timers[id].fired == fired + 2 && w.now == now
  }

  /** And if it is swept again before it was looked at, it is delivered twice at one time. */
  lemma CarelessHurries(s: State, i: nat, self: int) returns (j: nat)
    requires Tidy(s) && i < |s.taken| && s.timers[s.taken[i]].cycle && s.timers[s.taken[i]].expire < s.now
    ensures var id := s.taken[i];
            var u := Swept(Added(s, id), s.now, self);
            Inv(Added(s, id)) && Inv(u) && FiresTwice(u, id, i, j, s.timers[id].fired, s.now)
  {
    var id := s.taken[i];
    assert Steady(s, id) && Conserved(s, id);
    AddInv(s, id);
    var t := Added(s, id);
    CountIn(s.taken, id);
    CountIn(s.pending, id);
    AddedSwept(s, id, self);
    SweepInv(t, t.now, self);
    var u := Swept(t, t.now, self);
    HandleInv(u, i);
    assert u.taken[i] == id;
    DropMembers(u.taken, i, id);
    CountIn(Handled(u, i).taken, id);
    j :| 0 <= j < |Handled(u, i).taken| && Handled(u, i).taken[j] == id;
  }

  /** A timer that has expired is in front of lower_bound. */
  lemma DueTakes(timers: map<int, Timer>, ids: seq<int>, now: nat, self: int, k: nat)
    requires AllIn(ids, timers) && Sorted(StampsOf(timers, ids)) && k < |ids| && timers[ids[k]].expire < now
    ensures var n := Due(StampsOf(timers, ids), now, self); Count(ids[..n], ids[k]) >= 1
  {
    var n := Due(StampsOf(timers, ids), now, self);
    SweepExactly(StampsOf(timers, ids), now, self, k);
    assert ids[..n][k] == ids[k];
    CountIn(ids[..n], ids[k]);
  }

  lemma AddedSwept(s: State, id: int, self: int)
    requires Tidy(s) && id in s.timers && !s.timers[id].cancelled && id in s.taken && id !in s.pending
    requires s.timers[id].expire < s.now
    ensures Known(Added(s, id)) && Count(Swept(Added(s, id), s.now, self).taken, id) >= 2
  {
    AddInv(s, id);
    FoundIn(s.timers, s.pending, id);
    InsertKeeps(s.timers, s.pending, id);
    var u := Added(s, id);
    SameStamps(s.timers, u.pending, id, u.timers[id]);
    var k := Place(s.timers, s.pending, id);
    DueTakes(u.timers, u.pending, u.now, self, k);
    var vec := u.pending[..Batch(u, u.now, self)];
    CountIn(s.taken, id);
    MoreMembers(s.taken, vec, id);
  }

  /** A cyclic timer is in one place at most: in the set, taken, or delivered. */
  predicate OnePlace(s: State) {
    forall id :: id in s.timers && s.timers[id].cycle ==>
      Count(s.pending, id) + Count(s.taken, id) + Count(s.delivered, id) <= 1
  }

  lemma TidyOnePlace(s: State)
    requires Tidy(s)
    ensures OnePlace(s)
  {
    forall id | id in s.timers && s.timers[id].cycle
      ensures Count(s.pending, id) + Count(s.taken, id) + Count(s.delivered, id) <= 1
    {
      assert Steady(s, id);
    }
  }

  lemma CarelessDoubles(s: State, id: int)
    requires Tidy(s) && id in s.timers && !Careful(s, Add(id))
    ensures !OnePlace(Added(s, id))
  {
    assert Steady(s, id) && Conserved(s, id);
    CountIn(s.pending, id);
    CountIn(s.taken, id);
    CountIn(s.delivered, id);
    FoundIn(s.timers, s.pending, id);
    InsertMembers(s.timers, s.pending, id, id);
    var u := Added(s, id);
    assert u.timers[id].cycle && Count(u.pending, id) + Count(u.taken, id) + Count(u.delivered, id) > 1;
  }

  ghost predicate AlwaysOnePlace(now: nat, steps: seq<Step>) {
    forall k :: 0 <= k <= |steps| ==> After(now, steps[..k]).Some? && OnePlace(After(now, steps[..k]).value)
  }

  /** In every run every cyclic timer is in one place at most all the time if and only if none is added that a sweeper
      has. */
  lemma OnePlaceExactly(now: nat, steps: seq<Step>)
    requires After(now, steps).Some?
    ensures AlwaysOnePlace(now, steps) <==> CarefulRun(now, steps)
  {
    if CarefulRun(now, steps) {
      forall k | 0 <= k <= |steps| ensures After(now, steps[..k]).Some? && OnePlace(After(now, steps[..k]).value) {
        PrefixRuns(now, steps, k);
        PrefixCareful(now, steps, k);
        RunTidy(now, steps[..k]);
        TidyOnePlace(After(now, steps[..k]).value);
      }
    }
    if AlwaysOnePlace(now, steps) {
      OnePlaceCareful(now, steps);
    }
  }

  lemma OnePlaceStep(s: State, step: Step)
    requires Tidy(s) && Enabled(s, step) && OnePlace(Next(s, step))
    ensures Careful(s, step)
  {
    if !Careful(s, step) {
      CarelessDoubles(s, step.id);
    }
  }

  lemma InitOnePlace(now: nat, steps: seq<Step>)
    requires steps != [] && AlwaysOnePlace(now, steps)
    ensures AlwaysOnePlace(now, steps[..|steps| - 1])
    ensures After(now, steps).Some? && OnePlace(After(now, steps).value)
  {
    var init := steps[..|steps| - 1];
    forall k | 0 <= k <= |init| ensures After(now, init[..k]).Some? && OnePlace(After(now, init[..k]).value) {
      assert init[..k] == steps[..k];
    }
    assert steps[..|steps|] == steps;
  }

  lemma {:induction false} OnePlaceCareful(now: nat, steps: seq<Step>)
    requires After(now, steps).Some? && AlwaysOnePlace(now, steps)
    ensures CarefulRun(now, steps)
  {
    if steps == [] {
    } else {
      var init, step := steps[..|steps| - 1], steps[|steps| - 1];
      InitOnePlace(now, steps);
      OnePlaceCareful(now, init);
      RunTidy(now, init);
      OnePlaceStep(After(now, init).value, step);
    }
  }

  // There are such runs: timer 1, of period 10, and timer 2, of period 15, are added at time 0, and swept at time 11.

  predicate Both(s: State, adds1: nat, adds2: nat) {
    && s.timers.Keys == {1, 2} && s.timers[1] == Timer(10, true, 0, true, false, 10, 0, adds1)
    && s.timers[2] == Timer(15, true, 0, true, false, 15, 0, adds2)
  }

  lemma OneMade() returns (steps: seq<Step>, s: State)
    ensures After(0, steps) == Some(s) && CarefulRun(0, steps)
    ensures s == State(map[1 := Timer(10, true, 0, true, false, 10, 0, 0)], [], [], [], 0)
  {
    CarefulMore(0, [], Make(1, 10, true));
    steps, s := [] + [Make(1, 10, true)], Next(Init(0), Make(1, 10, true));
  }

  lemma TwoMade() returns (steps: seq<Step>, s: State)
    ensures After(0, steps) == Some(s) && CarefulRun(0, steps)
    ensures Both(s, 0, 0) && s.pending == [] && s.taken == [] && s.delivered == [] && s.now == 0
  {
    steps, s := OneMade();
    CarefulMore(0, steps, Make(2, 15, true));
    steps, s := steps + [Make(2, 15, true)], Next(s, Make(2, 15, true));
  }

  lemma OneAdded() returns (steps: seq<Step>, s: State)
    ensures After(0, steps) == Some(s) && CarefulRun(0, steps)
    ensures Both(s, 1, 0) && s.pending == [1] && s.taken == [] && s.delivered == [] && s.now == 0
  {
    steps, s := TwoMade();
    CarefulMore(0, steps, Add(1));
    steps, s := steps + [Add(1)], Added(s, 1);
    assert Put([], 0, 1) == [1];
  }

  lemma TwoAdded() returns (steps: seq<Step>, s: State)
    ensures After(0, steps) == Some(s) && CarefulRun(0, steps)
    ensures Both(s, 1, 1) && s.pending == [1, 2] && s.taken == [] && s.delivered == [] && s.now == 0
  {
    steps, s := OneAdded();
    CarefulMore(0, steps, Add(2));
    assert StampsOf(s.timers, s.pending) == [Stamp(10, 1)];
    assert Put([1], 1, 2) == [1, 2];
    steps, s := steps + [Add(2)], Added(s, 2);
  }

  lemma TwoWaited() returns (steps: seq<Step>, s: State)
    ensures After(0, steps) == Some(s) && CarefulRun(0, steps)
    ensures Both(s, 1, 1) && s.pending == [1, 2] && s.taken == [] && s.delivered == [] && s.now == 11
  {
    steps, s := TwoAdded();
    CarefulMore(0, steps, Tick(11));
    steps, s := steps + [Tick(11)], s.(now := 11);
  }

  lemma OneDue()
    ensures Due([Stamp(10, 1), Stamp(15, 2)], 11, 7) == 1
  {
    var n := Due([Stamp(10, 1), Stamp(15, 2)], 11, 7);
    assert n < 2 ==> !Before([Stamp(10, 1), Stamp(15, 2)][n], Stamp(11, 7));
  }

  lemma TwoSwept() returns (steps: seq<Step>, s: State)
    ensures After(0, steps) == Some(s) && CarefulRun(0, steps)
    ensures Both(s, 1, 1) && s.pending == [2] && s.taken == [1] && s.delivered == [] && s.now == 11
  {
    steps, s := TwoWaited();
    CarefulMore(0, steps, Sweep(11, 7));
    assert StampsOf(s.timers, s.pending) == [Stamp(10, 1), Stamp(15, 2)];
    OneDue();
    assert [1, 2][..1] == [1] && [1, 2][1..] == [2] && [] + [1] == [1];
    steps, s := steps + [Sweep(11, 7)], Swept(s, 11, 7);
  }

  /** So the order of the set does not hold of all runs. */
  lemma OrderIsNotForAll() returns (steps: seq<Step>)
    ensures After(0, steps).Some? && !Ordered(After(0, steps).value)
  {
    var s;
    steps, s := TwoSwept();
    RunTidy(0, steps);
    CarelessUnorders(s, 0);
    assert Between(s.timers, s.now, 1, 2);
    var u := Added(s, 1);
    var v, n := Handled(u, 0), |s.delivered|;
    AfterMore(0, steps, Add(1));
    steps := steps + [Add(1)];
    assert After(0, steps) == Some(u);
    AfterMore(0, steps, Handle(0));
    steps := steps + [Handle(0)];
    assert After(0, steps) == Some(v);
    AfterMore(0, steps, Rearm(n));
    steps := steps + [Rearm(n)];
  }

  /** Nor does the pace. */
  lemma PaceIsNotForAll() returns (steps: seq<Step>)
    ensures var r := After(0, steps);
            && r.Some? && 1 in r.value.timers
            && r.value.timers[1].fired * r.value.timers[1].ms > r.value.now - r.value.timers[1].created
  {
    var s;
    steps, s := TwoSwept();
    RunTidy(0, steps);
    var j := CarelessHurries(s, 0, 7);
    AfterMore(0, steps, Add(1));
    steps := steps + [Add(1)];
    AfterMore(0, steps, Sweep(11, 7));
    var v := Swept(Added(s, 1), 11, 7);
    steps := steps + [Sweep(11, 7)];
    AfterMore(0, steps, Handle(0));
    steps := steps + [Handle(0)];
    AfterMore(0, steps, Handle(j));
    steps := steps + [Handle(j)];
    assert After(0, steps).value == Handled(Handled(v, 0), j);
    MsStays(v, 0, j, 1);
  }

  lemma MsStays(v: State, i: nat, j: nat, id: int)
    requires Inv(v) && i < |v.taken| && Inv(Handled(v, i)) && j < |Handled(v, i).taken| && id in v.timers
    ensures var t := Handled(Handled(v, i), j).timers;
            id in t && t[id].ms == v.timers[id].ms && t[id].created == v.timers[id].created
  {
  }
}
