/** Timer and TimerManager of timer.cpp on the heap: a set of shared timers, ordered by what they hold, and the loop
    over a sweep. Every call is a sequence of the steps of TimerSpec. */
module Timers {
  import opened Prelude
  import opened OrderedSets
  import T = TimerSpec
  import R = TimerRuns

  class Timer {
    const address: int
    const m_ms: nat
    var m_cycle: bool
    var m_cancel: bool
    var m_expire_ms: nat

    constructor (at: int, time: nat, cycle: bool, now: nat)
      ensures address == at && m_ms == time && m_cycle == cycle && !m_cancel && m_expire_ms == time + now
    {
      address, m_ms, m_cycle, m_cancel, m_expire_ms := at, time, cycle, false, time + now;
    }

    function Key(): (k: Stamp)
      reads `m_expire_ms
    {
      Stamp(m_expire_ms, address)
    }

    /** What the timer is in the model. */
    predicate Is(t: T.Timer)
      reads this
    {
      t.ms == m_ms && t.cycle == m_cycle && t.cancelled == m_cancel && t.expire == m_expire_ms
    }

    method Cancel()
      modifies `m_cancel, `m_cycle
      ensures m_cancel && !m_cycle
    {
      m_cancel, m_cycle := true, false;
    }

    method Refresh(now: nat)
      modifies `m_expire_ms
      ensures m_expire_ms == if m_cycle then m_ms + now else old(m_expire_ms)
    {
      if m_cycle {
        m_expire_ms := m_ms + now;
      }
    }
  }

  function Keys(s: seq<Timer>): (r: seq<Stamp>)
    reads s
    ensures |r| == |s| && forall i :: 0 <= i < |s| ==> r[i] == s[i].Key()
  {
    seq(|s|, i requires 0 <= i < |s| reads s => s[i].Key())
  }

  function Ids(s: seq<Timer>): (r: seq<int>)
    ensures |r| == |s| && forall i :: 0 <= i < |s| ==> r[i] == s[i].address
  {
    seq(|s|, i requires 0 <= i < |s| => s[i].address)
  }

  /** Two timers with one address are the same one. */
  ghost predicate OneEach(s: set<Timer>) {
    forall x, y :: x in s && y in s && x.address == y.address ==> x == y
  }

  lemma IdIn(s: seq<Timer>, t: Timer, all: set<Timer>)
    requires OneEach(all) && t in all && Elements(s) <= all
    ensures t.address in Ids(s) <==> t in s
  {
    if t.address in Ids(s) {
      var i :| 0 <= i < |s| && Ids(s)[i] == t.address;
      assert s[i] in Elements(s);
    }
    if t in s {
      var i :| 0 <= i < |s| && s[i] == t;
      assert Ids(s)[i] == t.address;
    }
  }

  lemma IdsDistinct(s: seq<Timer>, all: set<Timer>)
    requires OneEach(all) && Elements(s) <= all && Distinct(s)
    ensures Distinct(Ids(s))
  {
    forall i, j | 0 <= i < j < |s| ensures Ids(s)[i] != Ids(s)[j] {
      assert s[i] in Elements(s) && s[j] in Elements(s);
    }
  }

  // ----- std::set on timers, and on their identities -----

  /** Every one of the timers expires when the model says. */
  ghost predicate Alike(s: seq<Timer>, timers: map<int, T.Timer>)
    reads s
  {
    forall t :: t in s ==> t.address in timers && timers[t.address].expire == t.m_expire_ms
  }

  lemma KeysAre(s: seq<Timer>, timers: map<int, T.Timer>)
    requires Alike(s, timers)
    ensures T.AllIn(Ids(s), timers) && T.StampsOf(timers, Ids(s)) == Keys(s)
  {
  }

  /** set::insert */
  function Insertion(s: seq<Timer>, t: Timer): (r: seq<Timer>)
    reads s, t
  {
    var n := LowerBound(Keys(s), t.Key());
    if n < |s| && s[n] == t then s else s[..n] + [t] + s[n..]
  }

  /** set::erase */
  function Removal(s: seq<Timer>, t: Timer): (r: seq<Timer>)
    reads s, t
  {
    var n := LowerBound(Keys(s), t.Key());
    if n < |s| && s[n] == t then s[..n] + s[n + 1..] else s
  }

  lemma SamePlace(s: seq<Timer>, t: Timer, timers: map<int, T.Timer>)
    requires OneEach(Elements(s) + {t}) && Alike(s, timers) && Alike([t], timers)
    ensures t.address in timers && T.AllIn(Ids(s), timers)
    ensures T.Place(timers, Ids(s), t.address) == LowerBound(Keys(s), t.Key())
    ensures var n := LowerBound(Keys(s), t.Key()); T.Found(timers, Ids(s), t.address) <==> n < |s| && s[n] == t
  {
    assert t in [t];
    KeysAre(s, timers);
    var n := LowerBound(Keys(s), t.Key());
    if n < |s| {
      assert s[n] in Elements(s) && Ids(s)[n] == s[n].address;
    }
  }

  lemma InsertionIs(s: seq<Timer>, t: Timer, timers: map<int, T.Timer>)
    requires OneEach(Elements(s) + {t}) && Alike(s, timers) && Alike([t], timers)
    ensures t.address in timers && T.AllIn(Ids(s), timers)
    ensures Ids(Insertion(s, t)) == T.Insert(timers, Ids(s), t.address)
    ensures Elements(Insertion(s, t)) == Elements(s) + {t}
  {
    SamePlace(s, t, timers);
    var n := LowerBound(Keys(s), t.Key());
    if n < |s| && s[n] == t {
    } else {
      InsertAt(s, n, t);
      PutIds(s, n, t);
    }
  }

  lemma RemovalIs(s: seq<Timer>, t: Timer, timers: map<int, T.Timer>)
    requires OneEach(Elements(s) + {t}) && Alike(s, timers) && Alike([t], timers)
    requires Sorted(T.StampsOf(timers, Ids(s)))
    ensures t.address in timers && T.AllIn(Ids(s), timers)
    ensures Ids(Removal(s, t)) == T.Erase(timers, Ids(s), t.address)
    ensures Elements(Removal(s, t)) == Elements(s) - {t}
  {
    SamePlace(s, t, timers);
    R.FoundIn(timers, Ids(s), t.address);
    IdIn(s, t, Elements(s) + {t});
    var n := LowerBound(Keys(s), t.Key());
    if n < |s| && s[n] == t {
      IdsApart(s, timers);
      DropAt(s, n);
      DropIds(s, n);
    }
  }

  lemma IdsApart(s: seq<Timer>, timers: map<int, T.Timer>)
    requires T.AllIn(Ids(s), timers) && Sorted(T.StampsOf(timers, Ids(s)))
    ensures Distinct(s)
  {
    R.IdsDistinct(timers, Ids(s));
    forall i, j | 0 <= i < j < |s| ensures s[i] != s[j] {
      assert Ids(s)[i] != Ids(s)[j];
    }
  }

  lemma DropIds(s: seq<Timer>, n: nat)
    requires n < |s|
    ensures Ids(s[..n] + s[n + 1..]) == T.Drop(Ids(s), n)
  {
  }

  /** The heap is what the model says: the set holds the pending timers in their order, and every known timer is as the
      model has it. own is the manager's own timer. */
  ghost predicate Links(set': seq<Timer>, known: set<Timer>, own: Timer, s: T.State)
    reads known
  {
    && own !in known && OneEach(known + {own}) && Elements(set') <= known && s.pending == Ids(set')
    && (forall t :: t in known ==> t.address in s.timers && t.Is(s.timers[t.address]))
  }

  lemma LinksKeys(set': seq<Timer>, known: set<Timer>, own: Timer, s: T.State)
    requires Links(set', known, own, s) && R.Tidy(s)
    ensures Alike(set', s.timers) && Keys(set') == T.StampsOf(s.timers, s.pending) && Sorted(Keys(set'))
  {
    assert forall t :: t in set' ==> t in Elements(set');
    KeysAre(set', s.timers);
  }

  lemma AddLinks(set': seq<Timer>, known: set<Timer>, own: Timer, s: T.State, t: Timer)
    requires Links(set', known, own, s) && R.Tidy(s) && t in known
    ensures t.address in s.timers
    ensures var r := if t.m_cancel then set' else Insertion(set', t);
            && Links(r, known, own, T.Added(s, t.address))
            && Elements(r) == Elements(set') + if t.m_cancel then {} else {t}
  {
    if !t.m_cancel {
      LinksKeys(set', known, own, s);
      InsertionIs(set', t, s.timers);
    }
  }

  lemma RemoveLinks(set': seq<Timer>, known: set<Timer>, own: Timer, s: T.State, t: Timer)
    requires Links(set', known, own, s) && R.Tidy(s) && t in known
    ensures t.address in s.timers && T.Deleted(s, t.address).pending == Ids(Removal(set', t))
    ensures Elements(Removal(set', t)) == Elements(set') - {t}
  {
    LinksKeys(set', known, own, s);
    RemovalIs(set', t, s.timers);
  }

  /** A known timer, and no other one, has got new fields. */
  lemma ChangedLinks(set': seq<Timer>, known: set<Timer>, own: Timer, s: T.State, t: Timer, u: T.State)
    requires own !in known && OneEach(known + {own}) && Elements(set') <= known && u.pending == Ids(set')
    requires t in known && t.address in s.timers && t.address in u.timers
    requires u.timers == s.timers[t.address := u.timers[t.address]] && t.Is(u.timers[t.address])
    requires forall x :: x in known && x != t ==> x.address in s.timers && x.Is(s.timers[x.address])
    ensures Links(set', known, own, u)
  {
    forall x | x in known ensures x.address in u.timers && x.Is(u.timers[x.address]) {
      if x != t {
        assert x.address != t.address;
      }
    }
  }

  lemma SplitIds(s: seq<Timer>, n: nat)
    requires n <= |s|
    ensures Ids(s[n..]) == Ids(s)[n..] && Ids(s[..n]) == Ids(s)[..n] && s[..n] + s[n..] == s
    ensures Elements(s[n..]) <= Elements(s) && Elements(s[..n]) <= Elements(s)
  {
  }

  lemma PutIds(s: seq<Timer>, n: nat, t: Timer)
    requires n <= |s|
    ensures Ids(s[..n] + [t] + s[n..]) == T.Put(Ids(s), n, t.address)
  {
  }

  lemma SweepLinks(set': seq<Timer>, known: set<Timer>, own: Timer, s: T.State, now: nat)
    requires Links(set', known, own, s) && R.Tidy(s) && s.taken == []
    ensures T.Due(Keys(set'), now, own.address) == T.Batch(s, now, own.address)
    ensures var n := T.Due(Keys(set'), now, own.address);
            && Links(set'[n..], known, own, T.Swept(s, now, own.address))
            && T.Swept(s, now, own.address).taken == Ids(set'[..n]) && set'[..n] + set'[n..] == set'
  {
    LinksKeys(set', known, own, s);
    var n := T.Due(Keys(set'), now, own.address);
    SplitIds(set', n);
    assert [] + s.pending[..n] == s.pending[..n];
  }

  /** A cyclic timer that was delivered has got its new expiry and goes back into the set. */
  lemma EnterLinks(set': seq<Timer>, known: set<Timer>, own: Timer, s: T.State, t: Timer)
    requires own !in known && OneEach(known + {own}) && Elements(set') <= known && t in known && t !in set'
    requires T.Known(s) && s.pending == Ids(set') && t.address in s.timers && t.Is(T.Refreshed(s, t.address)[t.address])
    requires forall x :: x in known && x != t ==> x.address in s.timers && x.Is(s.timers[x.address])
    ensures Links(Insertion(set', t), known, own, T.Entered(s, t.address))
    ensures Elements(Insertion(set', t)) == Elements(set') + {t}
  {
    var timers := T.Refreshed(s, t.address);
    forall x | x in known ensures x.address in timers && x.Is(timers[x.address]) {
      if x != t {
        assert x.address != t.address;
      }
    }
    assert forall x :: x in set' ==> x in Elements(set');
    InsertionIs(set', t, timers);
  }

  // ----- a sweep -----

  /** Time does not go back. */
  ghost predicate Forward(clock: nat -> nat) {
    forall i: nat, j: nat :: i <= j ==> clock(i) <= clock(j)
  }

  datatype Flags = Flags(cancel: bool, cycle: bool)

  function FlagsOf(vec: seq<Timer>): (r: seq<Flags>)
    reads vec
    ensures |r| == |vec| && forall i :: 0 <= i < |vec| ==> r[i] == Flags(vec[i].m_cancel, vec[i].m_cycle)
  {
    seq(|vec|, i requires 0 <= i < |vec| reads vec => Flags(vec[i].m_cancel, vec[i].m_cycle))
  }

  /** The timers that go back into the set. */
  predicate Rearms(t: Timer)
    reads t`m_cancel, t`m_cycle
  {
    !t.m_cancel && t.m_cycle
  }

  /** Of the first n timers, the ones that are delivered, in order. */
  function Delivered<X>(vec: seq<X>, flags: seq<Flags>, n: nat): (r: seq<X>)
    requires n <= |vec| == |flags|
  {
    if n == 0 then []
    else if flags[n - 1].cancel then Delivered(vec, flags, n - 1)
    else Delivered(vec, flags, n - 1) + [vec[n - 1]]
  }

  lemma {:induction false} DeliveredIn<X>(vec: seq<X>, flags: seq<Flags>, n: nat)
    requires n <= |vec| == |flags|
    ensures forall x :: x in Delivered(vec, flags, n) ==> x in vec[..n]
  {
    if n > 0 {
      DeliveredIn(vec, flags, n - 1);
      assert vec[..n] == vec[..n - 1] + [vec[n - 1]];
    }
  }

  /** They keep the order. */
  lemma {:induction false} DeliveredSorted(keys: seq<Stamp>, flags: seq<Flags>, n: nat)
    requires n <= |keys| == |flags| && Sorted(keys)
    ensures Sorted(Delivered(keys, flags, n))
  {
    if n > 0 {
      DeliveredSorted(keys, flags, n - 1);
      DeliveredIn(keys, flags, n - 1);
      var r := Delivered(keys, flags, n - 1);
      forall i | 0 <= i < |r| ensures Before(r[i], keys[n - 1]) {
        assert r[i] in keys[..n - 1];
      }
    }
  }

  lemma {:induction false} KeysOfDelivered(vec: seq<Timer>, flags: seq<Flags>, n: nat)
    requires n <= |vec| == |flags|
    ensures Keys(Delivered(vec, flags, n)) == Delivered(Keys(vec), flags, n)
  {
    if n > 0 {
      KeysOfDelivered(vec, flags, n - 1);
    }
  }

  /** What a sweep delivers is in the order of expiry. */
  lemma DeliveredInOrder(s: seq<Timer>, n: nat)
    requires n <= |s| && Sorted(Keys(s))
    ensures Sorted(Keys(Delivered(s[..n], FlagsOf(s[..n]), n)))
  {
    assert Keys(s[..n]) == Keys(s)[..n];
    DeliveredSorted(Keys(s[..n]), FlagsOf(s[..n]), n);
    KeysOfDelivered(s[..n], FlagsOf(s[..n]), n);
  }

  ghost function Rearmed(vec: seq<Timer>, flags: seq<Flags>, n: nat): (r: set<Timer>)
    requires n <= |vec| == |flags|
  {
    if n == 0 then {}
    else if !flags[n - 1].cancel && flags[n - 1].cycle then Rearmed(vec, flags, n - 1) + {vec[n - 1]}
    else Rearmed(vec, flags, n - 1)
  }

  /** The steps of looking at a timer at time now. */
  function Look(cancelled: bool, now: nat): (r: seq<T.Step>) {
    [T.Tick(now), T.Handle(0)] + if cancelled then [] else [T.Rearm(0)]
  }

  lemma LookIs(h: seq<T.Step>, cancelled: bool, now: nat)
    ensures cancelled ==> h + [T.Tick(now)] + [T.Handle(0)] == h + Look(cancelled, now)
    ensures !cancelled ==> h + [T.Tick(now)] + [T.Handle(0)] + [T.Rearm(0)] == h + Look(cancelled, now)
  {
  }

  /** The steps of looking at the first n timers. */
  function LookAll(flags: seq<Flags>, clock: nat -> nat, n: nat): (r: seq<T.Step>)
    requires n <= |flags|
  {
    if n == 0 then [] else LookAll(flags, clock, n - 1) + Look(flags[n - 1].cancel, clock(n - 1))
  }

  /** The counts of the model go up by what was delivered. */
  ghost predicate Fired(s: T.State, u: T.State, callbacks: seq<Timer>) {
    s.timers.Keys == u.timers.Keys &&
    forall id :: id in s.timers ==> u.timers[id].fired == s.timers[id].fired + T.Count(Ids(callbacks), id)
  }

  lemma RearmFired(s: T.State)
    requires T.Known(s) && |s.delivered| == 1
    ensures Fired(s, T.Rearmed(s, 0), [])
  {
    assert Ids([]) == [];
  }

  lemma FiredSame(s: T.State, t: T.State, u: T.State, a: seq<Timer>)
    requires Fired(s, t, a) && Fired(t, u, [])
    ensures Fired(s, u, a)
  {
    FiredMore(s, t, u, a, []);
    assert a + [] == a;
  }

  lemma FiredMore(s: T.State, t: T.State, u: T.State, a: seq<Timer>, b: seq<Timer>)
    requires Fired(s, t, a) && Fired(t, u, b)
    ensures Fired(s, u, a + b)
  {
    assert Ids(a + b) == Ids(a) + Ids(b);
    forall id ensures T.Count(Ids(a + b), id) == T.Count(Ids(a), id) + T.Count(Ids(b), id) {
      T.MoreMembers(Ids(a), Ids(b), id);
    }
  }

  function ExpiresOf(vec: seq<Timer>): (r: seq<nat>)
    reads vec
    ensures |r| == |vec| && forall i :: 0 <= i < |vec| ==> r[i] == vec[i].m_expire_ms
  {
    seq(|vec|, i requires 0 <= i < |vec| reads vec => vec[i].m_expire_ms)
  }

  /** What is known of each timer makes up the sequences. */
  lemma OneTouched(vec: seq<Timer>, i: nat, flags: seq<Flags>, expires: seq<nat>)
    requires i < |vec| == |flags| == |expires|
    requires forall j :: 0 <= j < |vec| ==> Flags(vec[j].m_cancel, vec[j].m_cycle) == flags[j]
    requires forall j :: 0 <= j < |vec| && j != i ==> vec[j].m_expire_ms == expires[j]
    ensures FlagsOf(vec) == flags && ExpiresOf(vec) == expires[i := vec[i].m_expire_ms]
  {
  }

  /** When timers expire that were looked at up to number i; flags and expires are what they were before. */
  function ExpiresAfter(vec: seq<Timer>, flags: seq<Flags>, expires: seq<nat>, clock: nat -> nat, i: nat): (r: seq<nat>)
    requires |vec| == |flags| == |expires|
    ensures |r| == |vec|
    ensures forall j :: 0 <= j < |vec| ==>
              r[j] == if j < i && !flags[j].cancel && flags[j].cycle then vec[j].m_ms + clock(j) else expires[j]
  {
    seq(|vec|, j requires 0 <= j < |vec| =>
      if j < i && !flags[j].cancel && flags[j].cycle then vec[j].m_ms + clock(j) else expires[j])
  }

  lemma ExpiresAfterMore(vec: seq<Timer>, flags: seq<Flags>, expires: seq<nat>, clock: nat -> nat, i: nat, e: nat)
    requires |vec| == |flags| == |expires| && i < |vec|
    requires e == if !flags[i].cancel && flags[i].cycle then vec[i].m_ms + clock(i) else expires[i]
    ensures ExpiresAfter(vec, flags, expires, clock, i + 1) == ExpiresAfter(vec, flags, expires, clock, i)[i := e]
  {
  }

  lemma KeysDistinct(s: seq<Timer>)
    requires Sorted(Keys(s))
    ensures Distinct(s)
  {
    forall i, j | 0 <= i < j < |s| ensures s[i] != s[j] {
      assert Before(Keys(s)[i], Keys(s)[j]);
    }
  }

  lemma Apart(vec: seq<Timer>, i: nat)
    requires i < |vec| && Distinct(vec)
    ensures forall j :: 0 <= j < |vec| && j != i ==> vec[j] != vec[i]
  {
  }

  lemma BatchOf(s: seq<Timer>, a: seq<Timer>, b: seq<Timer>)
    requires a + b == s && Distinct(s)
    ensures Distinct(a) && Elements(a) <= Elements(s) && a == s[..|a|] && b == s[|a|..]
  {
    forall i, j | 0 <= i < j < |a| ensures a[i] != a[j] {
      assert s[i] != s[j];
    }
  }

  lemma IdsAfter(vec: seq<Timer>, i: nat)
    requires i < |vec|
    ensures vec[i] in Elements(vec) && Ids(vec[i..]) != [] && Ids(vec[i..])[0] == vec[i].address
    ensures Ids(vec[i..])[1..] == Ids(vec[i + 1..])
  {
  }

  /** What there is before the loop over a sweep. */
  datatype Was = Was(flags: seq<Flags>, expires: seq<nat>, spec: T.State, history: seq<T.Step>, timers: set<Timer>)

  lemma RearmedIs(rest: set<Timer>, vec: seq<Timer>, flags: seq<Flags>, i: nat)
    requires i < |vec| == |flags|
    ensures rest + Rearmed(vec, flags, i + 1)
            == rest + Rearmed(vec, flags, i) + if !flags[i].cancel && flags[i].cycle then {vec[i]} else {}
  {
  }

  lemma LookAllIs(h: seq<T.Step>, flags: seq<Flags>, clock: nat -> nat, i: nat)
    requires i < |flags|
    ensures h + LookAll(flags, clock, i + 1) == h + LookAll(flags, clock, i) + Look(flags[i].cancel, clock(i))
  {
  }

  class TimerManager {
    var m_timerSet: seq<Timer>
    const m_timer: Timer

    /** The timers that were made, and the run of the model that the calls so far have been. */
    ghost var known: set<Timer>
    ghost const born: nat
    ghost var history: seq<T.Step>
    ghost var spec: T.State

    constructor (at: int, now: nat)
      ensures Valid() && fresh(m_timer) && m_timer.address == at
      ensures m_timerSet == [] && known == {} && born == now && history == [] && spec == T.Init(now)
    {
      m_timerSet := [];
      m_timer := new Timer(at, 0, false, 0);
      known, born, history, spec := {}, now, [], T.Init(now);
    }

    /** The calls so far are a run of the model that ends in spec. */
    ghost predicate Recorded()
      reads `history, `spec
    {
      T.After(born, history) == Some(spec) && R.CarefulRun(born, history)
    }

    /** The heap is what spec says. */
    ghost predicate Linked()
      reads this, known
    {
      Links(m_timerSet, known, m_timer, spec)
    }

    ghost predicate Valid()
      reads this, known
    {
      Recorded() && Linked() && spec.taken == [] && spec.delivered == []
    }

    /** One more step of the model, which leads to u, where the heap already is. */
    ghost method Record(step: T.Step, u: T.State)
      requires Recorded() && T.Enabled(spec, step) && R.Careful(spec, step)
      requires T.Known(spec) && u == T.Next(spec, step) && Links(m_timerSet, known, m_timer, u)
      modifies `history, `spec
      ensures Recorded() && Linked() && spec == u && history == old(history) + [step]
    {
      R.CarefulMore(born, history, step);
      history, spec := history + [step], u;
    }

    /** Time goes on. */
    ghost method Wait(now: nat)
      requires Recorded() && Linked() && spec.now <= now
      modifies `history, `spec
      ensures Recorded() && Linked() && spec == old(spec).(now := now) && history == old(history) + [T.Tick(now)]
    {
      Record(T.Tick(now), spec.(now := now));
    }

    /** The timer is known from now on. */
    ghost method Adopt(timer: Timer)
      requires Linked() && timer.address in spec.timers && timer.Is(spec.timers[timer.address])
      requires timer.address != m_timer.address && forall t :: t in known ==> t.address != timer.address
      modifies `known
      ensures known == old(known) + {timer} && Linked()
    {
      known := known + {timer};
    }

    /** A timer that a caller makes. */
    method NewTimer(at: int, time: nat, cycle: bool, now: nat) returns (timer: Timer)
      requires Valid() && spec.now <= now && at !in spec.timers && at != m_timer.address
      modifies `known, `history, `spec
      ensures Valid() && fresh(timer) && known == old(known) + {timer} && timer.address == at
      ensures timer.m_ms == time && timer.m_cycle == cycle && !timer.m_cancel && timer.m_expire_ms == now + time
      ensures history == old(history) + [T.Tick(now)] + [T.Make(at, time, cycle)]
    {
      timer := new Timer(at, time, cycle, now);
      Wait(now);
      assert forall t :: t in known ==> t.address != at;
      Record(T.Make(at, time, cycle), T.Next(spec, T.Make(at, time, cycle)));
      Adopt(timer);
    }

    /** What addTimer does to the set; tick tells that the set was empty. u is what the model does. */
    method Enter(timer: Timer, ghost u: T.State) returns (tick: bool)
      requires OneEach(Elements(m_timerSet) + {timer})
      requires Links(if timer.m_cancel then m_timerSet else Insertion(m_timerSet, timer), known, m_timer, u)
      modifies `m_timerSet
      ensures Links(m_timerSet, known, m_timer, u)
      ensures m_timerSet == if timer.m_cancel then old(m_timerSet) else old(Insertion(m_timerSet, timer))
      ensures tick <==> !timer.m_cancel && old(m_timerSet) == []
    {
      if timer.m_cancel {
        return false;
      }
      tick := m_timerSet == [];
      var s, k := Keys(m_timerSet), timer.Key();
      var i := LowerBound(s, k);
      if i < |m_timerSet| && !Before(k, s[i]) {
        assert m_timerSet[i] in Elements(m_timerSet) && m_timerSet[i] == timer;
        return;
      }
      m_timerSet := m_timerSet[..i] + [timer] + m_timerSet[i..];
    }

    /** addTimer of a timer that someone has made. */
    method AddTimer(timer: Timer) returns (tick: bool)
      requires Valid() && timer in known
      modifies `m_timerSet, `history, `spec
      ensures Valid() && history == old(history) + [T.Add(timer.address)]
      ensures Elements(m_timerSet) == old(Elements(m_timerSet)) + if timer.m_cancel then {} else {timer}
      ensures tick <==> !timer.m_cancel && old(m_timerSet) == []
    {
      R.RunTidy(born, history);
      AddLinks(m_timerSet, known, m_timer, spec, timer);
      ghost var u := T.Added(spec, timer.address);
      tick := Enter(timer, u);
      Record(T.Add(timer.address), u);
    }

    /** Timer::cancel */
    method CancelTimer(timer: Timer)
      requires Valid() && timer in known
      modifies `history, `spec, timer`m_cancel, timer`m_cycle
      ensures Valid() && timer.m_cancel && history == old(history) + [T.Cancel(timer.address)]
    {
      ghost var s := spec;
      ghost var u := T.Next(s, T.Cancel(timer.address));
      timer.Cancel();
      ChangedLinks(m_timerSet, known, m_timer, s, timer, u);
      Record(T.Cancel(timer.address), u);
    }

    /** set::erase, by the order */
    method Leave(timer: Timer)
      requires OneEach(Elements(m_timerSet) + {timer})
      modifies `m_timerSet
      ensures m_timerSet == old(Removal(m_timerSet, timer))
    {
      var s, k := Keys(m_timerSet), timer.Key();
      var i := LowerBound(s, k);
      if i < |m_timerSet| && !Before(k, s[i]) {
        assert m_timerSet[i] in Elements(m_timerSet) && m_timerSet[i] == timer;
        m_timerSet := m_timerSet[..i] + m_timerSet[i + 1..];
      }
    }

    method CancelAndLeave(timer: Timer)
      requires OneEach(Elements(m_timerSet) + {timer})
      modifies `m_timerSet, timer`m_cancel, timer`m_cycle
      ensures m_timerSet == old(Removal(m_timerSet, timer)) && timer.m_cancel && !timer.m_cycle
    {
      ghost var keys := Keys(m_timerSet);
      timer.Cancel();
      assert Keys(m_timerSet) == keys;
      Leave(timer);
    }

    /** delTimer: cancelled, and out of the set. */
    method DelTimer(timer: Timer)
      requires Valid() && timer in known
      modifies `m_timerSet, `history, `spec, timer`m_cancel, timer`m_cycle
      ensures Valid() && history == old(history) + [T.Delete(timer.address)]
      ensures timer.m_cancel && Elements(m_timerSet) == old(Elements(m_timerSet)) - {timer}
    {
      R.RunTidy(born, history);
      RemoveLinks(m_timerSet, known, m_timer, spec, timer);
      ghost var s := spec;
      ghost var u := T.Deleted(s, timer.address);
      ghost var rest := Removal(m_timerSet, timer);
      CancelAndLeave(timer);
      assert m_timerSet == rest;
      ChangedLinks(m_timerSet, known, m_timer, s, timer, u);
      Record(T.Delete(timer.address), u);
    }

    /** No timer of the set expires before the first one. */
    lemma FirstExpires()
      requires Valid()
      ensures forall t :: t in m_timerSet ==> m_timerSet[0].m_expire_ms <= t.m_expire_ms
    {
      R.RunTidy(born, history);
      LinksKeys(m_timerSet, known, m_timer, spec);
      forall t | t in m_timerSet ensures m_timerSet[0].m_expire_ms <= t.m_expire_ms {
        var i :| 0 <= i < |m_timerSet| && m_timerSet[i] == t;
        assert i > 0 ==> Before(Keys(m_timerSet)[0], Keys(m_timerSet)[i]);
      }
    }

    /** getRecentTimerout: how long nothing expires, unless the first timer is overdue by more than an int can say. The
        difference goes through an int, so the wait ends with the first expiry exactly when an int can say it. */
    method GetRecentTimeout(now: nat) returns (ret: nat)
      requires Valid()
      ensures ret <= 0x7FFF_FFFF && (m_timerSet == [] ==> ret == 0x7FFF_FFFF)
      ensures m_timerSet != [] && now <= m_timerSet[0].m_expire_ms + 0x8000_0000 ==>
                forall t :: t in m_timerSet ==> t.m_expire_ms <= now || now + ret <= t.m_expire_ms
      ensures m_timerSet != [] && now < m_timerSet[0].m_expire_ms ==>
                (now + ret == m_timerSet[0].m_expire_ms <==> m_timerSet[0].m_expire_ms - now <= 0x7FFF_FFFF)
      ensures m_timerSet != [] && m_timerSet[0].m_expire_ms <= now <= m_timerSet[0].m_expire_ms + 0x8000_0000 ==>
                ret == 0
    {
      FirstExpires();
      var r := 0x7FFF_FFFF;
      if m_timerSet != [] {
        r := ToInt(m_timerSet[0].m_expire_ms - now);
        assert now <= m_timerSet[0].m_expire_ms ==> r <= m_timerSet[0].m_expire_ms - now;
      }
      ret := if r < 0 then 0 else r;
    }

    /** What listTimeroutCallback takes out of the set at once. */
    method Detach(now: nat) returns (vec: seq<Timer>)
      requires Valid() && spec.now == now
      modifies `m_timerSet, `history, `spec, m_timer`m_expire_ms
      ensures Recorded() && Linked() && spec.taken == Ids(vec) && spec.delivered == [] && spec.now == now
      ensures spec.timers == old(spec.timers) && history == old(history) + [T.Sweep(now, m_timer.address)]
      ensures vec + m_timerSet == old(m_timerSet)
      ensures |vec| == T.Due(old(Keys(m_timerSet)), now, m_timer.address)
      ensures FlagsOf(vec) == old(FlagsOf(vec)) && ExpiresOf(vec) == old(ExpiresOf(vec))
    {
      R.RunTidy(born, history);
      SweepLinks(m_timerSet, known, m_timer, spec, now);
      ghost var u := T.Swept(spec, now, m_timer.address);
      vec := Split(now, u);
      Record(T.Sweep(now, m_timer.address), u);
    }

    method Split(now: nat, ghost u: T.State) returns (vec: seq<Timer>)
      requires Links(m_timerSet[T.Due(Keys(m_timerSet), now, m_timer.address)..], known, m_timer, u)
      requires m_timer !in m_timerSet
      modifies `m_timerSet, m_timer`m_expire_ms
      ensures Links(m_timerSet, known, m_timer, u)
      ensures var n := T.Due(old(Keys(m_timerSet)), now, m_timer.address);
              vec == old(m_timerSet)[..n] && m_timerSet == old(m_timerSet)[n..]
      ensures FlagsOf(vec) == old(FlagsOf(vec)) && ExpiresOf(vec) == old(ExpiresOf(vec))
    {
      ghost var keys := Keys(m_timerSet);
      m_timer.m_expire_ms := now;
      assert Keys(m_timerSet) == keys;
      if m_timerSet == [] {
        return [];
      }
      var end := LowerBound(Keys(m_timerSet), m_timer.Key());
      vec := m_timerSet[..end];
      m_timerSet := m_timerSet[end..];
    }

    /** A cyclic timer that was delivered goes back. */
    method Reenter(it: Timer, now: nat, ghost s: T.State)
      requires Links(m_timerSet, known, m_timer, s) && T.Known(s)
      requires it in known && it !in m_timerSet && Rearms(it) && s.now == now
      modifies `m_timerSet, it`m_expire_ms
      ensures it.m_expire_ms == it.m_ms + now && Links(m_timerSet, known, m_timer, T.Entered(s, it.address))
      ensures Elements(m_timerSet) == old(Elements(m_timerSet)) + {it}
    {
      it.Refresh(now);
      EnterLinks(m_timerSet, known, m_timer, s, it);
      var _ := Enter(it, T.Entered(s, it.address));
    }

    /** A timer that was delivered is looked at for its cycle. */
    method Rearm(it: Timer, now: nat)
      requires Recorded() && Linked() && it in known && !it.m_cancel
      requires spec.delivered == [it.address] && spec.now == now
      modifies `m_timerSet, `history, `spec, it`m_expire_ms
      ensures Recorded() && Linked() && spec.delivered == [] && history == old(history) + [T.Rearm(0)]
      ensures spec.taken == old(spec.taken) && spec.now == now && Fired(old(spec), spec, [])
      ensures it.m_expire_ms == if it.m_cycle then it.m_ms + now else old(it.m_expire_ms)
      ensures Elements(m_timerSet) == old(Elements(m_timerSet)) + if it.m_cycle then {it} else {}
    {
      R.RunTidy(born, history);
      ghost var u := Back(it);
      if it.m_cycle {
        Reenter(it, now, spec.(delivered := []));
      }
      Record(T.Rearm(0), u);
    }

    /** What the model does with the timer that was delivered. */
    lemma Back(it: Timer) returns (u: T.State)
      requires Recorded() && Linked() && it in known && !it.m_cancel && spec.delivered == [it.address]
      ensures T.Known(spec) && u == T.Rearmed(spec, 0)
      ensures u.delivered == [] && u.taken == spec.taken && u.now == spec.now && Fired(spec, u, [])
      ensures T.Known(spec.(delivered := []))
      ensures it.m_cycle ==> it !in m_timerSet && u == T.Entered(spec.(delivered := []), it.address)
      ensures !it.m_cycle ==> u == spec.(delivered := [])
    {
      R.RunTidy(born, history);
      u := T.Rearmed(spec, 0);
      assert T.Drop(spec.delivered, 0) == [];
      RearmFired(spec);
      if it.m_cycle {
        R.OnlyDelivered(spec, 0);
        IdIn(m_timerSet, it, known);
      }
    }

    /** The next timer of the sweep is delivered, unless it is cancelled. */
    ghost method Take(it: Timer)
      requires Recorded() && Linked() && it in known && spec.delivered == []
      requires spec.taken != [] && spec.taken[0] == it.address
      modifies `history, `spec
      ensures Recorded() && Linked() && spec.taken == old(spec.taken)[1..] && spec.now == old(spec.now)
      ensures spec.delivered == (if it.m_cancel then [] else [it.address]) && history == old(history) + [T.Handle(0)]
      ensures Fired(old(spec), spec, if it.m_cancel then [] else [it])
    {
      ghost var u := Taken(it);
      Record(T.Handle(0), u);
    }

    /** What the model does with it. */
    lemma Taken(it: Timer) returns (u: T.State)
      requires Recorded() && Linked() && it in known && spec.taken != [] && spec.taken[0] == it.address
      ensures T.Known(spec) && u == T.Handled(spec, 0) && Links(m_timerSet, known, m_timer, u)
      ensures u.taken == spec.taken[1..] && u.now == spec.now
      ensures u.delivered == spec.delivered + (if it.m_cancel then [] else [it.address])
      ensures Fired(spec, u, if it.m_cancel then [] else [it])
    {
      u := T.Handled(spec, 0);
      assert T.Drop(spec.taken, 0) == spec.taken[1..];
      if !it.m_cancel {
        ChangedLinks(m_timerSet, known, m_timer, spec, it, u);
        assert Ids([it]) == [it.address];
      } else {
        assert Ids([]) == [];
      }
    }

    /** The body of the loop over a sweep, at time now. */
    method Handle(it: Timer, now: nat) returns (delivered: bool)
      requires Recorded() && Linked() && it in known && spec.now <= now && spec.delivered == []
      requires spec.taken != [] && spec.taken[0] == it.address
      modifies `m_timerSet, `history, `spec, it`m_expire_ms
      ensures Recorded() && Linked() && spec.taken == old(spec.taken)[1..] && spec.delivered == [] && spec.now == now
      ensures history == old(history) + Look(it.m_cancel, now) && delivered == !it.m_cancel
      ensures it.m_expire_ms == if Rearms(it) then it.m_ms + now else old(it.m_expire_ms)
      ensures Elements(m_timerSet) == old(Elements(m_timerSet)) + if Rearms(it) then {it} else {}
      ensures Fired(old(spec), spec, if delivered then [it] else [])
    {
      ghost var h, s := history, spec;
      LookIs(h, it.m_cancel, now);
      Wait(now);
      Take(it);
      ghost var t := spec;
      delivered := !it.m_cancel;
      if !it.m_cancel {
        Rearm(it, now);
        FiredSame(s, t, spec, [it]);
      }
    }

    ghost function Now(vec: seq<Timer>): (was: Was)
      reads this, vec
    {
      Was(FlagsOf(vec), ExpiresOf(vec), spec, history, Elements(m_timerSet))
    }

    /** Where the loop over a sweep is at number i; was is what there was before it. */
    ghost predicate Midway(vec: seq<Timer>, was: Was, clock: nat -> nat, i: nat, callbacks: seq<Timer>)
      requires i <= |vec| == |was.flags|
      reads this, known
    {
      && Recorded() && Linked() && spec.taken == Ids(vec[i..]) && spec.delivered == []
      && callbacks == Delivered(vec, was.flags, i) && Fired(was.spec, spec, callbacks)
      && history == was.history + LookAll(was.flags, clock, i)
      && Elements(m_timerSet) == was.timers + Rearmed(vec, was.flags, i)
    }

    /** And what the timers have in their fields. */
    ghost predicate Touched(vec: seq<Timer>, was: Was, clock: nat -> nat, i: nat)
      reads vec
    {
      && i <= |vec| == |was.expires| && FlagsOf(vec) == was.flags
      && ExpiresOf(vec) == ExpiresAfter(vec, was.flags, was.expires, clock, i)
    }

    /** One round of the loop over a sweep, without what becomes of the timers' own fields. */
    method HandleAt(vec: seq<Timer>, i: nat, clock: nat -> nat, callbacks: seq<Timer>, ghost was: Was)
      returns (more: seq<Timer>)
      requires i < |vec| == |was.flags| && Elements(vec) <= known && spec.now <= clock(i)
      requires Midway(vec, was, clock, i, callbacks) && Flags(vec[i].m_cancel, vec[i].m_cycle) == was.flags[i]
      modifies `m_timerSet, `history, `spec, {vec[i]}`m_expire_ms
      ensures Midway(vec, was, clock, i + 1, more) && spec.now == clock(i)
      ensures vec[i].m_expire_ms == if Rearms(vec[i]) then vec[i].m_ms + clock(i) else old(vec[i].m_expire_ms)
    {
      LookAllIs(was.history, was.flags, clock, i);
      RearmedIs(was.timers, vec, was.flags, i);
      ghost var t := spec;
      IdsAfter(vec, i);
      var ok := Handle(vec[i], clock(i));
      more := if ok then callbacks + [vec[i]] else callbacks;
      FiredMore(was.spec, t, spec, callbacks, if ok then [vec[i]] else []);
      assert callbacks + [] == callbacks;
    }

    /** One round of the loop over a sweep. */
    method HandleNext(vec: seq<Timer>, i: nat, clock: nat -> nat, callbacks: seq<Timer>, ghost was: Was)
      returns (more: seq<Timer>)
      requires i < |vec| && Touched(vec, was, clock, i) && Midway(vec, was, clock, i, callbacks)
      requires Elements(vec) <= known && Distinct(vec) && spec.now <= clock(i)
      modifies `m_timerSet, `history, `spec, {vec[i]}`m_expire_ms
      ensures Touched(vec, was, clock, i + 1) && Midway(vec, was, clock, i + 1, more) && spec.now == clock(i)
    {
      ghost var were := ExpiresOf(vec);
      Apart(vec, i);
      more := HandleAt(vec, i, clock, callbacks, was);
      OneTouched(vec, i, was.flags, were);
      ExpiresAfterMore(vec, was.flags, was.expires, clock, i, vec[i].m_expire_ms);
    }

    lemma Begin(vec: seq<Timer>, clock: nat -> nat)
      requires Recorded() && Linked() && spec.taken == Ids(vec) && spec.delivered == [] && spec.now <= clock(0)
      ensures Touched(vec, Now(vec), clock, 0) && Midway(vec, Now(vec), clock, 0, [])
    {
      assert Ids([]) == [];
      assert vec[0..] == vec;
    }

    /** The loop over a sweep, where clock tells the time when timer number i is looked at. */
    method HandleAll(vec: seq<Timer>, clock: nat -> nat) returns (callbacks: seq<Timer>)
      requires Recorded() && Linked() && spec.taken == Ids(vec) && spec.delivered == []
      requires Distinct(vec) && Elements(vec) <= known
      requires spec.now <= clock(0) && Forward(clock)
      modifies `m_timerSet, `history, `spec, (set t | t in vec)`m_expire_ms
      ensures Valid() && Touched(vec, old(Now(vec)), clock, |vec|)
      ensures Midway(vec, old(Now(vec)), clock, |vec|, callbacks)
    {
      ghost var was := Now(vec);
      callbacks := [];
      Begin(vec, clock);
      for i := 0 to |vec|
        invariant Touched(vec, was, clock, i) && Midway(vec, was, clock, i, callbacks)
        invariant i < |vec| ==> spec.now <= clock(i)
      {
        callbacks := HandleNext(vec, i, clock, callbacks, was);
      }
    }

    /** What has expired at time now leaves the set, and keeps what it was. */
    method TakeOut(now: nat) returns (vec: seq<Timer>)
      requires Valid() && spec.now <= now
      modifies `m_timerSet, `history, `spec, m_timer`m_expire_ms
      ensures Recorded() && Linked() && spec.taken == Ids(vec) && spec.delivered == [] && spec.now == now
      ensures spec.timers == old(spec.timers)
      ensures history == old(history) + [T.Tick(now)] + [T.Sweep(now, m_timer.address)]
      ensures |vec| == T.Due(old(Keys(m_timerSet)), now, m_timer.address)
      ensures vec == old(m_timerSet)[..|vec|] && m_timerSet == old(m_timerSet)[|vec|..]
      ensures Distinct(vec) && Elements(vec) <= known
      ensures FlagsOf(vec) == old(FlagsOf(vec)) && ExpiresOf(vec) == old(ExpiresOf(vec))
    {
      ghost var s := m_timerSet;
      Wait(now);
      R.RunTidy(born, history);
      LinksKeys(s, known, m_timer, spec);
      KeysDistinct(s);
      vec := Detach(now);
      BatchOf(s, vec, m_timerSet);
    }

    /** listTimeroutCallback at time now: what has expired is delivered, in the order of expiry, unless it is
        cancelled; the cyclic ones of it get a new expiry and go back, the others keep theirs. */
    method ListTimeoutCallback(now: nat, clock: nat -> nat) returns (callbacks: seq<Timer>, ghost vec: seq<Timer>)
      requires Valid() && spec.now <= now <= clock(0) && Forward(clock)
      modifies `m_timerSet, `history, `spec, m_timer`m_expire_ms, (set t | t in m_timerSet)`m_expire_ms
      ensures Valid() && |vec| == T.Due(old(Keys(m_timerSet)), now, m_timer.address) && vec == old(m_timerSet)[..|vec|]
      ensures callbacks == Delivered(vec, old(FlagsOf(vec)), |vec|) && Sorted(old(Keys(callbacks)))
      ensures Elements(m_timerSet) == Elements(old(m_timerSet)[|vec|..]) + Rearmed(vec, old(FlagsOf(vec)), |vec|)
      ensures FlagsOf(vec) == old(FlagsOf(vec))
      ensures ExpiresOf(vec) == ExpiresAfter(vec, old(FlagsOf(vec)), old(ExpiresOf(vec)), clock, |vec|)
      ensures history == old(history) + [T.Tick(now)] + [T.Sweep(now, m_timer.address)]
                         + LookAll(old(FlagsOf(vec)), clock, |vec|)
      ensures Fired(old(spec), spec, callbacks)
    {
      R.RunTidy(born, history);
      LinksKeys(m_timerSet, known, m_timer, spec);
      DeliveredInOrder(m_timerSet, T.Due(Keys(m_timerSet), now, m_timer.address));
      var batch := TakeOut(now);
      vec := batch;
      callbacks := HandleAll(batch, clock);
    }

    /** In every sequence of calls a one-shot timer is delivered at most once for each addTimer with it. */
    lemma OncePerAdd(t: Timer)
      requires Valid() && t in known && !spec.timers[t.address].periodic
      ensures spec.timers[t.address].fired <= multiset(history)[T.Add(t.address)]
      ensures !t.m_cancel && t !in m_timerSet ==> spec.timers[t.address].fired == spec.timers[t.address].adds
    {
      T.DeliveredAtMost(born, history, t.address);
      IdIn(m_timerSet, t, known);
    }

    /** In every sequence of calls the set stays in its order, and a periodic timer is delivered no more often than its
        period fits into its life. */
    lemma KeepsPace(t: Timer)
      requires Valid() && t in known
      ensures Sorted(Keys(m_timerSet)) && spec.timers[t.address].ms == t.m_ms
      ensures spec.timers[t.address].periodic ==>
                spec.timers[t.address].fired * t.m_ms <= spec.now - spec.timers[t.address].created
    {
      R.RunTidy(born, history);
      LinksKeys(m_timerSet, known, m_timer, spec);
      R.PeriodicAtMost(born, history, t.address);
    }

    /** A cyclic timer that was put into the set is in it between any two calls, until it is cancelled. */
    lemma CyclicStays(t: Timer)
      requires Valid() && t in known && t.m_cycle
      ensures spec.timers[t.address].adds > 0 ==> t in m_timerSet
    {
      R.CyclicStays(born, history, t.address);
      R.CountIn(spec.pending, t.address);
      IdIn(m_timerSet, t, known);
    }
  }
}
