/** FiberSemaphore of mutex.cpp: permits, and fibers parked in a queue. */
module Semaphores {
  import opened Prelude

  /** The state of a semaphore: free permits and who waits for one. */
  datatype Sem<T> = Sem(num: nat, waiting: seq<T>) {

    /** Nobody waits while a permit is free. */
    predicate Inv() {
      num > 0 ==> waiting == []
    }

    predicate Free() {
      num > 0
    }

    function Wait(t: T): (r: Sem<T>) {
      if num > 0 then Sem(num - 1, waiting) else Sem(num, waiting + [t])
    }

    function TryWait(): (r: Sem<T>) {
      if num > 0 then Sem(num - 1, waiting) else this
    }

    function Notify(): (r: Sem<T>) {
      if waiting != [] then Sem(num, waiting[1..]) else Sem(num + 1, waiting)
    }

    /** Who gets the permit of a notify. */
    function Woken(): (r: Option<T>) {
      if waiting != [] then Some(waiting[0]) else None
    }
  }

  /** The object in its locked sections; wait parks the fiber after its section when it is not through. */
  class FiberSemaphore<T> {
    var m_num: nat
    var m_list: seq<T>

    function State(): (r: Sem<T>)
      reads this
    {
      Sem(m_num, m_list)
    }

    constructor (num: nat)
      ensures State() == Sem(num, []) && State().Inv()
    {
      m_num, m_list := num, [];
    }

    method TryWait() returns (ok: bool)
      modifies this
      ensures State() == old(State()).TryWait() && ok == old(State()).Free()
    {
      if m_num > 0 {
        m_num := m_num - 1;
        return true;
      }
      ok := false;
    }

    method Wait(t: T) returns (through: bool)
      modifies this
      ensures State() == old(State()).Wait(t) && through == old(State()).Free()
    {
      if m_num > 0 {
        m_num := m_num - 1;
        return true;
      }
      m_list := m_list + [t];
      through := false;
    }

    /** The fiber that is scheduled. */
    method Notify() returns (next: Option<T>)
      modifies this
      ensures State() == old(State()).Notify() && next == old(State()).Woken()
    {
      if m_list != [] {
        next := Some(m_list[0]);
        m_list := m_list[1..];
      } else {
        next := None;
        m_num := m_num + 1;
      }
    }
  }

  // ----- every run -----

  datatype Event<T> = Waits(t: T) | Tries(t: T) | Notifies

  function Next<T>(s: Sem<T>, e: Event<T>): (r: Sem<T>) {
    match e
    case Waits(t) => s.Wait(t)
    case Tries(_) => s.TryWait()
    case Notifies => s.Notify()
  }

  function Run<T>(num: nat, es: seq<Event<T>>): (r: Sem<T>) {
    if es == [] then Sem(num, []) else Next(Run(num, es[..|es| - 1]), es[|es| - 1])
  }

  /** The calls of wait, in order. */
  function Waited<T>(es: seq<Event<T>>): (r: seq<T>) {
    if es == [] then []
    else if es[|es| - 1].Waits? then Waited(es[..|es| - 1]) + [es[|es| - 1].t]
    else Waited(es[..|es| - 1])
  }

  /** The calls of wait that have got their permit, in the order in which they got it. */
  function Served<T>(num: nat, es: seq<Event<T>>): (r: seq<T>) {
    if es == [] then [] else
      var before, s, e := Served(num, es[..|es| - 1]), Run(num, es[..|es| - 1]), es[|es| - 1];
      if e.Waits? && s.Free() then before + [e.t]
      else if e.Notifies? && s.Woken().Some? then before + [s.Woken().value]
      else before
  }

  /** The calls of tryWait that have got a permit. */
  function Tried<T>(num: nat, es: seq<Event<T>>): (r: nat) {
    if es == [] then 0
    else Tried(num, es[..|es| - 1])
         + if es[|es| - 1].Tries? && Run(num, es[..|es| - 1]).Free() then 1 else 0
  }

  function Notified<T>(es: seq<Event<T>>): (r: nat) {
    if es == [] then 0 else Notified(es[..|es| - 1]) + if es[|es| - 1].Notifies? then 1 else 0
  }

  /** In every run: a free permit means an empty queue, permits are neither lost nor made up, and waits are served in
      the order of the calls, those in the queue being exactly the ones that are not served yet. */
  lemma {:induction false} RunKeeps<T>(num: nat, es: seq<Event<T>>)
    ensures Run(num, es).Inv()
    ensures num + Notified(es) == |Served(num, es)| + Tried(num, es) + Run(num, es).num
    ensures Waited(es) == Served(num, es) + Run(num, es).waiting
  {
    if es != [] {
      RunKeeps(num, es[..|es| - 1]);
      var s := Run(num, es[..|es| - 1]);
      if es[|es| - 1].Notifies? && s.waiting != [] {
        assert s.waiting == [s.waiting[0]] + s.waiting[1..];
      }
    }
  }

  /** tryWait never overtakes a fiber that waits. */
  lemma NoOvertaking<T>(num: nat, es: seq<Event<T>>)
    requires Run(num, es).Free()
    ensures Waited(es) == Served(num, es)
  {
    RunKeeps(num, es);
  }
}
