/** IOManager of iomanager.cpp: the contexts of all descriptors and one epoll
    instance, against EventSpec. Each method is one locked section. */
module IOManagers {
  import opened Prelude
  import opened EventSpec

  class Epoll {
    var interest: map<int, Mask>

    constructor ()
      ensures interest == map[]
    {
      interest := map[];
    }

    function Entry(fd: int): (r: Option<Mask>)
      reads this
    {
      if fd in interest then Some(interest[fd]) else None
    }

    /** epoll_ctl; nothing changes when it fails. */
    method Ctl(op: CtlOp, fd: int, mask: Mask) returns (rt: int)
      modifies this
      ensures rt == 0 <==> EpollCtl(old(Entry(fd)), op, mask).Some?
      ensures rt == 0 ==> Entry(fd) == EpollCtl(old(Entry(fd)), op, mask).value
      ensures rt != 0 ==> interest == old(interest)
      ensures forall k :: k != fd ==> Entry(k) == old(Entry(k))
      ensures forall k :: k in interest ==> k == fd || k in old(interest)
    {
      if (op == ADD) == (fd in interest) {
        return -1;
      }
      interest := if op == DEL then interest - {fd} else interest[fd := mask];
      rt := 0;
    }
  }

  /** How an operation on a descriptor ends: it returns, or it reads a context behind the last one, or an assertion
      fails. */
  datatype Outcome = Returns(ok: bool) | NoContext | AssertFails

  class FdContext {
    const fd: int
    var events: Mask
    var read: Option<Waiter>
    var write: Option<Waiter>

    constructor (n: int)
      ensures fd == n && events == NONE && read == None && write == None
    {
      fd, events, read, write := n, NONE, None, None;
    }

    /** triggerEvent(READ) or triggerEvent(WRITE): whom it schedules; None stands for its assertion that fails. */
    method TriggerEvent(bit: Bit) returns (w: Option<Waiter>)
      requires bit == READ || bit == WRITE
      modifies `events
      ensures events == old(events) - {bit} && w == if bit == READ then read else write
    {
      events := events - {bit};
      w := if bit == READ then read else write;
    }
  }

  class IOManager {
    var mFdCtxs: seq<FdContext>
    const m_epollfds: Epoll
    var scheduled: seq<Waiter>

    function FdAt(i: int): (r: Fd)
      requires 0 <= i < |mFdCtxs|
      reads this, mFdCtxs, m_epollfds
    {
      var c := mFdCtxs[i];
      Fd(c.events, c.read, c.write, m_epollfds.Entry(i))
    }

    /** One context for each descriptor, in step with the kernel; the kernel watches no other descriptor. */
    ghost predicate Valid()
      reads this, mFdCtxs, m_epollfds
    {
      && 2 <= |mFdCtxs|
      && (forall i, j :: 0 <= i < j < |mFdCtxs| ==> mFdCtxs[i] != mFdCtxs[j])
      && (forall i :: 0 <= i < |mFdCtxs| ==> mFdCtxs[i].fd == i && Sync(FdAt(i)))
      && (forall k :: k in m_epollfds.interest ==> 0 <= k < |mFdCtxs|)
    }

    constructor ()
      ensures Valid() && fresh(m_epollfds) && fresh(mFdCtxs) && scheduled == []
      ensures |mFdCtxs| == 96 && forall i :: 0 <= i < |mFdCtxs| ==> FdAt(i) == EMPTY
    {
      mFdCtxs, scheduled := [], [];
      m_epollfds := new Epoll();
      new;
      var ctxs := MoreContexts([], 96);
      mFdCtxs := ctxs;
    }

    /** The loop of resizeFdContext: contexts for the new places. */
    static method MoreContexts(ctxs0: seq<FdContext>, n: nat) returns (ctxs: seq<FdContext>)
      requires |ctxs0| <= n
      requires forall i, j :: 0 <= i < j < |ctxs0| ==> ctxs0[i] != ctxs0[j]
      ensures |ctxs| == n && ctxs0 <= ctxs
      ensures forall i, j :: 0 <= i < j < |ctxs| ==> ctxs[i] != ctxs[j]
      ensures forall i :: |ctxs0| <= i < n ==>
                && fresh(ctxs[i]) && ctxs[i].fd == i
                && ctxs[i].events == NONE && ctxs[i].read == None && ctxs[i].write == None
    {
      ctxs := ctxs0;
      for i := |ctxs0| to n
        invariant |ctxs| == i && ctxs0 <= ctxs
        invariant forall i, j :: 0 <= i < j < |ctxs| ==> ctxs[i] != ctxs[j]
        invariant forall j :: |ctxs0| <= j < i ==>
                && fresh(ctxs[j]) && ctxs[j].fd == j
                && ctxs[j].events == NONE && ctxs[j].read == None && ctxs[j].write == None
      {
        var c := new FdContext(i);
        ctxs := ctxs + [c];
      }
    }

    method ResizeFdContext(fd: nat)
      requires Valid()
      modifies `mFdCtxs
      ensures Valid() && fd < |mFdCtxs| && old(mFdCtxs) <= mFdCtxs
      ensures |mFdCtxs| == if fd < |old(mFdCtxs)| then |old(mFdCtxs)| else fd * 3 / 2
      ensures forall i :: 0 <= i < |old(mFdCtxs)| ==> FdAt(i) == old(FdAt(i))
      ensures forall i :: |old(mFdCtxs)| <= i < |mFdCtxs| ==> fresh(mFdCtxs[i]) && FdAt(i) == EMPTY
    {
      if |mFdCtxs| > fd {
        return;
      }
      var ctxs := MoreContexts(mFdCtxs, fd * 3 / 2);
      mFdCtxs := ctxs;
    }

    /** addEvent behind resizeFdContext. */
    method AddAt(fd: nat, event: Mask, id: int)
      requires Valid() && fd < |mFdCtxs| && event != NONE
      modifies mFdCtxs[fd], m_epollfds
      ensures Valid() && FdAt(fd) == Add(old(FdAt(fd)), event, id).fd
      ensures forall j :: 0 <= j < |mFdCtxs| && j != fd ==> FdAt(j) == old(FdAt(j))
    {
      AddKeeps(FdAt(fd), event, id);
      var ptr := mFdCtxs[fd];
      var curEvents := ptr.events;
      if READ in event {
        ptr.read := Some(Waiter(id, true));
      }
      if WRITE in event {
        ptr.write := Some(Waiter(id, false));
      }
      ptr.events := curEvents + event;
      var rt := m_epollfds.Ctl(if curEvents != NONE then MOD else ADD, fd, ptr.events + {EPOLLET});
      assert rt == 0;
    }

    /** delEvent of a descriptor that has a context. */
    method DelAt(fd: nat, event: Mask)
      requires Valid() && fd < |mFdCtxs|
      modifies mFdCtxs[fd], m_epollfds
      ensures Valid() && FdAt(fd) == Del(old(FdAt(fd)), event).fd
      ensures forall j :: 0 <= j < |mFdCtxs| && j != fd ==> FdAt(j) == old(FdAt(j))
    {
      DelKeeps(FdAt(fd), event);
      var ptr := mFdCtxs[fd];
      var curEvents := ptr.events;
      if curEvents !! event {
        return;
      }
      if READ in event {
        ptr.read := None;
      }
      if WRITE in event {
        ptr.write := None;
      }
      ptr.events := curEvents - event;
      var rt := m_epollfds.Ctl(if ptr.events != NONE then MOD else DEL, fd, ptr.events + {EPOLLET});
      assert rt == 0;
    }

    /** triggerEvent and reset of one bit, and the scheduling in between. */
    method WakeAt(fd: nat, bit: Bit) returns (ok: bool)
      requires fd < |mFdCtxs| && (bit == READ || bit == WRITE)
      modifies mFdCtxs[fd], `scheduled
      ensures ok <==> old(if bit == READ then mFdCtxs[fd].read else mFdCtxs[fd].write).Some?
      ensures ok ==>
                && FdAt(fd) == Wake(Effect(old(FdAt(fd)), [], true), {bit}, bit).fd
                && scheduled == old(scheduled) + Wake(Effect(old(FdAt(fd)), [], true), {bit}, bit).woken
    {
      var w := mFdCtxs[fd].TriggerEvent(bit);
      if w == None {
        return false;
      }
      ok, scheduled := true, scheduled + [w.value];
      if bit == READ {
        mFdCtxs[fd].read := None;
      } else {
        mFdCtxs[fd].write := None;
      }
    }

    method WakeBits(fd: nat, mask: Mask) returns (ok: bool)
      requires fd < |mFdCtxs|
      modifies mFdCtxs[fd], `scheduled
      ensures ok <==> (READ in mask ==> old(mFdCtxs[fd].read).Some?) && (WRITE in mask ==> old(mFdCtxs[fd].write).Some?)
      ensures ok ==>
                && FdAt(fd) == WakeAll(Effect(old(FdAt(fd)), [], true), mask).fd
                && scheduled == old(scheduled) + WakeAll(Effect(old(FdAt(fd)), [], true), mask).woken
    {
      ok := true;
      if READ in mask {
        ok := WakeAt(fd, READ);
        if !ok {
          return;
        }
      }
      if WRITE in mask {
        ok := WakeAt(fd, WRITE);
      }
    }

    /** The epoll_ctl of cancelEvent. */
    method Withdraw(fd: nat, event: Mask)
      requires Valid() && fd < |mFdCtxs| && !(mFdCtxs[fd].events !! event)
      modifies mFdCtxs[fd], m_epollfds
      ensures mFdCtxs[fd].events == old(mFdCtxs[fd].events) - event
      ensures mFdCtxs[fd].read == old(mFdCtxs[fd].read) && mFdCtxs[fd].write == old(mFdCtxs[fd].write)
      ensures m_epollfds.Entry(fd) == if mFdCtxs[fd].events == NONE then None else Some(mFdCtxs[fd].events + {EPOLLET})
      ensures forall k :: k in m_epollfds.interest ==> 0 <= k < |mFdCtxs|
      ensures forall j :: 0 <= j < |mFdCtxs| && j != fd ==> FdAt(j) == old(FdAt(j))
    {
      var ptr := mFdCtxs[fd];
      assert Sync(FdAt(fd));
      ptr.events := ptr.events - event;
      var rt := m_epollfds.Ctl(if ptr.events != NONE then MOD else DEL, fd, ptr.events + {EPOLLET});
      assert rt == 0;
    }

    /** cancelEvent of a descriptor that has a context. */
    method CancelAt(fd: nat, event: Mask) returns (r: Outcome)
      requires Valid() && fd < |mFdCtxs|
      modifies mFdCtxs[fd], m_epollfds, `scheduled
      ensures r == if Cancellable(old(FdAt(fd)), event) then Returns(!(old(FdAt(fd)).events !! event)) else AssertFails
      ensures r.Returns? ==>
                && Valid() && FdAt(fd) == Cancel(old(FdAt(fd)), event).fd
                && scheduled == old(scheduled) + Cancel(old(FdAt(fd)), event).woken
      ensures forall j :: 0 <= j < |mFdCtxs| && j != fd ==> FdAt(j) == old(FdAt(j))
    {
      if mFdCtxs[fd].events !! event {
        return Returns(false);
      }
      ghost var f := FdAt(fd);
      CancelOk(f, event);
      Withdraw(fd, event);
      var ok := WakeBits(fd, event);
      if ok {
        CancelKeeps(f, event);
      }
      r := if ok then Returns(true) else AssertFails;
    }

    /** cancelAllEvent of a descriptor that has a context. */
    method CancelAllAt(fd: nat) returns (ok: bool)
      requires Valid() && fd < |mFdCtxs|
      modifies mFdCtxs[fd], m_epollfds, `scheduled
      ensures Valid() && FdAt(fd) == CancelAll(old(FdAt(fd))).fd
      ensures scheduled == old(scheduled) + CancelAll(old(FdAt(fd))).woken
      ensures ok <==> old(FdAt(fd)).events != NONE
      ensures forall j :: 0 <= j < |mFdCtxs| && j != fd ==> FdAt(j) == old(FdAt(j))
    {
      CancelAllKeeps(FdAt(fd));
      var curEvents := mFdCtxs[fd].events;
      if curEvents == NONE {
        return false;
      }
      mFdCtxs[fd].events := NONE;
      var rt := m_epollfds.Ctl(DEL, fd, NONE);
      assert rt == 0;
      ok := WakeBits(fd, curEvents);
    }

    /** triggerEvent of one bit and the scheduling, without a reset. */
    method FireAt(fd: nat, bit: Bit)
      requires fd < |mFdCtxs| && (bit == READ || bit == WRITE)
      requires (if bit == READ then mFdCtxs[fd].read else mFdCtxs[fd].write).Some?
      modifies mFdCtxs[fd], `scheduled
      ensures FdAt(fd) == Trigger(Effect(old(FdAt(fd)), [], true), bit).fd
      ensures scheduled == old(scheduled) + Trigger(Effect(old(FdAt(fd)), [], true), bit).woken
    {
      var w := mFdCtxs[fd].TriggerEvent(bit);
      scheduled := scheduled + [w.value];
    }

    /** The bits that an entry of epoll_wait has and the context still waits for. */
    method Concerns(fd: nat, ready: Mask) returns (hit: Mask)
      requires fd < |mFdCtxs|
      ensures hit == Real(FdAt(fd), ready)
    {
      hit := {};
      if EPOLLERR in ready || EPOLLHUP in ready {
        hit := {READ, WRITE};
      }
      if EPOLLIN in ready {
        hit := hit + {READ};
      }
      if EPOLLOUT in ready {
        hit := hit + {WRITE};
      }
      hit := hit * mFdCtxs[fd].events;
    }

    /** idleFun with one entry of what epoll_wait returned; rt is what its epoll_ctl returns. */
    method Dispatch(fd: nat, ready: Mask) returns (rt: int)
      requires Valid() && fd < |mFdCtxs|
      modifies mFdCtxs[fd], m_epollfds, `scheduled
      ensures Valid() && FdAt(fd) == Ready(old(FdAt(fd)), ready).fd
      ensures scheduled == old(scheduled) + Ready(old(FdAt(fd)), ready).woken
      ensures scheduled == old(scheduled) + old(Alone(Has(FdAt(fd), READ) && CanRead(ready), FdAt(fd).read))
                           + old(Alone(Has(FdAt(fd), WRITE) && CanWrite(ready), FdAt(fd).write))
      ensures forall bit :: bit in FdAt(fd).events <==>
                && bit in old(FdAt(fd)).events
                && !(bit == READ && CanRead(ready)) && !(bit == WRITE && CanWrite(ready))
      ensures rt != 0 <==> old(FdAt(fd)).events == NONE
      ensures forall j :: 0 <= j < |mFdCtxs| && j != fd ==> FdAt(j) == old(FdAt(j))
    {
      ReadyKeeps(FdAt(fd), ready);
      ReadyExactly(FdAt(fd), ready);
      var hit := Concerns(fd, ready);
      rt := Rearm(fd, hit);
      FireBits(fd, hit);
    }

    method FireBits(fd: nat, hit: Mask)
      requires fd < |mFdCtxs|
      requires READ in hit ==> mFdCtxs[fd].read.Some?
      requires WRITE in hit ==> mFdCtxs[fd].write.Some?
      modifies mFdCtxs[fd], `scheduled
      ensures FdAt(fd) == Fire(Effect(old(FdAt(fd)), [], true), hit).fd
      ensures scheduled == old(scheduled) + Fire(Effect(old(FdAt(fd)), [], true), hit).woken
    {
      if READ in hit {
        FireAt(fd, READ);
      }
      if WRITE in hit {
        FireAt(fd, WRITE);
      }
    }

    /** The epoll_ctl of idleFun. */
    method Rearm(fd: nat, hit: Mask) returns (rt: int)
      requires Valid() && fd < |mFdCtxs| && hit <= mFdCtxs[fd].events
      modifies m_epollfds
      ensures rt != 0 <==> mFdCtxs[fd].events == NONE
      ensures var left := mFdCtxs[fd].events - hit;
              FdAt(fd) == Ctl(old(FdAt(fd)), if left != NONE then MOD else DEL, left + {EPOLLET}).fd
      ensures forall k :: k in m_epollfds.interest ==> 0 <= k < |mFdCtxs|
      ensures forall j :: 0 <= j < |mFdCtxs| && j != fd ==> FdAt(j) == old(FdAt(j))
    {
      assert Sync(FdAt(fd));
      var left := mFdCtxs[fd].events - hit;
      rt := m_epollfds.Ctl(if left != NONE then MOD else DEL, fd, left + {EPOLLET});
    }

    // ----- the interface -----

    method AddEvent(fd: int, event: Mask, id: int) returns (rt: int)
      requires Valid()
      modifies `mFdCtxs, mFdCtxs, m_epollfds
      ensures Valid() && old(mFdCtxs) <= mFdCtxs
      ensures forall i :: |old(mFdCtxs)| <= i < |mFdCtxs| ==> fresh(mFdCtxs[i])
      ensures rt == (if event == NONE || fd < 0 then -1 else 0)
      ensures |mFdCtxs| == if rt == 0 && |old(mFdCtxs)| <= fd then fd * 3 / 2 else |old(mFdCtxs)|
      ensures forall j :: 0 <= j < |mFdCtxs| ==>
                FdAt(j) == (var f := if j < |old(mFdCtxs)| then old(FdAt(j)) else EMPTY;
                            if rt == 0 && j == fd then Add(f, event, id).fd else f)
    {
      if event == NONE || fd < 0 {
        return -1;
      }
      ResizeFdContext(fd);
      AddAt(fd, event, id);
      rt := 0;
    }

    /** What delEvent, cancelEvent and cancelAllEvent do not turn away. */
    predicate Passes(fd: int)
      reads `mFdCtxs
    {
      !(fd < 0 || |mFdCtxs| < fd)
    }

    predicate Reached(fd: int)
      reads `mFdCtxs
    {
      0 <= fd < |mFdCtxs|
    }

    /** The guard lets one descriptor too many through. */
    lemma PassesExactly(fd: int)
      ensures Passes(fd) <==> Reached(fd) || fd == |mFdCtxs|
    {
    }

    method DelEvent(fd: int, event: Mask) returns (r: Outcome)
      requires Valid()
      modifies mFdCtxs, m_epollfds
      ensures Valid() && (r == NoContext <==> event != NONE && fd == |mFdCtxs|) && r != AssertFails
      ensures unchanged(`mFdCtxs, `scheduled)
      ensures event != NONE && Reached(fd) ==> FdAt(fd) == Del(old(FdAt(fd)), event).fd
      ensures forall j :: 0 <= j < |mFdCtxs| && (j != fd || event == NONE) ==> FdAt(j) == old(FdAt(j))
    {
      if event == NONE || !Passes(fd) {
        return Returns(false);
      }
      if fd == |mFdCtxs| {
        return NoContext;
      }
      DelAt(fd, event);
      r := Returns(true);
    }

    /** cancelEvent. It reads a context that is not there for the descriptor behind the last one, and its assertion
        fails for a bit without a waiter; in every other case it cancels, or tells that there is nothing to cancel. */
    method CancelEvent(fd: int, event: Mask) returns (r: Outcome)
      requires Valid()
      modifies mFdCtxs, m_epollfds, `scheduled
      ensures unchanged(`mFdCtxs) && (r == NoContext <==> event != NONE && fd == |mFdCtxs|)
      ensures r == AssertFails <==> event != NONE && Reached(fd) && !Cancellable(old(FdAt(fd)), event)
      ensures r == Returns(true) ==> event != NONE && Reached(fd) && !(old(FdAt(fd)).events !! event)
      ensures r == Returns(false) ==> event == NONE || !Reached(fd) || old(FdAt(fd)).events !! event
      ensures r != AssertFails ==> Valid()
      ensures r.Returns? && event != NONE && Reached(fd) ==>
                && FdAt(fd) == Cancel(old(FdAt(fd)), event).fd
                && scheduled == old(scheduled) + Cancel(old(FdAt(fd)), event).woken
      ensures event == NONE || !Reached(fd) ==> scheduled == old(scheduled)
      ensures forall j :: 0 <= j < |mFdCtxs| && (j != fd || event == NONE) ==> FdAt(j) == old(FdAt(j))
    {
      if event == NONE || !Passes(fd) {
        return Returns(false);
      }
      if fd == |mFdCtxs| {
        return NoContext;
      }
      r := CancelAt(fd, event);
    }

    method CancelAllEvent(fd: int) returns (r: Outcome)
      requires Valid()
      modifies mFdCtxs, m_epollfds, `scheduled
      ensures Valid() && (r == NoContext <==> fd == |mFdCtxs|) && r != AssertFails && unchanged(`mFdCtxs)
      ensures r.Returns? ==> (r.ok <==> Reached(fd) && old(FdAt(fd)).events != NONE)
      ensures Reached(fd) ==>
                && FdAt(fd) == CancelAll(old(FdAt(fd))).fd
                && scheduled == old(scheduled) + CancelAll(old(FdAt(fd))).woken
      ensures !Reached(fd) ==> scheduled == old(scheduled)
      ensures forall j :: 0 <= j < |mFdCtxs| && j != fd ==> FdAt(j) == old(FdAt(j))
    {
      if !Passes(fd) {
        return Returns(false);
      }
      if fd == |mFdCtxs| {
        return NoContext;
      }
      var ok := CancelAllAt(fd);
      r := Returns(ok);
    }
  }

  /** On a new manager all three meet the missing context at descriptor 96. */
  method BehindTheLast(event: Mask) returns (del: Outcome, cancel: Outcome, cancelAll: Outcome)
    requires event != NONE
    ensures del == cancel == cancelAll == NoContext
  {
    var manager := new IOManager();
    del := manager.DelEvent(96, event);
    cancel := manager.CancelEvent(96, event);
    cancelAll := manager.CancelAllEvent(96);
  }
}
