/** Whole runs of an IOManager from its constructor on, descriptor by descriptor, against EventSpec. */
module IOManagerRuns {
  import opened Prelude
  import opened EventSpec
  import opened IOManagers

  /** A call of the interface for a descriptor, or what epoll_wait tells about it. */
  datatype Call = Call(fd: int, op: Op)

  /** The call is for a context: it is not turned away by its own arguments. */
  predicate Goes(c: Call) {
    0 <= c.fd &&
    match c.op
    case AddOp(event, _) => event != NONE
    case DelOp(event) => event != NONE
    case CancelOp(event) => event != NONE
    case _ => true
  }

  /** What the calls are for descriptor k. */
  function OpsOf(calls: seq<Call>, k: nat): (ops: seq<Op>) {
    if calls == [] then [] else
      var c, ops := calls[|calls| - 1], OpsOf(calls[..|calls| - 1], k);
      if Goes(c) && c.fd == k then ops + [c.op] else ops
  }

  /** How many contexts there are behind a call, unless it is for the descriptor behind the last one. */
  function SizeNext(size: nat, c: Call): (r: Option<nat>) {
    if !Goes(c) || c.op.ReadyOp? then Some(size)
    else if c.op.AddOp? then Some(if size <= c.fd then c.fd * 3 / 2 else size)
    else if c.fd == size then None
    else Some(size)
  }

  function SizeAfter(calls: seq<Call>): (size: Option<nat>) {
    if calls == [] then Some(96) else
      var before := SizeAfter(calls[..|calls| - 1]);
      if before == None then None else SizeNext(before.value, calls[|calls| - 1])
  }

  /** One operation on a context: what becomes of it, and who is woken. */
  function Do(f: Fd, op: Op): (e: Effect) {
    match op
    case AddOp(event, id) => Add(f, event, id)
    case DelOp(event) => Del(f, event)
    case CancelOp(event) => Cancel(f, event)
    case CancelAllOp => CancelAll(f)
    case ReadyOp(ready) => Ready(f, ready)
  }

  lemma StepDoes(l: Log, op: Op)
    ensures Step(l, op).fd == Do(l.fd, op).fd && Step(l, op).woken == l.woken + multiset(Do(l.fd, op).woken)
  {
  }

  /** Nothing happens at a descriptor without a context, unless an event is added. */
  lemma NothingThere(op: Op)
    requires !op.AddOp?
    ensures Do(EMPTY, op).fd == EMPTY && Do(EMPTY, op).woken == []
  {
    match op
    case ReadyOp(ready) => assert Real(EMPTY, ready) == NONE;
    case _ =>
  }

  /** The context of a descriptor, or what stands for it when there is none. */
  ghost function FdOf(m: IOManager, k: nat): (f: Fd)
    reads m, m.mFdCtxs, m.m_epollfds
  {
    if k < |m.mFdCtxs| then m.FdAt(k) else EMPTY
  }

  /** One call. The kernel tells nothing about a descriptor that it does not watch. */
  method Apply(m: IOManager, c: Call) returns (r: Outcome)
    requires m.Valid()
    modifies m`mFdCtxs, m`scheduled, m.mFdCtxs, m.m_epollfds
    ensures old(m.mFdCtxs) <= m.mFdCtxs && forall i :: |old(m.mFdCtxs)| <= i < |m.mFdCtxs| ==> fresh(m.mFdCtxs[i])
    ensures r == AssertFails ==> c.op.CancelOp? && 0 <= c.fd && !Cancellable(old(FdOf(m, c.fd)), c.op.event)
    ensures r == NoContext <==> SizeNext(|old(m.mFdCtxs)|, c) == None
    ensures r != NoContext ==> |m.mFdCtxs| == SizeNext(|old(m.mFdCtxs)|, c).value
    ensures r.Returns? ==>
              && m.Valid()
              && (forall k: nat :: FdOf(m, k) == if Goes(c) && k == c.fd then Do(old(FdOf(m, k)), c.op).fd
                                                 else old(FdOf(m, k)))
              && m.scheduled == old(m.scheduled) + if Goes(c) then Do(old(FdOf(m, c.fd)), c.op).woken else []
  {
    if !c.op.AddOp? {
      NothingThere(c.op);
    }
    match c.op
    case AddOp(event, id) =>
      var rt := m.AddEvent(c.fd, event, id);
      r := Returns(rt == 0);
    case DelOp(event) => r := m.DelEvent(c.fd, event);
    case CancelOp(event) => r := m.CancelEvent(c.fd, event);
    case CancelAllOp => r := m.CancelAllEvent(c.fd);
    case ReadyOp(ready) =>
      r := Returns(true);
      if m.Reached(c.fd) {
        var _ := m.Dispatch(c.fd, ready);
      }
  }

  /** Every call is for a descriptor below n. */
  predicate AllBelow(calls: seq<Call>, n: nat) {
    forall i :: 0 <= i < |calls| ==> calls[i].fd < n
  }

  /** What the calls do to the descriptors below n. */
  function Logs(calls: seq<Call>, n: nat): (logs: seq<Log>)
    ensures |logs| == n
  {
    if calls == [] then seq(n, _ => Start()) else
      var c, logs := calls[|calls| - 1], Logs(calls[..|calls| - 1], n);
      if Goes(c) && c.fd < n then logs[c.fd := Step(logs[c.fd], c.op)] else logs
  }

  /** Every cancel is of set bits, or of none. */
  predicate AllProper(calls: seq<Call>, n: nat) {
    calls == [] ||
    var c, init := calls[|calls| - 1], calls[..|calls| - 1];
    AllProper(init, n) && (Goes(c) && c.fd < n ==> Proper(Logs(init, n)[c.fd], c.op))
  }

  lemma RunMore(ops: seq<Op>, op: Op)
    requires Run(ops).Some? && Proper(Run(ops).value, op)
    ensures Run(ops + [op]) == Some(Step(Run(ops).value, op))
  {
    assert (ops + [op])[..|ops|] == ops;
  }

  /** Each descriptor sees a run of the operations that are for it. */
  lemma {:induction false} LogsAreRuns(calls: seq<Call>, n: nat, k: nat)
    requires AllProper(calls, n) && k < n
    ensures Run(OpsOf(calls, k)) == Some(Logs(calls, n)[k])
  {
    if calls != [] {
      var c, init := calls[|calls| - 1], calls[..|calls| - 1];
      LogsAreRuns(init, n, k);
      if Goes(c) && c.fd == k {
        RunMore(OpsOf(init, k), c.op);
      }
    }
  }

  // ----- all descriptors together -----

  /** The sums of the five counts. */
  datatype Sums = Sums(registered: multiset<Waiter>, woken: multiset<Waiter>, dropped: multiset<Waiter>,
                       overwritten: multiset<Waiter>, left: multiset<Waiter>)

  function Total(logs: seq<Log>): (t: Sums) {
    if logs == [] then Sums(multiset{}, multiset{}, multiset{}, multiset{}, multiset{}) else
      var t, l := Total(logs[..|logs| - 1]), logs[|logs| - 1];
      Sums(t.registered + l.registered, t.woken + l.woken, t.dropped + l.dropped, t.overwritten + l.overwritten,
           t.left + Live(l.fd))
  }

  /** Whom they have woken. */
  function AllWoken(logs: seq<Log>): (r: multiset<Waiter>) {
    if logs == [] then multiset{} else AllWoken(logs[..|logs| - 1]) + logs[|logs| - 1].woken
  }

  lemma {:induction false} WokenMore(logs: seq<Log>, i: nat, l: Log, more: multiset<Waiter>)
    requires i < |logs| && l.woken == logs[i].woken + more
    ensures AllWoken(logs[i := l]) == AllWoken(logs) + more
  {
    var n := |logs| - 1;
    if i < n {
      WokenMore(logs[..n], i, l, more);
      assert logs[i := l][..n] == logs[..n][i := l];
    } else {
      assert logs[i := l][..n] == logs[..n];
    }
  }

  /** Every registration was woken, dropped or overwritten, or is still there. */
  predicate Accounted(t: Sums) {
    t.registered == t.woken + t.dropped + t.overwritten + t.left
  }

  lemma {:induction false} TotalAccounted(logs: seq<Log>)
    requires forall i :: 0 <= i < |logs| ==> Settled(logs[i])
    ensures Accounted(Total(logs)) && Total(logs).woken == AllWoken(logs)
  {
    if logs != [] {
      TotalAccounted(logs[..|logs| - 1]);
      assert Settled(logs[|logs| - 1]);
    }
  }

  /** In every run, over all descriptors. */
  lemma AllAccounted(calls: seq<Call>, n: nat)
    requires AllProper(calls, n)
    ensures Accounted(Total(Logs(calls, n))) && Total(Logs(calls, n)).woken == AllWoken(Logs(calls, n))
  {
    forall k | 0 <= k < n ensures Settled(Logs(calls, n)[k]) {
      LogsAreRuns(calls, n, k);
      RunSettled(OpsOf(calls, k));
    }
    TotalAccounted(Logs(calls, n));
  }

  lemma {:induction false} TotalOfNone(n: nat)
    ensures AllWoken(Logs([], n)) == multiset{}
  {
    if n > 0 {
      TotalOfNone(n - 1);
      assert Logs([], n)[..n - 1] == Logs([], n - 1);
    }
  }

  // ----- every run -----

  /** Where the descriptors are, and whom they have woken. */
  datatype View = View(fds: seq<Fd>, woken: multiset<Waiter>)

  function ViewOf(logs: seq<Log>): (v: View) {
    View(seq(|logs|, k requires 0 <= k < |logs| => logs[k].fd), AllWoken(logs))
  }

  /** The manager is where the descriptors are, and has scheduled whom they have woken. */
  ghost predicate Reflects(m: IOManager, v: View)
    reads m, m.mFdCtxs, m.m_epollfds
  {
    && m.Valid() && (forall k: nat :: FdOf(m, k) == if k < |v.fds| then v.fds[k] else EMPTY)
    && multiset(m.scheduled) == v.woken
  }

  /** A call takes the descriptors from v to w, and asserts nothing false. */
  predicate Moves(v: View, c: Call, w: View) {
    c.fd < |v.fds| &&
    if !Goes(c) then w == v else
      var f := v.fds[c.fd];
      && (c.op.CancelOp? ==> Cancellable(f, c.op.event))
      && w == View(v.fds[c.fd := Do(f, c.op).fd], v.woken + multiset(Do(f, c.op).woken))
  }

  /** A proper step moves. */
  lemma StepMoves(logs: seq<Log>, c: Call)
    requires Goes(c) && c.fd < |logs| && Sync(logs[c.fd].fd) && Proper(logs[c.fd], c.op)
    ensures Moves(ViewOf(logs), c, ViewOf(logs[c.fd := Step(logs[c.fd], c.op)]))
  {
    var l, op := logs[c.fd], c.op;
    var e, next := Do(l.fd, op), logs[c.fd := Step(l, op)];
    StepDoes(l, op);
    WokenMore(logs, c.fd, Step(l, op), multiset(e.woken));
    assert ViewOf(next).fds == ViewOf(logs).fds[c.fd := e.fd];
  }

  /** One more call. */
  method ApplyNext(m: IOManager, c: Call, ghost v: View, ghost w: View) returns (ok: bool)
    requires Reflects(m, v) && Moves(v, c, w)
    modifies m`mFdCtxs, m`scheduled, m.mFdCtxs, m.m_epollfds
    ensures old(m.mFdCtxs) <= m.mFdCtxs && forall i :: |old(m.mFdCtxs)| <= i < |m.mFdCtxs| ==> fresh(m.mFdCtxs[i])
    ensures ok <==> SizeNext(|old(m.mFdCtxs)|, c).Some?
    ensures ok ==> Reflects(m, w) && |m.mFdCtxs| == SizeNext(|old(m.mFdCtxs)|, c).value
  {
    var r := Apply(m, c);
    ok := r.Returns?;
  }

  /** The calls, one after the other, up to one for a descriptor that has no context. */
  method ApplyAll(m: IOManager, calls: seq<Call>, ghost trace: seq<View>) returns (ok: bool)
    requires Path(trace, calls) && |m.mFdCtxs| == 96 && Reflects(m, trace[0])
    modifies m`mFdCtxs, m`scheduled, m.mFdCtxs, m.m_epollfds
    ensures ok <==> SizeAfter(calls).Some?
    ensures ok ==> Reflects(m, trace[|calls|]) && |m.mFdCtxs| == SizeAfter(calls).value
  {
    for i := 0 to |calls|
      invariant old(m.mFdCtxs) <= m.mFdCtxs && forall j :: |old(m.mFdCtxs)| <= j < |m.mFdCtxs| ==> fresh(m.mFdCtxs[j])
      invariant Reflects(m, trace[i]) && SizeAfter(calls[..i]) == Some(|m.mFdCtxs|)
    {
      SizeMore(calls, i);
      ok := ApplyNext(m, calls[i], trace[i], trace[i + 1]);
      if !ok {
        return;
      }
    }
    assert calls[..|calls|] == calls;
    ok := true;
  }

  /** What fails once has failed. */
  lemma {:induction false} SizeMore(calls: seq<Call>, i: nat)
    requires i < |calls|
    ensures SizeAfter(calls[..i + 1]) == if SizeAfter(calls[..i]) == None then None
                                         else SizeNext(SizeAfter(calls[..i]).value, calls[i])
    ensures SizeAfter(calls[..i + 1]) == None ==> SizeAfter(calls) == None
    decreases |calls|
  {
    assert calls[..i + 1][..i] == calls[..i];
    if i + 1 < |calls| {
      var init := calls[..|calls| - 1];
      assert init[..i + 1] == calls[..i + 1] && init[..i] == calls[..i];
      SizeMore(init, i);
    } else {
      assert calls[..i + 1] == calls;
    }
  }

  lemma LogsSync(calls: seq<Call>, n: nat)
    requires AllProper(calls, n)
    ensures forall k :: 0 <= k < n ==> Sync(Logs(calls, n)[k].fd)
  {
    forall k | 0 <= k < n ensures Sync(Logs(calls, n)[k].fd) {
      LogsAreRuns(calls, n, k);
      RunSettled(OpsOf(calls, k));
    }
  }

  lemma LastMoves(calls: seq<Call>, n: nat)
    requires calls != [] && AllBelow(calls, n) && AllProper(calls, n)
    ensures var c := calls[|calls| - 1];
            Moves(ViewOf(Logs(calls[..|calls| - 1], n)), c, ViewOf(Logs(calls, n)))
  {
    var c, init := calls[|calls| - 1], calls[..|calls| - 1];
    LogsSync(init, n);
    if Goes(c) {
      StepMoves(Logs(init, n), c);
    }
  }

  ghost predicate Path(trace: seq<View>, calls: seq<Call>) {
    |trace| == |calls| + 1 && forall i :: 0 <= i < |calls| ==> Moves(trace[i], calls[i], trace[i + 1])
  }

  lemma PathMore(trace: seq<View>, calls: seq<Call>, c: Call, w: View)
    requires Path(trace, calls) && Moves(trace[|calls|], c, w)
    ensures Path(trace + [w], calls + [c])
  {
    var t, cs := trace + [w], calls + [c];
    forall i | 0 <= i < |cs| ensures Moves(t[i], cs[i], t[i + 1]) {
      if i < |calls| {
        assert Moves(trace[i], calls[i], trace[i + 1]);
      }
    }
  }

  /** Where the descriptors are before and behind each call. */
  lemma TraceOf(calls: seq<Call>, n: nat) returns (trace: seq<View>)
    requires AllBelow(calls, n) && AllProper(calls, n)
    ensures Path(trace, calls) && trace[0] == ViewOf(Logs([], n)) && trace[|calls|] == ViewOf(Logs(calls, n))
  {
    if calls == [] {
      trace := [ViewOf(Logs([], n))];
    } else {
      var last := |calls| - 1;
      trace := TraceOf(calls[..last], n);
      LastMoves(calls, n);
      PathMore(trace, calls[..last], calls[last], ViewOf(Logs(calls, n)));
      trace := trace + [ViewOf(Logs(calls, n))];
      assert calls == calls[..last] + [calls[last]];
    }
  }

  /** The contexts of a manager. */
  method ContextsOf(m: IOManager) returns (fds: seq<Fd>)
    ensures |fds| == |m.mFdCtxs| && forall k: nat :: k < |fds| ==> fds[k] == FdOf(m, k)
  {
    fds := [];
    for i := 0 to |m.mFdCtxs|
      invariant |fds| == i && forall k: nat :: k < i ==> fds[k] == FdOf(m, k)
    {
      fds := fds + [m.FdAt(i)];
    }
  }

  /** Every list of calls, on a new manager. It gets through exactly when no call is for the descriptor behind the last
      context; then each context is what the operations for its descriptor make of it, and all that was scheduled is
      whom they have woken. */
  method Replay(calls: seq<Call>, n: nat) returns (ok: bool, fds: seq<Fd>, scheduled: seq<Waiter>)
    requires AllBelow(calls, n) && AllProper(calls, n)
    ensures ok <==> SizeAfter(calls).Some?
    ensures ok ==> |fds| == SizeAfter(calls).value && multiset(scheduled) == AllWoken(Logs(calls, n))
    ensures ok ==> forall k: nat :: k < |fds| ==> fds[k] == if k < n then Logs(calls, n)[k].fd else EMPTY
  {
    var m := new IOManager();
    TotalOfNone(n);
    ghost var trace := TraceOf(calls, n);
    ok := ApplyAll(m, calls, trace);
    fds := ContextsOf(m);
    scheduled := m.scheduled;
  }
}
