/** Event registration of iomanager.cpp for one file descriptor: its context,
    what the kernel watches for it, and who is woken. */
module EventSpec {
  import opened Prelude

  type Bit = nat

  /** A mask is the set of its bits: + is |, * is &, and - is & with the complement. */
  type Mask = set<Bit>

  const NONE: Mask := {}
  const READ: Bit := 0
  const WRITE: Bit := 2
  const EPOLLIN: Bit := 0
  const EPOLLOUT: Bit := 2
  const EPOLLERR: Bit := 3
  const EPOLLHUP: Bit := 4
  const EPOLLET: Bit := 31

  /** A callback or fiber that was registered for reading or for writing. */
  datatype Waiter = Waiter(id: int, input: bool)

  /** FdContext, and the kernel's entry for its descriptor; a context is None after reset. */
  datatype Fd = Fd(events: Mask, read: Option<Waiter>, write: Option<Waiter>, kernel: Option<Mask>)

  const EMPTY := Fd(NONE, None, None, None)

  // ----- the kernel -----

  datatype CtlOp = ADD | MOD | DEL

  /** epoll_ctl: None when it fails. */
  function EpollCtl(entry: Option<Mask>, op: CtlOp, mask: Mask): (r: Option<Option<Mask>>) {
    match op
    case ADD => if entry.None? then Some(Some(mask)) else None
    case MOD => if entry.Some? then Some(Some(mask)) else None
    case DEL => if entry.Some? then Some(None) else None
  }

  // ----- the operations -----

  /** The context, who was woken by it, and whether all assertions held. */
  datatype Effect = Effect(fd: Fd, woken: seq<Waiter>, ok: bool)

  function Ctl(f: Fd, op: CtlOp, mask: Mask): (r: Effect) {
    var r := EpollCtl(f.kernel, op, mask);
    if r.Some? then Effect(f.(kernel := r.value), [], true) else Effect(f, [], false)
  }

  /** triggerEvent of one bit. */
  function Trigger(e: Effect, bit: Bit): (r: Effect) {
    var f := e.fd.(events := e.fd.events - {bit});
    var w := if bit == READ then f.read else f.write;
    if w.Some? then Effect(f, e.woken + [w.value], e.ok) else Effect(f, e.woken, false)
  }

  function Reset(e: Effect, bit: Bit): (r: Effect) {
    e.(fd := if bit == READ then e.fd.(read := None) else e.fd.(write := None))
  }

  /** triggerEvent and reset, if the mask has the bit. */
  function Wake(e: Effect, mask: Mask, bit: Bit): (r: Effect) {
    if bit !in mask then e else Reset(Trigger(e, bit), bit)
  }

  function WakeAll(e: Effect, mask: Mask): (r: Effect) {
    Wake(Wake(e, mask, READ), mask, WRITE)
  }

  function Add(f: Fd, event: Mask, id: int): (r: Effect) {
    var g := f.(read := if READ in event then Some(Waiter(id, true)) else f.read,
                write := if WRITE in event then Some(Waiter(id, false)) else f.write,
                events := f.events + event);
    Ctl(g, if f.events != NONE then MOD else ADD, g.events + {EPOLLET})
  }

  function Del(f: Fd, event: Mask): (r: Effect) {
    if f.events !! event then Effect(f, [], true) else
      var g := f.(read := if READ in event then None else f.read,
                  write := if WRITE in event then None else f.write,
                  events := f.events - event);
      Ctl(g, if g.events != NONE then MOD else DEL, g.events + {EPOLLET})
  }

  function Cancel(f: Fd, event: Mask): (r: Effect) {
    if f.events !! event then Effect(f, [], true) else
      var g := f.(events := f.events - event);
      var e := Ctl(g, if g.events != NONE then MOD else DEL, g.events + {EPOLLET});
      WakeAll(e, event)
  }

  function CancelAll(f: Fd): (r: Effect) {
    if f.events == NONE then Effect(f, [], true) else
      WakeAll(Ctl(f.(events := NONE), DEL, NONE), f.events)
  }

  /** The bits of an epoll_wait result that concern the context. */
  function Real(f: Fd, ready: Mask): (r: Mask) {
    ((if EPOLLERR in ready || EPOLLHUP in ready then {READ, WRITE} else NONE)
     + (if EPOLLIN in ready then {READ} else NONE)
     + (if EPOLLOUT in ready then {WRITE} else NONE)) * f.events
  }

  /** triggerEvent of each bit, without a reset. */
  function Fire(e: Effect, hit: Mask): (r: Effect) {
    var e1 := if READ in hit then Trigger(e, READ) else e;
    if WRITE in hit then Trigger(e1, WRITE) else e1
  }

  /** The event part of idleFun. A failing epoll_ctl is only logged, and the contexts are not reset. */
  function Ready(f: Fd, ready: Mask): (r: Effect) {
    var hit := Real(f, ready);
    var left := f.events - hit;
    var e := Ctl(f, if left != NONE then MOD else DEL, left + {EPOLLET}).(ok := true);
    Fire(e, hit)
  }

  // ----- what every operation keeps -----

  predicate Has(f: Fd, bit: Bit) {
    bit in f.events
  }

  /** The mask mirrors the kernel's interest, and a set bit has its waiter. */
  predicate Sync(f: Fd) {
    && f.kernel == (if f.events == NONE then None else Some(f.events + {EPOLLET}))
    && (Has(f, READ) ==> f.read.Some?) && (f.read.Some? ==> f.read.value.input)
    && (Has(f, WRITE) ==> f.write.Some?) && (f.write.Some? ==> !f.write.value.input)
  }

  lemma AddKeeps(f: Fd, event: Mask, id: int)
    requires Sync(f) && event != NONE
    ensures Add(f, event, id).ok && Sync(Add(f, event, id).fd)
  {
  }

  lemma DelKeeps(f: Fd, event: Mask)
    requires Sync(f)
    ensures Del(f, event).ok && Sync(Del(f, event).fd)
  {
  }

  /** Every bit that is cancelled is set. */
  predicate AllSet(f: Fd, event: Mask) {
    (READ in event ==> READ in f.events) && (WRITE in event ==> WRITE in f.events)
  }

  lemma CancelKeeps(f: Fd, event: Mask)
    requires Sync(f) && Cancel(f, event).ok
    ensures Sync(Cancel(f, event).fd) && Cancel(f, event).fd.events == f.events - event
  {
    var g := f.events - event;
    assert READ in event ==> g - {READ} == g;
    assert WRITE in event ==> g - {WRITE} == g;
    if f.events !! event {
      forall x | x in f.events ensures x in g {
        assert x !in f.events * event;
      }
      assert g == f.events;
    }
  }

  lemma CancelAllKeeps(f: Fd)
    requires Sync(f)
    ensures CancelAll(f).ok && Sync(CancelAll(f).fd) && CancelAll(f).fd.events == NONE
  {
  }

  lemma ReadyKeeps(f: Fd, ready: Mask)
    requires Sync(f)
    ensures Ready(f, ready).ok && Sync(Ready(f, ready).fd) && Ready(f, ready).fd.events == f.events - Real(f, ready)
  {
    var hit := Real(f, ready);
    var e := f.events;
    assert READ in hit && WRITE in hit ==> e - {READ} - {WRITE} == e - hit;
    assert READ in hit && WRITE !in hit ==> e - {READ} == e - hit;
    assert READ !in hit && WRITE in hit ==> e - {WRITE} == e - hit;
    assert READ !in hit && WRITE !in hit ==> e == e - hit;
  }

  // ----- who is settled -----

  function If(b: bool, w: Option<Waiter>): (r: multiset<Waiter>) {
    if b && w.Some? then multiset{w.value} else multiset{}
  }

  /** The waiters of the set bits in a mask. */
  function LiveIn(f: Fd, mask: Mask): (r: multiset<Waiter>) {
    If(Has(f, READ) && READ in mask, f.read) + If(Has(f, WRITE) && WRITE in mask, f.write)
  }

  function Live(f: Fd): (r: multiset<Waiter>) {
    LiveIn(f, {READ, WRITE})
  }

  /** What one addEvent registers. */
  function Registered(event: Mask, id: int): (r: multiset<Waiter>) {
    (if READ in event then multiset{Waiter(id, true)} else multiset{})
    + (if WRITE in event then multiset{Waiter(id, false)} else multiset{})
  }

  lemma AddSettles(f: Fd, event: Mask, id: int)
    requires Sync(f) && event != NONE
    ensures Live(f) + Registered(event, id) == Live(Add(f, event, id).fd) + LiveIn(f, event)
  {
    AddKeeps(f, event, id);
  }

  /** Taking the bits of event out of the mask takes their waiters out of the live ones. */
  lemma LiveLess(f: Fd, g: Fd, event: Mask)
    requires g.events == f.events - event
    requires READ !in event ==> g.read == f.read
    requires WRITE !in event ==> g.write == f.write
    ensures Live(f) == Live(g) + LiveIn(f, event)
  {
  }

  lemma DelSettles(f: Fd, event: Mask)
    requires Sync(f)
    ensures Live(f) == Live(Del(f, event).fd) + LiveIn(f, event)
  {
    if f.events !! event {
      DisjointMinus(f.events, event);
    }
    LiveLess(f, Del(f, event).fd, event);
  }

  lemma DisjointMinus(a: Mask, b: Mask)
    requires a !! b
    ensures a - b == a
  {
  }

  /** Each bit that is cancelled has a waiter in its context, set or not; or none of them is set. */
  predicate Cancellable(f: Fd, event: Mask) {
    f.events !! event || ((READ in event ==> f.read.Some?) && (WRITE in event ==> f.write.Some?))
  }

  lemma CancelOk(f: Fd, event: Mask)
    requires Sync(f)
    ensures Cancel(f, event).ok <==> Cancellable(f, event)
  {
  }

  /** Whom a cancel wakes: whoever is in the contexts of its bits. */
  lemma CancelWakes(f: Fd, event: Mask)
    requires Sync(f) && !(f.events !! event)
    ensures multiset(Cancel(f, event).woken) == If(READ in event, f.read) + If(WRITE in event, f.write)
  {
  }

  lemma CancelSettles(f: Fd, event: Mask)
    requires Sync(f) && (f.events !! event || AllSet(f, event))
    ensures multiset(Cancel(f, event).woken) == LiveIn(f, event)
    ensures Live(f) == Live(Cancel(f, event).fd) + LiveIn(f, event)
  {
    CancelOk(f, event);
    if !(f.events !! event) {
      CancelWakes(f, event);
    }
    CancelKeeps(f, event);
    LiveLess(f, Cancel(f, event).fd, event);
  }

  lemma CancelAllSettles(f: Fd)
    requires Sync(f)
    ensures multiset(CancelAll(f).woken) == Live(f) && Live(CancelAll(f).fd) == multiset{}
  {
    CancelAllKeeps(f);
  }

  /** Whom a readiness wakes. */
  lemma ReadyWakes(f: Fd, ready: Mask)
    requires Sync(f)
    ensures var hit := Real(f, ready);
            multiset(Ready(f, ready).woken) == If(READ in hit, f.read) + If(WRITE in hit, f.write)
  {
  }

  /** The descriptor can be read, or has an error. */
  predicate CanRead(ready: Mask) {
    EPOLLIN in ready || EPOLLERR in ready || EPOLLHUP in ready
  }

  predicate CanWrite(ready: Mask) {
    EPOLLOUT in ready || EPOLLERR in ready || EPOLLHUP in ready
  }

  /** The waiter as a list. */
  function Alone(b: bool, w: Option<Waiter>): (r: seq<Waiter>) {
    if b && w.Some? then [w.value] else []
  }

  /** Whom epoll_wait wakes: the reader if and only if it waits and the descriptor can be read, the writer if and only
      if it waits and the descriptor can be written, and these are the bits that leave the mask. */
  lemma ReadyExactly(f: Fd, ready: Mask)
    requires Sync(f)
    ensures var e := Ready(f, ready);
            var input, output := Has(f, READ) && CanRead(ready), Has(f, WRITE) && CanWrite(ready);
            && e.woken == Alone(input, f.read) + Alone(output, f.write)
            && (input ==> f.read.Some?) && (output ==> f.write.Some?)
            && e.fd.read == f.read && e.fd.write == f.write
            && forall bit :: bit in e.fd.events <==>
                 bit in f.events && !(bit == READ && input) && !(bit == WRITE && output)
  {
    ReadyKeeps(f, ready);
    var hit := Real(f, ready);
    assert READ in hit <==> Has(f, READ) && CanRead(ready);
    assert WRITE in hit <==> Has(f, WRITE) && CanWrite(ready);
  }

  lemma ReadySettles(f: Fd, ready: Mask)
    requires Sync(f)
    ensures multiset(Ready(f, ready).woken) == LiveIn(f, Real(f, ready))
    ensures Live(f) == Live(Ready(f, ready).fd) + LiveIn(f, Real(f, ready))
  {
    ReadyKeeps(f, ready);
    ReadyWakes(f, ready);
    var hit := Real(f, ready);
    assert (READ in hit ==> Has(f, READ)) && (WRITE in hit ==> Has(f, WRITE));
    LiveLess(f, Ready(f, ready).fd, hit);
  }

  /** A cancel wakes exactly the waiters of the bits that it clears, and asserts nothing false, if and only if all of
      its bits are set: for one that is not, it wakes a stale waiter again, or finds none. */
  lemma CancelExactly(f: Fd, event: Mask)
    requires Sync(f) && !(f.events !! event)
    ensures Cancel(f, event).ok && multiset(Cancel(f, event).woken) == LiveIn(f, event) <==> AllSet(f, event)
  {
    CancelOk(f, event);
    CancelWakes(f, event);
    var all := If(READ in event, f.read) + If(WRITE in event, f.write);
    if AllSet(f, event) {
      CancelSettles(f, event);
    } else if Cancel(f, event).ok {
      if READ in event && !Has(f, READ) {
        assert all[f.read.value] > 0 == LiveIn(f, event)[f.read.value];
      } else {
        assert all[f.write.value] > 0 == LiveIn(f, event)[f.write.value];
      }
    }
  }

  /** There are such contexts: a waiter for reading is woken, another one waits for writing, and a cancel of both bits
      wakes the first one again. */
  lemma StaleIsWokenAgain(a: int, b: int)
    ensures var woken := Ready(Add(EMPTY, {READ}, a).fd, {EPOLLIN});
            var both := Cancel(Add(woken.fd, {WRITE}, b).fd, {READ, WRITE});
            && woken.ok && woken.woken == [Waiter(a, true)]
            && both.ok && both.woken == [Waiter(a, true), Waiter(b, false)]
  {
    var f := Add(EMPTY, {READ}, a).fd;
    AddKeeps(EMPTY, {READ}, a);
    assert Real(f, {EPOLLIN}) == {READ};
    ReadyKeeps(f, {EPOLLIN});
    var g := Ready(f, {EPOLLIN}).fd;
    AddKeeps(g, {WRITE}, b);
    var h := Add(g, {WRITE}, b).fd;
    assert h.events == {WRITE} && WRITE in h.events * {READ, WRITE};
    CancelOk(h, {READ, WRITE});
  }

  // ----- every run -----

  /** What happened to the registrations for a descriptor so far. */
  datatype Log = Log(fd: Fd, registered: multiset<Waiter>, woken: multiset<Waiter>, dropped: multiset<Waiter>,
                     overwritten: multiset<Waiter>)

  datatype Op =
    | AddOp(event: Mask, id: int) | DelOp(event: Mask) | CancelOp(event: Mask) | CancelAllOp | ReadyOp(ready: Mask)

  function Step(l: Log, op: Op): (r: Log) {
    match op
    case AddOp(event, id) =>
      l.(fd := Add(l.fd, event, id).fd, registered := l.registered + Registered(event, id),
         overwritten := l.overwritten + LiveIn(l.fd, event))
    case DelOp(event) => l.(fd := Del(l.fd, event).fd, dropped := l.dropped + LiveIn(l.fd, event))
    case CancelOp(event) =>
      var e := Cancel(l.fd, event);
      l.(fd := e.fd, woken := l.woken + multiset(e.woken))
    case CancelAllOp =>
      var e := CancelAll(l.fd);
      l.(fd := e.fd, woken := l.woken + multiset(e.woken))
    case ReadyOp(ready) =>
      var e := Ready(l.fd, ready);
      l.(fd := e.fd, woken := l.woken + multiset(e.woken))
  }

  /** The calls of the interface: some bit to add, and only set bits to cancel. */
  predicate Proper(l: Log, op: Op) {
    (op.AddOp? ==> op.event != NONE)
    && (op.CancelOp? ==> l.fd.events !! op.event || AllSet(l.fd, op.event))
  }

  /** The assertions of the code in this operation. */
  predicate Asserted(l: Log, op: Op) {
    match op
    case AddOp(event, id) => Add(l.fd, event, id).ok
    case DelOp(event) => Del(l.fd, event).ok
    case CancelOp(event) => Cancel(l.fd, event).ok
    case CancelAllOp => CancelAll(l.fd).ok
    case ReadyOp(ready) => Ready(l.fd, ready).ok
  }

  function Start(): (r: Log) {
    Log(EMPTY, multiset{}, multiset{}, multiset{}, multiset{})
  }

  function Run(ops: seq<Op>): (r: Option<Log>) {
    if ops == [] then Some(Start()) else
      var before := Run(ops[..|ops| - 1]);
      if before.Some? && Proper(before.value, ops[|ops| - 1]) then Some(Step(before.value, ops[|ops| - 1])) else None
  }

  predicate Settled(l: Log) {
    l.registered == l.woken + l.dropped + l.overwritten + Live(l.fd)
  }

  lemma StepSettled(l: Log, op: Op)
    requires Sync(l.fd) && Settled(l) && Proper(l, op)
    ensures Asserted(l, op) && Sync(Step(l, op).fd) && Settled(Step(l, op))
  {
    match op
    case AddOp(event, id) =>
      AddKeeps(l.fd, event, id);
      AddSettles(l.fd, event, id);
      Overwrite(l, Live(l.fd), Registered(event, id), Live(Step(l, op).fd), LiveIn(l.fd, event));
    case DelOp(event) =>
      DelKeeps(l.fd, event);
      DelSettles(l.fd, event);
      Settle(l, Live(Step(l, op).fd), LiveIn(l.fd, event));
    case CancelOp(event) =>
      CancelOk(l.fd, event);
      CancelKeeps(l.fd, event);
      CancelSettles(l.fd, event);
      Settle(l, Live(Step(l, op).fd), LiveIn(l.fd, event));
    case CancelAllOp =>
      CancelAllKeeps(l.fd);
      CancelAllSettles(l.fd);
      Settle(l, multiset{}, Live(l.fd));
    case ReadyOp(ready) =>
      ReadyKeeps(l.fd, ready);
      ReadySettles(l.fd, ready);
      Settle(l, Live(Step(l, op).fd), LiveIn(l.fd, Real(l.fd, ready)));
  }

  lemma Settle(l: Log, rest: multiset<Waiter>, x: multiset<Waiter>)
    requires Settled(l) && Live(l.fd) == rest + x
    ensures l.registered == (l.woken + x) + l.dropped + l.overwritten + rest
    ensures l.registered == l.woken + (l.dropped + x) + l.overwritten + rest
  {
  }

  lemma Overwrite(l: Log, live: multiset<Waiter>, r: multiset<Waiter>, rest: multiset<Waiter>, x: multiset<Waiter>)
    requires l.registered == l.woken + l.dropped + l.overwritten + live && live + r == rest + x
    ensures l.registered + r == l.woken + l.dropped + (l.overwritten + x) + rest
  {
    var a := l.woken + l.dropped + l.overwritten;
    assert l.registered + r == a + (live + r);
    assert l.woken + l.dropped + (l.overwritten + x) + rest == a + (rest + x);
  }

  /** In every run the mask mirrors the kernel, and the registrations are the wake-ups, the silent drops, the ones that
      were overwritten and the ones that are still set. */
  lemma {:induction false} RunSettled(ops: seq<Op>)
    requires Run(ops).Some?
    ensures Sync(Run(ops).value.fd) && Settled(Run(ops).value)
  {
    if ops != [] {
      RunSettled(ops[..|ops| - 1]);
      StepSettled(Run(ops[..|ops| - 1]).value, ops[|ops| - 1]);
    }
  }

  /** So no assertion ever fails, and a waiter that is registered once is settled at most once. */
  lemma SettledOnce(ops: seq<Op>, op: Op, w: Waiter)
    requires Run(ops).Some? && Proper(Run(ops).value, op)
    ensures Asserted(Run(ops).value, op)
    ensures var l := Run(ops).value;
            l.woken[w] + l.dropped[w] + l.overwritten[w] + Live(l.fd)[w] == l.registered[w]
  {
    RunSettled(ops);
    StepSettled(Run(ops).value, op);
  }
}
