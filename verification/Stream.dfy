/** SocketStream over a socket that transfers as little as it likes, and the
    loops of Stream that ask again until everything is through. */
module Streams {
  import opened Prelude
  import opened Codec
  import opened NodeLists
  import opened ByteArrays

  // ----- windows in memory -----

  lemma {:induction false} GatherLength(ws: seq<Window>)
    requires InBounds(ws)
    ensures |Gather(ws)| == Total(ws)
  {
    if ws != [] {
      assert ws[0].off + ws[0].len <= ws[0].base.Length;
      GatherLength(ws[1..]);
    }
  }

  /** The first n bytes that the windows show, taken out by sendmsg. */
  method Collect(ws: seq<Window>, n: nat) returns (data: seq<byte>)
    requires InBounds(ws) && n <= Total(ws)
    ensures |Gather(ws)| == Total(ws) && data == Gather(ws)[..n]
    decreases ws
  {
    GatherLength(ws);
    if n == 0 {
      return [];
    }
    var w := ws[0];
    assert w.off + w.len <= w.base.Length;
    if n <= w.len {
      data := w.base[w.off..w.off + n];
    } else {
      var rest := Collect(ws[1..], n - w.len);
      data := w.base[w.off..w.off + w.len] + rest;
    }
  }

  /** The windows from offset off of node i on are where the bytes of data from k on go. */
  ghost predicate FillAt(l: List, ws: seq<Window>, i: nat, off: nat, at: nat, k: nat, data: seq<byte>, len: nat) {
    && l.Shape() && k <= |data| <= len
    && (k < |data| ==> off < l.b && Offset(i, l.b) + off == at + k && at + len <= l.Cap()
                       && ws == WindowsOf(l, i, off, len - k))
  }

  /** data put into the first window, as far as it goes. */
  method FillStep(ws: seq<Window>, data: seq<byte>, k: nat, ghost l: List, ghost i: nat, ghost off: nat,
                  ghost f: seq<byte>, ghost at: nat, ghost len: nat)
    returns (k': nat, ghost i': nat)
    requires l.Chain() && k < |data| && FillAt(l, ws, i, off, at, k, data, len) && l.Holds(f, at, data, k)
    modifies l.bufs
    ensures k < k' && ws != [] && FillAt(l, ws[1..], i', 0, at, k', data, len) && l.Holds(f, at, data, k')
  {
    ghost var w, m, rest := WindowsCons(l, i, off, len - k);
    var n := Min(ws[0].len, |data| - k);
    CopyIn(ws[0].base, ws[0].off, data, k, n, l, i, f, at);
    k', i' := k + n, i + 1;
    assert ws[1..] == rest;
  }

  /** data put into the windows by recvmsg. */
  method Fill(ws0: seq<Window>, data: seq<byte>, ghost l: List, ghost i0: nat, ghost off0: nat, ghost len: nat)
    requires l.Chain() && off0 < l.b && Offset(i0, l.b) + off0 + len <= l.Cap() && |data| <= len
    requires ws0 == WindowsOf(l, i0, off0, len)
    modifies l.bufs
    ensures Spliced(l.Bytes(), old(l.Bytes()), Offset(i0, l.b) + off0, data)
  {
    ghost var f, at, i, off := l.Bytes(), Offset(i0, l.b) + off0, i0, off0;
    l.BytesLength();
    var ws, k: nat := ws0, 0;
    while k < |data|
      invariant FillAt(l, ws, i, off, at, k, data, len) && l.Holds(f, at, data, k)
    {
      k, i := FillStep(ws, data, k, l, i, off, f, at, len);
      ws, off := ws[1..], 0;
    }
    l.HoldsAll(f, at, data);
  }

  // ----- the socket -----

  /** What the peer has sent and what the peer gets. A transfer moves any number of the bytes that it could move,
      or fails. */
  class Socket {
    var m_isConnected: bool
    var inbox: seq<byte>
    var outbox: seq<byte>
    ghost var counts: seq<int>   // what the transfers have returned

    constructor (incoming: seq<byte>)
      ensures m_isConnected && inbox == incoming && outbox == [] && counts == []
    {
      m_isConnected, inbox, outbox, counts := true, incoming, [], [];
    }

    /** The count of one transfer of at most len bytes: -1 or 0, or anything up to len that an int can hold. */
    method Choose(len: nat) returns (rt: int)
      ensures -1 <= rt <= len && rt < 0x8000_0000
    {
      rt :| -1 <= rt <= 0 || (rt <= len && 0 < rt < 0x8000_0000);
    }

    /** recvmsg into the windows from offset off of node i on. */
    method Recv(buffers: seq<Window>, ghost l: List, ghost i: nat, ghost off: nat, ghost len: nat) returns (rt: int)
      requires l.Chain() && off < l.b && Offset(i, l.b) + off + len <= l.Cap()
      requires buffers == WindowsOf(l, i, off, len)
      modifies `inbox, `counts, l.bufs
      ensures -1 <= rt <= len && rt <= |old(inbox)| && rt < 0x8000_0000 && counts == old(counts) + [rt]
      ensures inbox == old(inbox)[Max(rt, 0)..]
      ensures Spliced(l.Bytes(), old(l.Bytes()), Offset(i, l.b) + off, old(inbox)[..Max(rt, 0)])
    {
      WindowsTotal(l, i, off, len);
      l.BytesLength();
      rt := -1;
      if m_isConnected {
        rt := Choose(Min(Total(buffers), |inbox|));
      }
      var data := inbox[..Max(rt, 0)];
      inbox, counts := inbox[Max(rt, 0)..], counts + [rt];
      Fill(buffers, data, l, i, off, len);
    }

    /** sendmsg of the windows. */
    method Send(buffers: seq<Window>) returns (rt: int)
      requires InBounds(buffers)
      modifies `outbox, `counts
      ensures |Gather(buffers)| == Total(buffers) && -1 <= rt <= Total(buffers) && rt < 0x8000_0000
      ensures counts == old(counts) + [rt]
      ensures outbox == old(outbox) + Gather(buffers)[..Max(rt, 0)]
    {
      rt := -1;
      if m_isConnected {
        rt := Choose(Total(buffers));
      }
      var data := Collect(buffers, Max(rt, 0));
      outbox, counts := outbox + data, counts + [rt];
    }

    method RecvBytes(len: nat) returns (rt: int, data: seq<byte>)
      modifies `inbox, `counts
      ensures -1 <= rt <= len && rt <= |old(inbox)| && rt < 0x8000_0000 && counts == old(counts) + [rt]
      ensures data == old(inbox)[..Max(rt, 0)] && inbox == old(inbox)[Max(rt, 0)..]
    {
      rt := -1;
      if m_isConnected {
        rt := Choose(Min(len, |inbox|));
      }
      data, inbox, counts := inbox[..Max(rt, 0)], inbox[Max(rt, 0)..], counts + [rt];
    }

    method SendBytes(data: seq<byte>) returns (rt: int)
      modifies `outbox, `counts
      ensures -1 <= rt <= |data| && rt < 0x8000_0000 && counts == old(counts) + [rt]
      ensures outbox == old(outbox) + data[..Max(rt, 0)]
    {
      rt := -1;
      if m_isConnected {
        rt := Choose(|data|);
      }
      outbox, counts := outbox + data[..Max(rt, 0)], counts + [rt];
    }
  }

  // ----- transfers that are asked for again -----

  /** How much the transfers have moved. */
  function Moved(cs: seq<int>): (n: nat) {
    if cs == [] then 0 else Moved(cs[..|cs| - 1]) + Max(cs[|cs| - 1], 0)
  }

  /** The transfers so far have all moved something, together k bytes. */
  ghost predicate Going(cs: seq<int>, k: nat) {
    (forall i :: 0 <= i < |cs| ==> cs[i] > 0) && Moved(cs) == k
  }

  /** There is no connection, or the last transfer moved nothing. */
  predicate Stopped(cs: seq<int>, connected: bool) {
    !connected || (cs != [] && cs[|cs| - 1] <= 0)
  }

  /** What the last transfer has returned. */
  function Final(cs: seq<int>, connected: bool): (ret: int) {
    if connected && cs != [] then cs[|cs| - 1] else -1
  }

  /** Every transfer but the last has moved something, and none is made without a connection. */
  ghost predicate Unbroken(cs: seq<int>, connected: bool) {
    (forall i :: 0 <= i < |cs| - 1 ==> cs[i] > 0) && (!connected ==> cs == [])
  }

  /** What comes behind transfers that did not stop. */
  lemma Joined(a: seq<int>, b: seq<int>, connected: bool)
    requires Unbroken(a, connected) && !Stopped(a, connected) && Unbroken(b, connected)
    ensures Unbroken(a + b, connected) && (Stopped(a + b, connected) <==> Stopped(b, connected))
  {
  }

  /** A loop for n bytes has moved k: it asks again after every transfer that moved something, and gives up if and only
      if one did not, or there is no connection. */
  ghost predicate Persists(cs: seq<int>, connected: bool, n: int, k: nat) {
    && Unbroken(cs, connected) && Moved(cs) == k && (n <= k ==> forall i :: 0 <= i < |cs| ==> cs[i] > 0)
    && (k < n <==> 0 < n && Stopped(cs, connected))
  }

  lemma GoingEnds(cs: seq<int>, connected: bool, n: int, k: nat)
    requires Going(cs, k) && n <= k && (0 < n ==> connected) && (!connected ==> cs == [])
    ensures Persists(cs, connected, n, k)
  {
  }

  lemma GoingFails(cs: seq<int>, connected: bool, n: int, k: nat, c: int)
    requires Going(cs, k) && k < n && c <= 0 && (!connected ==> cs == [] && c == -1)
    ensures var more := if connected then cs + [c] else cs;
            Persists(more, connected, n, k) && Final(more, connected) == c
  {
    GoingMore(cs, k, c);
  }

  lemma GoingMore(cs: seq<int>, k: nat, c: int)
    requires Going(cs, k)
    ensures Moved(cs + [c]) == k + Max(c, 0) && (0 < c ==> Going(cs + [c], k + c))
  {
    assert (cs + [c])[..|cs|] == cs;
  }

  // ----- the stream -----

  /** The windows of getReadBuffers show what can be read next. */
  lemma ShowsRest(ba: ByteArray, buffers: seq<Window>, len: nat)
    requires ba.Reading() && len <= |ba.Rest()| && ba.Show(buffers, len)
    ensures Gather(buffers) == ba.Rest()[..len]
  {
    SliceWithin(ba.Bytes(), ba.m_pos, ba.m_size, 0, len);
  }

  /** The capacity of an array into which all bytes up to end are to be received, if there is a connection. */
  function Room(connected: bool, cap: nat, end: nat, b: nat): (c: nat)
    requires 0 < b
  {
    if connected then Capacity(cap, end, b) else cap
  }

  /** There is room up to position end, or it is still to be made. */
  lemma RoomOnce(connected: bool, now: nat, cap: nat, end: nat, b: nat)
    requires 0 < b && (now == cap || now == Room(connected, cap, end, b))
    ensures Room(connected, now, end, b) == Room(connected, cap, end, b)
    ensures end <= cap ==> Room(connected, cap, end, b) == cap
  {
  }

  class SocketStream {
    const m_socket: Socket

    constructor (sock: Socket)
      ensures m_socket == sock
    {
      m_socket := sock;
    }

    /** A loop for n bytes has moved k and returned ret, where full stands for all of them; the transfers before it have
        returned was. It gives up if and only if a transfer moved nothing, and returns what that one returned. */
    ghost predicate Tried(was: seq<int>, n: int, k: nat, ret: int, full: int)
      reads m_socket
    {
      was <= m_socket.counts &&
      var cs := m_socket.counts[|was|..];
      && Persists(cs, m_socket.m_isConnected, n, k)
      && ret == if k < n then Final(cs, m_socket.m_isConnected) else full
    }

    /** The transfers since was. */
    ghost function Since(was: seq<int>): (cs: seq<int>)
      reads m_socket
      requires was <= m_socket.counts
    {
      m_socket.counts[|was|..]
    }

    /** They have stopped. */
    ghost predicate Gave(was: seq<int>)
      reads m_socket
    {
      was <= m_socket.counts && Stopped(Since(was), m_socket.m_isConnected)
    }

    /** Until then each of them has moved something. */
    ghost predicate Kept(was: seq<int>)
      reads m_socket
    {
      was <= m_socket.counts && Unbroken(Since(was), m_socket.m_isConnected)
    }

    /** All of them have. */
    ghost predicate Moving(was: seq<int>)
      reads m_socket
    {
      was <= m_socket.counts && forall i :: 0 <= i < |Since(was)| ==> Since(was)[i] > 0
    }

    lemma TwoMoving(was: seq<int>, mid: seq<int>)
      requires was <= mid <= m_socket.counts && Unbroken(mid[|was|..], m_socket.m_isConnected)
      requires !Stopped(mid[|was|..], m_socket.m_isConnected) && Moving(mid)
      ensures Moving(was)
    {
      assert Since(was) == mid[|was|..] + Since(mid);
    }

    lemma TwoGave(was: seq<int>, mid: seq<int>)
      requires was <= mid <= m_socket.counts && Gave(mid)
      ensures Gave(was)
    {
      assert Since(was) == mid[|was|..] + Since(mid);
    }

    /** The transfers of two parts, where those of the first part did not stop. */
    lemma TwoParts(was: seq<int>, mid: seq<int>)
      requires was <= mid <= m_socket.counts && Unbroken(mid[|was|..], m_socket.m_isConnected)
      requires !Stopped(mid[|was|..], m_socket.m_isConnected) && Kept(mid)
      ensures Kept(was) && (Gave(was) <==> Gave(mid))
    {
      Joined(mid[|was|..], Since(mid), m_socket.m_isConnected);
      assert Since(was) == mid[|was|..] + Since(mid);
    }

    /** Where such a loop is. */
    ghost predicate Trying(was: seq<int>, cs: seq<int>, k: nat)
      reads m_socket
    {
      m_socket.counts == was + cs && Going(cs, k) && (cs != [] ==> m_socket.m_isConnected)
    }

    lemma TriedAll(was: seq<int>, cs: seq<int>, n: int, k: nat, full: int)
      requires Trying(was, cs, k) && n <= k && (0 < n ==> cs != [])
      ensures Tried(was, n, k, full, full)
    {
      GoingEnds(cs, m_socket.m_isConnected, n, k);
      assert m_socket.counts[|was|..] == cs;
    }

    lemma TriedInVain(was: seq<int>, cs: seq<int>, n: int, k: nat, ret: int, full: int)
      requires m_socket.counts == was + cs && k < n
      requires Persists(cs, m_socket.m_isConnected, n, k) && Final(cs, m_socket.m_isConnected) == ret
      ensures Tried(was, n, k, ret, full)
    {
      assert m_socket.counts[|was|..] == cs;
    }

    /** What the transfers have returned when one more is asked for and rt is the result. */
    ghost function Next(counts: seq<int>, rt: int): (r: seq<int>)
      reads m_socket
    {
      if m_socket.m_isConnected then counts + [rt] else counts
    }

    /** One transfer into the windows at the cursor. */
    method TransferIn(ba: ByteArray, buffers: seq<Window>, length: nat) returns (rt: int)
      requires ba.Valid() && ba.Show(buffers, length) && m_socket !in ba.Repr
      modifies ba.list.bufs, m_socket`inbox, m_socket`counts
      ensures ba.Valid() && |ba.Bytes()| == ba.m_cap && unchanged(ba)
      ensures -1 <= rt <= length && rt <= |old(m_socket.inbox)| && rt < 0x8000_0000
      ensures m_socket.inbox == old(m_socket.inbox)[Max(rt, 0)..] && m_socket.counts == old(m_socket.counts) + [rt]
      ensures Spliced(ba.Bytes(), old(ba.Bytes()), ba.Phys(), old(m_socket.inbox)[..Max(rt, 0)])
    {
      rt := m_socket.Recv(buffers, ba.list, ba.index, Rem(ba.m_pos, ba.m_baseSize), length);
      ba.Shape();
    }

    /** Windows for length bytes at the cursor, and one transfer into them. */
    method Receive(ba: ByteArray, length: nat, ghost c: nat) returns (rt: int)
      requires ba.Valid() && m_socket !in ba.Repr && ba.m_cur != null && 0 < length
      requires c == Capacity(ba.m_cap, ba.m_pos + length, ba.m_baseSize)
      modifies ba.Repr, m_socket`inbox, m_socket`counts
      ensures ba.Valid() && fresh(ba.Repr - old(ba.Repr))
      ensures ba.m_cur != null && ba.m_pos == old(ba.m_pos) && ba.m_size == old(ba.m_size)
      ensures ba.m_pos + length <= ba.m_cap == c && ba.Phys() == old(ba.WriteAt())
      ensures -1 <= rt <= length && rt <= |old(m_socket.inbox)| && rt < 0x8000_0000
      ensures m_socket.inbox == old(m_socket.inbox)[Max(rt, 0)..] && m_socket.counts == old(m_socket.counts) + [rt]
      ensures Written(ba.Bytes(), old(ba.Bytes()), old(ba.WriteAt()), old(m_socket.inbox)[..Max(rt, 0)])
    {
      ghost var f, at, inbox := ba.Bytes(), ba.WriteAt(), m_socket.inbox;
      ba.Shape();
      var buffers := ba.GetWriteBuffers(length);
      assert ba.m_cap == c;
      ghost var h := ba.Bytes();
      rt := TransferIn(ba, buffers, length);
      WrittenFromSplice(ba.Bytes(), h, f, at, inbox[..Max(rt, 0)]);
    }

    /** The position behind what came. */
    method Advance(ba: ByteArray, rt: int)
      requires ba.Valid() && ba.m_cur != null && ba.m_pos + Max(rt, 0) <= ba.m_cap && ba.m_pos < ba.m_cap
      modifies ba`m_pos, ba`m_size, ba`m_cur, ba`index
      ensures ba.Valid() && ba.Bytes() == old(ba.Bytes()) && ba.m_cap == old(ba.m_cap)
      ensures ba.m_pos == old(ba.m_pos) + Max(rt, 0) && ba.m_size == Max(old(ba.m_size), ba.m_pos)
      ensures ba.WriteAt() == if 0 < rt then ba.m_pos else old(ba.WriteAt())
      ensures ba.m_cur == null <==> 0 < rt && ba.m_pos == ba.m_cap
    {
      if rt > 0 {
        var _ := ba.SetPos(ba.m_pos + rt);
      }
    }

    lemma WrittenNothing(ba: ByteArray)
      requires ba.Valid()
      ensures Written(ba.Bytes(), ba.Bytes(), ba.WriteAt(), m_socket.inbox[..0])
    {
      ba.Shape();
    }

    /** read into an array: windows for all of length, one transfer, and the position behind what came. The bytes go to
        where a write would go, and everything else stays. */
    method Read(ba: ByteArray, length: nat) returns (rt: int)
      requires ba.Valid() && m_socket !in ba.Repr && ba.m_cur != null && 0 < length
      modifies ba.Repr, m_socket`inbox, m_socket`counts
      ensures ba.Valid() && fresh(ba.Repr - old(ba.Repr))
      ensures -1 <= rt <= length && rt <= |old(m_socket.inbox)| && rt < 0x8000_0000
      ensures (!m_socket.m_isConnected ==> rt == -1) && m_socket.counts == Next(old(m_socket.counts), rt)
      ensures m_socket.inbox == old(m_socket.inbox)[Max(rt, 0)..]
      ensures Written(ba.Bytes(), old(ba.Bytes()), old(ba.WriteAt()), old(m_socket.inbox)[..Max(rt, 0)])
      ensures ba.m_pos == old(ba.m_pos) + Max(rt, 0) && ba.m_size == Max(old(ba.m_size), ba.m_pos)
      ensures ba.m_cap == Room(m_socket.m_isConnected, old(ba.m_cap), old(ba.m_pos) + length, ba.m_baseSize)
      ensures ba.WriteAt() == if 0 < rt then ba.m_pos else old(ba.WriteAt())
      ensures ba.m_cur == null <==> rt == length && ba.m_pos == ba.m_cap
    {
      if !m_socket.m_isConnected {
        WrittenNothing(ba);
        return -1;
      }
      rt := Receive(ba, length, Capacity(ba.m_cap, ba.m_pos + length, ba.m_baseSize));
      Advance(ba, rt);
    }

    /** The first k bytes of s have come into ba, whose bytes were f, at position pos; its size was size. */
    ghost predicate Landed(ba: ByteArray, f: seq<byte>, pos: nat, size: nat, s: seq<byte>, k: nat)
      reads ba, ba.Repr, m_socket
    {
      && ba.Valid() && m_socket !in ba.Repr && ba.WriteAt() == ba.m_pos
      && k <= |s| && m_socket.inbox == s[k..]
      && Written(ba.Bytes(), f, pos, s[..k]) && ba.m_pos == pos + k && ba.m_size == Max(size, pos + k)
    }

    lemma NothingLanded(ba: ByteArray)
      requires ba.Valid() && m_socket !in ba.Repr && ba.WriteAt() == ba.m_pos
      ensures Landed(ba, ba.Bytes(), ba.m_pos, ba.m_size, m_socket.inbox, 0)
    {
      WrittenNothing(ba);
    }

    /** n bytes more behind the first k. */
    lemma MoreLanded(ba: ByteArray, f: seq<byte>, g: seq<byte>, pos: nat, size: nat, s: seq<byte>, k: nat, n: nat)
      requires ba.Valid() && m_socket !in ba.Repr && ba.WriteAt() == ba.m_pos == pos + k + n && k + n <= |s|
      requires ba.m_size == Max(Max(size, pos + k), pos + k + n) && m_socket.inbox == s[k..][n..]
      requires Written(g, f, pos, s[..k]) && Written(ba.Bytes(), g, pos + k, s[k..][..n])
      ensures Landed(ba, f, pos, size, s, k + n)
    {
      WrittenOn(ba.Bytes(), g, f, pos, s, k, n);
    }

    /** What is left goes up to position end, and c is the capacity with room for it. */
    ghost predicate Awaits(ba: ByteArray, end: nat, c: nat)
      reads ba, m_socket
    {
      0 < ba.m_baseSize && Room(m_socket.m_isConnected, ba.m_cap, end, ba.m_baseSize) == c
    }

    /** One more transfer. */
    method ReadOn(ba: ByteArray, left: nat, ghost f: seq<byte>, ghost pos: nat, ghost size: nat,
                  ghost s: seq<byte>, ghost k: nat) returns (len: int, ghost more: nat)
      requires Landed(ba, f, pos, size, s, k) && 0 < left && ba.m_cur != null
      modifies ba.Repr, m_socket`inbox, m_socket`counts
      ensures fresh(ba.Repr - old(ba.Repr)) && -1 <= len <= left && (!m_socket.m_isConnected ==> len == -1)
      ensures m_socket.counts == Next(old(m_socket.counts), len)
      ensures more == k + Max(len, 0) && Landed(ba, f, pos, size, s, more)
      ensures ba.m_cap == Room(m_socket.m_isConnected, old(ba.m_cap), old(ba.m_pos) + left, ba.m_baseSize)
      ensures ba.m_cur == null <==> len == left && ba.m_pos == ba.m_cap
    {
      ghost var g, rest, at := ba.Bytes(), s[k..], pos + k;
      assert m_socket.inbox == rest && ba.WriteAt() == at;
      len := Read(ba, left);
      ghost var n := Max(len, 0);
      more := k + n;
      assert Written(ba.Bytes(), g, at, rest[..n]);
      MoreLanded(ba, f, g, pos, size, s, k, n);
    }

    /** One more transfer towards position end. */
    method ReadUpTo(ba: ByteArray, left: nat, ghost f: seq<byte>, ghost pos: nat, ghost size: nat,
                    ghost s: seq<byte>, ghost k: nat, ghost end: nat, ghost c: nat) returns (len: int, ghost more: nat)
      requires Landed(ba, f, pos, size, s, k) && 0 < left && ba.m_cur != null
      requires Awaits(ba, end, c) && pos + k + left == end
      modifies ba.Repr, m_socket`inbox, m_socket`counts
      ensures fresh(ba.Repr - old(ba.Repr)) && -1 <= len <= left && (!m_socket.m_isConnected ==> len == -1)
      ensures m_socket.counts == Next(old(m_socket.counts), len)
      ensures more == k + Max(len, 0) && Landed(ba, f, pos, size, s, more)
      ensures ba.m_cap == c && Awaits(ba, end, c) && (ba.m_cur == null <==> len == left && end == c)
    {
      RoomOnce(m_socket.m_isConnected, c, ba.m_cap, end, ba.m_baseSize);
      len, more := ReadOn(ba, left, f, pos, size, s, k);
      assert ba.m_cap == c;
    }

    /** The transfers of the loop, with one more. */
    lemma Counted(was: seq<int>, cs: seq<int>, k: nat, left: nat, len: int) returns (cs': seq<int>)
      requires Going(cs, k) && 0 < left && (cs != [] ==> m_socket.m_isConnected)
      requires !m_socket.m_isConnected ==> len == -1
      ensures Next(was + cs, len) == was + cs' && (cs' != [] ==> m_socket.m_isConnected)
      ensures 0 < len ==> cs' != [] && Going(cs', k + len)
      ensures len <= 0 ==>
                Persists(cs', m_socket.m_isConnected, k + left, k) && Final(cs', m_socket.m_isConnected) == len
    {
      cs' := Next(cs, len);
      GoingMore(cs, k, len);
      if len <= 0 {
        GoingFails(cs, m_socket.m_isConnected, k + left, k, len);
      }
    }

    /** Where the loop of readFixSize is, with left bytes to go up to position end; its transfers have returned cs. */
    ghost predicate Midway(ba: ByteArray, left: nat, f: seq<byte>, pos: nat, size: nat, s: seq<byte>, k: nat, end: nat,
                           c: nat, was: seq<int>, cs: seq<int>)
      reads ba, ba.Repr, m_socket
    {
      && Landed(ba, f, pos, size, s, k) && pos + k + left == end
      && (if left > 0 then ba.m_cur != null && Awaits(ba, end, c)
          else ba.m_cap == c && (0 < k ==> (ba.m_cur == null <==> c == end)))
      && Trying(was, cs, k) && (0 < k ==> cs != [])
    }

    /** The body of the loop of readFixSize. */
    method ReadNext(ba: ByteArray, left: nat, ghost f: seq<byte>, ghost pos: nat, ghost size: nat, ghost s: seq<byte>,
                    ghost k: nat, ghost end: nat, ghost c: nat, ghost was: seq<int>, ghost cs: seq<int>)
      returns (len: int, ghost more: nat, ghost cs': seq<int>)
      requires 0 < left && Midway(ba, left, f, pos, size, s, k, end, c, was, cs)
      modifies ba.Repr, m_socket`inbox, m_socket`counts
      ensures fresh(ba.Repr - old(ba.Repr)) && -1 <= len <= left && more == k + Max(len, 0)
      ensures 0 < len ==> Midway(ba, left - len, f, pos, size, s, more, end, c, was, cs')
      ensures len <= 0 ==>
                && Landed(ba, f, pos, size, s, k) && ba.m_cap == c && m_socket.counts == was + cs'
                && Persists(cs', m_socket.m_isConnected, k + left, k) && Final(cs', m_socket.m_isConnected) == len
    {
      len, more := ReadUpTo(ba, left, f, pos, size, s, k, end, c);
      cs' := Counted(was, cs, k, left, len);
    }

    /** The loop of readFixSize; n is length as an int, and cs what its transfers have returned. */
    method ReadLoop(ba: ByteArray, length: nat, n: int, ghost f: seq<byte>, ghost pos: nat, ghost size: nat,
                    ghost s: seq<byte>, ghost end: nat, ghost c: nat, ghost was: seq<int>)
      returns (ret: int, ghost k: nat)
      requires Midway(ba, length, f, pos, size, s, 0, end, c, was, [])
      modifies ba.Repr, m_socket`inbox, m_socket`counts
      ensures fresh(ba.Repr - old(ba.Repr)) && k <= length && Landed(ba, f, pos, size, s, k) && ba.m_cap == c
      ensures 0 < k == length ==> m_socket.m_isConnected && (ba.m_cur == null <==> c == end)
      ensures Tried(was, length, k, ret, n) && (k < length ==> ret in {-1, 0})
    {
      k := 0;
      ghost var cs := [];
      var left: nat := length;
      while left > 0
        invariant fresh(ba.Repr - old(ba.Repr)) && left + k == length
        invariant Midway(ba, left, f, pos, size, s, k, end, c, was, cs)
      {
        var len;
        len, k, cs := ReadNext(ba, left, f, pos, size, s, k, end, c, was, cs);
        if len <= 0 {
          TriedInVain(was, cs, length, k, len, n);
          return len, k;
        }
        left := left - len;
      }
      TriedAll(was, cs, length, k, n);
      ret := n;
    }

    /** readFixSize into an array, at any position: however the transfers are cut, what came is at the position, in
        order, and every other byte is as it was. When all of it came, the cursor is null, and no further bytes can be
        read into the array, exactly when the nodes that are there, or have to be made, end where the bytes do. */
    method ReadFixSize(ba: ByteArray, length: nat) returns (ret: int, ghost k: nat)
      requires ba.Valid() && ba.WriteAt() == ba.m_pos && m_socket !in ba.Repr && (ba.m_cur != null || length == 0)
      modifies ba.Repr, m_socket`inbox, m_socket`counts
      ensures fresh(ba.Repr - old(ba.Repr)) && k <= length
      ensures Landed(ba, old(ba.Bytes()), old(ba.m_pos), old(ba.m_size), old(m_socket.inbox), k)
      ensures ba.m_cap == Room(m_socket.m_isConnected, old(ba.m_cap), old(ba.m_pos) + length, ba.m_baseSize)
      ensures 0 < k == length ==>
                (ba.m_cur == null <==>
                 Capacity(old(ba.m_cap), old(ba.m_pos) + length, ba.m_baseSize) == old(ba.m_pos) + length)
      ensures Tried(old(m_socket.counts), length, k, ret, ToInt(length)) && (k < length ==> ret in {-1, 0})
    {
      ghost var f, pos, size, s := ba.Bytes(), ba.m_pos, ba.m_size, m_socket.inbox;
      ghost var c := Room(m_socket.m_isConnected, ba.m_cap, pos + length, ba.m_baseSize);
      NothingLanded(ba);
      RoomOnce(m_socket.m_isConnected, ba.m_cap, ba.m_cap, pos + length, ba.m_baseSize);
      ghost var was := m_socket.counts;
      assert was + [] == was;
      ret, k := ReadLoop(ba, length, ToInt(length), f, pos, size, s, pos + length, c, was);
    }

    /** Into a new array: a length that came leaves no cursor exactly when it is a number of whole nodes. */
    method ReadIntoNew(baseSize: nat, order: Endian, length: nat) returns (ba: ByteArray, ret: int)
      requires 0 < baseSize
      modifies m_socket`inbox, m_socket`counts
      ensures ba.Valid() && fresh(ba.Repr) && (ret == -1 || ret == 0 || ret == ToInt(length))
      ensures 0 < ret == length ==> (ba.m_cur == null <==> length % baseSize == 0)
    {
      ba := new ByteArray(baseSize, order);
      ghost var k;
      ret, k := ReadFixSize(ba, length);
      CapacityMeets(baseSize, length, baseSize);
      WholeNodes(length, baseSize);
    }

    /** 4096 bytes into a new array with nodes of 4096. */
    method FullNode(order: Endian) returns (ba: ByteArray, ret: int)
      modifies m_socket`inbox, m_socket`counts
      ensures ba.Valid() && fresh(ba.Repr) && (ret == 4096 ==> ba.m_cur == null)
    {
      ba, ret := ReadIntoNew(4096, order, 4096);
    }

    /** Into an array that ends at its position, the bytes are appended. */
    lemma Appended(ba: ByteArray, f: seq<byte>, size: nat, s: seq<byte>, k: nat)
      requires Landed(ba, f, size, size, s, k)
      ensures ba.m_pos == ba.m_size <= ba.m_cap && ba.Content() == f[..size] + s[..k]
    {
      ba.Shape();
      SliceSlice(ba.Bytes(), 0, size, size + k);
    }

    /** write from an array: windows over at most length of what can be read, one transfer, and the position
        behind what went. */
    method Write(ba: ByteArray, length: nat) returns (rt: int)
      requires ba.Reading() && m_socket !in ba.Repr
      modifies ba`m_pos, ba`m_size, ba`m_cur, ba`index, m_socket`outbox, m_socket`counts
      ensures ba.Reading() && -1 <= rt <= Min(length, |old(ba.Rest())|) && rt < 0x8000_0000
      ensures (!m_socket.m_isConnected ==> rt == -1) && m_socket.counts == Next(old(m_socket.counts), rt)
      ensures m_socket.outbox == old(m_socket.outbox) + old(ba.Rest())[..Max(rt, 0)]
      ensures ba.Rest() == old(ba.Rest())[Max(rt, 0)..]
    {
      if !m_socket.m_isConnected {
        return -1;
      }
      rt := SendNext(ba, length);
      Skip(ba, rt);
    }

    /** Windows over what can be read next, and one transfer of them. */
    method SendNext(ba: ByteArray, length: nat) returns (rt: int)
      requires ba.Reading()
      modifies m_socket`outbox, m_socket`counts
      ensures -1 <= rt <= Min(length, |ba.Rest()|) && rt < 0x8000_0000
      ensures m_socket.counts == old(m_socket.counts) + [rt]
      ensures m_socket.outbox == old(m_socket.outbox) + ba.Rest()[..Max(rt, 0)]
    {
      ghost var rest := ba.Rest();
      ghost var n := Min(length, |rest|);
      var buffers := ba.GetReadBuffers(length);
      ShowsRest(ba, buffers, n);
      rt := m_socket.Send(buffers);
      assert Gather(buffers)[..Max(rt, 0)] == rest[..n][..Max(rt, 0)] == rest[..Max(rt, 0)];
    }

    /** The position behind what went. */
    method Skip(ba: ByteArray, rt: int)
      requires ba.Reading() && rt <= |ba.Rest()|
      modifies ba`m_pos, ba`m_size, ba`m_cur, ba`index
      ensures ba.Reading() && ba.Rest() == old(ba.Rest())[Max(rt, 0)..]
    {
      ba.Shape();
      ghost var pos, size := ba.m_pos, ba.m_size;
      if rt > 0 {
        var _ := ba.SetPos(ba.m_pos + rt);
        SliceWithin(ba.Bytes(), pos, size, rt, size - pos);
      }
    }

    /** The first k bytes of s have gone out behind o, and ba reads the rest. */
    ghost predicate Gone(ba: ByteArray, o: seq<byte>, s: seq<byte>, k: nat)
      reads ba, ba.Repr, m_socket
    {
      && ba.Reading() && m_socket !in ba.Repr
      && k <= |s| && ba.Rest() == s[k..] && m_socket.outbox == o + s[..k]
    }

    /** The body of the loop of writeFixSize. */
    method WriteOn(ba: ByteArray, left: nat, ghost o: seq<byte>, ghost s: seq<byte>, ghost k: nat)
      returns (len: int, ghost more: nat)
      requires Gone(ba, o, s, k)
      modifies ba`m_pos, ba`m_size, ba`m_cur, ba`index, m_socket`outbox, m_socket`counts
      ensures -1 <= len <= left && more == k + Max(len, 0) && Gone(ba, o, s, more)
      ensures (!m_socket.m_isConnected ==> len == -1) && m_socket.counts == Next(old(m_socket.counts), len)
    {
      len := Write(ba, left);
      more := k + Max(len, 0);
      TakeMore(s, k, Max(len, 0));
      Assoc(o, s[..k], s[k..][..Max(len, 0)]);
    }

    /** The loop of writeFixSize from an array, for length as an int. */
    method WriteLoop(ba: ByteArray, length: int, ghost o: seq<byte>, ghost s: seq<byte>, ghost was: seq<int>)
      returns (ret: int, ghost k: nat)
      requires Gone(ba, o, s, 0) && m_socket.counts == was
      modifies ba`m_pos, ba`m_size, ba`m_cur, ba`index, m_socket`outbox, m_socket`counts
      ensures Gone(ba, o, s, k) && k <= Max(length, 0)
      ensures Tried(was, length, k, ret, length) && (k < length ==> ret in {-1, 0})
    {
      k := 0;
      ghost var cs := [];
      assert was + [] == was;
      var left := length;
      while left > 0
        invariant Gone(ba, o, s, k) && Max(left, 0) + k == Max(length, 0)
        invariant Trying(was, cs, k) && (0 < k ==> cs != [])
      {
        ghost var before := k;
        var len;
        len, k := WriteOn(ba, left, o, s, k);
        cs := Counted(was, cs, before, left, len);
        if len <= 0 {
          TriedInVain(was, cs, length, k, len, length);
          return len, k;
        }
        left := left - len;
      }
      TriedAll(was, cs, length, k, length);
      ret := length;
    }

    /** writeFixSize from an array; the length becomes an int. However the transfers are cut, the first k bytes of what
        could be read have gone out. */
    method WriteFixSize(ba: ByteArray, length: nat) returns (ret: int, ghost k: nat)
      requires ba.Reading() && m_socket !in ba.Repr
      modifies ba`m_pos, ba`m_size, ba`m_cur, ba`index, m_socket`outbox, m_socket`counts
      ensures Gone(ba, old(m_socket.outbox), old(ba.Rest()), k) && k <= Max(ToInt(length), 0)
      ensures Tried(old(m_socket.counts), ToInt(length), k, ret, ToInt(length))
      ensures k < ToInt(length) ==> ret in {-1, 0}
    {
      ret, k := WriteLoop(ba, ToInt(length), m_socket.outbox, ba.Rest(), m_socket.counts);
    }

    // ----- plain memory -----

    method ReadBytes(length: nat) returns (rt: int, data: seq<byte>)
      modifies m_socket`inbox, m_socket`counts
      ensures -1 <= rt <= length && rt <= |old(m_socket.inbox)| && rt < 0x8000_0000
      ensures data == old(m_socket.inbox)[..Max(rt, 0)] && m_socket.inbox == old(m_socket.inbox)[Max(rt, 0)..]
      ensures (!m_socket.m_isConnected ==> rt == -1) && m_socket.counts == Next(old(m_socket.counts), rt)
    {
      if !m_socket.m_isConnected {
        return -1, [];
      }
      rt, data := m_socket.RecvBytes(length);
    }

    /** The first k bytes of s have come, and buffer, which was b, starts with them. */
    ghost predicate Came(buffer: array<byte>, b: seq<byte>, s: seq<byte>, k: nat)
      reads buffer, m_socket
    {
      && k <= |s| && k <= |b| && m_socket.inbox == s[k..] && buffer[..] == Splice(b, 0, s[..k])
    }

    /** The body of the loop of readFixSize. */
    method ReadInto(buffer: array<byte>, offset: nat, left: nat, ghost b: seq<byte>, ghost s: seq<byte>)
      returns (len: int)
      requires Came(buffer, b, s, offset) && offset + left <= buffer.Length
      modifies buffer, m_socket`inbox, m_socket`counts
      ensures -1 <= len <= left && Came(buffer, b, s, offset + Max(len, 0))
      ensures (!m_socket.m_isConnected ==> len == -1) && m_socket.counts == Next(old(m_socket.counts), len)
    {
      var data;
      len, data := ReadBytes(left);
      TakeMore(s, offset, Max(len, 0));
      SpliceAdjacent(b, 0, s[..offset], data);
      Memcpy(buffer, offset, data);
    }

    /** The loop of readFixSize; n is length as an int. */
    method ReadBufferLoop(buffer: array<byte>, length: nat, n: int, ghost b: seq<byte>, ghost s: seq<byte>,
                          ghost was: seq<int>) returns (ret: int, offset: nat)
      requires Came(buffer, b, s, 0) && length <= buffer.Length && m_socket.counts == was
      modifies buffer, m_socket`inbox, m_socket`counts
      ensures Came(buffer, b, s, offset) && offset <= length
      ensures Tried(was, length, offset, ret, n) && (offset < length ==> ret in {-1, 0})
    {
      ghost var cs := [];
      assert was + [] == was;
      var left: nat := length;
      offset := 0;
      while left > 0
        invariant left + offset == length && Came(buffer, b, s, offset)
        invariant Trying(was, cs, offset) && (0 < offset ==> cs != [])
      {
        var len := ReadInto(buffer, offset, left, b, s);
        cs := Counted(was, cs, offset, left, len);
        if len <= 0 {
          TriedInVain(was, cs, length, offset, len, n);
          return len, offset;
        }
        left := left - len;
        offset := offset + len;
      }
      TriedAll(was, cs, length, offset, n);
      ret := n;
    }

    /** readFixSize into memory: the bytes that came are at its start, the others are as they were. */
    method ReadFixBuffer(buffer: array<byte>, length: nat) returns (ret: int)
      requires length <= buffer.Length
      modifies buffer, m_socket`inbox, m_socket`counts
      ensures |m_socket.inbox| <= |old(m_socket.inbox)| <= |m_socket.inbox| + length
      ensures var k := |old(m_socket.inbox)| - |m_socket.inbox|;
              && Came(buffer, old(buffer[..]), old(m_socket.inbox), k)
              && Tried(old(m_socket.counts), length, k, ret, ToInt(length)) && (k < length ==> ret in {-1, 0})
    {
      assert Splice(buffer[..], 0, m_socket.inbox[..0]) == buffer[..];
      var k;
      ret, k := ReadBufferLoop(buffer, length, ToInt(length), buffer[..], m_socket.inbox, m_socket.counts);
    }

    method WriteBytes(data: seq<byte>) returns (rt: int)
      modifies m_socket`outbox, m_socket`counts
      ensures -1 <= rt <= |data| && rt < 0x8000_0000
      ensures m_socket.outbox == old(m_socket.outbox) + data[..Max(rt, 0)]
      ensures (!m_socket.m_isConnected ==> rt == -1) && m_socket.counts == Next(old(m_socket.counts), rt)
    {
      if !m_socket.m_isConnected {
        return -1;
      }
      rt := m_socket.SendBytes(data);
    }

    /** The first k bytes of buffer have gone out behind o. */
    ghost predicate Went(buffer: seq<byte>, o: seq<byte>, k: nat)
      reads m_socket
    {
      k <= |buffer| && m_socket.outbox == o + buffer[..k]
    }

    /** The body of the loop of writeFixSize from memory. */
    method WriteFrom(buffer: seq<byte>, offset: nat, left: nat, ghost o: seq<byte>) returns (len: int)
      requires Went(buffer, o, offset) && offset + left <= |buffer|
      modifies m_socket`outbox, m_socket`counts
      ensures -1 <= len <= left && Went(buffer, o, offset + Max(len, 0))
      ensures (!m_socket.m_isConnected ==> len == -1) && m_socket.counts == Next(old(m_socket.counts), len)
    {
      len := WriteBytes(buffer[offset..offset + left]);
      ghost var k := Max(len, 0);
      SliceWithin(buffer, offset, offset + left, 0, k);
      SliceStep(buffer, offset, k);
      Assoc(o, buffer[..offset], buffer[offset..offset + k]);
    }

    /** writeFixSize from memory. */
    method WriteFixBuffer(buffer: seq<byte>) returns (ret: int)
      modifies m_socket`outbox, m_socket`counts
      ensures |old(m_socket.outbox)| <= |m_socket.outbox| <= |old(m_socket.outbox)| + Max(ToInt(|buffer|), 0)
      ensures var k := |m_socket.outbox| - |old(m_socket.outbox)|;
              && k <= |buffer| && m_socket.outbox == old(m_socket.outbox) + buffer[..k]
              && Tried(old(m_socket.counts), ToInt(|buffer|), k, ret, ToInt(|buffer|))
              && (k < ToInt(|buffer|) ==> ret in {-1, 0})
    {
      ghost var o, was, cs := m_socket.outbox, m_socket.counts, [];
      assert o + buffer[..0] == o && was + [] == was;
      var n := ToInt(|buffer|);
      var left, offset: nat := n, 0;
      while left > 0
        invariant Max(left, 0) + offset == Max(n, 0) && offset + Max(left, 0) <= |buffer|
        invariant Went(buffer, o, offset) && Trying(was, cs, offset) && (0 < offset ==> cs != [])
      {
        var len := WriteFrom(buffer, offset, left, o);
        cs := Counted(was, cs, offset, left, len);
        if len <= 0 {
          TriedInVain(was, cs, n, offset, len, n);
          return len;
        }
        left := left - len;
        offset := offset + len;
      }
      TriedAll(was, cs, n, offset, n);
      ret := n;
    }
  }
}
