/** The growable byte buffer of seaice: a list of equally sized nodes and a
    cursor into it. */
module ByteArrays {
  import opened Bits
  import opened Prelude
  import opened Codec
  import opened NodeLists
  import opened Values

  class ByteArray {
    const m_baseSize: nat
    const host: Endian      // the byte order that seaice is compiled for
    var m_endian: Endian
    var m_pos: nat
    var m_cap: nat
    var m_size: nat
    var m_root: Node
    var m_cur: Node?

    ghost var list: List   // the list that starts at m_root
    ghost var index: nat   // where m_cur is in it; behind the end when m_cur is null
    ghost var Repr: set<object>

    ghost predicate Footprint()
      reads `list, `Repr
    {
      && this in Repr
      && (forall n :: n in list.nodes ==> n in Repr)
      && (forall a :: a in list.bufs ==> a in Repr)
    }

    /** m_cap and m_root describe the list. */
    ghost predicate Store()
      reads `list, `m_root, `m_cap, list.nodes
    {
      && list.Chain() && list.b == m_baseSize
      && 0 < |list.nodes| && m_root == list.nodes[0] && m_cap == list.Cap()
    }

    /** The cursor is a node that starts at or before m_pos, or null behind the last one. */
    ghost predicate Cursor()
      reads `list, `index, `m_cur, `m_pos, `m_cap, `m_size
      requires 0 < m_baseSize
    {
      && index <= |list.nodes| && m_cur == NodeAt(list.nodes, index)
      && Offset(index, m_baseSize) + Rem(m_pos, m_baseSize) <= m_pos
      && m_pos <= m_cap && m_pos <= m_size
    }

    ghost predicate Valid()
      reads this, Repr
      ensures Valid() ==> this in Repr
    {
      Footprint() && Store() && Cursor()
    }

    /** All bytes of the list, written or not. */
    ghost function Bytes(): (r: seq<byte>)
      reads `list, list.bufs
    {
      list.Bytes()
    }

    /** The position that the cursor really has: m_cur with the offset m_pos % m_baseSize. */
    ghost function Phys(): (r: nat)
      reads `index, `m_pos
      requires 0 < m_baseSize
    {
      Offset(index, m_baseSize) + Rem(m_pos, m_baseSize)
    }

    /** Where a write of at least one byte goes: a full list first gets a new node. */
    ghost function WriteAt(): (r: nat)
      reads `index, `m_pos, `m_cap
      requires 0 < m_baseSize
    {
      if m_pos == m_cap then m_pos else Phys()
    }

    lemma Shape()
      requires Valid()
      ensures |Bytes()| == m_cap && Phys() <= m_pos
      ensures m_cur == null ==> m_pos == m_cap == Phys()
    {
      list.BytesLength();
    }

    /** Bytes are written at m_pos if and only if the list is full or m_cur is the node of m_pos. */
    lemma WriteLands()
      requires Valid()
      ensures WriteAt() == m_pos <==> m_pos == m_cap || index == m_pos / m_baseSize
    {
      NodeOf(index, m_pos, m_baseSize);
    }

    constructor (baseSize: nat, order: Endian)
      requires 0 < baseSize
      ensures Appending() && fresh(Repr) && host == order && m_endian == Big
      ensures m_baseSize == m_cap == baseSize && Content() == []
    {
      m_baseSize, host, m_endian := baseSize, order, Big;
      m_pos, m_cap, m_size := 0, baseSize, 0;
      var root := new Node(baseSize);
      m_root := root;
      m_cur := root;
      list := List([root], [root.ptr], baseSize);
      index := 0;
      Repr := {this, root, root.ptr};
      new;
      assert list.Cap() == Offset(0, baseSize) + baseSize;
      CursorBound(0, 0, baseSize);
    }

    /** The list is now l, whose nodes and buffers are in repr, and the cursor is node i of it. */
    method Adopt(cur: Node?, cap: nat, ghost l: List, ghost repr: set<object>, ghost i: nat)
      requires l.Chain() && l.b == m_baseSize && 0 < |l.nodes| && m_root == l.nodes[0] && cap == l.Cap()
      requires this in repr && (forall n :: n in l.nodes ==> n in repr) && (forall a :: a in l.bufs ==> a in repr)
      requires i <= |l.nodes| && cur == NodeAt(l.nodes, i)
      modifies `list, `m_cap, `Repr, `m_cur, `index
      ensures Footprint() && Store()
      ensures list == l && Bytes() == old(l.Bytes()) && Repr == repr && m_cur == cur && index == i && m_cap == cap
    {
      m_cap, m_cur := cap, cur;
      list, Repr, index := l, repr, i;
    }

    /** What addCapacity does when there is not enough room: it links count nodes behind the last one, tmp, and
        moves the cursor of a full list to the first of them. */
    method Link(tmp: Node, count: nat)
      requires Valid() && m_cur != null && tmp == list.nodes[|list.nodes| - 1]
      modifies `list, `m_cap, `Repr, `m_cur, `index, tmp
      ensures Footprint() && fresh(Repr - old(Repr))
      ensures Store() && old(Bytes()) <= Bytes() && m_cap == old(m_cap) + count * m_baseSize
      ensures index <= |list.nodes| && m_cur == NodeAt(list.nodes, index)
      ensures index == if old(m_cap) == m_pos then |old(list.nodes)| else old(index)
      ensures |list.nodes| == |old(list.nodes)| + count
    {
      ghost var l := list;
      var first, l', added := AppendNodes(tmp, count, l);
      assert l'.Cap() == m_cap + count * m_baseSize by {
        OffsetIsProduct(count, m_baseSize);
        OffsetSum(|l.nodes|, count, m_baseSize);
      }
      Adopt(if m_cap == m_pos then first else m_cur, m_cap + count * m_baseSize, l', Repr + added,
            if m_cap == m_pos then |l.nodes| else index);
    }

    method Grow(size: nat)
      requires Valid() && m_cur != null && size > m_cap - m_pos
      modifies Repr
      ensures Valid() && fresh(Repr - old(Repr)) && m_endian == old(m_endian)
      ensures m_pos == old(m_pos) && m_size == old(m_size)
      ensures m_pos + size <= m_cap < m_pos + size + m_baseSize && old(Bytes()) <= Bytes()
      ensures m_cur != null && Phys() == old(WriteAt())
    {
      var cap := m_cap - m_pos;
      var count := CeilDiv(size - cap, m_baseSize);
      GrownTo(|list.nodes|, m_pos, count, m_baseSize);
      var tmp := Last(m_cur, list, index);
      Link(tmp, count);
    }

    /** Room for size bytes behind the position. */
    method MakeRoom(size: nat)
      requires Valid()
      requires m_cur != null || size <= m_cap - m_pos
      modifies Repr
      ensures Valid() && fresh(Repr - old(Repr)) && m_endian == old(m_endian)
      ensures m_pos == old(m_pos) && m_size == old(m_size)
      ensures size <= old(m_cap) - m_pos ==> m_cap == old(m_cap)
      ensures m_cap == old(m_cap) || m_pos + size <= m_cap < m_pos + size + m_baseSize
      ensures m_pos + size <= m_cap == |Bytes()| && old(Bytes()) <= Bytes()
      ensures size > 0 ==> m_cur != null && Phys() == old(WriteAt())
      ensures size == 0 ==> index == old(index) && m_cur == old(m_cur)
    {
      Shape();
      var cap := m_cap - m_pos;
      if size <= cap {
        return;
      }
      Grow(size);
      list.BytesLength();
    }

    /** addCapacity: the capacity is the least that gives the room. */
    method AddCapacity(size: nat)
      requires Valid()
      requires m_cur != null || size <= m_cap - m_pos
      modifies Repr
      ensures Valid() && fresh(Repr - old(Repr)) && m_endian == old(m_endian)
      ensures m_pos == old(m_pos) && m_size == old(m_size)
      ensures m_cap == |Bytes()| == Capacity(old(m_cap), m_pos + size, m_baseSize) && old(Bytes()) <= Bytes()
      ensures size > 0 ==> m_cur != null && Phys() == old(WriteAt())
      ensures size == 0 ==> index == old(index) && m_cur == old(m_cur)
    {
      ghost var nodes := |list.nodes|;
      MakeRoom(size);
      CapacityIs(nodes, |list.nodes|, m_pos + size, m_baseSize);
    }

    /** The cursor is node i of the list, and the position and the size are new. */
    method Move(cur: Node?, pos: nat, size: nat, ghost i: nat)
      requires Footprint() && Store() && i <= |list.nodes| && cur == NodeAt(list.nodes, i)
      requires Offset(i, m_baseSize) + Rem(pos, m_baseSize) <= pos && pos <= m_cap && pos <= size
      modifies `m_pos, `m_size, `m_cur, `index
      ensures Valid() && m_pos == pos && m_size == size && m_cur == cur && index == i && Bytes() == old(Bytes())
    {
      m_pos, m_size, m_cur := pos, size, cur;
      index := i;
    }

    /** The loop of write, once there is room. */
    method PutHere(buf: seq<byte>) returns (cur: Node?, ghost i: nat)
      requires Valid() && m_cur != null && buf != [] && m_pos + |buf| <= m_cap
      modifies list.bufs
      ensures Footprint() && Store()
      ensures Spliced(Bytes(), old(Bytes()), Phys(), buf)
      ensures cur != null && i < |list.nodes| && cur == list.nodes[i]
      ensures Offset(i, m_baseSize) < Phys() + |buf| <= Offset(i, m_baseSize) + m_baseSize
    {
      var _, nPos := Locate(m_pos, m_baseSize);
      cur, i := Put(m_cur, nPos, buf, list, index);
    }

    /** f is the bytes that there were before the room. */
    method WriteInPlace(buf: seq<byte>, ghost f: seq<byte>)
      requires Valid() && m_cur != null && buf != [] && m_pos + |buf| <= m_cap
      requires Phys() <= |f| && f <= Bytes()
      modifies `m_pos, `m_size, `m_cur, `index, list.bufs
      ensures Valid() && m_cur != null && m_cap == |Bytes()|
      ensures m_pos == old(m_pos) + |buf| && m_size == old(m_size) + |buf|
      ensures Written(Bytes(), f, old(Phys()), buf)
      ensures Offset(index, m_baseSize) < old(Phys()) + |buf| <= Offset(index, m_baseSize) + m_baseSize
    {
      ghost var h, at := Bytes(), Phys();
      var cur, i := PutHere(buf);
      WrittenFromSplice(Bytes(), h, f, at, buf);
      CursorBound(i, m_pos + |buf|, m_baseSize);
      list.BytesLength();
      Move(cur, m_pos + |buf|, m_size + |buf|, i);
    }

    /** A write of at least one byte. */
    method WriteSome(buf: seq<byte>)
      requires Valid() && m_cur != null && buf != []
      modifies Repr
      ensures Valid() && fresh(Repr - old(Repr)) && m_endian == old(m_endian) && m_cur != null
      ensures m_pos == old(m_pos) + |buf| && m_size == old(m_size) + |buf|
      ensures m_pos <= old(m_cap) ==> m_cap == old(m_cap)
      ensures m_cap == old(m_cap) || m_cap < m_pos + m_baseSize
      ensures m_pos <= m_cap == |Bytes()|
      ensures Written(Bytes(), old(Bytes()), old(WriteAt()), buf)
      ensures Offset(index, m_baseSize) < old(WriteAt()) + |buf| <= Offset(index, m_baseSize) + m_baseSize
    {
      Shape();
      ghost var f := Bytes();
      MakeRoom(|buf|);
      WriteInPlace(buf, f);
    }

    /** write: the bytes go to WriteAt(), the position and the size move on by their number, and the capacity is the
        least that reaches the position. So a write of at least one byte keeps the size within the capacity if and
        only if the old size and the bytes fit, and keeps it at the position if and only if it was there. */
    method Write(buf: seq<byte>)
      requires Valid()
      requires m_cur != null || buf == []
      modifies Repr
      ensures Valid() && fresh(Repr - old(Repr)) && m_endian == old(m_endian)
      ensures m_pos == old(m_pos) + |buf| && m_size == old(m_size) + |buf|
      ensures m_cap == |Bytes()| == Capacity(old(m_cap), old(m_pos) + |buf|, m_baseSize)
      ensures Written(Bytes(), old(Bytes()), old(WriteAt()), buf)
      ensures buf != [] ==> m_cur != null &&
                            Offset(index, m_baseSize) < old(WriteAt()) + |buf| <= Offset(index, m_baseSize) + m_baseSize
      ensures buf == [] ==> index == old(index) && m_cur == old(m_cur)
      ensures m_size <= m_cap <==>
              old(m_size) + |buf| <= Capacity(old(m_cap), old(m_pos) + |buf|, m_baseSize)
      ensures m_size == m_pos <==> old(m_size) == old(m_pos)
    {
      if buf == [] {
        WriteNothing();
        return;
      }
      ghost var nodes := |list.nodes|;
      WriteSome(buf);
      CapacityIs(nodes, |list.nodes|, m_pos, m_baseSize);
    }

    /** addCapacity makes no room for no bytes. */
    lemma WriteNothing()
      requires Valid()
      ensures m_cap == |Bytes()| == Capacity(m_cap, m_pos, m_baseSize) && Written(Bytes(), Bytes(), WriteAt(), [])
    {
      Shape();
    }

    /** The loop of read: size bytes from the cursor on, and the node behind them. */
    method GetHere(size: nat) returns (buf: seq<byte>, cur: Node?, ghost i: nat)
      requires Valid() && m_pos + size <= m_cap == |Bytes()|
      ensures Phys() + size <= m_cap && buf == Bytes()[Phys()..Phys() + size]
      ensures i <= |list.nodes| && cur == NodeAt(list.nodes, i)
      ensures Offset(i, m_baseSize) <= Phys() + size < Offset(i, m_baseSize) + m_baseSize
    {
      var _, nPos := Locate(m_pos, m_baseSize);
      buf, cur, i := Get(m_cur, nPos, size, list, index);
    }

    method Fetch(size: nat) returns (buf: seq<byte>, cur: Node?, ghost i: nat)
      requires Valid() && m_pos + size <= m_cap
      ensures Phys() + size <= m_pos + size <= |Bytes()| == m_cap && buf == Bytes()[Phys()..Phys() + size]
      ensures i <= |list.nodes| && cur == NodeAt(list.nodes, i)
      ensures Offset(i, m_baseSize) + Rem(m_pos + size, m_baseSize) == Phys() + size
    {
      Shape();
      buf, cur, i := GetHere(size);
      SameRemainder(index, size, m_pos, i, m_baseSize);
    }

    /** The cursor is node i of the list, and the position is new. */
    method Step(cur: Node?, pos: nat, ghost i: nat)
      requires Valid() && i <= |list.nodes| && cur == NodeAt(list.nodes, i)
      requires Offset(i, m_baseSize) + Rem(pos, m_baseSize) <= pos <= m_cap && pos <= m_size
      modifies `m_pos, `m_cur, `index
      ensures Valid() && m_pos == pos && m_cur == cur && index == i && Bytes() == old(Bytes())
      ensures Phys() == Offset(i, m_baseSize) + Rem(pos, m_baseSize)
    {
      m_cur, index, m_pos := cur, i, pos;
    }

    method Take(size: nat) returns (buf: seq<byte>)
      requires Valid() && m_pos + size <= m_size <= m_cap
      modifies `m_pos, `m_cur, `index
      ensures Valid() && Bytes() == old(Bytes())
      ensures m_pos == old(m_pos) + size && Phys() == old(Phys()) + size <= m_pos <= |Bytes()|
      ensures buf == Bytes()[old(Phys())..Phys()]
    {
      var cur; ghost var i;
      buf, cur, i := Fetch(size);
      Step(cur, m_pos + size, i);
    }

    /** size bytes from the cursor on; beyond m_size nothing is read and nothing changes. */
    method Read(size: nat) returns (r: Result<seq<byte>>)
      requires Valid() && m_size <= m_cap
      modifies `m_pos, `m_cur, `index
      ensures Valid() && old(Phys()) <= old(m_pos) && Bytes() == old(Bytes())
      ensures size > m_size - old(m_pos) ==> r == OutOfRange && m_pos == old(m_pos) && index == old(index)
      ensures size <= m_size - old(m_pos) ==>
                && old(Phys()) + size <= |Bytes()| && r == Ok(Bytes()[old(Phys())..old(Phys()) + size])
                && m_pos == old(m_pos) + size && Phys() == old(Phys()) + size
    {
      if m_size - m_pos < size {
        return OutOfRange;
      }
      var buf := Take(size);
      r := Ok(buf);
    }

    /** The node of position v, walked to from m_root; null exactly at the end of the list. */
    method Find(v: nat) returns (cur: Node?, ghost i: nat)
      requires Valid() && v <= m_cap
      ensures i <= |list.nodes| && cur == NodeAt(list.nodes, i)
      ensures v == Offset(i, m_baseSize) + Rem(v, m_baseSize) && (cur == null <==> v == m_cap)
    {
      var count, _ := Locate(v, m_baseSize);
      OffsetAtMost(count, |list.nodes|, m_baseSize);
      if v == m_cap {
        OffsetRem(|list.nodes|, 0, m_baseSize);
        OffsetAtMost(|list.nodes|, count, m_baseSize);
      } else {
        OffsetBelow(count, |list.nodes|, m_baseSize);
      }
      cur := Walk(m_root, count, list);
      i := count;
    }

    /** The const read: size bytes from position pos on. */
    method ReadAt(size: nat, pos: nat) returns (r: Result<seq<byte>>)
      requires Valid() && m_size <= m_cap && pos <= m_size
      ensures |Bytes()| == m_cap
      ensures r == if size <= m_size - pos then Ok(Bytes()[pos..pos + size]) else OutOfRange
    {
      list.BytesLength();
      if m_size - pos < size {
        return OutOfRange;
      }
      var cur, i := Find(pos);
      var _, nPos := Locate(pos, m_baseSize);
      var buf, _, _ := Get(cur, nPos, size, list, i);
      r := Ok(buf);
    }

    /** toString: what can be read. */
    method ToString() returns (str: seq<byte>)
      requires Valid() && m_size <= m_cap
      ensures |Bytes()| == m_cap && str == Bytes()[m_pos..m_size]
    {
      list.BytesLength();
      if m_size == m_pos {
        return [];
      }
      var r := ReadAt(m_size - m_pos, m_pos);
      str := r.value;
    }

    method SetPos(v: nat) returns (r: Result<()>)
      requires Valid()
      modifies `m_pos, `m_size, `m_cur, `index
      ensures Valid()
      ensures v > m_cap ==> r == OutOfRange && unchanged(`m_pos) && unchanged(`m_size) && unchanged(`index)
      ensures v <= m_cap ==> r == Ok(()) && m_pos == v && m_size == Max(old(m_size), v)
      ensures v <= m_cap ==> Phys() == v && (m_cur == null <==> v == m_cap)
    {
      if v > m_cap {
        return OutOfRange;
      }
      var cur, i := Find(v);
      if v > m_size {
        m_size := v;
      }
      m_pos, m_cur, index := v, cur, i;
      r := Ok(());
    }

    method Clear()
      requires Valid()
      modifies Repr
      ensures Appending() && Repr <= old(Repr) && m_endian == old(m_endian)
      ensures m_cap == m_baseSize && Content() == []
    {
      m_pos, m_size, m_cap := 0, 0, m_baseSize;
      m_root.next := null;
      m_cur := m_root;
      index := 0;
      list := list.(nodes := [m_root], bufs := list.bufs[..1]);
      assert list.Cap() == Offset(0, m_baseSize) + m_baseSize;
      CursorBound(0, 0, m_baseSize);
    }

    /** The buffers are the len bytes at the cursor, in order, none empty. */
    ghost predicate Show(buffers: seq<Window>, len: nat)
      reads this, Repr
      requires Valid()
    {
      && Phys() + len <= m_cap == |Bytes()| && buffers == WindowsOf(list, index, Rem(m_pos, m_baseSize), len)
      && InBounds(buffers) && (forall w :: w in buffers ==> w.base in list.bufs)
      && Gather(buffers) == Bytes()[Phys()..Phys() + len] && Total(buffers) == len
    }

    /** The loop that getReadBuffers and getWriteBuffers share. */
    method CursorWindows(len: nat) returns (buffers: seq<Window>)
      requires Valid() && m_pos + len <= m_cap
      ensures Show(buffers, len)
    {
      Shape();
      var _, nPos := Locate(m_pos, m_baseSize);
      buffers := Windows(m_cur, nPos, len, list, index);
      GatherWindows(list, index, nPos, len);
      WindowsTotal(list, index, nPos, len);
      WindowsInside(list, index, nPos, len);
    }

    /** The iovecs over the next min(len, read size) bytes. */
    method GetReadBuffers(len: nat) returns (buffers: seq<Window>)
      requires Valid() && m_size <= m_cap
      ensures Show(buffers, Min(len, m_size - m_pos))
    {
      buffers := CursorWindows(if len > m_size - m_pos then m_size - m_pos else len);
    }

    /** The iovecs over the len bytes that a write would fill; room for them is made first. */
    method GetWriteBuffers(len: nat) returns (buffers: seq<Window>)
      requires Valid()
      requires m_cur != null || len == 0
      modifies Repr
      ensures Valid() && fresh(Repr - old(Repr)) && m_endian == old(m_endian)
      ensures m_pos == old(m_pos) && m_size == old(m_size)
      ensures m_pos + len <= m_cap == Capacity(old(m_cap), m_pos + len, m_baseSize) && old(Bytes()) <= Bytes()
      ensures len > 0 ==> m_cur != null && Phys() == old(WriteAt())
      ensures Show(buffers, len)
    {
      AddCapacity(len);
      buffers := CursorWindows(len);
    }

    // ----- the append phase -----

    /** A new or cleared array, and every array after writes to it. */
    ghost predicate Appending()
      reads this, Repr
    {
      && Valid() && m_cur != null && m_pos == m_size
      && WriteAt() == m_pos && m_cap - m_pos <= m_baseSize
    }

    /** What has been written. */
    ghost function Content(): (s: seq<byte>)
      reads this, Repr
      requires Valid() && m_size <= m_cap
      ensures |s| == m_size
    {
      list.BytesLength();
      Bytes()[..m_size]
    }

    /** write in the append phase: the bytes go to the end, less than a node stays unused. */
    method Append(buf: seq<byte>)
      requires Appending()
      modifies Repr
      ensures Appending() && fresh(Repr - old(Repr)) && m_endian == old(m_endian)
      ensures Content() == old(Content()) + buf
      ensures if buf == [] then m_cap == old(m_cap) else m_cap - m_pos < m_baseSize
    {
      Shape();
      ghost var f, size := Bytes(), m_size;
      Write(buf);
      assert Content() == f[..size] + buf;
      if buf != [] {
        AfterWrite(index, m_pos, |list.nodes|, m_baseSize);
      }
    }

    // ----- the read phase -----

    /** An array after setPos, and after every read that follows. */
    ghost predicate Reading()
      reads this, Repr
    {
      Valid() && m_size <= m_cap && Phys() == m_pos
    }

    /** What can be read. */
    ghost function Rest(): (s: seq<byte>)
      reads this, Repr
      requires Valid() && m_size <= m_cap
      ensures |s| == m_size - m_pos
    {
      list.BytesLength();
      Bytes()[m_pos..m_size]
    }

    /** read in the read phase. */
    method Next(size: nat) returns (r: Result<seq<byte>>)
      requires Reading()
      modifies `m_pos, `m_cur, `index
      ensures Reading()
      ensures |old(Rest())| < size ==> r == OutOfRange && Rest() == old(Rest())
      ensures size <= |old(Rest())| ==> r == Ok(old(Rest())[..size]) && Rest() == old(Rest())[size..]
    {
      Shape();
      ghost var rest, p := Rest(), m_pos;
      r := Read(size);
      if size <= |rest| {
        SliceWithin(Bytes(), p, m_size, 0, size);
        SliceWithin(Bytes(), p, m_size, size, m_size - p);
      }
    }

    // ----- typed values -----

    predicate IsLittleEndian()
      reads `m_endian
    {
      m_endian == Little
    }

    method SetIsLittleEndian(val: bool)
      modifies `m_endian
      ensures IsLittleEndian() == val
    {
      m_endian := if val then Little else Big;
    }

    /** writeFuint8, 16, 32, 64 for n = 1, 2, 4, 8. */
    method WriteFuint(value: nat, n: nat)
      requires Appending() && Typed(Fuint(n, value))
      modifies Repr
      ensures Appending() && fresh(Repr - old(Repr)) && m_endian == old(m_endian)
      ensures Content() == old(Content()) + Encode(m_endian, Fuint(n, value))
    {
      FixedOnWire(m_endian, host, value, n);
      Append(Fixed(m_endian, host, value, n));
    }

    /** writeFint8, 16, 32, 64: the same on the two's complement bits. */
    method WriteFint(value: int, n: nat)
      requires Appending() && Typed(Fint(n, value))
      modifies Repr
      ensures Appending() && fresh(Repr - old(Repr)) && m_endian == old(m_endian)
      ensures Content() == old(Content()) + Encode(m_endian, Fint(n, value))
    {
      WriteFuint(ToUnsigned(value, n), n);
    }

    method WriteUint32(value: uint32)
      requires Appending()
      modifies Repr
      ensures Appending() && fresh(Repr - old(Repr)) && m_endian == old(m_endian)
      ensures Content() == old(Content()) + Varint(value)
    {
      Pow128Values();
      var tmp, i := PutVarint(value, 5);
      Append(tmp[..i]);
    }

    method WriteInt32(value: int32)
      requires Appending()
      modifies Repr
      ensures Appending() && fresh(Repr - old(Repr)) && m_endian == old(m_endian)
      ensures Content() == old(Content()) + Encode(m_endian, Int32(value))
    {
      WriteUint32(EncodeZigzag32(value));
    }

    /** writeUint64 has a 32-bit parameter: a wider argument is cut on the way in. */
    method WriteUint64(value: uint64)
      requires Appending()
      modifies Repr
      ensures Appending() && fresh(Repr - old(Repr)) && m_endian == old(m_endian)
      ensures Content() == old(Content()) + Encode(m_endian, Uint64(value))
    {
      Pow128Values();
      var tmp, i := PutVarint(value % TWO32, 10);
      Append(tmp[..i]);
    }

    /** writeInt64: its own parameter and that of writeUint64 have 32 bits. */
    method WriteInt64(value: int64)
      requires Appending()
      modifies Repr
      ensures Appending() && fresh(Repr - old(Repr)) && m_endian == old(m_endian)
      ensures Content() == old(Content()) + Encode(m_endian, Int64(value))
    {
      NarrowZigzag(value);
      WriteUint64(EncodeZigzag64(Narrow(value)));
    }

    /** The length that writeStringF16, F32, F64 and Vint put in front. */
    method WriteLength(p: Prefix, size: uint64)
      requires Appending()
      modifies Repr
      ensures Appending() && fresh(Repr - old(Repr)) && m_endian == old(m_endian)
      ensures Content() == old(Content()) + LengthBytes(m_endian, p, size)
    {
      PowersOf256();
      match p
      case F16 => WriteFuint(size % 0x1_0000, 2);
      case F32 => WriteFuint(size % TWO32, 4);
      case F64 => WriteFuint(size, 8);
      case Vint => WriteUint64(size);
    }

    method WriteString(p: Prefix, value: seq<byte>)
      requires Appending() && |value| < TWO64
      modifies Repr
      ensures Appending() && fresh(Repr - old(Repr)) && m_endian == old(m_endian)
      ensures Content() == old(Content()) + Encode(m_endian, Str(p, value))
    {
      ghost var c, a := Content(), LengthBytes(m_endian, p, |value|);
      assert c + Encode(m_endian, Str(p, value)) == (c + a) + value;
      WriteLength(p, |value|);
      Append(value);
    }

    method ReadFuint(n: nat) returns (r: Result<nat>)
      requires Reading()
      modifies `m_pos, `m_cur, `index
      ensures Reading() && Took(ParseFixed(m_endian, old(Rest()), n), old(Rest()), Rest(), r)
    {
      ghost var s := Rest();
      var buf := Next(n);
      if buf.OutOfRange? {
        return OutOfRange;
      }
      FixedFromWire(m_endian, host, buf.value);
      assert buf.value == s[..n];
      r := Ok(FromFixed(m_endian, host, buf.value));
    }

    method ReadFint(n: nat) returns (r: Result<int>)
      requires Reading()
      modifies `m_pos, `m_cur, `index
      ensures Reading() && Took(ParseSigned(m_endian, old(Rest()), n), old(Rest()), Rest(), r)
    {
      var u := ReadFuint(n);
      r := if u.Ok? then Ok(ToSigned(u.value, n)) else OutOfRange;
    }

    /** The body of that loop: one byte, its group added to value; done when it is the last one. */
    method ReadGroup(value: nat, k: nat, w: nat, ghost n: nat, ghost c: nat, ghost s: seq<byte>,
                     ghost p: Parsed<nat>)
      returns (done: bool, r: Result<nat>)
      requires Reading() && k < n && GroupsLeft(p, s, k, n, w, value) && Rest() == s[k..]
      requires w == c * Pow128(n - 1) && 0 < c && value < Pow128(k)
      modifies `m_pos, `m_cur, `index
      ensures Reading()
      ensures done ==> Took(p, s, Rest(), r)
      ensures !done ==> r.Ok? && GroupsLeft(p, s, k + 1, n, w, r.value) && Rest() == s[k + 1..]
      ensures !done && k < n - 1 ==> r.value < Pow128(k + 1)
    {
      var tmp := ReadFuint(1);
      GroupTook(m_endian, p, s, k, n, w, value, Rest(), tmp);
      if tmp.OutOfRange? {
        return true, OutOfRange;
      }
      OrIsPlus(value, tmp.value, k, n, w, c);
      done, r := tmp.value < 0x80, Ok(Or(value, Group(tmp.value, k, w)));
    }

    /** The loop of readUint32 (five groups at most, 32 bits) and of readUint64 (ten groups, 64 bits). */
    method ReadGroups(n: nat, w: nat, ghost c: nat) returns (r: Result<nat>)
      requires Reading() && 0 < n && w == c * Pow128(n - 1) && 0 < c && 0 < w
      modifies `m_pos, `m_cur, `index
      ensures Reading() && Took(Groups(old(Rest()), 0, n, w), old(Rest()), Rest(), r)
    {
      ghost var s := Rest();
      ghost var p := Groups(s, 0, n, w);
      var k: nat, done := 0, false;
      r := Ok(0);
      while k < n
        invariant Reading() && r.Ok? && GroupsLeft(p, s, k, n, w, r.value) && Rest() == s[k..]
        invariant k < n ==> r.value < Pow128(k)
      {
        done, r := ReadGroup(r.value, k, w, n, c, s, p);
        if done {
          return;
        }
        k := k + 1;
      }
    }

    method ReadUint32() returns (r: Result<uint32>)
      requires Reading()
      modifies `m_pos, `m_cur, `index
      ensures Reading() && Took(ParseUint32(old(Rest())), old(Rest()), Rest(), r)
    {
      Pow128Values();
      GroupsBound(Rest(), 0, 5, TWO32, 16);
      var v := ReadGroups(5, TWO32, 16);
      r := if v.Ok? then Ok(v.value) else OutOfRange;
    }

    method ReadUint64() returns (r: Result<uint64>)
      requires Reading()
      modifies `m_pos, `m_cur, `index
      ensures Reading() && Took(ParseUint64(old(Rest())), old(Rest()), Rest(), r)
    {
      Pow128Values();
      GroupsBound(Rest(), 0, 10, TWO64, 2);
      var v := ReadGroups(10, TWO64, 2);
      r := if v.Ok? then Ok(v.value) else OutOfRange;
    }

    method ReadInt32() returns (r: Result<int32>)
      requires Reading()
      modifies `m_pos, `m_cur, `index
      ensures Reading() && Took(ParseInt32(old(Rest())), old(Rest()), Rest(), r)
    {
      var v := ReadUint32();
      r := if v.Ok? then Ok(DecodeZigzag32(v.value)) else OutOfRange;
    }

    method ReadInt64() returns (r: Result<int64>)
      requires Reading()
      modifies `m_pos, `m_cur, `index
      ensures Reading() && Took(ParseInt64(old(Rest())), old(Rest()), Rest(), r)
    {
      var v := ReadUint64();
      r := if v.Ok? then Ok(DecodeZigzag64(v.value)) else OutOfRange;
    }

    /** The length that readStringF16, F32, F64 and Vint start with. */
    method ReadLength(p: Prefix) returns (r: Result<nat>)
      requires Reading()
      modifies `m_pos, `m_cur, `index
      ensures Reading() && Took(ParseLength(m_endian, p, old(Rest())), old(Rest()), Rest(), r)
    {
      match p
      case F16 => r := ReadFuint(2);
      case F32 => r := ReadFuint(4);
      case F64 => r := ReadFuint(8);
      case Vint =>
        var v := ReadUint64();
        r := if v.Ok? then Ok(v.value) else OutOfRange;
    }

    method ReadString(p: Prefix) returns (r: Result<seq<byte>>)
      requires Reading()
      modifies `m_pos, `m_cur, `index
      ensures Reading() && Took(ParseStr(m_endian, p, old(Rest())), old(Rest()), Rest(), r)
    {
      ghost var s := Rest();
      var size := ReadLength(p);
      if size.OutOfRange? {
        return OutOfRange;
      }
      ghost var t := Rest();
      r := Next(size.value);
      StrTook(m_endian, p, s, size.value, t, Rest(), r);
    }
  }

  /** The cursor stays where it points to when size bytes have been read. */
  lemma SameRemainder(i0: nat, size: nat, pos: nat, i: nat, b: nat)
    requires 0 < b && Offset(i0, b) + Rem(pos, b) <= pos
    requires Offset(i, b) <= Offset(i0, b) + Rem(pos, b) + size < Offset(i, b) + b
    ensures Offset(i, b) + Rem(pos + size, b) == Offset(i0, b) + Rem(pos, b) + size
  {
    var q := OffsetOf(pos, b);
    OffsetAtMost(i0, q, b);
    OffsetSum(i0, q - i0, b);
    OffsetSum(i, q - i0, b);
    OffsetRem(i + (q - i0), Offset(i0, b) + Rem(pos, b) + size - Offset(i, b), b);
  }

  lemma NodeOf(i: nat, pos: nat, b: nat)
    requires 0 < b
    ensures Offset(i, b) + Rem(pos, b) == pos <==> i == pos / b
  {
    var q := OffsetOf(pos, b);
    OffsetIsProduct(q, b);
    DivUnique(pos, b, q, Rem(pos, b));
    if i < q {
      OffsetMono(i, q, b);
    } else if q < i {
      OffsetMono(q, i, b);
    }
  }

  /** n rounded up to whole nodes of b bytes. */
  function RoundUp(n: nat, b: nat): (r: nat)
    requires 0 < b
    ensures n <= r < n + b
  {
    if n == 0 then 0 else if n <= b then b else RoundUp(n - b, b) + b
  }

  /** The capacity after room is made up to position end. */
  function Capacity(cap: nat, end: nat, b: nat): (c: nat)
    requires 0 < b
    ensures cap <= c && end <= c && (c == cap || (cap < end && c < end + b))
  {
    if end <= cap then cap else cap + RoundUp(end - cap, b)
  }

  lemma {:induction false} RoundUpIs(n: nat, i: nat, b: nat)
    requires 0 < b && n <= Offset(i, b) < n + b
    ensures RoundUp(n, b) == Offset(i, b)
  {
    if n > 0 && i > 1 {
      RoundUpIs(n - b, i - 1, b);
    }
  }

  lemma {:induction false} RoundUpMeets(n: nat, b: nat)
    requires 0 < b
    ensures RoundUp(n, b) == n <==> n % b == 0
  {
    if n >= b {
      RoundUpMeets(n - b, b);
      Shorter(n, b);
    }
  }

  lemma Shorter(n: nat, b: nat)
    requires 0 < b <= n
    ensures (n - b) % b == n % b
  {
    DivUnique(n - b, b, n / b - 1, n % b);
  }

  /** The capacity is the position if and only if that takes whole nodes behind the old ones, or none. */
  lemma CapacityMeets(cap: nat, end: nat, b: nat)
    requires 0 < b
    ensures Capacity(cap, end, b) == end <==> cap <= end && (end - cap) % b == 0
  {
    if cap < end {
      RoundUpMeets(end - cap, b);
    }
  }

  lemma WholeNodes(n: nat, b: nat)
    requires 0 < b
    ensures 0 < n ==> (b <= n && (n - b) % b == 0 <==> n % b == 0)
  {
    if b <= n {
      Shorter(n, b);
    } else if n > 0 {
      DivUnique(n, b, 0, n);
    }
  }

  /** n nodes have become m, no more than it takes. */
  lemma CapacityIs(n: nat, m: nat, end: nat, b: nat)
    requires 0 < b && end <= Offset(m, b)
    requires Offset(m, b) == Offset(n, b) || (Offset(n, b) < end && Offset(m, b) < end + b)
    ensures Offset(m, b) == Capacity(Offset(n, b), end, b)
  {
    if Offset(n, b) < end {
      OffsetBelow(n, m, b);
      OffsetSum(n, m - n, b);
      RoundUpIs(end - Offset(n, b), m - n, b);
    }
  }

  lemma GrownTo(n: nat, pos: nat, count: nat, b: nat)
    requires 0 < b
    ensures Offset(count, b) == count * b && (pos == Offset(n, b) ==> Offset(n, b) + Rem(pos, b) == pos)
  {
    OffsetIsProduct(count, b);
    if pos == Offset(n, b) {
      OffsetRem(n, 0, b);
    }
  }

  /** Behind a write the cursor is where the next write goes, unless whole nodes are left over. */
  lemma AfterWrite(i: nat, pos: nat, n: nat, b: nat)
    requires 0 < b && Offset(i, b) < pos <= Offset(i, b) + b
    requires pos <= Offset(n, b) < pos + b
    ensures pos == Offset(n, b) || Offset(i, b) + Rem(pos, b) == pos
  {
    if pos < Offset(i, b) + b {
      OffsetRem(i, pos - Offset(i, b), b);
    } else {
      OffsetAtMost(i + 1, n, b);
      OffsetMono(i + 1, n, b);
    }
  }
}
