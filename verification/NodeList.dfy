/** The singly linked list of equally sized nodes under ByteArray, the flat
    view of its buffers, and the three walks over it: copying in, copying out,
    and collecting windows. */
module NodeLists {
  import opened Prelude

  class Node {
    const size: nat
    const ptr: array<byte>
    var next: Node?

    constructor (len: nat)
      ensures size == len && ptr.Length == len && next == null && fresh(ptr)
    {
      size := len;
      ptr := new byte[len];
      next := null;
    }
  }

  /** The node at position i of the list, null behind its end. */
  function NodeAt(ns: seq<Node>, i: nat): (r: Node?) {
    if i < |ns| then ns[i] else null
  }

  // ----- where a node starts -----

  /** Where node i starts in the flat view. */
  function Offset(i: nat, b: nat): (r: nat) {
    if i == 0 then 0 else Offset(i - 1, b) + b
  }

  lemma {:induction false} OffsetIsProduct(i: nat, b: nat)
    ensures Offset(i, b) == i * b
  {
    if i > 0 {
      OffsetIsProduct(i - 1, b);
      assert i * b == (i - 1) * b + b;
    }
  }

  lemma {:induction false} OffsetMono(i: nat, j: nat, b: nat)
    requires i <= j
    ensures Offset(i, b) <= Offset(j, b)
    ensures i < j ==> Offset(i, b) + b <= Offset(j, b)
  {
    if i < j {
      OffsetMono(i, j - 1, b);
    }
  }

  lemma {:induction false} OffsetSum(i: nat, j: nat, b: nat)
    ensures Offset(i + j, b) == Offset(i, b) + Offset(j, b)
  {
    if j > 0 {
      OffsetSum(i, j - 1, b);
    }
  }

  lemma OffsetBelow(i: nat, j: nat, b: nat)
    requires Offset(i, b) < Offset(j, b)
    ensures i < j
  {
    if j <= i {
      OffsetMono(j, i, b);
    }
  }

  lemma OffsetAtMost(i: nat, j: nat, b: nat)
    requires 0 < b && Offset(i, b) <= Offset(j, b)
    ensures i <= j
  {
    if j < i {
      OffsetMono(j, i, b);
    }
  }

  /** p % b, as the recursion that the proofs follow. */
  function Rem(p: nat, b: nat): (r: nat)
    requires 0 < b
    ensures r < b && r <= p
  {
    if p < b then p else Rem(p - b, b)
  }

  lemma {:induction false} RemIsMod(p: nat, b: nat)
    requires 0 < b
    ensures Rem(p, b) == p % b
  {
    if p < b {
      DivUnique(p, b, 0, p);
    } else {
      RemIsMod(p - b, b);
      DivStep(p - b, b);
    }
  }

  lemma DivStep(p: nat, b: nat)
    requires 0 < b
    ensures (p + b) / b == p / b + 1 && (p + b) % b == p % b
  {
    DivUnique(p + b, b, p / b + 1, p % b);
  }

  /** Offset r of node i is the position with remainder r. */
  lemma {:induction false} OffsetRem(i: nat, r: nat, b: nat)
    requires r < b
    ensures Rem(Offset(i, b) + r, b) == r
  {
    if i > 0 {
      OffsetRem(i - 1, r, b);
    }
  }

  /** Every position is some offset of some node. */
  lemma {:induction false} OffsetOf(p: nat, b: nat) returns (q: nat)
    requires 0 < b
    ensures p == Offset(q, b) + Rem(p, b)
  {
    if p < b {
      q := 0;
    } else {
      q := OffsetOf(p - b, b);
      q := q + 1;
    }
  }

  /** A node that starts at or before p still does when p's remainder is added. */
  lemma CursorBound(i: nat, p: nat, b: nat)
    requires 0 < b && Offset(i, b) <= p
    ensures Offset(i, b) + Rem(p, b) <= p
  {
    var q := OffsetOf(p, b);
    if q < i {
      OffsetMono(q, i, b);
    } else {
      OffsetMono(i, q, b);
    }
  }

  /** The node and the offset in it that a position has. */
  method Locate(p: nat, b: nat) returns (count: nat, nPos: nat)
    requires 0 < b
    ensures nPos == Rem(p, b) && p == Offset(count, b) + nPos
  {
    count, nPos := p / b, p % b;
    RemIsMod(p, b);
    OffsetIsProduct(count, b);
  }

  /** The number of nodes of b bytes that n bytes need. */
  function CeilDiv(n: nat, b: nat): (c: nat)
    requires 0 < b
    ensures n <= Offset(c, b) < n + b
  {
    OffsetIsProduct(n / b, b);
    n / b + if n % b != 0 then 1 else 0
  }

  // ----- the flat view -----

  /** The contents of the buffers. */
  ghost function Contents(bs: seq<array<byte>>): (cs: seq<seq<byte>>)
    reads bs
    ensures |cs| == |bs|
  {
    seq(|bs|, i requires 0 <= i < |bs| reads bs => bs[i][..])
  }

  /** The first n pieces, one after the other. */
  ghost function Join(cs: seq<seq<byte>>, n: nat): (s: seq<byte>)
    requires n <= |cs|
  {
    if n == 0 then [] else Join(cs, n - 1) + cs[n - 1]
  }

  ghost predicate Even(cs: seq<seq<byte>>, b: nat) {
    forall i :: 0 <= i < |cs| ==> |cs[i]| == b
  }

  lemma {:induction false} JoinLength(cs: seq<seq<byte>>, n: nat, b: nat)
    requires Even(cs, b) && n <= |cs|
    ensures |Join(cs, n)| == Offset(n, b)
  {
    if n > 0 {
      JoinLength(cs, n - 1, b);
    }
  }

  lemma {:induction false} JoinPrefix(cs: seq<seq<byte>>, c: seq<byte>, n: nat)
    requires n <= |cs|
    ensures Join(cs + [c], n) == Join(cs, n)
  {
    if n > 0 {
      JoinPrefix(cs, c, n - 1);
    }
  }

  /** Piece i is the part of the flat view from Offset(i) on. */
  lemma {:induction false} JoinAt(cs: seq<seq<byte>>, i: nat, n: nat, b: nat)
    requires Even(cs, b) && i < n <= |cs|
    ensures |Join(cs, n)| == Offset(n, b) && Offset(i, b) + b <= Offset(n, b)
    ensures Join(cs, n)[Offset(i, b)..Offset(i, b) + b] == cs[i]
  {
    JoinLength(cs, n, b);
    JoinLength(cs, n - 1, b);
    OffsetMono(i, n, b);
    if i < n - 1 {
      JoinAt(cs, i, n - 1, b);
      OffsetMono(i, n - 1, b);
      assert Join(cs, n)[Offset(i, b)..Offset(i, b) + b] == Join(cs, n - 1)[Offset(i, b)..Offset(i, b) + b];
    }
  }

  lemma JoinSlice(cs: seq<seq<byte>>, i: nat, n: nat, b: nat, off: nat, k: nat)
    requires Even(cs, b) && i < n <= |cs| && off + k <= b
    ensures Offset(i, b) + off + k <= |Join(cs, n)|
    ensures Join(cs, n)[Offset(i, b) + off..Offset(i, b) + off + k] == cs[i][off..off + k]
  {
    JoinAt(cs, i, n, b);
    SliceWithin(Join(cs, n), Offset(i, b), Offset(i, b) + b, off, off + k);
  }

  /** Changing part of piece i changes that part of the flat view. */
  lemma {:induction false} JoinUpdate(cs: seq<seq<byte>>, i: nat, off: nat, data: seq<byte>, n: nat, b: nat)
    requires Even(cs, b) && i < |cs| && off + |data| <= b && n <= |cs|
    ensures n <= i ==> Join(cs[i := Splice(cs[i], off, data)], n) == Join(cs, n)
    ensures i < n ==> Offset(i, b) + b <= |Join(cs, n)| == Offset(n, b)
    ensures i < n ==>
              Join(cs[i := Splice(cs[i], off, data)], n) == Splice(Join(cs, n), Offset(i, b) + off, data)
  {
    JoinLength(cs, n, b);
    if n > 0 {
      JoinUpdate(cs, i, off, data, n - 1, b);
      JoinLength(cs, n - 1, b);
      if i < n - 1 {
        SpliceLeft(Join(cs, n - 1), cs[n - 1], Offset(i, b) + off, data);
      } else if i == n - 1 {
        SpliceRight(Join(cs, n - 1), cs[n - 1], off, data);
      }
    }
  }

  /** The nodes of a list in order, their buffers, where each buffer is, and the size of a buffer. */
  datatype List = List(nodes: seq<Node>, bufs: seq<array<byte>>, b: nat) {

    /** One buffer of b bytes for each node, and no buffer twice. */
    ghost predicate Shape() {
      && 0 < b && |nodes| == |bufs|
      && (forall i :: 0 <= i < |nodes| ==> nodes[i].ptr == bufs[i] && nodes[i].size == b)
      && (forall i :: 0 <= i < |bufs| ==> bufs[i].Length == b)
      && (forall i, j :: 0 <= i < j < |bufs| ==> bufs[i] != bufs[j])
    }

    /** The links of the nodes are in that order, null at the end. */
    ghost predicate Chain()
      reads nodes
    {
      && Shape()
      && (forall i {:trigger nodes[i].next} :: 0 <= i < |nodes| ==> nodes[i].next == NodeAt(nodes, i + 1))
    }

    /** All bytes of the list. */
    ghost function Bytes(): (r: seq<byte>)
      reads bufs
    {
      Join(Contents(bufs), |bufs|)
    }

    /** The flat view is f with the first bPos bytes of buf at position at. */
    ghost predicate Holds(f: seq<byte>, at: nat, buf: seq<byte>, bPos: nat)
      reads bufs
    {
      bPos <= |buf| && at + |buf| <= |f| && Spliced(Bytes(), f, at, buf[..bPos])
    }

    lemma HoldsAll(f: seq<byte>, at: nat, buf: seq<byte>)
      requires Holds(f, at, buf, |buf|)
      ensures Spliced(Bytes(), f, at, buf)
    {
      assert buf[..|buf|] == buf;
    }

    ghost function Cap(): (r: nat) {
      Offset(|nodes|, b)
    }

    lemma BytesLength()
      requires Chain()
      ensures |Bytes()| == Cap()
    {
      JoinLength(Contents(bufs), |bufs|, b);
    }

    /** k bytes of node i, as a part of the flat view. */
    lemma BytesAt(i: nat, off: nat, k: nat)
      requires Chain() && i < |nodes| && off + k <= b
      ensures Offset(i, b) + off + k <= |Bytes()|
      ensures bufs[i][off..off + k] == Bytes()[Offset(i, b) + off..Offset(i, b) + off + k]
    {
      JoinSlice(Contents(bufs), i, |bufs|, b, off, k);
      assert bufs[i][off..off + k] == Contents(bufs)[i][off..off + k];
    }
  }

  // ----- growing -----

  /** One more node behind the last one, tmp. */
  method AppendNode(tmp: Node, ghost l: List) returns (node: Node, ghost l': List)
    requires l.Chain() && 0 < |l.nodes| && tmp == l.nodes[|l.nodes| - 1]
    modifies tmp
    ensures l'.Chain() && l'.b == l.b && fresh(node) && fresh(node.ptr)
    ensures l'.nodes == l.nodes + [node] && l'.bufs == l.bufs + [node.ptr]
    ensures l'.Bytes() == l.Bytes() + node.ptr[..] && l'.Cap() == l.Cap() + l.b
  {
    assert tmp.next == null;
    forall i | 0 <= i < |l.nodes| - 1 ensures l.nodes[i] != tmp {
      assert l.nodes[i].next == l.nodes[i + 1];
    }
    node := new Node(tmp.size);
    tmp.next := node;
    l' := List(l.nodes + [node], l.bufs + [node.ptr], l.b);
    forall i | 0 <= i < |l'.nodes| ensures l'.nodes[i].next == NodeAt(l'.nodes, i + 1) {
    }
    BytesAppend(l, node.ptr, l');
  }

  lemma BytesAppend(l: List, buf: array<byte>, l': List)
    requires l'.bufs == l.bufs + [buf]
    ensures l'.Bytes() == l.Bytes() + buf[..]
  {
    assert Contents(l'.bufs) == Contents(l.bufs) + [buf[..]];
    JoinPrefix(Contents(l.bufs), buf[..], |l.bufs|);
  }

  /** l' is l with n nodes more, the last of them tmp and the first of them first. */
  ghost predicate Longer(l: List, l': List, n: nat, tmp: Node, first: Node?, f: seq<byte>)
    reads l'.nodes, l'.bufs
  {
    && l'.Chain() && l'.b == l.b && |l'.nodes| == |l.nodes| + n
    && l.nodes <= l'.nodes && l.bufs <= l'.bufs
    && 0 < |l'.nodes| && tmp == l'.nodes[|l'.nodes| - 1] && first == NodeAt(l'.nodes, |l.nodes|)
    && f <= l'.Bytes()
  }

  /** The body of the loop of addCapacity. */
  method AppendStep(tmp0: Node, first0: Node?, ghost l: List, ghost l0: List, ghost n: nat, ghost f: seq<byte>)
    returns (tmp: Node, first: Node?, ghost l': List)
    requires Longer(l, l0, n, tmp0, first0, f)
    modifies tmp0
    ensures Longer(l, l', n + 1, tmp, first, f) && fresh(tmp) && fresh(tmp.ptr)
    ensures l'.nodes == l0.nodes + [tmp] && l'.bufs == l0.bufs + [tmp.ptr]
  {
    tmp, l' := AppendNode(tmp0, l0);
    first := if first0 == null then tmp else first0;
  }

  /** The loop of addCapacity, which links count0 new nodes behind tmp0. */
  method AppendNodes(tmp0: Node, count0: nat, ghost l: List)
    returns (first: Node?, ghost l': List, ghost added: set<object>)
    requires l.Chain() && 0 < |l.nodes| && tmp0 == l.nodes[|l.nodes| - 1]
    modifies tmp0
    ensures fresh(added) && (forall n :: n in l'.nodes ==> n in l.nodes || n in added)
    ensures forall a :: a in l'.bufs ==> a in l.bufs || a in added
    ensures l'.nodes != [] && Longer(l, l', count0, l'.nodes[|l'.nodes| - 1], first, old(l.Bytes()))
  {
    var tmp, count: nat := tmp0, count0;
    first, l', added := null, l, {};
    while count > 0
      invariant count <= count0 && Longer(l, l', count0 - count, tmp, first, old(l.Bytes()))
      invariant fresh(added) && (forall n :: n in l'.nodes ==> n in l.nodes || n in added)
      invariant forall a :: a in l'.bufs ==> a in l.bufs || a in added
      invariant tmp == tmp0 || fresh(tmp)
    {
      tmp, first, l' := AppendStep(tmp, first, l, l', count0 - count, old(l.Bytes()));
      added := added + {tmp, tmp.ptr};
      count := count - 1;
    }
  }

  /** The last node, starting from node i0. */
  method Last(cur: Node, ghost l: List, ghost i0: nat) returns (tmp: Node)
    requires l.Chain() && i0 < |l.nodes| && cur == l.nodes[i0]
    ensures tmp == l.nodes[|l.nodes| - 1]
  {
    tmp := cur;
    ghost var i := i0;
    while tmp.next != null
      invariant i < |l.nodes| && tmp == l.nodes[i]
      decreases |l.nodes| - i
    {
      tmp := tmp.next;
      i := i + 1;
    }
  }

  /** Node count, walked to from the first one; null at the end of the list. */
  method Walk(root: Node, count0: nat, ghost l: List) returns (cur: Node?)
    requires l.Chain() && 0 < |l.nodes| && root == l.nodes[0] && count0 <= |l.nodes|
    ensures cur == NodeAt(l.nodes, count0)
  {
    cur := root;
    var count := count0;
    while count > 0
      invariant 0 <= count <= count0 && cur == NodeAt(l.nodes, count0 - count)
    {
      cur := cur.next;
      count := count - 1;
    }
  }

  // ----- copying in -----

  method Memcpy(dst: array<byte>, off: nat, data: seq<byte>)
    requires off + |data| <= dst.Length
    modifies dst
    ensures dst[..] == Splice(old(dst[..]), off, data)
  {
    forall k | 0 <= k < |data| {
      dst[off + k] := data[k];
    }
  }

  /** memcpy of k bytes of buf from bPos on into buffer i; f is the flat view without buf, at where buf goes. */
  method CopyIn(dst: array<byte>, off: nat, buf: seq<byte>, bPos: nat, k: nat,
                ghost l: List, ghost i: nat, ghost f: seq<byte>, ghost at: nat)
    requires l.Chain() && i < |l.nodes| && dst == l.bufs[i] && off + k <= l.b
    requires bPos + k <= |buf| && l.Holds(f, at, buf, bPos)
    requires Offset(i, l.b) + off == at + bPos
    modifies dst
    ensures l.Holds(f, at, buf, bPos + k)
  {
    ghost var cs, data := Contents(l.bufs), buf[bPos..bPos + k];
    Memcpy(dst, off, buf[bPos..bPos + k]);
    assert Contents(l.bufs) == cs[i := Splice(cs[i], off, data)];
    JoinUpdate(cs, i, off, data, |l.bufs|, l.b);
    SpliceAdjacent(f, at, buf[..bPos], data);
    SliceStep(buf, bPos, k);
  }

  /** Node i, offset nPos, is where byte bPos of the n bytes that start at position at goes; after the last
      one the node stays the one that holds it. */
  ghost predicate PutAt(l: List, i: nat, cur: Node, nPos: nat, at: nat, bPos: nat, n: nat) {
    && i < |l.nodes| && cur == l.nodes[i] && bPos <= n
    && (bPos < n ==> nPos < l.b && Offset(i, l.b) + nPos == at + bPos)
    && (bPos == n ==> Offset(i, l.b) < at + bPos <= Offset(i, l.b) + l.b)
  }

  /** The body of the loop of ByteArray::write. */
  method PutStep(cur0: Node, nPos0: nat, buf: seq<byte>, bPos0: nat, ghost l: List, ghost i0: nat,
                 ghost f: seq<byte>, ghost at: nat)
    returns (cur: Node, nPos: nat, bPos: nat, ghost i: nat)
    requires l.Chain() && bPos0 < |buf| && at + |buf| <= l.Cap()
    requires PutAt(l, i0, cur0, nPos0, at, bPos0, |buf|) && l.Holds(f, at, buf, bPos0)
    modifies l.bufs
    ensures bPos0 < bPos && PutAt(l, i, cur, nPos, at, bPos, |buf|) && l.Holds(f, at, buf, bPos)
  {
    var size := |buf| - bPos0;
    var nCap := cur0.size - nPos0;
    if nCap > size {
      CopyIn(cur0.ptr, nPos0, buf, bPos0, size, l, i0, f, at);
      cur, nPos, bPos, i := cur0, nPos0, bPos0 + size, i0;
    } else {
      CopyIn(cur0.ptr, nPos0, buf, bPos0, nCap, l, i0, f, at);
      cur, nPos, bPos, i := cur0, 0, bPos0 + nCap, i0;
      if size != nCap {
        OffsetBelow(i + 1, |l.nodes|, l.b);
        cur, i := cur.next, i + 1;
      }
    }
  }

  /** The loop of ByteArray::write: buf goes into the list from offset nPos0 of node cur0 on. */
  method Put(cur0: Node, nPos0: nat, buf: seq<byte>, ghost l: List, ghost i0: nat) returns (cur: Node, ghost i: nat)
    requires l.Chain() && i0 < |l.nodes| && cur0 == l.nodes[i0] && nPos0 < l.b && buf != []
    requires Offset(i0, l.b) + nPos0 + |buf| <= l.Cap()
    modifies l.bufs
    ensures Spliced(l.Bytes(), old(l.Bytes()), Offset(i0, l.b) + nPos0, buf)
    ensures i < |l.nodes| && cur == l.nodes[i]
    ensures Offset(i, l.b) < Offset(i0, l.b) + nPos0 + |buf| <= Offset(i, l.b) + l.b
  {
    ghost var f, at := l.Bytes(), Offset(i0, l.b) + nPos0;
    l.BytesLength();
    cur, i := cur0, i0;
    var nPos: nat, bPos: nat := nPos0, 0;
    while bPos < |buf|
      invariant PutAt(l, i, cur, nPos, at, bPos, |buf|) && l.Holds(f, at, buf, bPos)
    {
      cur, nPos, bPos, i := PutStep(cur, nPos, buf, bPos, l, i, f, at);
    }
    l.HoldsAll(f, at, buf);
  }

  // ----- copying out -----

  /** Node i (null behind the end), offset nPos, is where byte k of the n bytes from position at on is; after the
      last one only the node counts. */
  ghost predicate GetAt(l: List, i: nat, cur: Node?, nPos: nat, at: nat, k: nat, n: nat) {
    && i <= |l.nodes| && cur == NodeAt(l.nodes, i) && nPos < l.b && k <= n
    && (k < n ==> Offset(i, l.b) + nPos == at + k)
    && (k == n ==> Offset(i, l.b) <= at + k < Offset(i, l.b) + l.b)
  }

  /** The body of the loop of ByteArray::read. */
  method GetStep(cur0: Node?, nPos0: nat, size0: nat, buf0: seq<byte>, ghost l: List, ghost i0: nat, ghost at: nat)
    returns (cur: Node?, nPos: nat, buf: seq<byte>, ghost i: nat)
    requires l.Chain() && |buf0| < size0 && at + size0 <= l.Cap() == |l.Bytes()|
    requires GetAt(l, i0, cur0, nPos0, at, |buf0|, size0) && buf0 == l.Bytes()[at..at + |buf0|]
    ensures |buf0| < |buf| <= size0
    ensures GetAt(l, i, cur, nPos, at, |buf|, size0) && buf == l.Bytes()[at..at + |buf|]
  {
    OffsetBelow(i0, |l.nodes|, l.b);
    var size, nCap := size0 - |buf0|, cur0.size - nPos0;
    ghost var k := Min(nCap, size);
    l.BytesAt(i0, nPos0, k);
    SliceSlice(l.Bytes(), at, at + |buf0|, at + |buf0| + k);
    if nCap > size {
      cur, nPos, buf, i := cur0, nPos0, buf0 + cur0.ptr[nPos0..nPos0 + size], i0;
    } else {
      cur, nPos, buf, i := cur0.next, 0, buf0 + cur0.ptr[nPos0..nPos0 + nCap], i0 + 1;
    }
  }

  /** The loop of ByteArray::read: size bytes from offset nPos0 of node cur0 on. */
  method Get(cur0: Node?, nPos0: nat, size: nat, ghost l: List, ghost i0: nat)
    returns (buf: seq<byte>, cur: Node?, ghost i: nat)
    requires l.Chain() && i0 <= |l.nodes| && cur0 == NodeAt(l.nodes, i0) && nPos0 < l.b
    requires Offset(i0, l.b) + nPos0 + size <= l.Cap() == |l.Bytes()|
    ensures buf == l.Bytes()[Offset(i0, l.b) + nPos0..Offset(i0, l.b) + nPos0 + size]
    ensures i <= |l.nodes| && cur == NodeAt(l.nodes, i)
    ensures Offset(i, l.b) <= Offset(i0, l.b) + nPos0 + size < Offset(i, l.b) + l.b
  {
    ghost var at := Offset(i0, l.b) + nPos0;
    cur, i, buf := cur0, i0, [];
    var nPos := nPos0;
    while |buf| < size
      invariant |buf| <= size && GetAt(l, i, cur, nPos, at, |buf|, size) && buf == l.Bytes()[at..at + |buf|]
    {
      cur, nPos, buf, i := GetStep(cur, nPos, size, buf, l, i, at);
    }
  }

  // ----- windows -----

  /** An iovec: len bytes of a buffer from off on. */
  datatype Window = Window(base: array<byte>, off: nat, len: nat)

  function Total(ws: seq<Window>): (r: nat) {
    if ws == [] then 0 else ws[0].len + Total(ws[1..])
  }

  /** The bytes that the windows show, one after the other. */
  ghost function Gather(ws: seq<Window>): (r: seq<byte>)
    reads set w | w in ws :: w.base
    requires InBounds(ws)
  {
    if ws == [] then [] else ws[0].base[ws[0].off..ws[0].off + ws[0].len] + Gather(ws[1..])
  }

  /** The windows that cover len bytes from offset off of node i on. */
  ghost function WindowsOf(l: List, i: nat, off: nat, len: nat): (ws: seq<Window>)
    requires l.Shape() && off < l.b && Offset(i, l.b) + off + len <= l.Cap()
    decreases len
  {
    if len == 0 then [] else
      OffsetBelow(i, |l.nodes|, l.b);
      if l.b - off > len then [Window(l.bufs[i], off, len)]
      else [Window(l.bufs[i], off, l.b - off)] + WindowsOf(l, i + 1, 0, len - (l.b - off))
  }

  lemma {:induction false} WindowsTotal(l: List, i: nat, off: nat, len: nat)
    requires l.Shape() && off < l.b && Offset(i, l.b) + off + len <= l.Cap()
    ensures Total(WindowsOf(l, i, off, len)) == len
    decreases len
  {
    if len > 0 {
      OffsetBelow(i, |l.nodes|, l.b);
      if l.b - off <= len {
        WindowsTotal(l, i + 1, 0, len - (l.b - off));
        assert WindowsOf(l, i, off, len)[1..] == WindowsOf(l, i + 1, 0, len - (l.b - off));
      }
    }
  }

  /** Window k lies in buffer i + k and is not empty: the windows are disjoint and in order. */
  lemma {:induction false} WindowInBounds(l: List, i: nat, off: nat, len: nat, k: nat)
    requires l.Shape() && off < l.b && Offset(i, l.b) + off + len <= l.Cap()
    requires k < |WindowsOf(l, i, off, len)|
    ensures i + k < |l.bufs|
    ensures var w := WindowsOf(l, i, off, len)[k];
            w.base == l.bufs[i + k] && 0 < w.len && w.off + w.len <= w.base.Length
    decreases len
  {
    OffsetBelow(i, |l.nodes|, l.b);
    if k > 0 {
      WindowInBounds(l, i + 1, 0, len - (l.b - off), k - 1);
    }
  }

  ghost predicate InBounds(ws: seq<Window>) {
    forall k :: 0 <= k < |ws| ==> ws[k].off + ws[k].len <= ws[k].base.Length
  }

  lemma GatherCons(w: Window, rest: seq<Window>)
    requires w.off + w.len <= w.base.Length && InBounds(rest)
    ensures InBounds([w] + rest)
    ensures Gather([w] + rest) == w.base[w.off..w.off + w.len] + Gather(rest)
  {
    assert ([w] + rest)[1..] == rest;
  }

  lemma GatherStep(w: Window, rest: seq<Window>, f: seq<byte>, p: nat, m: nat, q: nat)
    requires w.off + w.len <= w.base.Length && InBounds(rest) && p <= m <= q <= |f|
    requires w.base[w.off..w.off + w.len] == f[p..m]
    requires if m < q then Gather(rest) == f[m..q] else rest == []
    ensures InBounds([w] + rest) && Gather([w] + rest) == f[p..q]
  {
    GatherCons(w, rest);
    SliceSlice(f, p, m, q);
  }

  lemma WindowsCons(l: List, i: nat, off: nat, len: nat)
    returns (w: Window, k: nat, rest: seq<Window>)
    requires l.Shape() && off < l.b && 0 < len && Offset(i, l.b) + off + len <= l.Cap()
    ensures i < |l.bufs| && k == Min(len, l.b - off) && w == Window(l.bufs[i], off, k)
    ensures WindowsOf(l, i, off, len) == [w] + rest
    ensures k == len ==> rest == []
    ensures k < len ==> Offset(i + 1, l.b) + len - k <= l.Cap() && rest == WindowsOf(l, i + 1, 0, len - k)
  {
    OffsetBelow(i, |l.nodes|, l.b);
    k := Min(len, l.b - off);
    w := Window(l.bufs[i], off, k);
    rest := WindowsOf(l, i, off, len)[1..];
  }

  lemma WindowsInside(l: List, i: nat, off: nat, len: nat)
    requires l.Shape() && off < l.b && Offset(i, l.b) + off + len <= l.Cap()
    ensures forall w :: w in WindowsOf(l, i, off, len) ==> w.base in l.bufs
  {
    forall w | w in WindowsOf(l, i, off, len) ensures w.base in l.bufs {
      var k :| 0 <= k < |WindowsOf(l, i, off, len)| && WindowsOf(l, i, off, len)[k] == w;
      WindowInBounds(l, i, off, len, k);
    }
  }

  /** What the windows show is the flat view. */
  lemma {:induction false} GatherWindows(l: List, i: nat, off: nat, len: nat)
    requires l.Chain() && off < l.b && Offset(i, l.b) + off + len <= l.Cap() == |l.Bytes()|
    ensures InBounds(WindowsOf(l, i, off, len))
    ensures Gather(WindowsOf(l, i, off, len)) == l.Bytes()[Offset(i, l.b) + off..Offset(i, l.b) + off + len]
    decreases len
  {
    if len > 0 {
      var w, k, rest := WindowsCons(l, i, off, len);
      var f, p := l.Bytes(), Offset(i, l.b) + off;
      if k < len {
        GatherWindows(l, i + 1, 0, len - k);
      }
      l.BytesAt(i, off, k);
      GatherStep(w, rest, f, p, p + k, p + len);
    }
  }

  /** The loop of getReadBuffers and of getWriteBuffers. */
  method Windows(cur0: Node?, nPos0: nat, len0: nat, ghost l: List, ghost i0: nat) returns (buffers: seq<Window>)
    requires l.Chain() && i0 <= |l.nodes| && cur0 == NodeAt(l.nodes, i0) && nPos0 < l.b
    requires Offset(i0, l.b) + nPos0 + len0 <= l.Cap()
    ensures buffers == WindowsOf(l, i0, nPos0, len0)
  {
    var cur: Node?, nPos: nat, len: nat := cur0, nPos0, len0;
    ghost var i: nat := i0;
    buffers := [];
    while len > 0
      invariant nPos < l.b && i <= |l.nodes| && cur == NodeAt(l.nodes, i)
      invariant Offset(i, l.b) + nPos + len <= l.Cap()
      invariant buffers + WindowsOf(l, i, nPos, len) == WindowsOf(l, i0, nPos0, len0)
    {
      OffsetBelow(i, |l.nodes|, l.b);
      var nCap := cur.size - nPos;
      if nCap > len {
        buffers := buffers + [Window(cur.ptr, nPos, len)];
        len := 0;
      } else {
        buffers := buffers + [Window(cur.ptr, nPos, nCap)];
        len := len - nCap;
        nPos := 0;
        cur := cur.next;
        i := i + 1;
      }
    }
  }
}
