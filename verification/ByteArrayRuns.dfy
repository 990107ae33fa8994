/** Whole runs over a ByteArray: everything appended, then everything read;
    and what happens to a cursor that is outside those two phases. */
module ByteArrayRuns {
  import opened Prelude
  import opened Codec
  import opened NodeLists
  import opened Values
  import opened ByteArrays

  // ----- raw bytes -----

  function Flatten(chunks: seq<seq<byte>>): (r: seq<byte>) {
    if chunks == [] then [] else chunks[0] + Flatten(chunks[1..])
  }

  function Sum(sizes: seq<nat>): (r: nat) {
    if sizes == [] then 0 else sizes[0] + Sum(sizes[1..])
  }

  /** What reads of those sizes return on a flat sequence; one that asks for too much takes nothing. */
  function Cut(s: seq<byte>, sizes: seq<nat>): (out: seq<Result<seq<byte>>>)
    ensures |out| == |sizes|
  {
    if sizes == [] then []
    else if |s| < sizes[0] then [OutOfRange] + Cut(s, sizes[1..])
    else [Ok(s[..sizes[0]])] + Cut(s[sizes[0]..], sizes[1..])
  }

  /** Where the read number i starts. */
  lemma {:induction false} CutAt(s: seq<byte>, sizes: seq<nat>, i: nat)
    requires i < |sizes| && Sum(sizes) <= |s|
    ensures Sum(sizes[..i]) + sizes[i] <= Sum(sizes)
    ensures Cut(s, sizes)[i] == Ok(s[Sum(sizes[..i])..Sum(sizes[..i]) + sizes[i]])
  {
    if i == 0 {
      assert sizes[..i] == [];
    } else {
      CutAt(s[sizes[0]..], sizes[1..], i - 1);
      assert sizes[..i][1..] == sizes[1..][..i - 1];
      var a := Sum(sizes[1..][..i - 1]);
      assert s[sizes[0]..] == s[sizes[0]..|s|];
      SliceWithin(s, sizes[0], |s|, a, a + sizes[i]);
    }
  }

  method WriteAll(ba: ByteArray, chunks: seq<seq<byte>>)
    requires ba.Appending()
    modifies ba.Repr
    ensures ba.Appending() && fresh(ba.Repr - old(ba.Repr))
    ensures ba.Content() == old(ba.Content()) + Flatten(chunks)
    ensures if Flatten(chunks) == [] then ba.m_cap == old(ba.m_cap) else ba.m_cap - ba.m_pos < ba.m_baseSize
    decreases chunks
  {
    if chunks != [] {
      ghost var c, rest := ba.Content(), Flatten(chunks[1..]);
      ba.Append(chunks[0]);
      WriteAll(ba, chunks[1..]);
      Assoc(c, chunks[0], rest);
    }
  }

  /** From the append phase to the read phase. */
  method Rewind(ba: ByteArray)
    requires ba.Valid() && ba.m_size <= ba.m_cap
    modifies ba`m_pos, ba`m_size, ba`m_cur, ba`index
    ensures ba.Reading() && ba.m_pos == 0 && ba.Rest() == old(ba.Content())
  {
    var _ := ba.SetPos(0);
  }

  method ReadAll(ba: ByteArray, sizes: seq<nat>) returns (out: seq<Result<seq<byte>>>)
    requires ba.Reading()
    modifies ba`m_pos, ba`m_cur, ba`index
    ensures ba.Reading() && out == Cut(old(ba.Rest()), sizes)
    decreases sizes
  {
    if sizes == [] {
      return [];
    }
    var r := ba.Next(sizes[0]);
    var rest := ReadAll(ba, sizes[1..]);
    out := [r] + rest;
  }

  /** For every node size, whatever was written before the clear, every list of writes and every list of reads:
      the reads return the written bytes, cut at the read sizes. */
  method WriteThenRead(baseSize: nat, order: Endian, before: seq<seq<byte>>, chunks: seq<seq<byte>>, sizes: seq<nat>)
    returns (out: seq<Result<seq<byte>>>)
    requires 0 < baseSize
    ensures out == Cut(Flatten(chunks), sizes)
  {
    var ba := new ByteArray(baseSize, order);
    WriteAll(ba, before);
    ba.Clear();
    WriteAll(ba, chunks);
    Rewind(ba);
    assert [] + Flatten(chunks) == Flatten(chunks);
    out := ReadAll(ba, sizes);
  }

  // ----- typed values -----

  method WriteValue(ba: ByteArray, v: Value)
    requires ba.Appending() && Typed(v)
    modifies ba.Repr
    ensures ba.Appending() && fresh(ba.Repr - old(ba.Repr)) && ba.m_endian == old(ba.m_endian)
    ensures ba.Content() == old(ba.Content()) + Encode(ba.m_endian, v)
  {
    match v
    case Fuint(n, u) => ba.WriteFuint(u, n);
    case Fint(n, i) => ba.WriteFint(i, n);
    case Uint32(u) => ba.WriteUint32(u);
    case Int32(i) => ba.WriteInt32(i);
    case Uint64(u) => ba.WriteUint64(u);
    case Int64(i) => ba.WriteInt64(i);
    case Str(p, s) => ba.WriteString(p, s);
  }

  method ReadValue(ba: ByteArray, k: Kind) returns (r: Result<Value>)
    requires ba.Reading()
    modifies ba`m_pos, ba`m_cur, ba`index
    ensures ba.Reading() && Took(Decode(ba.m_endian, k, old(ba.Rest())), old(ba.Rest()), ba.Rest(), r)
  {
    match k
    case KFuint(n) => var v := ba.ReadFuint(n); r := if v.Ok? then Ok(Fuint(n, v.value)) else OutOfRange;
    case KFint(n) => var v := ba.ReadFint(n); r := if v.Ok? then Ok(Fint(n, v.value)) else OutOfRange;
    case KUint32 => var v := ba.ReadUint32(); r := if v.Ok? then Ok(Uint32(v.value)) else OutOfRange;
    case KInt32 => var v := ba.ReadInt32(); r := if v.Ok? then Ok(Int32(v.value)) else OutOfRange;
    case KUint64 => var v := ba.ReadUint64(); r := if v.Ok? then Ok(Uint64(v.value)) else OutOfRange;
    case KInt64 => var v := ba.ReadInt64(); r := if v.Ok? then Ok(Int64(v.value)) else OutOfRange;
    case KStr(p) => var v := ba.ReadString(p); r := if v.Ok? then Ok(Str(p, v.value)) else OutOfRange;
  }

  method WriteValues(ba: ByteArray, vs: seq<Value>)
    requires ba.Appending() && AllTyped(vs)
    modifies ba.Repr
    ensures ba.Appending() && fresh(ba.Repr - old(ba.Repr)) && ba.m_endian == old(ba.m_endian)
    ensures ba.Content() == old(ba.Content()) + EncodeAll(ba.m_endian, vs)
    decreases vs
  {
    if vs != [] {
      ghost var c, a, rest := ba.Content(), Encode(ba.m_endian, vs[0]), EncodeAll(ba.m_endian, vs[1..]);
      WriteValue(ba, vs[0]);
      WriteValues(ba, vs[1..]);
      Assoc(c, a, rest);
    }
  }

  method ReadValues(ba: ByteArray, ks: seq<Kind>) returns (r: Result<seq<Value>>)
    requires ba.Reading()
    modifies ba`m_pos, ba`m_cur, ba`index
    ensures ba.Reading() && Took(DecodeAll(ba.m_endian, ks, old(ba.Rest())), old(ba.Rest()), ba.Rest(), r)
    decreases ks
  {
    if ks == [] {
      return Ok([]);
    }
    ghost var s := ba.Rest();
    var v := ReadValue(ba, ks[0]);
    ghost var t := ba.Rest();
    if v.OutOfRange? {
      DecodeAllStops(ba.m_endian, ks, s, t);
      return OutOfRange;
    }
    var vs := ReadValues(ba, ks[1..]);
    DecodeAllTook(ba.m_endian, ks, s, t, ba.Rest(), v, vs);
    r := if vs.Ok? then Ok([v.value] + vs.value) else OutOfRange;
  }

  method PutValues(ba: ByteArray, vs: seq<Value>)
    requires ba.Appending() && ba.Content() == [] && AllTyped(vs)
    modifies ba.Repr
    ensures ba.Reading() && fresh(ba.Repr - old(ba.Repr)) && ba.m_endian == old(ba.m_endian)
    ensures ba.m_pos == 0 && ba.Rest() == EncodeAll(ba.m_endian, vs)
  {
    WriteValues(ba, vs);
    Rewind(ba);
    assert [] + EncodeAll(ba.m_endian, vs) == EncodeAll(ba.m_endian, vs);
  }

  /** Every list of values comes back, under either byte order of setting and host, and no byte is left over. */
  method TypedRoundTrip(baseSize: nat, order: Endian, little: bool, vs: seq<Value>)
    returns (out: Result<seq<Value>>, left: nat)
    requires 0 < baseSize && AllTyped(vs)
    ensures (forall v :: v in vs ==> Fits(v)) ==> out == Ok(vs) && left == 0
  {
    var ba := new ByteArray(baseSize, order);
    ba.SetIsLittleEndian(little);
    PutValues(ba, vs);
    out := ReadValues(ba, Kinds(vs));
    left := ba.m_size - ba.m_pos;
    AllCome(ba.m_endian, vs);
  }

  lemma AllCome(e: Endian, vs: seq<Value>)
    requires AllTyped(vs)
    ensures (forall v :: v in vs ==> Fits(v)) ==>
              DecodeAll(e, Kinds(vs), EncodeAll(e, vs)) == Parsed(Ok(vs), |EncodeAll(e, vs)|)
  {
    if forall v :: v in vs ==> Fits(v) {
      ListRoundTrip(e, vs, []);
      assert EncodeAll(e, vs) + [] == EncodeAll(e, vs);
    }
  }

  // ----- outside the two phases -----

  method FillNode(ba: ByteArray)
    requires ba.Valid() && ba.m_cur != null && ba.Phys() == 0
    requires ba.m_baseSize == 1 && ba.m_pos == ba.m_size == 0 && ba.m_cap == 2
    modifies ba.Repr
    ensures ba.Valid() && ba.m_cur != null && fresh(ba.Repr - old(ba.Repr))
    ensures ba.m_pos == ba.m_size == 1 && ba.m_cap == 2 && ba.WriteAt() == 0
  {
    ba.Write([7]);
    OffsetIsProduct(ba.index, 1);
  }

  method WriteOver(ba: ByteArray) returns (s: seq<byte>)
    requires ba.Valid() && ba.m_cur != null && ba.WriteAt() == 0
    requires ba.m_pos == ba.m_size == 1 && ba.m_cap == 2
    modifies ba.Repr
    ensures |s| == 2 && s[0] == 8
  {
    ba.Write([8]);
    assert ba.Bytes()[0] == ba.Bytes()[0..1][0];
    s := ReadBack(ba);
  }

  method ReadBack(ba: ByteArray) returns (s: seq<byte>)
    requires ba.Valid() && ba.m_size <= ba.m_cap
    modifies ba`m_pos, ba`m_size, ba`m_cur, ba`index
    ensures |ba.Bytes()| == ba.m_cap && s == ba.Bytes()[..old(ba.m_size)]
  {
    var _ := ba.SetPos(0);
    s := ba.ToString();
  }

  method RoomForTwo() returns (ba: ByteArray)
    ensures ba.Valid() && fresh(ba) && fresh(ba.Repr) && ba.m_cur != null && ba.Phys() == 0
    ensures ba.m_baseSize == 1 && ba.m_pos == ba.m_size == 0 && ba.m_cap == 2
  {
    ba := new ByteArray(1, Big);
    CapacityMeets(1, 2, 1);
    var _ := ba.GetWriteBuffers(2);
  }

  /** A node that is filled exactly while a spare one follows stays the cursor, so the next write goes over it:
      7 and 8 are written, and 8 is read first. */
  method SpareNodeIsSkipped() returns (s: seq<byte>)
    ensures |s| == 2 && s[0] == 8
  {
    var ba := RoomForTwo();
    FillNode(ba);
    s := WriteOver(ba);
  }

  /** When the size stays within the capacity: a write that ends inside has to find its length behind the size, and a
      write that ends outside has to leave as much of the last node free as it wrote over. */
  lemma SizeFits(pos: nat, size: nat, cap: nat, n: nat, b: nat)
    requires 0 < b && pos <= size
    ensures var c := Capacity(cap, pos + n, b);
            && (pos + n <= cap ==> (size + n <= c <==> n <= cap - size))
            && (pos + n > cap ==> c - (pos + n) < b && (size + n <= c <==> size - pos <= c - (pos + n)))
            && (size == pos ==> size + n <= c)
  {
  }

  /** Writing over old bytes adds to m_size all the same. Whatever is written over the start of an array again and
      again, the size leaves the capacity exactly when the rounds no longer fit behind it. */
  method OverwritingGrows(ba: ByteArray, buf: seq<byte>, rounds: nat)
    requires ba.Valid() && |buf| <= ba.m_cap
    modifies ba.Repr
    ensures ba.Valid() && fresh(ba.Repr - old(ba.Repr)) && ba.m_cap == old(ba.m_cap) && ba.m_baseSize <= ba.m_cap
    ensures ba.m_size == old(ba.m_size) + rounds * |buf|
    ensures 0 < rounds && buf != [] ==> |ba.Bytes()| == ba.m_cap && ba.Bytes()[..|buf|] == buf
    ensures ba.m_size <= ba.m_cap <==> rounds * |buf| <= ba.m_cap - old(ba.m_size)
  {
    AtLeastOneNode(ba);
    for i := 0 to rounds
      invariant ba.Valid() && fresh(ba.Repr - old(ba.Repr)) && ba.m_cap == old(ba.m_cap)
      invariant ba.m_size == old(ba.m_size) + i * |buf|
      invariant 0 < i && buf != [] ==> |ba.Bytes()| == ba.m_cap && ba.Bytes()[..|buf|] == buf
    {
      WriteOverStart(ba, buf);
      assert (i + 1) * |buf| == i * |buf| + |buf|;
    }
  }

  lemma AtLeastOneNode(ba: ByteArray)
    requires ba.Valid()
    ensures 0 < ba.m_baseSize <= ba.m_cap
  {
    OffsetMono(1, |ba.list.nodes|, ba.m_baseSize);
  }

  method WriteOverStart(ba: ByteArray, buf: seq<byte>)
    requires ba.Valid() && |buf| <= ba.m_cap && 0 < ba.m_cap
    modifies ba.Repr
    ensures ba.Valid() && fresh(ba.Repr - old(ba.Repr)) && ba.m_cap == old(ba.m_cap)
    ensures ba.m_size == old(ba.m_size) + |buf|
    ensures buf != [] ==> |ba.Bytes()| == ba.m_cap && ba.Bytes()[..|buf|] == buf
  {
    var _ := ba.SetPos(0);
    ba.Write(buf);
    assert ba.Bytes()[0..|buf|] == ba.Bytes()[..|buf|];
  }
}
