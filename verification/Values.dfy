/** The typed values that ByteArray writes and reads, as bytes: what is
    written, what a reader makes of it, and when that is the same value. */
module Values {
  import opened Prelude
  import opened Codec

  datatype Prefix = F16 | F32 | F64 | Vint

  /** What one writing method is called with. */
  datatype Value =
    | Fuint(n: nat, u: nat)
    | Fint(n: nat, i: int)
    | Uint32(u32: uint32)
    | Int32(i32: int32)
    | Uint64(u64: uint64)
    | Int64(i64: int64)
    | Str(p: Prefix, s: seq<byte>)

  /** Which reading method is called. */
  datatype Kind = KFuint(n: nat) | KFint(n: nat) | KUint32 | KInt32 | KUint64 | KInt64 | KStr(p: Prefix)

  function KindOf(v: Value): (r: Kind) {
    match v
    case Fuint(n, _) => KFuint(n)
    case Fint(n, _) => KFint(n)
    case Uint32(_) => KUint32
    case Int32(_) => KInt32
    case Uint64(_) => KUint64
    case Int64(_) => KInt64
    case Str(p, _) => KStr(p)
  }

  /** The values that the parameter types of the writers admit. */
  predicate Typed(v: Value) {
    match v
    case Fuint(n, u) => n in {1, 2, 4, 8} && u < Pow256(n)
    case Fint(n, i) => n in {1, 2, 4, 8} && Signed(i, n)
    case Str(_, s) => |s| < TWO64
    case _ => true
  }

  // ----- what is written -----

  /** The argument of writeInt64, which has a 32-bit parameter. */
  function Narrow(v: int64): (r: int32) {
    var u := v % TWO32;
    if u < 0x8000_0000 then u else u - TWO32
  }

  /** The length in front of a string, cut to the width that is written. */
  function LengthBytes(e: Endian, p: Prefix, len: uint64): (r: seq<byte>) {
    match p
    case F16 => Memory(e, len % 0x1_0000, 2)
    case F32 => Memory(e, len % TWO32, 4)
    case F64 => Memory(e, len, 8)
    case Vint => Varint(len % TWO32)
  }

  function Encode(e: Endian, v: Value): (r: seq<byte>)
    requires Typed(v)
  {
    match v
    case Fuint(n, u) => Memory(e, u, n)
    case Fint(n, i) => Memory(e, ToUnsigned(i, n), n)
    case Uint32(u) => Varint(u)
    case Int32(i) => Varint(EncodeZigzag32(i))
    case Uint64(u) => Varint(u % TWO32)
    case Int64(i) => Varint(EncodeZigzag64(Narrow(i)) % TWO32)
    case Str(p, s) => LengthBytes(e, p, |s|) + s
  }

  // ----- what is read -----

  function ParseFixed(e: Endian, s: seq<byte>, n: nat): (p: Parsed<nat>)
    ensures p.used <= |s|
    ensures p.r.Ok? ==> p.r.value < Pow256(n)
  {
    if |s| < n then Parsed(OutOfRange, 0) else
      FromMemoryBound(e, s[..n]);
      Parsed(Ok(FromMemory(e, s[..n])), n)
  }

  lemma ByteFromMemory(e: Endian, s: seq<byte>)
    requires 0 < |s|
    ensures ParseFixed(e, s, 1) == Parsed(Ok(s[0]), 1)
  {
    assert s[..1] == [s[0]];
    assert Reverse([s[0]]) == [s[0]];
  }

  function ParseSigned(e: Endian, s: seq<byte>, n: nat): (p: Parsed<int>)
    ensures p.used <= |s|
  {
    var p := ParseFixed(e, s, n);
    Parsed(if p.r.Ok? then Ok(ToSigned(p.r.value, n)) else OutOfRange, p.used)
  }

  function ParseUint32(s: seq<byte>): (p: Parsed<uint32>)
    ensures p.used <= |s|
  {
    Pow128Values();
    GroupsBound(s, 0, 5, TWO32, 16);
    var p := Groups(s, 0, 5, TWO32);
    Parsed(if p.r.Ok? then Ok(p.r.value) else OutOfRange, p.used)
  }

  function ParseUint64(s: seq<byte>): (p: Parsed<uint64>)
    ensures p.used <= |s|
  {
    Pow128Values();
    GroupsBound(s, 0, 10, TWO64, 2);
    var p := Groups(s, 0, 10, TWO64);
    Parsed(if p.r.Ok? then Ok(p.r.value) else OutOfRange, p.used)
  }

  function ParseInt32(s: seq<byte>): (p: Parsed<int32>)
    ensures p.used <= |s|
  {
    var p := ParseUint32(s);
    Parsed(if p.r.Ok? then Ok(DecodeZigzag32(p.r.value)) else OutOfRange, p.used)
  }

  function ParseInt64(s: seq<byte>): (p: Parsed<int64>)
    ensures p.used <= |s|
  {
    var p := ParseUint64(s);
    Parsed(if p.r.Ok? then Ok(DecodeZigzag64(p.r.value)) else OutOfRange, p.used)
  }

  function ParseLength(e: Endian, p: Prefix, s: seq<byte>): (l: Parsed<nat>)
    ensures l.used <= |s|
  {
    match p
    case F16 => ParseFixed(e, s, 2)
    case F32 => ParseFixed(e, s, 4)
    case F64 => ParseFixed(e, s, 8)
    case Vint =>
      var l := ParseUint64(s);
      Parsed(if l.r.Ok? then Ok(l.r.value) else OutOfRange, l.used)
  }

  /** A string that is cut short costs its length. */
  function ParseStr(e: Endian, p: Prefix, s: seq<byte>): (r: Parsed<seq<byte>>)
    ensures r.used <= |s|
  {
    var l := ParseLength(e, p, s);
    if l.r.OutOfRange? || |s| - l.used < l.r.value then Parsed(OutOfRange, l.used)
    else Parsed(Ok(s[l.used..l.used + l.r.value]), l.used + l.r.value)
  }

  /** One group read: the reader of a varint either is done or goes on with the next one. */
  lemma GroupTook(e: Endian, p: Parsed<nat>, s: seq<byte>, k: nat, n: nat, w: nat, value: nat,
                  t: seq<byte>, tmp: Result<nat>)
    requires GroupsLeft(p, s, k, n, w, value) && k < n
    requires Took(ParseFixed(e, s[k..], 1), s[k..], t, tmp)
    ensures tmp.OutOfRange? ==> Took(p, s, t, OutOfRange)
    ensures tmp.Ok? ==> tmp.value < 0x100 && k < |s| && t == s[k + 1..]
    ensures tmp.Ok? && tmp.value < 0x80 ==> Took(p, s, t, Ok(value + Group(tmp.value, k, w)))
    ensures tmp.Ok? && 0x80 <= tmp.value ==> GroupsLeft(p, s, k + 1, n, w, value + Group(tmp.value, k, w))
  {
    if k < |s| {
      ByteFromMemory(e, s[k..]);
      GroupsStep(p, s, k, n, w, value);
    }
  }

  /** A string read after its length. */
  lemma StrTook(e: Endian, p: Prefix, s: seq<byte>, size: nat, t: seq<byte>, u: seq<byte>, r: Result<seq<byte>>)
    requires Took(ParseLength(e, p, s), s, t, Ok(size))
    requires |t| < size ==> r == OutOfRange && u == t
    requires size <= |t| ==> r == Ok(t[..size]) && u == t[size..]
    ensures Took(ParseStr(e, p, s), s, u, r)
  {
    var k := ParseLength(e, p, s).used;
    if size <= |t| {
      assert s[k..][..size] == s[k..k + size];
      assert s[k..][size..] == s[k + size..];
    }
  }

  function Map<T, U>(p: Parsed<T>, f: T -> U): (r: Parsed<U>)
    ensures r.used == p.used
  {
    Parsed(if p.r.Ok? then Ok(f(p.r.value)) else OutOfRange, p.used)
  }

  function Decode(e: Endian, k: Kind, s: seq<byte>): (p: Parsed<Value>)
    ensures p.used <= |s|
  {
    match k
    case KFuint(n) => Map(ParseFixed(e, s, n), u => Fuint(n, u))
    case KFint(n) => Map(ParseSigned(e, s, n), i => Fint(n, i))
    case KUint32 => Map(ParseUint32(s), u => Uint32(u))
    case KInt32 => Map(ParseInt32(s), i => Int32(i))
    case KUint64 => Map(ParseUint64(s), u => Uint64(u))
    case KInt64 => Map(ParseInt64(s), i => Int64(i))
    case KStr(p) => Map(ParseStr(e, p, s), t => Str(p, t))
  }

  // ----- reading back -----

  /** What survives: the 64-bit varints have 32-bit parameters, and a length must fit its prefix. */
  predicate Fits(v: Value) {
    match v
    case Uint64(u) => u < TWO32
    case Int64(i) => -0x8000_0000 <= i < 0x8000_0000
    case Str(p, s) => |s| < Limit(p)
    case _ => true
  }

  function Limit(p: Prefix): (r: nat) {
    match p
    case F16 => 0x1_0000
    case F32 => TWO32
    case F64 => TWO64
    case Vint => TWO32
  }

  /** A varint below 2^32 takes at most five bytes and is read back by both readers, whatever follows. */
  lemma VarintRoundTrip(v: uint32, rest: seq<byte>)
    ensures 0 < |Varint(v)| <= 5
    ensures ParseUint32(Varint(v) + rest) == Parsed(Ok(v), |Varint(v)|)
    ensures ParseUint64(Varint(v) + rest) == Parsed(Ok(v), |Varint(v)|)
  {
    Pow128Values();
    VarintLength(v, 5);
    ReadVarint(v, rest, 5, TWO32);
    ReadVarint(v, rest, 10, TWO64);
  }

  /** No code is a prefix of another one. */
  lemma VarintSelfDelimiting(v: uint32, w: uint32, a: seq<byte>, b: seq<byte>)
    requires Varint(v) + a == Varint(w) + b
    ensures v == w && a == b
  {
    VarintRoundTrip(v, a);
    VarintRoundTrip(w, b);
    DropPrefix(Varint(v), a);
    DropPrefix(Varint(w), b);
  }

  lemma ParseFixedMemory(e: Endian, u: nat, n: nat, rest: seq<byte>)
    requires u < Pow256(n)
    ensures ParseFixed(e, Memory(e, u, n) + rest, n) == Parsed(Ok(u), n)
  {
    DropPrefix(Memory(e, u, n), rest);
    MemoryInverse(e, u, n);
  }

  lemma PowersOf256()
    ensures Pow256(2) == 0x1_0000 && Pow256(4) == TWO32 && Pow256(8) == TWO64
  {
    assert Pow256(1) == 0x100;
    assert Pow256(2) == 0x1_0000;
    assert Pow256(3) == 0x100_0000;
    assert Pow256(4) == TWO32;
    assert Pow256(5) == 0x100 * TWO32;
    assert Pow256(6) == 0x1_0000 * TWO32;
    assert Pow256(7) == 0x100_0000 * TWO32;
  }

  lemma LengthRoundTrip(e: Endian, p: Prefix, len: uint64, rest: seq<byte>)
    ensures ParseLength(e, p, LengthBytes(e, p, len) + rest) == Parsed(Ok(len % Limit(p)), |LengthBytes(e, p, len)|)
  {
    PowersOf256();
    match p
    case F16 => ParseFixedMemory(e, len % 0x1_0000, 2, rest);
    case F32 => ParseFixedMemory(e, len % TWO32, 4, rest);
    case F64 => ParseFixedMemory(e, len, 8, rest);
    case Vint => VarintRoundTrip(len % TWO32, rest);
  }

  /** The string that is read back: cut to the length that its prefix can hold. */
  lemma StrRoundTrip(e: Endian, p: Prefix, s: seq<byte>, rest: seq<byte>)
    requires |s| < TWO64
    ensures |s| % Limit(p) <= |s|
    ensures ParseStr(e, p, LengthBytes(e, p, |s|) + s + rest)
         == Parsed(Ok(s[..|s| % Limit(p)]), |LengthBytes(e, p, |s|)| + |s| % Limit(p))
  {
    var l, k := LengthBytes(e, p, |s|), |s| % Limit(p);
    ModAtMost(|s|, Limit(p));
    SliceMiddle(l, s, rest, k);
    LengthRoundTrip(e, p, |s|, s + rest);
  }

  /** What is read back. */
  function Survivor(v: Value): (w: Value)
    requires Typed(v)
    ensures Typed(w) && KindOf(w) == KindOf(v)
  {
    match v
    case Uint64(u) => Uint64(u % TWO32)
    case Int64(i) => Int64(Narrow(i))
    case Str(p, s) =>
      ModAtMost(|s|, Limit(p));
      Str(p, s[..|s| % Limit(p)])
    case _ => v
  }

  lemma SurvivesExactly(v: Value)
    requires Typed(v)
    ensures Survivor(v) == v <==> Fits(v)
  {
    if v.Str? {
      ModAtMost(|v.s|, Limit(v.p));
      assert |v.s| < Limit(v.p) ==> v.s[..|v.s|] == v.s;
    }
  }

  lemma NarrowTwice(i: int64)
    ensures Narrow(Narrow(i)) == Narrow(i)
  {
  }

  lemma SmallZigzag(v: int32)
    ensures EncodeZigzag64(v) < TWO32 && DecodeZigzag64(EncodeZigzag64(v)) == v
  {
    EncodeZigzag64IsZigzag(v);
  }

  lemma NarrowZigzag(i: int64)
    ensures Narrow(Narrow(i)) == Narrow(i) && EncodeZigzag64(Narrow(i)) < TWO32
    ensures EncodeZigzag64(Narrow(i)) % TWO32 == EncodeZigzag64(Narrow(i))
    ensures DecodeZigzag64(EncodeZigzag64(Narrow(i))) == Narrow(i)
  {
    NarrowTwice(i);
    SmallZigzag(Narrow(i));
    ModAtMost(EncodeZigzag64(Narrow(i)), TWO32);
  }

  lemma Int64Survives(e: Endian, i: int64, rest: seq<byte>)
    ensures Decode(e, KInt64, Encode(e, Int64(i)) + rest)
         == Parsed(Ok(Survivor(Int64(i))), |Encode(e, Survivor(Int64(i)))|)
  {
    NarrowZigzag(i);
    VarintRoundTrip(EncodeZigzag64(Narrow(i)), rest);
  }

  lemma VarintSurvives(e: Endian, v: Value, rest: seq<byte>)
    requires v.Uint32? || v.Int32? || v.Uint64?
    ensures Decode(e, KindOf(v), Encode(e, v) + rest) == Parsed(Ok(Survivor(v)), |Encode(e, Survivor(v))|)
  {
    match v
    case Uint32(u) => VarintRoundTrip(u, rest);
    case Int32(i) =>
      VarintRoundTrip(EncodeZigzag32(i), rest);
      Zigzag32Bijection(i, 0);
    case Uint64(u) =>
      ModAtMost(u % TWO32, TWO32);
      VarintRoundTrip(u % TWO32, rest);
  }

  lemma FixedSurvives(e: Endian, v: Value, rest: seq<byte>)
    requires Typed(v) && (v.Fuint? || v.Fint?)
    ensures Decode(e, KindOf(v), Encode(e, v) + rest) == Parsed(Ok(v), |Encode(e, v)|)
  {
    ParseFixedMemory(e, if v.Fuint? then v.u else ToUnsigned(v.i, v.n), v.n, rest);
    if v.Fint? {
      SignedBijection(v.i, 0, v.n);
    }
  }

  lemma LengthCut(e: Endian, p: Prefix, len: uint64)
    ensures len % Limit(p) <= len && LengthBytes(e, p, len % Limit(p)) == LengthBytes(e, p, len)
  {
    ModAtMost(len, Limit(p));
    ModAtMost(len % Limit(p), Limit(p));
  }

  lemma StrSurvives(e: Endian, p: Prefix, s: seq<byte>, rest: seq<byte>)
    requires |s| < TWO64
    ensures Decode(e, KStr(p), Encode(e, Str(p, s)) + rest)
         == Parsed(Ok(Survivor(Str(p, s))), |Encode(e, Survivor(Str(p, s)))|)
  {
    LengthCut(e, p, |s|);
    StrRoundTrip(e, p, s, rest);
  }

  /** A written value is read back as its survivor, and the bytes of that one are taken; whatever follows. */
  lemma RoundTrip(e: Endian, v: Value, rest: seq<byte>)
    requires Typed(v)
    ensures Decode(e, KindOf(v), Encode(e, v) + rest) == Parsed(Ok(Survivor(v)), |Encode(e, Survivor(v))|)
  {
    match v
    case Fuint(_, _) => FixedSurvives(e, v, rest);
    case Fint(_, _) => FixedSurvives(e, v, rest);
    case Int64(i) => Int64Survives(e, i, rest);
    case Str(p, s) => StrSurvives(e, p, s, rest);
    case _ => VarintSurvives(e, v, rest);
  }

  /** So a value is read back, and exactly its bytes are taken, if and only if it fits. */
  lemma RoundTripExactly(e: Endian, v: Value, rest: seq<byte>)
    requires Typed(v)
    ensures Decode(e, KindOf(v), Encode(e, v) + rest) == Parsed(Ok(v), |Encode(e, v)|) <==> Fits(v)
  {
    RoundTrip(e, v, rest);
    SurvivesExactly(v);
  }

  // ----- lists -----

  predicate AllTyped(vs: seq<Value>) {
    forall v :: v in vs ==> Typed(v)
  }

  function EncodeAll(e: Endian, vs: seq<Value>): (r: seq<byte>)
    requires AllTyped(vs)
  {
    if vs == [] then [] else Encode(e, vs[0]) + EncodeAll(e, vs[1..])
  }

  function Kinds(vs: seq<Value>): (ks: seq<Kind>)
    ensures |ks| == |vs|
  {
    seq(|vs|, i requires 0 <= i < |vs| => KindOf(vs[i]))
  }

  /** The readers ks one after the other; the first one that fails ends it. */
  function DecodeAll(e: Endian, ks: seq<Kind>, s: seq<byte>): (p: Parsed<seq<Value>>)
    ensures p.used <= |s|
  {
    if ks == [] then Parsed(Ok([]), 0) else
      var p := Decode(e, ks[0], s);
      if p.r.OutOfRange? then Parsed(OutOfRange, p.used) else
        var q := DecodeAll(e, ks[1..], s[p.used..]);
        Parsed(if q.r.Ok? then Ok([p.r.value] + q.r.value) else OutOfRange, p.used + q.used)
  }

  lemma DecodeAllStops(e: Endian, ks: seq<Kind>, s: seq<byte>, t: seq<byte>)
    requires ks != [] && Took(Decode(e, ks[0], s), s, t, OutOfRange)
    ensures Took(DecodeAll(e, ks, s), s, t, OutOfRange)
  {
  }

  lemma DecodeAllTook(e: Endian, ks: seq<Kind>, s: seq<byte>, t: seq<byte>, u: seq<byte>,
                      v: Result<Value>, vs: Result<seq<Value>>)
    requires ks != [] && v.Ok? && Took(Decode(e, ks[0], s), s, t, v) && Took(DecodeAll(e, ks[1..], t), t, u, vs)
    ensures Took(DecodeAll(e, ks, s), s, u, if vs.Ok? then Ok([v.value] + vs.value) else OutOfRange)
  {
    SuffixSuffix(s, Decode(e, ks[0], s).used, DecodeAll(e, ks[1..], t).used);
  }

  lemma DecodeCons(e: Endian, ks: seq<Kind>, s: seq<byte>, v: Value, n: nat, vs: seq<Value>, m: nat)
    requires ks != [] && Decode(e, ks[0], s) == Parsed(Ok(v), n) && n <= |s|
    requires DecodeAll(e, ks[1..], s[n..]) == Parsed(Ok(vs), m)
    ensures DecodeAll(e, ks, s) == Parsed(Ok([v] + vs), n + m)
  {
  }

  /** Any list of values that fit is read back from its bytes, and nothing behind them is touched. */
  lemma {:induction false} ListRoundTrip(e: Endian, vs: seq<Value>, rest: seq<byte>)
    requires AllTyped(vs) && forall v :: v in vs ==> Fits(v)
    ensures DecodeAll(e, Kinds(vs), EncodeAll(e, vs) + rest) == Parsed(Ok(vs), |EncodeAll(e, vs)|)
  {
    if vs == [] {
      assert Kinds(vs) == [];
    } else {
      var a, b := Encode(e, vs[0]), EncodeAll(e, vs[1..]);
      SliceMiddle(a, b, rest, 0);
      RoundTripExactly(e, vs[0], b + rest);
      DropPrefix(a, b + rest);
      ListRoundTrip(e, vs[1..], rest);
      assert Kinds(vs)[1..] == Kinds(vs[1..]);
      DecodeCons(e, Kinds(vs), a + b + rest, vs[0], |a|, vs[1..], |b|);
      assert [vs[0]] + vs[1..] == vs;
    }
  }
}
