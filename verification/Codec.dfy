/** What the write and read methods of ByteArray put into bytes: fixed-width
    integers, varints, zigzag and strings, as functions on byte sequences. */
module Codec {
  import opened Prelude
  import opened Bits

  // ----- fixed width -----

  datatype Endian = Little | Big

  function Reverse(s: seq<byte>): (r: seq<byte>)
    ensures |r| == |s|
  {
    if s == [] then [] else Reverse(s[1..]) + [s[0]]
  }

  /** 256 to the n. */
  function Pow256(n: nat): (p: nat)
    ensures p > 0
  {
    if n == 0 then 1 else 0x100 * Pow256(n - 1)
  }

  /** The n bytes of v in memory of a little-endian host. */
  function LittleEndian(v: nat, n: nat): (s: seq<byte>)
    ensures |s| == n
  {
    if n == 0 then [] else [v % 0x100] + LittleEndian(v / 0x100, n - 1)
  }

  function FromLittleEndian(s: seq<byte>): (v: nat) {
    if s == [] then 0 else s[0] + 0x100 * FromLittleEndian(s[1..])
  }

  lemma {:induction false} FromLittleEndianBound(s: seq<byte>)
    ensures FromLittleEndian(s) < Pow256(|s|)
  {
    if s != [] {
      FromLittleEndianBound(s[1..]);
    }
  }

  lemma {:induction false} LittleEndianInverse(v: nat, n: nat)
    requires v < Pow256(n)
    ensures FromLittleEndian(LittleEndian(v, n)) == v
  {
    if n > 0 {
      LittleEndianInverse(v / 0x100, n - 1);
    }
  }

  lemma {:induction false} FromLittleEndianInverse(s: seq<byte>)
    ensures LittleEndian(FromLittleEndian(s), |s|) == s
  {
    if s != [] {
      FromLittleEndianInverse(s[1..]);
      assert s == [s[0]] + s[1..];
    }
  }

  lemma {:induction false} ReverseAppend(s: seq<byte>, b: byte)
    ensures Reverse(s + [b]) == [b] + Reverse(s)
  {
    if s != [] {
      assert (s + [b])[1..] == s[1..] + [b];
      ReverseAppend(s[1..], b);
    }
  }

  lemma {:induction false} ReverseTwice(s: seq<byte>)
    ensures Reverse(Reverse(s)) == s
  {
    if s != [] {
      ReverseTwice(s[1..]);
      ReverseAppend(Reverse(s[1..]), s[0]);
    }
  }

  /** byteswap of an n-byte integer. */
  function ByteSwap(v: nat, n: nat): (r: nat)
  {
    FromLittleEndian(Reverse(LittleEndian(v, n)))
  }

  /** The bytes of an n-byte integer in the memory of a host. */
  function Memory(host: Endian, v: nat, n: nat): (s: seq<byte>)
    ensures |s| == n
  {
    if host.Little? then LittleEndian(v, n) else Reverse(LittleEndian(v, n))
  }

  function FromMemory(host: Endian, s: seq<byte>): (r: nat) {
    if host.Little? then FromLittleEndian(s) else FromLittleEndian(Reverse(s))
  }

  lemma Regroup(q: nat, b: nat, r: nat, a: nat)
    ensures (q * b + r) * a == q * (a * b) + r * a
  {
    assert (q * b + r) * a == (q * b) * a + r * a;
    assert (q * b) * a == q * (b * a) && b * a == a * b;
  }

  lemma Quotient(x: nat, b: nat)
    requires 0 < b
    ensures x == x / b * b + x % b && x % b < b
  {
  }

  lemma DivTwice(v: nat, a: nat, b: nat)
    requires 0 < a && 0 < b && 0 < a * b
    ensures v / a / b == v / (a * b)
  {
    var x, r := v / a, v % a;
    var q, t := x / b, x % b;
    Quotient(v, a);
    Quotient(x, b);
    Regroup(q, b, t, a);
    MulMono(t + 1, b, a);
    DivIs(v, a * b, q, t * a + r);
  }

  lemma DivIs(v: nat, p: nat, q: nat, r: nat)
    requires v == q * p + r && r < p
    ensures v / p == q
  {
    DivUnique(v, p, q, r);
  }

  lemma {:induction false} LittleByte(v: nat, n: nat, i: nat)
    requires i < n
    ensures LittleEndian(v, n)[i] == v / Pow256(i) % 0x100
  {
    if i > 0 {
      LittleByte(v / 0x100, n - 1, i - 1);
      DivTwice(v, 0x100, Pow256(i - 1));
    }
  }

  lemma {:induction false} ReverseAt(s: seq<byte>, i: nat)
    requires i < |s|
    ensures |Reverse(s)| == |s| && Reverse(s)[i] == s[|s| - 1 - i]
  {
    if i < |s| - 1 {
      ReverseAt(s[1..], i);
    }
  }

  /** Byte i of an integer of n bytes counts from its low end in the little-endian order, and from its high end in the
      big-endian one. */
  lemma MemoryByte(e: Endian, v: nat, n: nat, i: nat)
    requires i < n
    ensures Memory(e, v, n)[i] == v / Pow256(if e.Little? then i else n - 1 - i) % 0x100
  {
    if e.Little? {
      LittleByte(v, n, i);
    } else {
      ReverseAt(LittleEndian(v, n), i);
      LittleByte(v, n, n - 1 - i);
    }
  }

  lemma ByteIs(v: nat, i: nat, p: nat)
    requires i < 4 && p == [0x100_0000, 0x1_0000, 0x100, 1][i]
    ensures Memory(Big, v, 4)[i] == v / p % 0x100
  {
    assert Pow256(3 - i) == p by {
      assert Pow256(1) == 0x100 && Pow256(2) == 0x1_0000 && Pow256(3) == 0x100_0000;
    }
    MemoryByte(Big, v, 4, i);
  }

  /** Four bytes, the high end first. */
  lemma FourBytes(v: nat)
    ensures Memory(Big, v, 4) == [v / 0x100_0000 % 0x100, v / 0x1_0000 % 0x100, v / 0x100 % 0x100, v % 0x100]
  {
    var m := Memory(Big, v, 4);
    ByteIs(v, 0, 0x100_0000);
    ByteIs(v, 1, 0x1_0000);
    ByteIs(v, 2, 0x100);
    ByteIs(v, 3, 1);
    assert m == [m[0], m[1], m[2], m[3]];
  }

  /** writeFuint: swapped when the setting is not the host's order, then copied from memory. */
  function Fixed(endian: Endian, host: Endian, v: nat, n: nat): (s: seq<byte>)
    ensures |s| == n
  {
    Memory(host, if endian != host then ByteSwap(v, n) else v, n)
  }

  /** readFuint: copied to memory, then swapped when the setting is not the host's order. */
  function FromFixed(endian: Endian, host: Endian, s: seq<byte>): (r: nat) {
    var v := FromMemory(host, s);
    if endian != host then ByteSwap(v, |s|) else v
  }

  /** The bytes on the wire depend on the setting only, not on the host. */
  lemma FixedOnWire(endian: Endian, host: Endian, v: nat, n: nat)
    requires v < Pow256(n)
    ensures Fixed(endian, host, v, n) == Memory(endian, v, n)
  {
    var s := LittleEndian(v, n);
    FromLittleEndianInverse(Reverse(s));
    ReverseTwice(s);
  }

  lemma FixedFromWire(endian: Endian, host: Endian, s: seq<byte>)
    ensures FromFixed(endian, host, s) == FromMemory(endian, s)
  {
    FromLittleEndianInverse(s);
    FromLittleEndianInverse(Reverse(s));
    ReverseTwice(s);
  }

  lemma MemoryInverse(endian: Endian, v: nat, n: nat)
    requires v < Pow256(n)
    ensures FromMemory(endian, Memory(endian, v, n)) == v
  {
    LittleEndianInverse(v, n);
    ReverseTwice(LittleEndian(v, n));
  }

  lemma FromMemoryBound(endian: Endian, s: seq<byte>)
    ensures FromMemory(endian, s) < Pow256(|s|)
  {
    FromLittleEndianBound(s);
    FromLittleEndianBound(Reverse(s));
  }

  // ----- two's complement -----

  /** The integers of n signed bytes. */
  predicate Signed(v: int, n: nat) {
    -(Pow256(n) as int) <= 2 * v < Pow256(n)
  }

  /** A signed integer of n bytes as the unsigned one with the same bits. */
  function ToUnsigned(v: int, n: nat): (u: nat)
    requires Signed(v, n)
    ensures u < Pow256(n)
  {
    if v < 0 then v + Pow256(n) else v
  }

  function ToSigned(u: nat, n: nat): (v: int)
    requires u < Pow256(n)
    ensures Signed(v, n)
  {
    if 2 * u < Pow256(n) then u else u - Pow256(n)
  }

  lemma SignedBijection(v: int, u: nat, n: nat)
    requires Signed(v, n) && u < Pow256(n)
    ensures ToSigned(ToUnsigned(v, n), n) == v && ToUnsigned(ToSigned(u, n), n) == u
  {
  }

  // ----- zigzag -----

  const TWO64 := 0x1_0000_0000_0000_0000

  /** EncodeZigzag32 in arithmetic modulo 2^32, where -value of the least int32 wraps to itself. */
  function EncodeZigzag32(value: int32): (r: uint32) {
    if value < 0 then ((-(value as int) % TWO32) * 2 - 1) % TWO32 else (value * 2) % TWO32
  }

  /** (value >> 1) ^ -(value & 1) */
  function DecodeZigzag32(value: uint32): (v: int32)
    ensures v == Unzigzag(value)
  {
    Pow2Values();
    XorNegated(value / 2, value % 2, 32);
    var bits := Xor(value / 2, Negated(value % 2, 32), 32);
    if bits < 0x8000_0000 then bits else bits - TWO32
  }

  function EncodeZigzag64(value: int64): (r: uint64) {
    if value < 0 then ((-(value as int) % TWO64) * 2 - 1) % TWO64 else (value * 2) % TWO64
  }

  function DecodeZigzag64(value: uint64): (v: int64)
    ensures v == Unzigzag(value)
  {
    Pow2Values();
    XorNegated(value / 2, value % 2, 64);
    var bits := Xor(value / 2, Negated(value % 2, 64), 64);
    if bits < 0x8000_0000_0000_0000 then bits else bits - TWO64
  }

  /** Zigzag of the encoding guide: 0, -1, 1, -2, ... are 0, 1, 2, 3, ... */
  function Zigzag(v: int): (r: nat) {
    if v < 0 then -2 * v - 1 else 2 * v
  }

  /** And back. */
  function Unzigzag(u: nat): (v: int)
    ensures Zigzag(v) == u
  {
    if u % 2 == 0 then u / 2 else -(u / 2) - 1
  }

  lemma EncodeZigzag32IsZigzag(v: int32)
    ensures EncodeZigzag32(v) == Zigzag(v)
  {
    if v < 0 {
      assert -(v as int) % TWO32 == -(v as int);
    }
  }

  lemma EncodeZigzag64IsZigzag(v: int64)
    ensures EncodeZigzag64(v) == Zigzag(v)
  {
    if v < 0 {
      assert -(v as int) % TWO64 == -(v as int);
    }
  }

  /** The modular arithmetic never loses a bit: both directions invert each other. */
  lemma Zigzag32Bijection(v: int32, u: uint32)
    ensures DecodeZigzag32(EncodeZigzag32(v)) == v
    ensures EncodeZigzag32(DecodeZigzag32(u)) == u
  {
    EncodeZigzag32IsZigzag(v);
    EncodeZigzag32IsZigzag(DecodeZigzag32(u));
  }

  lemma Zigzag64Bijection(v: int64, u: uint64)
    ensures DecodeZigzag64(EncodeZigzag64(v)) == v
    ensures EncodeZigzag64(DecodeZigzag64(u)) == u
  {
    EncodeZigzag64IsZigzag(v);
    EncodeZigzag64IsZigzag(DecodeZigzag64(u));
  }

  // ----- varints -----

  /** Groups of seven bits, the least first, with the high bit on all but the last. */
  function Varint(v: nat): (s: seq<byte>)
    ensures 0 < |s|
  {
    if v < 0x80 then [v] else [v % 0x80 + 0x80] + Varint(v / 0x80)
  }

  function Pow128(n: nat): (p: nat)
    ensures p > 0
  {
    if n == 0 then 1 else 0x80 * Pow128(n - 1)
  }

  /** Byte i of a varint holds its group i of seven bits, and in the high bit whether another one follows. */
  lemma {:induction false} VarintByte(v: nat, i: nat)
    requires i < |Varint(v)|
    ensures Varint(v)[i] == v / Pow128(i) % 0x80 + if i + 1 < |Varint(v)| then 0x80 else 0
  {
    if v >= 0x80 && i > 0 {
      VarintByte(v / 0x80, i - 1);
      DivTwice(v, 0x80, Pow128(i - 1));
    }
  }

  /** What a reader returns and how many bytes it takes, also when it fails halfway. */
  datatype Parsed<+T> = Parsed(r: Result<T>, used: nat)

  /** A reader returned r and left t of s, as p says. */
  ghost predicate Took<T>(p: Parsed<T>, s: seq<byte>, t: seq<byte>, r: Result<T>) {
    r == p.r && p.used <= |s| && t == s[p.used..]
  }

  /** (tmp & 0x7F) << 7 * k in a register of w values. */
  function Group(b: byte, k: nat, w: nat): (g: nat)
    requires 0 < w
    ensures g < w
  {
    b % 0x80 * Pow128(k) % w
  }

  /** The loop of readUint32 and readUint64 from group k on: at most n groups, modulo w. */
  function Groups(s: seq<byte>, k: nat, n: nat, w: nat): (p: Parsed<nat>)
    requires k <= n && 0 < w
    ensures p.used <= |s| && p.used <= n - k
    ensures p.r.OutOfRange? ==> p.used == |s|
    decreases n - k
  {
    if k == n then Parsed(Ok(0), 0)
    else if s == [] then Parsed(OutOfRange, 0)
    else
      var group := Group(s[0], k, w);
      if s[0] < 0x80 then Parsed(Ok(group), 1)
      else
        var rest := Groups(s[1..], k + 1, n, w);
        Parsed(if rest.r.Ok? then Ok(group + rest.r.value) else OutOfRange, rest.used + 1)
  }

  /** The state of that loop behind group k: value is what the groups before it add up to. */
  ghost predicate GroupsLeft(p: Parsed<nat>, s: seq<byte>, k: nat, n: nat, w: nat, value: nat) {
    && k <= n && k <= |s| && 0 < w
    && var rest := Groups(s[k..], k, n, w);
       p == Parsed(if rest.r.Ok? then Ok(value + rest.r.value) else OutOfRange, k + rest.used)
  }

  lemma GroupsStep(p: Parsed<nat>, s: seq<byte>, k: nat, n: nat, w: nat, value: nat)
    requires GroupsLeft(p, s, k, n, w, value) && k < n && k < |s|
    ensures s[k] < 0x80 ==> p == Parsed(Ok(value + Group(s[k], k, w)), k + 1)
    ensures 0x80 <= s[k] ==> GroupsLeft(p, s, k + 1, n, w, value + Group(s[k], k, w))
  {
    assert s[k..][1..] == s[k + 1..];
  }

  lemma {:induction false} Pow128Bits(k: nat)
    ensures Pow2(7 * k) == Pow128(k)
  {
    if k == 0 {
    } else {
      Pow128Bits(k - 1);
      Pow2Values();
      Pow2Sum(7, 7 * (k - 1));
    }
  }

  /** The bits of group k are all behind the ones of the groups before it, so |= adds it; and but for the last group
      what comes out is again below the next one. */
  lemma OrIsPlus(value: nat, b: byte, k: nat, n: nat, w: nat, c: nat)
    requires k < n && w == c * Pow128(n - 1) && 0 < c && value < Pow128(k)
    ensures Or(value, Group(b, k, w)) == value + Group(b, k, w)
    ensures k < n - 1 ==> value + Group(b, k, w) < Pow128(k + 1)
  {
    GroupBound(b, k, n, w, c);
    var m := GroupMultiple(b, k, n, w, c);
    Pow128Bits(k);
    OrDisjoint(value, m, 7 * k);
  }

  /** Cutting a group to the width leaves a multiple of its place. */
  lemma GroupMultiple(b: byte, k: nat, n: nat, w: nat, c: nat) returns (m: nat)
    requires k < n && w == c * Pow128(n - 1) && 0 < c
    ensures Group(b, k, w) == m * Pow128(k)
  {
    var d := Pow128Quotient(k, n - 1);
    assert w == (c * d) * Pow128(k) by {
      MulAssoc(c, d, Pow128(k));
    }
    m := ModMultiple(b % 0x80, c * d, Pow128(k));
  }

  lemma MulAssoc(x: nat, y: nat, z: nat)
    ensures x * (y * z) == (x * y) * z
  {
  }

  lemma {:induction false} Pow128Quotient(i: nat, j: nat) returns (d: nat)
    requires i <= j
    ensures 0 < d && Pow128(j) == d * Pow128(i)
  {
    if i == j {
      d := 1;
    } else {
      d := Pow128Quotient(i, j - 1);
      d := 0x80 * d;
    }
  }

  lemma ModMultiple(x: nat, y: nat, p: nat) returns (m: nat)
    requires 0 < y && 0 < p
    ensures 0 < y * p && x * p % (y * p) == m * p
  {
    var q, r := x / y, x % y;
    MulAtLeast(y, p);
    assert x * p == q * (y * p) + r * p by {
      assert x == q * y + r;
      assert (q * y + r) * p == q * (y * p) + r * p;
    }
    assert r * p <= (y - 1) * p by { MulMono(r, y - 1, p); }
    DivUnique(x * p, y * p, q, r * p);
    m := r;
  }

  lemma {:induction false} VarintLength(v: nat, n: nat)
    requires 0 < n && v < Pow128(n)
    ensures |Varint(v)| <= n
  {
    if 0x80 <= v {
      VarintLength(v / 0x80, n - 1);
    }
  }

  lemma HighBit(x: nat)
    requires x < 0x80
    ensures Or(x, 0x80) == x + 0x80
  {
    Pow2Values();
    OrDisjoint(x, 1, 7);
  }

  /** One byte of the loop. */
  lemma VarintStep(done: seq<byte>, value: nat)
    requires 0x80 <= value
    ensures 0 <= Or(value % 0x80, 0x80) < 0x100 && |Varint(value)| == 1 + |Varint(value / 0x80)|
    ensures done + [Or(value % 0x80, 0x80)] + Varint(value / 0x80) == done + Varint(value)
  {
    HighBit(value % 0x80);
  }

  /** The loop of writeUint32 and of writeUint64, with a buffer of n bytes, which suffices. */
  method PutVarint(value0: nat, n: nat) returns (tmp: array<byte>, i: nat)
    requires 0 < n && value0 < Pow128(n)
    ensures fresh(tmp) && i <= tmp.Length == n && tmp[..i] == Varint(value0)
  {
    tmp := new byte[n];
    VarintLength(value0, n);
    var value := value0;
    i := 0;
    while value >= 0x80
      invariant i + |Varint(value)| <= n && tmp[..i] + Varint(value) == Varint(value0)
      decreases value
    {
      ghost var done := tmp[..i];
      VarintStep(done, value);
      tmp[i] := Or(value % 0x80, 0x80);
      i := i + 1;
      assert tmp[..i] == done + [Or(value % 0x80, 0x80)];
      value := value / 0x80;
    }
    tmp[i] := value;
    i := i + 1;
  }

  lemma {:induction false} Pow128Mono(i: nat, j: nat)
    requires i <= j
    ensures Pow128(i) <= Pow128(j)
  {
    if i < j {
      Pow128Mono(i, j - 1);
    }
  }

  /** Reading stops exactly behind a varint that was written, whatever follows it. */
  lemma {:induction false} GroupsOfVarint(v: nat, rest: seq<byte>, k: nat, n: nat, w: nat)
    requires k + |Varint(v)| <= n && v * Pow128(k) < w
    ensures Groups(Varint(v) + rest, k, n, w) == Parsed(Ok(v * Pow128(k)), |Varint(v)|)
    decreases v
  {
    var s := Varint(v) + rest;
    if v < 0x80 {
      GroupFits(v, v, k, w);
    } else {
      var q, r := v / 0x80, v % 0x80;
      assert s[1..] == Varint(q) + rest;
      GroupFits(r + 0x80, v, k, w);
      MulSplit(q, r, Pow128(k));
      GroupsOfVarint(q, rest, k + 1, n, w);
    }
  }

  lemma ReadVarint(v: nat, rest: seq<byte>, n: nat, w: nat)
    requires |Varint(v)| <= n && v < w
    ensures Groups(Varint(v) + rest, 0, n, w) == Parsed(Ok(v), |Varint(v)|)
  {
    assert v * Pow128(0) == v;
    GroupsOfVarint(v, rest, 0, n, w);
  }

  /** The low seven bits of v are not cut off when v fits. */
  lemma GroupFits(b: byte, v: nat, k: nat, w: nat)
    requires b % 0x80 == v % 0x80 && v * Pow128(k) < w
    ensures Group(b, k, w) == v % 0x80 * Pow128(k)
  {
    MulMono(v % 0x80, v, Pow128(k));
    ModAtMost(v % 0x80 * Pow128(k), w);
  }

  lemma ModAtMost(x: nat, w: nat)
    requires 0 < w
    ensures x % w <= x && (x < w ==> x % w == x)
  {
  }

  lemma MulSplit(q: nat, r: nat, p: nat)
    ensures (0x80 * q + r) * p == q * (0x80 * p) + r * p
  {
  }

  /** The loop of n groups never leaves the width w, which the last group may overlap: c of its values fit. */
  lemma {:induction false} GroupsBound(s: seq<byte>, k: nat, n: nat, w: nat, c: nat)
    requires k < n && w == c * Pow128(n - 1) && 0 < c
    ensures Groups(s, k, n, w).r.Ok? ==> Groups(s, k, n, w).r.value <= w - Pow128(k)
    decreases n - k
  {
    if s != [] {
      GroupBound(s[0], k, n, w, c);
      if k < n - 1 && 0x80 <= s[0] {
        GroupsBound(s[1..], k + 1, n, w, c);
      }
    }
  }

  lemma GroupBound(b: byte, k: nat, n: nat, w: nat, c: nat)
    requires k < n && w == c * Pow128(n - 1) && 0 < c
    ensures Pow128(k) <= w && Group(b, k, w) <= w - Pow128(k)
    ensures k < n - 1 ==> Group(b, k, w) <= Pow128(k + 1) - Pow128(k)
  {
    Pow128Mono(k, n - 1);
    MulAtLeast(c, Pow128(n - 1));
    if k < n - 1 {
      Pow128Mono(k + 1, n - 1);
      ModAtMost(b % 0x80 * Pow128(k), w);
      MulMono(b % 0x80, 0x7F, Pow128(k));
    } else {
      LastGroup(b % 0x80, c, Pow128(k));
    }
  }

  lemma Pow128Values()
    ensures 16 * Pow128(4) == TWO32 && 2 * Pow128(9) == TWO64
  {
    assert Pow128(2) == 0x4000;
    assert Pow128(4) == 0x4000 * 0x4000;
    assert Pow128(6) == 0x4000 * 0x4000 * 0x4000;
    assert Pow128(8) == 0x4000 * 0x4000 * 0x4000 * 0x4000;
  }

  lemma MulAtLeast(c: nat, p: nat)
    requires 0 < c
    ensures p <= c * p
  {
  }

  /** A multiple of p modulo another one leaves at least p below it. */
  lemma LastGroup(b: nat, c: nat, p: nat)
    requires 0 < c && 0 < p
    ensures 0 < c * p && b * p % (c * p) <= c * p - p
  {
    var m := ModMultiple(b, c, p);
    MulAtLeast(c, p);
    if c <= m {
      MulMono(c, m, p);
    } else {
      MulMono(m + 1, c, p);
    }
  }
}
