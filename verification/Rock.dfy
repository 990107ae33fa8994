/** The framing of rock_protocol.cpp: a header and the bytes of one message
    with its body, gzipped when they are many, over a stream. */
module Rock {
  import opened Prelude
  import opened Codec
  import opened NodeLists
  import opened Values
  import opened ByteArrays
  import opened ByteArrayRuns
  import opened Protocol
  import opened ProtocolRuns
  import opened Streams

  /** RockRequest, RockResponse and RockNotify: a message with a body. */
  datatype Packet = Packet(m: Message, body: seq<byte>)

  /** What zlib does, and the two limits of the configuration. */
  datatype Config = Config(gzip: seq<byte> -> seq<byte>, gunzip: seq<byte> -> Option<seq<byte>>,
                           minLength: uint32, maxLength: uint32)

  const MAGIC: seq<byte> := [0xAB, 0xCD]
  const VERSION: byte := 1

  /** gunzip undoes gzip, and gzipped data starts with the byte that section 2.3.1 of RFC 1952 says. */
  ghost predicate Zlib(c: Config) {
    forall s :: c.gunzip(c.gzip(s)) == Some(s) && 0 < |c.gzip(s)| && c.gzip(s)[0] == 0x1F
  }

  // ----- one message with its body -----

  predicate PacketSized(p: Packet) {
    Sized(p.m) && |p.body| < TWO64
  }

  function EncodePacket(p: Packet): (s: seq<byte>)
    ensures 0 < |s|
  {
    EncodeMessage(p.m) + StringBytes(p.body)
  }

  function ParseBody(p: Parsed<Option<Message>>, s: seq<byte>): (r: Parsed<Option<Packet>>)
    requires p.used <= |s|
  {
    if p.r.OutOfRange? then Parsed(OutOfRange, p.used)
    else if p.r.value.None? then Parsed(Ok(None), p.used)
    else
      var str := ParseStr(Big, Vint, s[p.used..]);
      Parsed(if str.r.Ok? then Ok(Some(Packet(p.r.value.value, str.r.value))) else OutOfRange, p.used + str.used)
  }

  /** The message that a payload holds, if any; bytes behind it are not looked at. */
  function DecodePacket(s: seq<byte>): (r: Option<Packet>) {
    var p := ParseBody(ParseMessage(s), s);
    if p.r.Ok? then p.r.value else None
  }

  lemma PacketRoundTrip(p: Packet)
    requires Sendable(p.m) && |p.body| < TWO32
    ensures DecodePacket(EncodePacket(p)) == Some(p)
  {
    SentMessage(p.m, StringBytes(p.body));
    DropPrefix(EncodeMessage(p.m), StringBytes(p.body));
    SurvivesExactly(Str(Vint, p.body));
    StringRoundTrip(p.body, [], p.body);
    assert StringBytes(p.body) + [] == StringBytes(p.body);
  }

  // ----- the header -----

  /** RockMsgHeader in memory; length in network order. */
  function Header(flag: byte, len: nat): (s: seq<byte>)
    ensures |s| == 8
  {
    MAGIC + [VERSION, flag] + Memory(Big, len % TWO32, 4)
  }

  /** isRockMessageHeaderValid */
  predicate HeaderValid(c: Config, h: seq<byte>)
    requires |h| == 8
  {
    h[..2] == MAGIC && h[2] == VERSION && LengthOf(h) < c.maxLength
  }

  function LengthOf(h: seq<byte>): (n: nat)
    requires |h| == 8
  {
    FromMemory(Big, h[4..])
  }

  lemma HeaderRoundTrip(c: Config, flag: byte, len: nat)
    requires len < TWO32
    ensures var h := Header(flag, len);
            h[3] == flag && LengthOf(h) == len && (HeaderValid(c, h) <==> len < c.maxLength)
  {
    PowersOf256();
    assert Header(flag, len)[4..] == Memory(Big, len, 4);
    assert Header(flag, len)[..2] == MAGIC;
    MemoryInverse(Big, len, 4);
  }

  // ----- one frame -----

  /** What is sent behind the header, and whether it is gzipped. */
  predicate Zipped(c: Config, p: Packet) {
    |EncodePacket(p)| % TWO32 >= c.minLength
  }

  function Payload(c: Config, p: Packet): (r: seq<byte>) {
    if Zipped(c, p) then c.gzip(EncodePacket(p)) else EncodePacket(p)
  }

  function Frame(c: Config, p: Packet): (r: seq<byte>) {
    Header(if Zipped(c, p) then 1 else 0, |Payload(c, p)|) + Payload(c, p)
  }

  /** The receiver unzips only what is as long as the sender's limit. */
  function DecodePayload(c: Config, flag: byte, s: seq<byte>): (r: Option<Packet>) {
    if flag % 2 == 1 && |s| >= c.minLength then
      var u := c.gunzip(s);
      if u.None? then None else DecodePacket(u.value)
    else DecodePacket(s)
  }

  /** What parseFrom makes of a stream. A length that is no positive int reads like a failed transfer. */
  function ParseFrame(c: Config, s: seq<byte>): (p: Parsed<Option<Packet>>)
    ensures p.r.Ok? ==> 8 <= p.used <= |s|
  {
    if |s| < 8 then Parsed(OutOfRange, 0)
    else if !HeaderValid(c, s[..8]) then Parsed(Ok(None), 8)
    else
      var n := LengthOf(s[..8]);
      if |s| - 8 < n then Parsed(OutOfRange, 0)
      else if ToInt(n) <= 0 then Parsed(Ok(None), 8 + n)
      else Parsed(Ok(DecodePayload(c, s[3], s[8..8 + n])), 8 + n)
  }

  /** Gzipped data is not a message. */
  lemma ZippedIsNoPacket(c: Config, s: seq<byte>)
    requires Zlib(c)
    ensures DecodePacket(c.gzip(s)) == None
  {
    assert 0 < |c.gzip(s)| && c.gzip(s)[0] == 0x1F;
  }

  /** The payload that arrives is decoded again. */
  predicate Unzips(c: Config, p: Packet) {
    !Zipped(c, p) || |Payload(c, p)| >= c.minLength
  }

  lemma PayloadRoundTrip(c: Config, p: Packet)
    requires Zlib(c) && Sendable(p.m) && |p.body| < TWO32
    ensures DecodePayload(c, if Zipped(c, p) then 1 else 0, Payload(c, p)) == Some(p) <==> Unzips(c, p)
  {
    PacketRoundTrip(p);
    if Zipped(c, p) {
      assert c.gunzip(c.gzip(EncodePacket(p))) == Some(EncodePacket(p));
      ZippedIsNoPacket(c, EncodePacket(p));
    }
  }

  /** A message arrives, and exactly its frame is taken, if and only if the payload is below the receiver's maximum
      and what an int can hold, and gzip has not made it shorter than the limit from which on the receiver unzips. */
  lemma FrameRoundTrip(c: Config, p: Packet, rest: seq<byte>)
    requires Zlib(c) && Sendable(p.m) && |p.body| < TWO32 && |Payload(c, p)| < TWO32
    ensures ParseFrame(c, Frame(c, p) + rest) == Parsed(Ok(Some(p)), |Frame(c, p)|)
       <==> |Payload(c, p)| < Min(c.maxLength, 0x8000_0000) && Unzips(c, p)
  {
    var flag: byte, s := if Zipped(c, p) then 1 else 0, Payload(c, p);
    HeaderRoundTrip(c, flag, |s|);
    PayloadRoundTrip(c, p);
    FrameParts(Header(flag, |s|), s, rest);
    assert 0 < |s| by { assert Zipped(c, p) ==> 0 < |c.gzip(EncodePacket(p))|; }
  }

  lemma HeaderParts(flag: byte, n: nat)
    requires n < TWO32
    ensures Header(flag, n) == [0xAB, 0xCD, 1, flag] + Memory(Big, n, 4)
  {
  }

  /** What goes over the wire: the magic number, the version, whether the message was long enough to be zipped, the
      length of what follows with its high byte first, and the message, zipped or as it is. */
  lemma FrameOnWire(c: Config, p: Packet)
    requires |Payload(c, p)| < TWO32
    ensures var s, n := EncodePacket(p), |Payload(c, p)|;
            var zipped := |s| % TWO32 >= c.minLength;
            Frame(c, p) == [0xAB, 0xCD, 1, if zipped then 1 else 0]
                         + [n / 0x100_0000 % 0x100, n / 0x1_0000 % 0x100, n / 0x100 % 0x100, n % 0x100]
                         + if zipped then c.gzip(s) else s
  {
    HeaderParts(if Zipped(c, p) then 1 else 0, |Payload(c, p)|);
    FourBytes(|Payload(c, p)|);
  }

  lemma FrameParts(h: seq<byte>, s: seq<byte>, rest: seq<byte>)
    requires |h| == 8
    ensures var t := h + s + rest; t[..8] == h && t[3] == h[3] && t[8..8 + |s|] == s
  {
  }

  // ----- a message that does not arrive -----

  /** Whatever the codec is: when gzip makes a message shorter than minLength, the receiver does not unzip it, and
      nothing comes of the frame, whatever follows. */
  lemma ShrunkIsLost(c: Config, p: Packet, rest: seq<byte>)
    requires Zlib(c) && Zipped(c, p) && |Payload(c, p)| < c.minLength
    ensures ParseFrame(c, Frame(c, p) + rest).r == Ok(None)
  {
    var s := Payload(c, p);
    HeaderRoundTrip(c, 1, |s|);
    FrameParts(Header(1, |s|), s, rest);
    ZippedIsNoPacket(c, EncodePacket(p));
  }

  const ZEROS: Packet := Packet(NotifyOf(0), seq(4096, _ => 0))

  /** A codec that is good at one packet only. */
  const SAMPLE: Config := Config(
    s => if s == EncodePacket(ZEROS) then [0x1F] else [0x1F, 0] + s,
    t => if t == [0x1F] then Some(EncodePacket(ZEROS)) else if |t| < 2 then None else Some(t[2..]),
    4096, 0x400_0000)

  /** 4096 zero bytes, gzipped below 4096 bytes: the flag says gzip, but the receiver does not unzip. */
  lemma CompressibleIsLost(rest: seq<byte>)
    ensures Zlib(SAMPLE) && Sendable(ZEROS.m)
    ensures ParseFrame(SAMPLE, Frame(SAMPLE, ZEROS) + rest).r == Ok(None)
  {
    var body := EncodePacket(ZEROS);
    assert |ZEROS.body| == 4096 <= |StringBytes(ZEROS.body)| <= |body|;
    VarintLength(4096, 5);
    assert Zipped(SAMPLE, ZEROS) by { ModAtMost(|body|, TWO32); }
    assert Payload(SAMPLE, ZEROS) == [0x1F];
    forall s: seq<byte> ensures SAMPLE.gunzip(SAMPLE.gzip(s)) == Some(s) {
    }
    ShrunkIsLost(SAMPLE, ZEROS, rest);
  }

  // ----- RockMessageDecoder -----

  method WritePacket(ba: ByteArray, p: Packet)
    requires ba.Appending() && PacketSized(p)
    modifies ba.Repr
    ensures ba.Appending() && fresh(ba.Repr - old(ba.Repr))
    ensures ba.Content() == old(ba.Content()) + EncodePacket(p)
  {
    ghost var c := ba.Content();
    WriteMessage(ba, p.m);
    StringOnWire(ba.m_endian, p.body);
    ba.WriteString(Vint, p.body);
    Assoc(c, EncodeMessage(p.m), StringBytes(p.body));
  }

  method ReadPacket(ba: ByteArray) returns (r: Option<Packet>)
    requires ba.Reading()
    modifies ba`m_pos, ba`m_cur, ba`index
    ensures ba.Reading() && r == DecodePacket(old(ba.Rest()))
  {
    var m := ReadMessage(ba);
    if m.OutOfRange? || m.value.None? {
      return None;
    }
    AnyEndian(ba.m_endian, ba.Rest());
    var body := ba.ReadString(Vint);
    r := if body.Ok? then Some(Packet(m.value.value, body.value)) else None;
  }

  /** A ByteArray with those bytes, to be read from the start. */
  method Holding(order: Endian, data: seq<byte>) returns (ba: ByteArray)
    ensures fresh(ba) && fresh(ba.Repr) && ba.Reading() && ba.m_pos == 0 && ba.Rest() == data
  {
    ba := new ByteArray(4096, order);
    ba.Append(data);
    Rewind(ba);
    assert [] + data == data;
  }

  /** What can be read from an array, as zlib gets it: window by window. */
  method ReadAllBuffers(ba: ByteArray) returns (data: seq<byte>)
    requires ba.Reading()
    ensures data == ba.Rest()
  {
    var buffers := ba.GetReadBuffers(ba.m_size);
    ShowsRest(ba, buffers, |ba.Rest()|);
    data := Collect(buffers, Total(buffers));
  }

  class RockMessageDecoder {
    const c: Config
    const order: Endian

    constructor (config: Config, host: Endian)
      ensures c == config && order == host
    {
      c, order := config, host;
    }

    /** toByteArray and setPos(0). */
    method ToByteArray(p: Packet) returns (ba: ByteArray)
      requires PacketSized(p)
      ensures fresh(ba) && fresh(ba.Repr) && ba.Reading() && ba.m_pos == 0 && ba.Rest() == EncodePacket(p)
    {
      ba := new ByteArray(4096, order);
      WritePacket(ba, p);
      Rewind(ba);
      assert [] + EncodePacket(p) == EncodePacket(p);
    }

    /** What gzip makes of an array. */
    method Zip(ba: ByteArray) returns (zipped: ByteArray)
      requires ba.Reading()
      ensures fresh(zipped) && fresh(zipped.Repr) && zipped.Reading() && zipped.m_pos == 0
      ensures zipped.Rest() == c.gzip(ba.Rest())
    {
      var data := ReadAllBuffers(ba);
      zipped := Holding(order, c.gzip(data));
    }

    /** The array that is sent and the flag of its header. */
    method Pack(p: Packet) returns (ba: ByteArray, flag: byte)
      requires PacketSized(p)
      ensures fresh(ba) && fresh(ba.Repr) && ba.Reading() && ba.m_pos == 0 && ba.Rest() == Payload(c, p)
      ensures flag == if Zipped(c, p) then 1 else 0
    {
      ba := ToByteArray(p);
      flag := 0;
      if ba.m_size % TWO32 >= c.minLength {
        ba := Zip(ba);
        flag := 1;
      }
    }

    /** serializeTo: whatever the transfers are, a part of the frame is sent, and all of it when that succeeds. */
    method SerializeTo(stream: SocketStream, p: Packet) returns (rt: int)
      requires PacketSized(p)
      modifies stream.m_socket`outbox, stream.m_socket`counts
      ensures |old(stream.m_socket.outbox)| <= |stream.m_socket.outbox|
      ensures var k := |stream.m_socket.outbox| - |old(stream.m_socket.outbox)|;
              && k <= |Frame(c, p)| && stream.m_socket.outbox == old(stream.m_socket.outbox) + Frame(c, p)[..k]
              && (rt in {-3, -4} || (rt == ToInt(|Frame(c, p)|) && k == 8 + ToInt(|Payload(c, p)|)))
      ensures stream.Kept(old(stream.m_socket.counts))
      ensures rt in {-3, -4} <==> stream.Gave(old(stream.m_socket.counts)) || ToInt(|Payload(c, p)|) <= 0
    {
      var ba, flag := Pack(p);
      rt := Transmit(stream, Header(flag, ba.m_size), ba);
    }

    /** The header. */
    method TransmitHeader(stream: SocketStream, header: seq<byte>, ghost o: seq<byte>, ghost s: seq<byte>,
                          ghost was: seq<int>) returns (ok: bool, ghost k: nat)
      requires |header| == 8 && stream.m_socket.outbox == o && stream.m_socket.counts == was
      modifies stream.m_socket`outbox, stream.m_socket`counts
      ensures k <= 8 && stream.m_socket.outbox == o + (header + s)[..k] && stream.Kept(was)
      ensures ok <==> !stream.Gave(was)
      ensures ok ==> stream.m_socket.outbox == o + header
    {
      var n := stream.WriteFixBuffer(header);
      SentPart(o, header, s, stream.m_socket.outbox);
      k := |stream.m_socket.outbox| - |o|;
      ok := n > 0;
      assert k == 8 ==> header[..k] == header;
    }

    /** And what can be read from ba. */
    method TransmitRest(stream: SocketStream, ba: ByteArray, ghost o: seq<byte>, ghost s: seq<byte>,
                        ghost mid: seq<int>)
      returns (ok: bool, ghost k: nat)
      requires ba.Reading() && stream.m_socket !in ba.Repr && ba.m_pos == 0
      requires stream.m_socket.outbox == o && ba.Rest() == s && stream.m_socket.counts == mid
      requires stream.m_socket.m_isConnected
      modifies ba`m_pos, ba`m_size, ba`m_cur, ba`index, stream.m_socket`outbox, stream.m_socket`counts
      ensures k <= |s| && stream.m_socket.outbox == o + s[..k] && stream.Kept(mid)
      ensures ok <==> !stream.Gave(mid) && 0 < ToInt(|s|)
      ensures ok ==> k == ToInt(|s|)
    {
      assert ba.m_size - ba.m_pos == |s|;
      var n;
      n, k := stream.WriteFixSize(ba, ba.m_size - ba.m_pos);
      ok := n > 0;
    }

    /** The header, and then what can be read from ba. */
    method Transmit(stream: SocketStream, header: seq<byte>, ba: ByteArray) returns (rt: int)
      requires |header| == 8 && ba.Reading() && stream.m_socket !in ba.Repr && ba.m_pos == 0
      modifies ba`m_pos, ba`m_size, ba`m_cur, ba`index, stream.m_socket`outbox, stream.m_socket`counts
      ensures |old(stream.m_socket.outbox)| <= |stream.m_socket.outbox|
      ensures var k, s := |stream.m_socket.outbox| - |old(stream.m_socket.outbox)|, old(ba.Rest());
              && k <= 8 + |s| && stream.m_socket.outbox == old(stream.m_socket.outbox) + (header + s)[..k]
              && (rt in {-3, -4} || (rt == ToInt(8 + |s|) && k == 8 + ToInt(|s|)))
      ensures stream.Kept(old(stream.m_socket.counts))
      ensures rt in {-3, -4} <==> stream.Gave(old(stream.m_socket.counts)) || ToInt(|old(ba.Rest())|) <= 0
    {
      ghost var o, s, was := stream.m_socket.outbox, ba.Rest(), stream.m_socket.counts;
      var size := ba.m_size;
      var ok; ghost var k;
      ok, k := TransmitHeader(stream, header, o, s, was);
      if !ok {
        return -3;
      }
      ghost var mid := stream.m_socket.counts;
      ok, k := TransmitRest(stream, ba, o + header, s, mid);
      stream.TwoParts(was, mid);
      SentMore(o, header, s, stream.m_socket.outbox);
      rt := if ok then ToInt(8 + size) else -4;
    }

    /** The second half of parseFrom: unzipped when the flag says so and the payload is long enough, then parsed. */
    method Unpack(ba: ByteArray, flag: byte) returns (r: Option<Packet>)
      requires ba.Reading() && ba.m_pos == 0
      modifies ba`m_pos, ba`m_cur, ba`index
      ensures r == DecodePayload(c, flag, old(ba.Rest()))
    {
      var from := ba;
      if flag % 2 == 1 && ba.m_size >= c.minLength {
        var data := ReadAllBuffers(ba);
        var unzipped := c.gunzip(data);
        if unzipped.None? {
          return None;
        }
        from := Holding(order, unzipped.value);
      }
      r := ReadPacket(from);
    }

    /** The payload of a valid header. */
    method ReadPayload(stream: SocketStream, flag: byte, n: nat) returns (r: Option<Packet>, ghost k: nat)
      modifies stream.m_socket`inbox, stream.m_socket`counts
      ensures k <= n && k <= |old(stream.m_socket.inbox)|
      ensures stream.m_socket.inbox == old(stream.m_socket.inbox)[k..]
      ensures r == if k < n || ToInt(n) <= 0 then None else DecodePayload(c, flag, old(stream.m_socket.inbox)[..n])
      ensures stream.Kept(old(stream.m_socket.counts))
      ensures stream.m_socket.m_isConnected ==> (k < n <==> stream.Gave(old(stream.m_socket.counts)))
    {
      var ba := new ByteArray(4096, order);
      ghost var s, f := stream.m_socket.inbox, ba.Bytes();
      var got;
      got, k := stream.ReadFixSize(ba, n);
      stream.Appended(ba, f, 0, s, k);
      if got <= 0 {
        return None, k;
      }
      Rewind(ba);
      assert [] + s[..n] == s[..n];
      r := Unpack(ba, flag);
    }

    /** parseFrom: what it returns is what the frame at the front of the stream holds, however it came in; once the
        whole frame is taken, its message is returned. */
    method ParseFrom(stream: SocketStream) returns (r: Option<Packet>, ghost k: nat)
      modifies stream.m_socket`inbox, stream.m_socket`counts
      ensures k <= |old(stream.m_socket.inbox)|
      ensures var s := old(stream.m_socket.inbox);
              && stream.m_socket.inbox == s[k..]
              && (r.Some? ==> ParseFrame(c, s) == Parsed(Ok(r), k))
              && (ParseFrame(c, s).r.Ok? ==> k <= ParseFrame(c, s).used)
              && (ParseFrame(c, s).r.Ok? && ParseFrame(c, s).used == k ==> ParseFrame(c, s).r == Ok(r))
              && (ParseFrame(c, s).r.Ok? && ParseFrame(c, s).used == k <==> !stream.Gave(old(stream.m_socket.counts)))
      ensures stream.Kept(old(stream.m_socket.counts))
    {
      ghost var s, was := stream.m_socket.inbox, stream.m_socket.counts;
      var header := new byte[8];
      ghost var b := header[..];
      var got := stream.ReadFixBuffer(header, 8);
      k := |s| - |stream.m_socket.inbox|;
      if got <= 0 {
        return None, k;
      }
      assert header[..] == s[..8];
      if !HeaderValid(c, header[..]) {
        return None, k;
      }
      ghost var mid := stream.m_socket.counts;
      r, k := ReadPayload(stream, header[3], LengthOf(header[..]));
      stream.TwoParts(was, mid);
      k := k + 8;
      FrameTook(s, LengthOf(s[..8]));
    }
  }

  lemma FrameTook(s: seq<byte>, n: nat)
    requires 8 <= |s|
    ensures s[..8][3] == s[3]
    ensures n <= |s| - 8 ==> s[8..][..n] == s[8..8 + n]
    ensures forall k: nat :: k <= |s| - 8 ==> s[8..][k..] == s[8 + k..]
  {
  }

  lemma SentPart(o: seq<byte>, h: seq<byte>, s: seq<byte>, t: seq<byte>)
    requires |o| <= |t| <= |o| + |h| && t == o + h[..|t| - |o|]
    ensures t == o + (h + s)[..|t| - |o|]
  {
  }

  lemma SentMore(o: seq<byte>, h: seq<byte>, s: seq<byte>, t: seq<byte>)
    requires |o| + |h| <= |t| <= |o| + |h| + |s| && t == o + h + s[..|t| - |o| - |h|]
    ensures t == o + (h + s)[..|t| - |o|]
  {
  }

  // ----- a conversation -----

  /** What arrives whole, by FrameRoundTrip. */
  predicate Deliverable(c: Config, p: Packet) {
    && Sendable(p.m) && |p.body| < TWO32
    && |Payload(c, p)| < Min(c.maxLength, 0x8000_0000) && Unzips(c, p)
  }

  function Frames(c: Config, ps: seq<Packet>): (r: seq<byte>) {
    if ps == [] then [] else Frame(c, ps[0]) + Frames(c, ps[1..])
  }

  /** More bytes behind a whole frame change nothing. */
  lemma ParseFrameStable(c: Config, s: seq<byte>, rest: seq<byte>)
    requires ParseFrame(c, s).r.Ok?
    ensures ParseFrame(c, s + rest) == ParseFrame(c, s)
  {
    assert (s + rest)[..8] == s[..8];
    var n := LengthOf(s[..8]);
    if HeaderValid(c, s[..8]) {
      assert (s + rest)[8..8 + n] == s[8..8 + n];
    }
  }

  /** A whole frame at the front of a part of what was sent is the first message, and the rest is the rest. */
  lemma FirstFrame(c: Config, ps: seq<Packet>, s: seq<byte>)
    requires Zlib(c) && (forall p :: p in ps ==> Deliverable(c, p)) && s <= Frames(c, ps)
    ensures ps != [] && s == Frames(c, ps) ==> ParseFrame(c, s) == Parsed(Ok(Some(ps[0])), |Frame(c, ps[0])|)
    ensures ParseFrame(c, s).r.Ok? ==>
              && ps != [] && ParseFrame(c, s) == Parsed(Ok(Some(ps[0])), |Frame(c, ps[0])|)
              && s[|Frame(c, ps[0])|..] <= Frames(c, ps[1..])
  {
    if ps != [] {
      assert ps[0] in ps;
      FrameRoundTrip(c, ps[0], Frames(c, ps[1..]));
      if ParseFrame(c, s).r.Ok? {
        var t := Frames(c, ps)[|s|..];
        assert s + t == Frames(c, ps);
        ParseFrameStable(c, s, t);
        FrontPart(Frame(c, ps[0]), Frames(c, ps[1..]), s);
      }
    }
  }

  lemma FrontPart(a: seq<byte>, b: seq<byte>, s: seq<byte>)
    requires s <= a + b && |a| <= |s|
    ensures s[|a|..] <= b && (s == a + b ==> s[|a|..] == b)
  {
    assert s == (a + b)[..|s|];
    assert s[|a|..] == b[..|s| - |a|];
  }

  /** One message after the other, until one of them cannot be sent. */
  method SendAll(decoder: RockMessageDecoder, stream: SocketStream, ps: seq<Packet>) returns (ok: bool)
    requires Zlib(decoder.c) && forall p :: p in ps ==> Deliverable(decoder.c, p)
    modifies stream.m_socket`outbox, stream.m_socket`counts
    ensures old(stream.m_socket.outbox) <= stream.m_socket.outbox
    ensures var t := stream.m_socket.outbox[|old(stream.m_socket.outbox)|..];
            t <= Frames(decoder.c, ps) && (ok ==> t == Frames(decoder.c, ps))
    ensures if ok then stream.Moving(old(stream.m_socket.counts)) else stream.Gave(old(stream.m_socket.counts))
    decreases ps
  {
    if ps == [] {
      return true;
    }
    ghost var o, was := stream.m_socket.outbox, stream.m_socket.counts;
    ok := SendOne(decoder, stream, ps[0]);
    ghost var a, b, m := Frame(decoder.c, ps[0]), Frames(decoder.c, ps[1..]), stream.m_socket.outbox;
    if !ok {
      SentPart(o, a, b, m);
      return;
    }
    assert a[..|a|] == a;
    ghost var mid := stream.m_socket.counts;
    ok := SendAll(decoder, stream, ps[1..]);
    if ok {
      stream.TwoMoving(was, mid);
    } else {
      stream.TwoGave(was, mid);
    }
    SentNext(o, a, b, m, stream.m_socket.outbox);
  }

  /** One message. */
  method SendOne(decoder: RockMessageDecoder, stream: SocketStream, p: Packet) returns (ok: bool)
    requires Zlib(decoder.c) && Deliverable(decoder.c, p)
    modifies stream.m_socket`outbox, stream.m_socket`counts
    ensures |old(stream.m_socket.outbox)| <= |stream.m_socket.outbox|
    ensures var k := |stream.m_socket.outbox| - |old(stream.m_socket.outbox)|;
            && k <= |Frame(decoder.c, p)| && (ok ==> k == |Frame(decoder.c, p)|)
            && stream.m_socket.outbox == old(stream.m_socket.outbox) + Frame(decoder.c, p)[..k]
    ensures stream.Kept(old(stream.m_socket.counts)) && (ok <==> !stream.Gave(old(stream.m_socket.counts)))
  {
    PayloadIsInt(decoder.c, p);
    var rt := decoder.SerializeTo(stream, p);
    ok := rt !in {-3, -4};
  }

  lemma PayloadIsInt(c: Config, p: Packet)
    requires Zlib(c) && Deliverable(c, p)
    ensures 0 < ToInt(|Payload(c, p)|) == |Payload(c, p)| && |Frame(c, p)| == 8 + |Payload(c, p)|
  {
    assert 0 < |c.gzip(EncodePacket(p))|;
  }

  lemma SentNext(o: seq<byte>, a: seq<byte>, b: seq<byte>, m: seq<byte>, e: seq<byte>)
    requires m == o + a && m <= e && e[|m|..] <= b
    ensures o <= e && e[|o|..] <= a + b && (e[|m|..] == b ==> e[|o|..] == a + b)
  {
    assert e == m + e[|m|..];
    assert e[|o|..] == a + e[|m|..];
  }

  /** What parseFrom returned, when it took k bytes of a part of what was sent. */
  lemma FrameReceived(c: Config, ps: seq<Packet>, s: seq<byte>, k: nat, r: Option<Packet>)
    requires Zlib(c) && (forall p :: p in ps ==> Deliverable(c, p)) && s <= Frames(c, ps) && k <= |s|
    requires r.Some? ==> ParseFrame(c, s) == Parsed(Ok(r), k)
    requires ParseFrame(c, s).r.Ok? ==> k <= ParseFrame(c, s).used
    requires ParseFrame(c, s).r.Ok? && ParseFrame(c, s).used == k ==> ParseFrame(c, s).r == Ok(r)
    ensures r.None? && s == Frames(c, ps) && k == |s| ==> ps == []
    ensures r.Some? ==> 0 < k && ps != [] && r.value == ps[0] && s[k..] <= Frames(c, ps[1..])
    ensures r.Some? && s == Frames(c, ps) ==> s[k..] == Frames(c, ps[1..])
    ensures r.None? ==> !(ParseFrame(c, s).r.Ok? && ParseFrame(c, s).used == k)
  {
    FirstFrame(c, ps, s);
    if r.Some? {
      FrontPart(Frame(c, ps[0]), Frames(c, ps[1..]), s);
    }
  }

  /** One message after the other, until none comes. */
  method ReceiveAll(decoder: RockMessageDecoder, stream: SocketStream, ghost ps: seq<Packet>)
    returns (out: seq<Packet>)
    requires Zlib(decoder.c) && (forall p :: p in ps ==> Deliverable(decoder.c, p))
    requires stream.m_socket.inbox <= Frames(decoder.c, ps)
    modifies stream.m_socket`inbox, stream.m_socket`counts
    ensures out <= ps
    ensures old(stream.m_socket.inbox) == Frames(decoder.c, ps) && stream.m_socket.inbox == [] ==> out == ps
    ensures stream.Kept(old(stream.m_socket.counts)) && stream.Gave(old(stream.m_socket.counts))
    decreases |stream.m_socket.inbox|
  {
    ghost var s, was := stream.m_socket.inbox, stream.m_socket.counts;
    var r, k := decoder.ParseFrom(stream);
    ghost var mid := stream.m_socket.counts;
    FrameReceived(decoder.c, ps, s, k, r);
    if r.None? {
      return [];
    }
    var rest := ReceiveAll(decoder, stream, ps[1..]);
    stream.TwoParts(was, mid);
    assert [ps[0]] + ps[1..] == ps;
    out := [r.value] + rest;
  }

  predicate AllMoved(cs: seq<int>) {
    forall i :: 0 <= i < |cs| ==> cs[i] > 0
  }

  /** A sender on a new connection; sends is what its transfers have returned. */
  method SendNew(c: Config, order: Endian, ps: seq<Packet>) returns (ok: bool, sent: seq<byte>, ghost sends: seq<int>)
    requires Zlib(c) && forall p :: p in ps ==> Deliverable(c, p)
    ensures sent <= Frames(c, ps) && (ok ==> sent == Frames(c, ps)) && (ok <==> AllMoved(sends))
  {
    var near := new Socket([]);
    var from := new SocketStream(near);
    var encoder := new RockMessageDecoder(c, order);
    ok := SendAll(encoder, from, ps);
    sent, sends := near.outbox, near.counts;
    assert sent[0..] == sent && from.Since([]) == sends;
    if !ok {
      assert sends[|sends| - 1] <= 0;
    }
  }

  /** A receiver on a new connection; receives is what its transfers have returned, and left what it has not taken. */
  method ReceiveNew(c: Config, order: Endian, incoming: seq<byte>, ghost ps: seq<Packet>)
    returns (out: seq<Packet>, left: nat, ghost receives: seq<int>)
    requires Zlib(c) && (forall p :: p in ps ==> Deliverable(c, p)) && incoming <= Frames(c, ps)
    ensures out <= ps && (incoming == Frames(c, ps) && left == 0 ==> out == ps)
    ensures receives != [] && receives[|receives| - 1] <= 0 && AllMoved(receives[..|receives| - 1])
  {
    var far := new Socket(incoming);
    var to := new SocketStream(far);
    var decoder := new RockMessageDecoder(c, order);
    out := ReceiveAll(decoder, to, ps);
    left, receives := |far.inbox|, far.counts;
    assert to.Since([]) == receives;
  }

  /** Whatever the two sockets do with the transfers and however much of the stream arrives: what is received is a
      prefix of what was sent. The sender gives up if and only if one of its transfers moved nothing, and the receiver
      at the first of its own that moved nothing; so all is received if every transfer of the sender moved something,
      all has arrived, and nothing is left when the receiver gives up. */
  method Converse(c: Config, sender: Endian, receiver: Endian, ps: seq<Packet>, arrived: nat)
    returns (out: seq<Packet>, complete: bool, left: nat, ghost sends: seq<int>, ghost receives: seq<int>)
    requires Zlib(c) && forall p :: p in ps ==> Deliverable(c, p)
    ensures out <= ps && (complete ==> out == ps)
    ensures complete <==> AllMoved(sends) && |Frames(c, ps)| <= arrived && left == 0
    ensures receives != [] && receives[|receives| - 1] <= 0 && AllMoved(receives[..|receives| - 1])
  {
    var ok, sent;
    ok, sent, sends := SendNew(c, sender, ps);
    out, left, receives := ReceiveNew(c, receiver, sent[..Min(arrived, |sent|)], ps);
    complete := ok && |sent| <= arrived && left == 0;
    assert |sent| <= arrived ==> sent[..Min(arrived, |sent|)] == sent;
  }
}
