/** The messages of protocol.cpp: what they write into a ByteArray and read
    back from it, as bytes and as methods on their fields. */
module Protocol {
  import opened Prelude
  import opened Codec
  import opened Values
  import opened ByteArrays

  const REQUEST: byte := 1
  const RESPONSE: byte := 2
  const NOTIFY: byte := 3

  /** What the fields of a message hold. */
  datatype Message =
    | RequestOf(sn: uint32, cmd: uint32)
    | ResponseOf(sn: uint32, cmd: uint32, result: uint32, resultStr: seq<byte>)
    | NotifyOf(notify: uint32)

  function TypeOf(m: Message): (r: byte) {
    match m
    case RequestOf(_, _) => REQUEST
    case ResponseOf(_, _, _, _) => RESPONSE
    case NotifyOf(_) => NOTIFY
  }

  /** The strings that there can be. */
  predicate Sized(m: Message) {
    m.ResponseOf? ==> |m.resultStr| < TWO64
  }

  // ----- as bytes -----

  function StringBytes(s: seq<byte>): (r: seq<byte>) {
    Varint(|s| % TWO32) + s
  }

  function EncodeFields(m: Message): (r: seq<byte>) {
    match m
    case RequestOf(sn, cmd) => Varint(sn) + Varint(cmd)
    case ResponseOf(sn, cmd, result, resultStr) => Varint(sn) + Varint(cmd) + (Varint(result) + StringBytes(resultStr))
    case NotifyOf(notify) => Varint(notify)
  }

  /** The type and the fields; the byte order does not matter to them. */
  function EncodeMessage(m: Message): (r: seq<byte>) {
    [TypeOf(m)] + EncodeFields(m)
  }

  /** What goes over the wire: the number of the type, and the fields in the order of their declaration, a string behind
      its length. */
  lemma OnTheWire(m: Message)
    ensures match m
            case RequestOf(sn, cmd) => EncodeMessage(m) == [1] + Varint(sn) + Varint(cmd)
            case ResponseOf(sn, cmd, result, str) =>
              EncodeMessage(m) == [2] + Varint(sn) + Varint(cmd) + Varint(result) + Varint(|str| % TWO32) + str
            case NotifyOf(notify) => EncodeMessage(m) == [3] + Varint(notify)
  {
    match m
    case RequestOf(sn, cmd) => Assoc([REQUEST], Varint(sn), Varint(cmd));
    case ResponseOf(sn, cmd, result, resultStr) =>
      var a, b, c, d := Varint(sn), Varint(cmd), Varint(result), Varint(|resultStr| % TWO32);
      assert [RESPONSE] + (a + b + (c + (d + resultStr))) == [RESPONSE] + a + b + c + d + resultStr;
    case NotifyOf(notify) =>
  }

  lemma StringOnWire(e: Endian, s: seq<byte>)
    requires |s| < TWO64
    ensures Encode(e, Str(Vint, s)) == StringBytes(s)
  {
  }

  /** One reader after another one. */
  function Then<T, U>(p: Parsed<T>, q: Parsed<U>): (r: Parsed<(T, U)>) {
    if p.r.OutOfRange? then Parsed(OutOfRange, p.used)
    else Parsed(if q.r.Ok? then Ok((p.r.value, q.r.value)) else OutOfRange, p.used + q.used)
  }

  function Both<T, U>(a: Result<T>, b: Result<U>): (r: Result<(T, U)>) {
    if a.Ok? && b.Ok? then Ok((a.value, b.value)) else OutOfRange
  }

  lemma ThenTook<T, U>(p: Parsed<T>, q: Parsed<U>, s: seq<byte>, t: seq<byte>, u: seq<byte>, a: Result<T>, b: Result<U>)
    requires Took(p, s, t, a)
    requires if a.Ok? then Took(q, t, u, b) else u == t
    ensures Took(Then(p, q), s, u, Both(a, b))
  {
    if a.Ok? {
      SuffixSuffix(s, p.used, q.used);
    }
  }

  function ParsePair(s: seq<byte>): (p: Parsed<(uint32, uint32)>)
    ensures p.used <= |s|
  {
    var sn := ParseUint32(s);
    Then(sn, ParseUint32(s[sn.used..]))
  }

  function ParseRest(s: seq<byte>): (p: Parsed<(uint32, seq<byte>)>)
    ensures p.used <= |s|
  {
    var result := ParseUint32(s);
    Then(result, ParseStr(Big, Vint, s[result.used..]))
  }

  function ParseRequest(s: seq<byte>): (p: Parsed<Message>)
    ensures p.used <= |s|
  {
    var p := ParsePair(s);
    Parsed(if p.r.Ok? then Ok(RequestOf(p.r.value.0, p.r.value.1)) else OutOfRange, p.used)
  }

  /** A response starts with the fields of a request. */
  function ParseResponse(s: seq<byte>): (p: Parsed<Message>)
    ensures p.used <= |s|
  {
    var q := ParsePair(s);
    ResponseFrom(Then(q, ParseRest(s[q.used..])))
  }

  function ResponseFrom(p: Parsed<((uint32, uint32), (uint32, seq<byte>))>): (r: Parsed<Message>) {
    Parsed(if p.r.Ok? then
             Ok(ResponseOf(p.r.value.0.0, p.r.value.0.1, p.r.value.1.0, p.r.value.1.1))
           else OutOfRange, p.used)
  }

  function ParseNotify(s: seq<byte>): (p: Parsed<Message>)
    ensures p.used <= |s|
  {
    var notify := ParseUint32(s);
    Parsed(if notify.r.Ok? then Ok(NotifyOf(notify.r.value)) else OutOfRange, notify.used)
  }

  /** What parseFromByteArray of the class with that type makes of the bytes behind the type. */
  function ParseFields(t: byte, s: seq<byte>): (p: Parsed<Message>)
    requires t in {REQUEST, RESPONSE, NOTIFY}
    ensures p.used <= |s|
  {
    if t == REQUEST then ParseRequest(s) else if t == RESPONSE then ParseResponse(s) else ParseNotify(s)
  }

  // ----- reading back -----

  /** The message that arrives. */
  function Received(m: Message): (w: Message)
    requires Sized(m)
  {
    if m.ResponseOf? then m.(resultStr := Survivor(Str(Vint, m.resultStr)).s) else m
  }

  lemma PairRoundTrip(sn: uint32, cmd: uint32, rest: seq<byte>)
    ensures ParsePair(Varint(sn) + Varint(cmd) + rest) == Parsed(Ok((sn, cmd)), |Varint(sn) + Varint(cmd)|)
  {
    Assoc(Varint(sn), Varint(cmd), rest);
    VarintRoundTrip(sn, Varint(cmd) + rest);
    DropPrefix(Varint(sn), Varint(cmd) + rest);
    VarintRoundTrip(cmd, rest);
  }

  lemma StringRoundTrip(str: seq<byte>, rest: seq<byte>, w: seq<byte>)
    requires |str| < TWO64 && w == Survivor(Str(Vint, str)).s
    ensures ParseStr(Big, Vint, StringBytes(str) + rest) == Parsed(Ok(w), |StringBytes(w)|)
  {
    LengthCut(Big, Vint, |str|);
    StrRoundTrip(Big, Vint, str, rest);
  }

  lemma RestRoundTrip(result: uint32, str: seq<byte>, rest: seq<byte>, w: seq<byte>)
    requires |str| < TWO64 && w == Survivor(Str(Vint, str)).s
    ensures ParseRest(Varint(result) + StringBytes(str) + rest)
         == Parsed(Ok((result, w)), |Varint(result) + StringBytes(w)|)
  {
    Assoc(Varint(result), StringBytes(str), rest);
    VarintRoundTrip(result, StringBytes(str) + rest);
    DropPrefix(Varint(result), StringBytes(str) + rest);
    StringRoundTrip(str, rest, w);
  }

  lemma ResponseRoundTrip(m: Message, rest: seq<byte>)
    requires Sized(m) && m.ResponseOf?
    ensures ParseResponse(EncodeFields(m) + rest) == Parsed(Ok(Received(m)), |EncodeFields(Received(m))|)
  {
    var a, b := Varint(m.sn) + Varint(m.cmd), Varint(m.result) + StringBytes(m.resultStr);
    Assoc(a, b, rest);
    PairRoundTrip(m.sn, m.cmd, b + rest);
    DropPrefix(a, b + rest);
    RestRoundTrip(m.result, m.resultStr, rest, Received(m).resultStr);
  }

  /** Parsing what was serialized, whatever follows it. */
  lemma MessageRoundTrip(m: Message, rest: seq<byte>)
    requires Sized(m)
    ensures ParseFields(TypeOf(m), EncodeFields(m) + rest) == Parsed(Ok(Received(m)), |EncodeFields(Received(m))|)
  {
    match m
    case RequestOf(sn, cmd) => PairRoundTrip(sn, cmd, rest);
    case ResponseOf(_, _, _, _) => ResponseRoundTrip(m, rest);
    case NotifyOf(notify) => VarintRoundTrip(notify, rest);
  }

  /** Every field comes back if and only if the result string is shorter than 2^32. */
  lemma ReceivedExactly(m: Message)
    requires Sized(m)
    ensures Received(m) == m <==> (m.ResponseOf? ==> |m.resultStr| < TWO32)
  {
    if m.ResponseOf? {
      SurvivesExactly(Str(Vint, m.resultStr));
    }
  }

  // ----- the classes -----

  lemma TypeByte(e: Endian, t: byte)
    ensures Encode(e, Fuint(1, t)) == [t]
  {
    assert Reverse([t]) == [t];
  }

  // ----- the fields of a message, written and read one after the other -----

  method WriteRequest(ba: ByteArray, t: byte, sn: uint32, cmd: uint32)
    requires ba.Appending()
    modifies ba.Repr
    ensures ba.Appending() && fresh(ba.Repr - old(ba.Repr))
    ensures ba.Content() == old(ba.Content()) + ([t] + (Varint(sn) + Varint(cmd)))
  {
    TypeByte(ba.m_endian, t);
    ghost var c := ba.Content();
    ba.WriteFuint(t, 1);
    ba.WriteUint32(sn);
    ba.WriteUint32(cmd);
    Assoc(c + [t], Varint(sn), Varint(cmd));
    Assoc(c, [t], Varint(sn) + Varint(cmd));
  }

  method WriteResult(ba: ByteArray, result: uint32, str: seq<byte>)
    requires ba.Appending() && |str| < TWO64
    modifies ba.Repr
    ensures ba.Appending() && fresh(ba.Repr - old(ba.Repr))
    ensures ba.Content() == old(ba.Content()) + (Varint(result) + StringBytes(str))
  {
    ghost var c := ba.Content();
    ba.WriteUint32(result);
    StringOnWire(ba.m_endian, str);
    ba.WriteString(Vint, str);
    Assoc(c, Varint(result), StringBytes(str));
  }

  /** The byte order is for fixed-width integers only. */
  lemma AnyEndian(e: Endian, s: seq<byte>)
    ensures ParseStr(e, Vint, s) == ParseStr(Big, Vint, s)
  {
  }

  method ReadPair(ba: ByteArray) returns (sn: Result<uint32>, cmd: Result<uint32>)
    requires ba.Reading()
    modifies ba`m_pos, ba`m_cur, ba`index
    ensures ba.Reading() && Took(ParsePair(old(ba.Rest())), old(ba.Rest()), ba.Rest(), Both(sn, cmd))
    ensures cmd.Ok? ==> sn.Ok?
  {
    ghost var s := ba.Rest();
    sn := ba.ReadUint32();
    ghost var t := ba.Rest();
    cmd := OutOfRange;
    if sn.Ok? {
      cmd := ba.ReadUint32();
    }
    ThenTook(ParseUint32(s), ParseUint32(t), s, t, ba.Rest(), sn, cmd);
  }

  method ReadRest(ba: ByteArray) returns (result: Result<uint32>, str: Result<seq<byte>>)
    requires ba.Reading()
    modifies ba`m_pos, ba`m_cur, ba`index
    ensures ba.Reading() && Took(ParseRest(old(ba.Rest())), old(ba.Rest()), ba.Rest(), Both(result, str))
    ensures str.Ok? ==> result.Ok?
  {
    ghost var s := ba.Rest();
    result := ba.ReadUint32();
    ghost var t := ba.Rest();
    str := OutOfRange;
    if result.Ok? {
      AnyEndian(ba.m_endian, t);
      str := ba.ReadString(Vint);
    }
    ThenTook(ParseUint32(s), ParseStr(Big, Vint, t), s, t, ba.Rest(), result, str);
  }

  method ReadResponse(ba: ByteArray)
    returns (sn: Result<uint32>, cmd: Result<uint32>, result: Result<uint32>, str: Result<seq<byte>>)
    requires ba.Reading()
    modifies ba`m_pos, ba`m_cur, ba`index
    ensures ba.Reading() && (str.Ok? ==> result.Ok?) && (result.Ok? ==> cmd.Ok?) && (cmd.Ok? ==> sn.Ok?)
    ensures Took(ParseResponse(old(ba.Rest())), old(ba.Rest()), ba.Rest(),
                 if str.Ok? then Ok(ResponseOf(sn.value, cmd.value, result.value, str.value)) else OutOfRange)
  {
    ghost var s := ba.Rest();
    sn, cmd := ReadPair(ba);
    ghost var t := ba.Rest();
    result, str := OutOfRange, OutOfRange;
    if cmd.Ok? {
      result, str := ReadRest(ba);
    }
    ThenTook(ParsePair(s), ParseRest(t), s, t, ba.Rest(), Both(sn, cmd), Both(result, str));
  }

  /** The result that parseFromByteArray of an object has, whose fields are now m. */
  function Parsing(r: Result<()>, m: Message): (result: Result<Message>) {
    if r.Ok? then Ok(m) else OutOfRange
  }

  /** A request is read when its two fields are. */
  lemma RequestTook(s: seq<byte>, t: seq<byte>, sn: Result<uint32>, cmd: Result<uint32>, r: Result<()>, m: Message)
    requires Took(ParsePair(s), s, t, Both(sn, cmd)) && (cmd.Ok? ==> sn.Ok?) && r.Ok? == cmd.Ok?
    requires cmd.Ok? ==> m == RequestOf(sn.value, cmd.value)
    ensures Took(ParseRequest(s), s, t, Parsing(r, m))
  {
  }

  class Request {
    var m_sn: uint32
    var m_cmd: uint32

    constructor ()
      ensures Fields() == RequestOf(0, 0)
    {
      m_sn, m_cmd := 0, 0;
    }

    function Fields(): (r: Message)
      reads this
    {
      RequestOf(m_sn, m_cmd)
    }

    method SerializeToByteArray(ba: ByteArray)
      requires ba.Appending() && this !in ba.Repr
      modifies ba.Repr
      ensures ba.Appending() && fresh(ba.Repr - old(ba.Repr)) && Fields() == old(Fields())
      ensures ba.Content() == old(ba.Content()) + EncodeMessage(Fields())
    {
      WriteRequest(ba, REQUEST, m_sn, m_cmd);
    }

    method ParseFromByteArray(ba: ByteArray) returns (r: Result<()>)
      requires ba.Reading() && this !in ba.Repr
      modifies this, ba`m_pos, ba`m_cur, ba`index
      ensures ba.Reading()
      ensures Took(ParseRequest(old(ba.Rest())), old(ba.Rest()), ba.Rest(), Parsing(r, Fields()))
    {
      ghost var s := ba.Rest();
      var sn, cmd := ReadPair(ba);
      ghost var rest := ba.Rest();
      Assign(sn, cmd);
      assert ba.Reading() && ba.Rest() == rest;
      r := if cmd.Ok? then Ok(()) else OutOfRange;
      RequestTook(s, rest, sn, cmd, r, Fields());
    }

    /** The fields that were read. */
    method Assign(sn: Result<uint32>, cmd: Result<uint32>)
      modifies this
      ensures m_sn == (if sn.Ok? then sn.value else old(m_sn)) && m_cmd == if cmd.Ok? then cmd.value else old(m_cmd)
    {
      m_sn := if sn.Ok? then sn.value else m_sn;
      m_cmd := if cmd.Ok? then cmd.value else m_cmd;
    }
  }

  class Response {
    var m_sn: uint32
    var m_cmd: uint32
    var m_result: uint32
    var m_resultStr: seq<byte>

    constructor ()
      ensures Fields() == ResponseOf(0, 0, 0, [0x75, 0x6E, 0x6B, 0x6E, 0x6F, 0x77])
    {
      m_sn, m_cmd, m_result := 0, 0, 0;
      m_resultStr := [0x75, 0x6E, 0x6B, 0x6E, 0x6F, 0x77];
    }

    function Fields(): (r: Message)
      reads this
    {
      ResponseOf(m_sn, m_cmd, m_result, m_resultStr)
    }

    method SerializeToByteArray(ba: ByteArray)
      requires ba.Appending() && this !in ba.Repr && |m_resultStr| < TWO64
      modifies ba.Repr
      ensures ba.Appending() && fresh(ba.Repr - old(ba.Repr)) && Fields() == old(Fields())
      ensures ba.Content() == old(ba.Content()) + EncodeMessage(Fields())
    {
      ghost var c := ba.Content();
      WriteRequest(ba, RESPONSE, m_sn, m_cmd);
      WriteResult(ba, m_result, m_resultStr);
      ghost var a, b := Varint(m_sn) + Varint(m_cmd), Varint(m_result) + StringBytes(m_resultStr);
      Assoc(c, [RESPONSE] + a, b);
      Assoc([RESPONSE], a, b);
    }

    method ParseFromByteArray(ba: ByteArray) returns (r: Result<()>)
      requires ba.Reading() && this !in ba.Repr
      modifies this, ba`m_pos, ba`m_cur, ba`index
      ensures ba.Reading()
      ensures Took(ParseResponse(old(ba.Rest())), old(ba.Rest()), ba.Rest(), Parsing(r, Fields()))
    {
      var sn, cmd, result, str := ReadResponse(ba);
      ghost var rest := ba.Rest();
      Assign(sn, cmd, result, str);
      assert ba.Reading() && ba.Rest() == rest;
      r := if str.Ok? then Ok(()) else OutOfRange;
    }

    /** The fields that were read; the first one that fails leaves it and the following ones as they are. */
    method Assign(sn: Result<uint32>, cmd: Result<uint32>, result: Result<uint32>, str: Result<seq<byte>>)
      modifies this
      ensures m_sn == (if sn.Ok? then sn.value else old(m_sn)) && m_cmd == (if cmd.Ok? then cmd.value else old(m_cmd))
      ensures m_result == (if result.Ok? then result.value else old(m_result))
      ensures m_resultStr == if str.Ok? then str.value else old(m_resultStr)
    {
      m_sn := if sn.Ok? then sn.value else m_sn;
      m_cmd := if cmd.Ok? then cmd.value else m_cmd;
      m_result := if result.Ok? then result.value else m_result;
      m_resultStr := if str.Ok? then str.value else m_resultStr;
    }
  }

  class Notify {
    var m_notify: uint32

    constructor ()
      ensures Fields() == NotifyOf(0)
    {
      m_notify := 0;
    }

    function Fields(): (r: Message)
      reads this
    {
      NotifyOf(m_notify)
    }

    method SerializeToByteArray(ba: ByteArray)
      requires ba.Appending() && this !in ba.Repr
      modifies ba.Repr
      ensures ba.Appending() && fresh(ba.Repr - old(ba.Repr)) && Fields() == old(Fields())
      ensures ba.Content() == old(ba.Content()) + EncodeMessage(Fields())
    {
      TypeByte(ba.m_endian, NOTIFY);
      ghost var c := ba.Content();
      ba.WriteFuint(NOTIFY, 1);
      ba.WriteUint32(m_notify);
      Assoc(c, [NOTIFY], Varint(m_notify));
    }

    method ParseFromByteArray(ba: ByteArray) returns (r: Result<()>)
      requires ba.Reading() && this !in ba.Repr
      modifies this, ba`m_pos, ba`m_cur, ba`index
      ensures ba.Reading()
      ensures Took(ParseNotify(old(ba.Rest())), old(ba.Rest()), ba.Rest(), Parsing(r, Fields()))
    {
      var notify := ba.ReadUint32();
      if notify.OutOfRange? {
        return OutOfRange;
      }
      m_notify := notify.value;
      r := Ok(());
    }
  }
}
