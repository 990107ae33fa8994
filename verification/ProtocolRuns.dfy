/** Any sequence of messages through one ByteArray. */
module ProtocolRuns {
  import opened Prelude
  import opened Codec
  import opened Values
  import opened ByteArrays
  import opened ByteArrayRuns
  import opened Protocol

  /** A type byte and the fields behind it; None when there is no such type. */
  function ParseMessage(s: seq<byte>): (p: Parsed<Option<Message>>)
    ensures p.used <= |s|
  {
    if s == [] then Parsed(OutOfRange, 0)
    else if s[0] !in {REQUEST, RESPONSE, NOTIFY} then Parsed(Ok(None), 1)
    else
      var p := ParseFields(s[0], s[1..]);
      Parsed(if p.r.Ok? then Ok(Some(p.r.value)) else OutOfRange, p.used + 1)
  }

  lemma ParseMessageOf(m: Message, rest: seq<byte>)
    requires Sized(m)
    ensures ParseMessage(EncodeMessage(m) + rest) == Parsed(Ok(Some(Received(m))), |EncodeMessage(Received(m))|)
  {
    MessageRoundTrip(m, rest);
    Assoc([TypeOf(m)], EncodeFields(m), rest);
    DropPrefix([TypeOf(m)], EncodeFields(m) + rest);
  }

  lemma FieldsTook(s: seq<byte>, t: seq<byte>, u: seq<byte>, r: Result<Message>)
    requires s != [] && s[0] in {REQUEST, RESPONSE, NOTIFY} && t == s[1..] && Took(ParseFields(s[0], t), t, u, r)
    ensures Took(ParseMessage(s), s, u, if r.Ok? then Ok(Some(r.value)) else OutOfRange)
  {
    SuffixSuffix(s, 1, ParseFields(s[0], t).used);
  }

  method MakeRequest(m: Message) returns (req: Request)
    requires m.RequestOf?
    ensures fresh(req) && req.Fields() == m
  {
    req := new Request();
    req.m_sn, req.m_cmd := m.sn, m.cmd;
  }

  method MakeResponse(m: Message) returns (rsp: Response)
    requires m.ResponseOf?
    ensures fresh(rsp) && rsp.Fields() == m
  {
    rsp := new Response();
    rsp.Assign(Ok(m.sn), Ok(m.cmd), Ok(m.result), Ok(m.resultStr));
  }

  method MakeNotify(m: Message) returns (nty: Notify)
    requires m.NotifyOf?
    ensures fresh(nty) && nty.Fields() == m
  {
    nty := new Notify();
    nty.m_notify := m.notify;
  }

  /** One object of the class of m, serialized. */
  method WriteMessage(ba: ByteArray, m: Message)
    requires ba.Appending() && Sized(m)
    modifies ba.Repr
    ensures ba.Appending() && fresh(ba.Repr - old(ba.Repr))
    ensures ba.Content() == old(ba.Content()) + EncodeMessage(m)
  {
    match m
    case RequestOf(_, _) =>
      var req := MakeRequest(m);
      req.SerializeToByteArray(ba);
    case ResponseOf(_, _, _, _) =>
      var rsp := MakeResponse(m);
      rsp.SerializeToByteArray(ba);
    case NotifyOf(_) =>
      var nty := MakeNotify(m);
      nty.SerializeToByteArray(ba);
  }

  method ReadRequest(ba: ByteArray) returns (r: Result<Message>)
    requires ba.Reading()
    modifies ba`m_pos, ba`m_cur, ba`index
    ensures ba.Reading() && Took(ParseRequest(old(ba.Rest())), old(ba.Rest()), ba.Rest(), r)
  {
    var req := new Request();
    var ok := req.ParseFromByteArray(ba);
    r := Parsing(ok, req.Fields());
  }

  method ReadResponse(ba: ByteArray) returns (r: Result<Message>)
    requires ba.Reading()
    modifies ba`m_pos, ba`m_cur, ba`index
    ensures ba.Reading() && Took(ParseResponse(old(ba.Rest())), old(ba.Rest()), ba.Rest(), r)
  {
    var rsp := new Response();
    var ok := rsp.ParseFromByteArray(ba);
    r := Parsing(ok, rsp.Fields());
  }

  method ReadNotify(ba: ByteArray) returns (r: Result<Message>)
    requires ba.Reading()
    modifies ba`m_pos, ba`m_cur, ba`index
    ensures ba.Reading() && Took(ParseNotify(old(ba.Rest())), old(ba.Rest()), ba.Rest(), r)
  {
    var nty := new Notify();
    var ok := nty.ParseFromByteArray(ba);
    r := Parsing(ok, nty.Fields());
  }

  /** parseFromByteArray of a new object of the class that the type byte names. */
  method ReadFields(ba: ByteArray, t: byte) returns (r: Result<Message>)
    requires ba.Reading() && t in {REQUEST, RESPONSE, NOTIFY}
    modifies ba`m_pos, ba`m_cur, ba`index
    ensures ba.Reading() && Took(ParseFields(t, old(ba.Rest())), old(ba.Rest()), ba.Rest(), r)
  {
    ghost var s, p := ba.Rest(), ParseFields(t, ba.Rest());
    if t == REQUEST {
      assert p == ParseRequest(s);
      r := ReadRequest(ba);
    } else if t == RESPONSE {
      assert p == ParseResponse(s);
      r := ReadResponse(ba);
    } else {
      assert p == ParseNotify(s);
      r := ReadNotify(ba);
    }
    assert Took(p, s, ba.Rest(), r);
  }

  method ReadMessage(ba: ByteArray) returns (r: Result<Option<Message>>)
    requires ba.Reading()
    modifies ba`m_pos, ba`m_cur, ba`index
    ensures ba.Reading() && Took(ParseMessage(old(ba.Rest())), old(ba.Rest()), ba.Rest(), r)
  {
    ghost var s := ba.Rest();
    var t := ba.ReadFuint(1);
    if t.OutOfRange? {
      return OutOfRange;
    }
    ByteFromMemory(ba.m_endian, s);
    if t.value !in {REQUEST, RESPONSE, NOTIFY} {
      return Ok(None);
    }
    ghost var u := ba.Rest();
    var m := ReadFields(ba, t.value);
    FieldsTook(s, u, ba.Rest(), m);
    r := if m.Ok? then Ok(Some(m.value)) else OutOfRange;
  }

  // ----- sequences of messages -----

  predicate AllSized(ms: seq<Message>) {
    forall m :: m in ms ==> Sized(m)
  }

  function EncodeMessages(ms: seq<Message>): (r: seq<byte>) {
    if ms == [] then [] else EncodeMessage(ms[0]) + EncodeMessages(ms[1..])
  }

  /** What parses one message of a stream, if it finds a known type. */
  type Parser = seq<byte> -> Parsed<Option<Message>>

  /** n messages, one after the other; none when one of them fails or has no known type. */
  function ParseEach(parse: Parser, n: nat, s: seq<byte>): (p: Parsed<seq<Message>>) {
    if n == 0 then Parsed(Ok([]), 0) else
      var p := parse(s);
      if p.r.OutOfRange? || p.r.value.None? || p.used > |s| then Parsed(OutOfRange, p.used) else
        var q := ParseEach(parse, n - 1, s[p.used..]);
        Parsed(if q.r.Ok? then Ok([p.r.value.value] + q.r.value) else OutOfRange, p.used + q.used)
  }

  function ParseMessages(n: nat, s: seq<byte>): (p: Parsed<seq<Message>>) {
    ParseEach(ParseMessage, n, s)
  }

  predicate Sendable(m: Message) {
    m.ResponseOf? ==> |m.resultStr| < TWO32
  }

  lemma SentMessage(m: Message, rest: seq<byte>)
    requires Sendable(m)
    ensures ParseMessage(EncodeMessage(m) + rest) == Parsed(Ok(Some(m)), |EncodeMessage(m)|)
  {
    ParseMessageOf(m, rest);
    ReceivedExactly(m);
  }

  lemma ParseCons(parse: Parser, n: nat, s: seq<byte>, m: Message, k: nat, ms: seq<Message>, l: nat)
    requires parse(s) == Parsed(Ok(Some(m)), k) && k <= |s|
    requires ParseEach(parse, n, s[k..]) == Parsed(Ok(ms), l)
    ensures ParseEach(parse, n + 1, s) == Parsed(Ok([m] + ms), k + l)
  {
  }

  /** Every sequence of messages with such result strings comes back, and nothing behind it is touched. */
  lemma {:induction false} MessagesRoundTrip(ms: seq<Message>, rest: seq<byte>)
    requires forall m :: m in ms ==> Sendable(m)
    ensures ParseMessages(|ms|, EncodeMessages(ms) + rest) == Parsed(Ok(ms), |EncodeMessages(ms)|)
  {
    if ms != [] {
      var a, b := EncodeMessage(ms[0]), EncodeMessages(ms[1..]);
      assert ms[0] in ms && Sendable(ms[0]);
      Assoc(a, b, rest);
      SentMessage(ms[0], b + rest);
      DropPrefix(a, b + rest);
      MessagesRoundTrip(ms[1..], rest);
      ParseCons(ParseMessage, |ms| - 1, a + (b + rest), ms[0], |a|, ms[1..], |b|);
      assert [ms[0]] + ms[1..] == ms;
    }
  }

  method WriteMessages(ba: ByteArray, ms: seq<Message>)
    requires ba.Appending() && AllSized(ms)
    modifies ba.Repr
    ensures ba.Appending() && fresh(ba.Repr - old(ba.Repr))
    ensures ba.Content() == old(ba.Content()) + EncodeMessages(ms)
    decreases ms
  {
    if ms != [] {
      ghost var c := ba.Content();
      WriteMessage(ba, ms[0]);
      WriteMessages(ba, ms[1..]);
      Assoc(c, EncodeMessage(ms[0]), EncodeMessages(ms[1..]));
    }
  }

  /** Each of the messages was parsed where the one before it ended. */
  ghost predicate InARow(parse: Parser, ms: seq<Message>, rests: seq<seq<byte>>) {
    && |rests| == |ms| + 1
    && forall i {:trigger ms[i]} :: 0 <= i < |ms| ==> Next(parse, rests[i], rests[i + 1], ms[i])
  }

  ghost predicate Next(parse: Parser, s: seq<byte>, t: seq<byte>, m: Message) {
    Took(parse(s), s, t, Ok(Some(m)))
  }

  /** Parsing failed, or found no known type, and left t. */
  ghost predicate Stopped(parse: Parser, s: seq<byte>, t: seq<byte>) {
    (parse(s).r.OutOfRange? || parse(s).r.value.None?) && Took(parse(s), s, t, parse(s).r)
  }

  lemma ParseTook(parse: Parser, n: nat, s: seq<byte>, t: seq<byte>, u: seq<byte>, m: Message,
                  ms: Result<seq<Message>>)
    requires 0 < n && Next(parse, s, t, m) && Took(ParseEach(parse, n - 1, t), t, u, ms)
    ensures Took(ParseEach(parse, n, s), s, u, if ms.Ok? then Ok([m] + ms.value) else OutOfRange)
  {
    SuffixSuffix(s, parse(s).used, ParseEach(parse, n - 1, t).used);
  }

  lemma RowRest(parse: Parser, ms: seq<Message>, rests: seq<seq<byte>>)
    requires InARow(parse, ms, rests) && ms != []
    ensures InARow(parse, ms[1..], rests[1..]) && Next(parse, rests[0], rests[1], ms[0])
  {
    forall i {:trigger ms[1..][i]} | 0 <= i < |ms| - 1
      ensures Next(parse, rests[1..][i], rests[1..][i + 1], ms[1..][i])
    {
      assert ms[1..][i] == ms[i + 1];
    }
  }

  lemma {:induction false} RowParses(parse: Parser, n: nat, ms: seq<Message>, rests: seq<seq<byte>>, u: seq<byte>,
                                     r: Result<seq<Message>>)
    requires InARow(parse, ms, rests) && |ms| <= n
    requires if |ms| == n then rests[n] == u else Stopped(parse, rests[|ms|], u)
    requires r == if |ms| == n then Ok(ms) else OutOfRange
    ensures Took(ParseEach(parse, n, rests[0]), rests[0], u, r)
    decreases ms
  {
    if ms != [] {
      RowRest(parse, ms, rests);
      var others := if |ms| == n then Ok(ms[1..]) else OutOfRange;
      RowParses(parse, n - 1, ms[1..], rests[1..], u, others);
      assert [ms[0]] + ms[1..] == ms;
      ParseTook(parse, n, rests[0], rests[1], u, ms[0], others);
    }
  }

  /** One message after the other, up to n; the first failure ends it. */
  method ReadRow(ba: ByteArray, n: nat) returns (ms: seq<Message>, ghost rests: seq<seq<byte>>)
    requires ba.Reading()
    modifies ba`m_pos, ba`m_cur, ba`index
    ensures ba.Reading() && InARow(ParseMessage, ms, rests) && rests[0] == old(ba.Rest()) && |ms| <= n
    ensures if |ms| == n then rests[n] == ba.Rest() else Stopped(ParseMessage, rests[|ms|], ba.Rest())
  {
    ms, rests := [], [ba.Rest()];
    while |ms| < n
      invariant ba.Reading() && InARow(ParseMessage, ms, rests) && rests[0] == old(ba.Rest()) && |ms| <= n
      invariant rests[|ms|] == ba.Rest()
    {
      var m := ReadMessage(ba);
      if m.OutOfRange? || m.value.None? {
        return;
      }
      ms, rests := ms + [m.value.value], rests + [ba.Rest()];
    }
  }

  method ReadMessages(ba: ByteArray, n: nat) returns (r: Result<seq<Message>>)
    requires ba.Reading()
    modifies ba`m_pos, ba`m_cur, ba`index
    ensures ba.Reading() && Took(ParseMessages(n, old(ba.Rest())), old(ba.Rest()), ba.Rest(), r)
  {
    var ms, rests := ReadRow(ba, n);
    r := if |ms| == n then Ok(ms) else OutOfRange;
    RowParses(ParseMessage, n, ms, rests, ba.Rest(), r);
  }

  lemma AllCome(ms: seq<Message>)
    ensures (forall m :: m in ms ==> Sendable(m)) ==>
              ParseMessages(|ms|, EncodeMessages(ms)) == Parsed(Ok(ms), |EncodeMessages(ms)|)
  {
    if forall m :: m in ms ==> Sendable(m) {
      MessagesRoundTrip(ms, []);
      assert EncodeMessages(ms) + [] == EncodeMessages(ms);
    }
  }

  /** Serialized, rewound and parsed: the same messages, and the position is at the end; for every node size. */
  method Exchange(baseSize: nat, order: Endian, ms: seq<Message>) returns (out: Result<seq<Message>>, left: nat)
    requires 0 < baseSize && AllSized(ms)
    ensures (forall m :: m in ms ==> Sendable(m)) ==> out == Ok(ms) && left == 0
  {
    ghost var s := EncodeMessages(ms);
    AllCome(ms);
    var ba := new ByteArray(baseSize, order);
    assert [] + s == s;
    WriteMessages(ba, ms);
    Rewind(ba);
    out := ReadMessages(ba, |ms|);
    left := ba.m_size - ba.m_pos;
  }
}
