/** MQTT packets (section 2.2 of MQTT 3.1.1) as 3rd_party/mongoose.c writes and
    reads them. */
module Mqtt {
  import opened Bytes
  import opened Mbufs
  import opened Framing
  const CMD_PUBLISH := 3
  const CMD_SUBSCRIBE := 8
  const ACKS := {4, 5, 6, 7, 9} // PUBACK, PUBREC, PUBREL, PUBCOMP, SUBACK

  /** One call of the publishing function. */
  datatype Sent = Sent(topic: bytes, id: nat, flags: nat, data: bytes)

  /** What the handler is told about a packet. `Short` is a packet that ends
      before the fields its command calls for; `Other` packets are reported
      with their undecoded body. */
  datatype Packet =
    | Publish(qos: nat, topic: bytes, id: Option<nat>, payload: bytes)
    | Subscribe(qos: nat, subscribeId: nat, topics: bytes)
    | Ack(cmd: nat, qos: nat, ackId: nat)
    | Other(cmd: nat, qos: nat, body: bytes)
    | Short(cmd: nat, qos: nat)

  function Qos(flags: nat): nat { flags / 2 % 4 }

  /** The variable length encoding: seven bits an octet, lowest first. */
  function EncodeLength(n: nat): (r: bytes)
    ensures r != []
  {
    if n < 0x80 then [n] else [n % 0x80 + 0x80] + EncodeLength(n / 0x80)
  }

  datatype Length = Length(value: nat, used: nat, more: bool)

  /** The length field at the front of `s`, `k` of its octets already read;
      `more` says that the last octet read asks for another one. */
  function DecodeLength(s: bytes, k: nat): (r: Length)
    ensures r.used <= |s|
    decreases |s|
  {
    if s == [] then Length(0, 0, k > 0)
    else if s[0] < 0x80 || k + 1 > 8 then Length(s[0] % 0x80, 1, s[0] >= 0x80)
    else
      var rest := DecodeLength(s[1..], k + 1);
      Length(s[0] % 0x80 + 0x80 * rest.value, 1 + rest.used, rest.more)
  }

  lemma {:induction false} LengthStable(s: bytes, t: bytes, k: nat)
    requires s != [] && !DecodeLength(s, k).more
    ensures DecodeLength(s + t, k) == DecodeLength(s, k)
    decreases |s|
  {
    if s[0] >= 0x80 {
      LengthStable(s[1..], t, k + 1);
      assert (s + t)[1..] == s[1..] + t;
    }
  }

  /** 128 to the power `j`. */
  function Limit(j: nat): (r: nat)
    ensures r > 0
  {
    if j == 0 then 1 else 0x80 * Limit(j - 1)
  }

  /** `v << 7 * n`. */
  function Shift(v: nat, n: nat): nat
    decreases n
  {
    if n == 0 then v else Shift(0x80 * v, n - 1)
  }

  lemma {:induction false} ShiftSum(a: nat, b: nat, n: nat)
    ensures Shift(a + b, n) == Shift(a, n) + Shift(b, n)
    decreases n
  {
    if n > 0 {
      ShiftSum(0x80 * a, 0x80 * b, n - 1);
    }
  }

  lemma ShiftDigit(low: nat, rest: nat, n: nat)
    ensures Shift(low + 0x80 * rest, n) == Shift(low, n) + Shift(rest, n + 1)
  {
    ShiftSum(low, 0x80 * rest, n);
  }

  /** A loop over a length field whose meaning is `total` has added up `n` of
      its octets; `rest` is what the others mean. */
  ghost predicate Decoding(total: Length, rest: Length, n: nat, sum: nat) {
    total == Length(sum + Shift(rest.value, n), n + rest.used, rest.more)
  }

  lemma DecodingNext(total: Length, s: bytes, n: nat, sum: nat)
    requires s != [] && Decoding(total, DecodeLength(s, n), n, sum)
    ensures var sum' := sum + Shift(s[0] % 0x80, n);
            if s[0] < 0x80 || n + 1 > 8 then total == Length(sum', n + 1, s[0] >= 0x80)
            else Decoding(total, DecodeLength(s[1..], n + 1), n + 1, sum')
  {
    ShiftDigit(s[0] % 0x80, DecodeLength(s[1..], n + 1).value, n);
  }

  lemma {:induction false} ShiftZero(n: nat)
    ensures Shift(0, n) == 0
    decreases n
  {
    if n > 0 {
      ShiftZero(n - 1);
    }
  }

  lemma {:induction false} LengthRoundTrip(n: nat, t: bytes, k: nat, j: nat)
    requires 0 < j && n < Limit(j) && k + j <= 8
    ensures DecodeLength(EncodeLength(n) + t, k) == Length(n, |EncodeLength(n)|, false)
    decreases n
  {
    if n >= 0x80 {
      LengthRoundTrip(n / 0x80, t, k + 1, j - 1);
      assert (EncodeLength(n) + t)[1..] == EncodeLength(n / 0x80) + t;
    } else {
      assert (EncodeLength(n) + t)[0] == n;
    }
  }

  /** `cmd << 4 | flags` in eight bits. */
  function HeaderOctet(cmd: nat, flags: nat): byte
    requires cmd < 16
  {
    OrDigitsBound(cmd, flags / 16 % 16, 4);
    assert Pow2(4) == 16 by { assert Pow2(2) == 4; }
    OrDigits(cmd, flags / 16 % 16, 4) * 16 + flags % 16
  }

  lemma LowEight(flags: nat)
    ensures flags % 256 == flags / 16 % 16 * 16 + flags % 16
  {
    var q := flags / 16;
    assert flags == 256 * (q / 16) + (q % 16 * 16 + flags % 16);
  }

  lemma OrBits(b: nat)
    requires b < 4
    ensures OrDigits(0, b, 2) == 0 <==> b == 0
  {
    assert OrDigits(0, b, 2) == b % 2 + 2 * OrDigits(0, b / 2, 1);
    assert OrDigits(0, b / 2, 1) == b / 2 % 2 + 2 * OrDigits(0, b / 2 / 2, 0);
  }

  lemma PublishBits(high: nat)
    requires high < 16
    ensures OrDigits(CMD_PUBLISH, high, 4) == CMD_PUBLISH <==> high < 4
  {
    var a, b := high / 2, high / 4;
    assert OrDigits(CMD_PUBLISH, high, 4) == 1 + 2 * OrDigits(1, a, 3);
    assert OrDigits(1, a, 3) == 1 + 2 * OrDigits(0, a / 2, 2);
    assert a / 2 == b;
    OrBits(b);
  }

  lemma By2(x: nat, q: nat, r: nat)
    requires x == 2 * q + r && r < 2
    ensures x / 2 == q
  {
  }

  lemma By4(x: nat, q: nat, r: nat)
    requires x == 4 * q + r && r < 4
    ensures x % 4 == r
  {
  }

  lemma By16(x: nat, q: nat, r: nat)
    requires x == 16 * q + r && r < 16
    ensures x / 16 == q
  {
  }

  lemma QosOfLow(high: nat, low: nat)
    requires low < 16
    ensures (high * 16 + low) / 16 == high && Qos(high * 16 + low) == low / 2 % 4
  {
    var x, half := high * 16 + low, low / 2;
    By16(x, high, low);
    By2(x, 8 * high + half, low % 2);
    By4(8 * high + half, 2 * high + half / 4, half % 4);
  }

  lemma NibbleParts(high: nat, flags: nat)
    ensures (high * 16 + flags % 16) / 16 == high && Qos(high * 16 + flags % 16) == Qos(flags)
    ensures (high * 16 + flags % 16) % 16 == flags % 16
  {
    QosOfLow(high, flags % 16);
    QosOfLow(flags / 16, flags % 16);
    assert flags == flags / 16 * 16 + flags % 16;
  }

  /** The command survives exactly when the flags, in eight bits, have none of the
      two bits that it has not set itself. */
  lemma HeaderParts(flags: nat)
    ensures var header := HeaderOctet(CMD_PUBLISH, flags);
            && (header / 16 == 3 <==> flags % 256 < 64)
            && header % 16 == flags % 16 && Qos(header) == Qos(flags)
  {
    var high := flags / 16 % 16;
    PublishBits(high);
    hide OrDigits;
    NibbleParts(OrDigits(CMD_PUBLISH, high, 4), flags);
    LowEight(flags);
  }

  lemma CmdAlone(cmd: nat)
    requires cmd < 16
    ensures OrDigits(cmd, 0, 4) == cmd
  {
    assert Pow2(4) == 16 by { assert Pow2(2) == 4; }
    OrZero(cmd, 4);
  }

  lemma QosSmall(flags: nat)
    ensures Qos(flags) == flags / 2 % 4
  {
  }

  /** Flags below 16 are added to the command, whatever it is. */
  lemma HeaderSum(cmd: nat, flags: nat)
    requires cmd < 16 && flags < 16
    ensures HeaderOctet(cmd, flags) == cmd * 16 + flags
    ensures HeaderOctet(cmd, flags) / 16 == cmd && Qos(HeaderOctet(cmd, flags)) == flags / 2 % 4
  {
    assert flags / 16 % 16 == 0 && flags % 16 == flags;
    CmdAlone(cmd);
    hide OrDigits, Qos;
    NibbleParts(cmd, flags);
    QosSmall(flags);
  }

  /** The topic's length is cut to 16 bits, the topic is not. */
  function PublishBody(m: Sent): bytes
    requires m.id < 0x1_0000
  {
    Be16(|m.topic| % 0x1_0000) + m.topic + (if Qos(m.flags) > 0 then Be16(m.id) else []) + m.data
  }

  /** Flags that leave the command alone, a topic's length in 16 bits, and a
      remaining length in the range of the `int` that the receiver shifts. */
  predicate Sendable(m: Sent) {
    |m.topic| < 0x1_0000 && m.id < 0x1_0000 && m.flags % 256 < 64 && |PublishBody(m)| < 0x8000_0000
  }

  function Encode(m: Sent): bytes {
    if m.id >= 0x1_0000 then []
    else [HeaderOctet(CMD_PUBLISH, m.flags)] + EncodeLength(|PublishBody(m)|) + PublishBody(m)
  }

  function Shown(m: Sent): Packet {
    Publish(Qos(m.flags), m.topic, if Qos(m.flags) > 0 then Some(m.id) else None, m.data)
  }

  function DecodePublish(qos: nat, body: bytes): Packet {
    if |body| < 2 then Short(CMD_PUBLISH, qos)
    else
      var top := 2 + FromBe16(body[0], body[1]);
      if qos == 0 then
        if |body| < top then Short(CMD_PUBLISH, qos)
        else Publish(qos, body[2..top], None, body[top..])
      else if |body| < top + 2 then Short(CMD_PUBLISH, qos)
      else Publish(qos, body[2..top], Some(FromBe16(body[top], body[top + 1])), body[top + 2..])
  }

  /** The fields of a packet, given the octets that its length covers. */
  function DecodeBody(cmd: nat, qos: nat, body: bytes): Packet {
    if cmd == CMD_PUBLISH then DecodePublish(qos, body)
    else if cmd == CMD_SUBSCRIBE then
      if |body| < 2 then Short(cmd, qos)
      else Subscribe(qos, FromBe16(body[0], body[1]), body[2..])
    else if cmd in ACKS then
      if |body| < 2 then Short(cmd, qos) else Ack(cmd, qos, FromBe16(body[0], body[1]))
    else Other(cmd, qos, body)
  }

  /** The packet at the front of the buffer, when it is all there. */
  function Parse(s: bytes): Option<Frame<Packet>> {
    if |s| < 2 then None
    else
      var len := DecodeLength(s[1..], 0);
      var end := 1 + len.used + len.value;
      if len.more || end > |s| then None
      else Some(Frame(DecodeBody(s[0] / 16, Qos(s[0]), s[1 + len.used..end]), end))
  }

  lemma ParseStableAt(s: bytes, t: bytes)
    ensures StableAt(Parse, s, t)
  {
    if Parse(s).Some? {
      var len := DecodeLength(s[1..], 0);
      assert (s + t)[1..] == s[1..] + t;
      LengthStable(s[1..], t, 0);
      var from, end := 1 + len.used, 1 + len.used + len.value;
      assert (s + t)[from..end] == s[from..end];
    }
  }

  lemma ParseStable()
    ensures Stable(Parse)
  {
    forall s: bytes, t: bytes
      ensures StableAt(Parse, s, t)
    {
      ParseStableAt(s, t);
    }
  }

  lemma TopicRead(body: bytes, topic: bytes, rest: bytes)
    requires |topic| < 0x1_0000 && body == Be16(|topic|) + topic + rest
    ensures var top := 2 + |topic|;
            && top <= |body| && FromBe16(body[0], body[1]) == |topic|
            && body[2..top] == topic && body[top..] == rest
  {
    var size := Be16(|topic|);
    Cut(size, topic, rest);
    Be16RoundTrip(|topic|);
    hide Be16, FromBe16;
    assert body[0] == size[0] && body[1] == size[1];
  }

  lemma IdRead(rest: bytes, id: nat, data: bytes)
    requires id < 0x1_0000 && rest == Be16(id) + data
    ensures |rest| >= 2 && FromBe16(rest[0], rest[1]) == id && rest[2..] == data
  {
    Be16RoundTrip(id);
  }

  lemma Behind(body: bytes, top: nat)
    requires top + 2 <= |body|
    ensures body[top] == body[top..][0] && body[top + 1] == body[top..][1] && body[top + 2..] == body[top..][2..]
  {
  }

  lemma PublishRead(qos: nat, topic: bytes, id: nat, data: bytes)
    requires |topic| < 0x1_0000 && id < 0x1_0000
    ensures var body := Be16(|topic|) + topic + ((if qos > 0 then Be16(id) else []) + data);
            DecodePublish(qos, body) == Publish(qos, topic, if qos > 0 then Some(id) else None, data)
  {
    var rest, top := (if qos > 0 then Be16(id) else []) + data, 2 + |topic|;
    var body := Be16(|topic|) + topic + rest;
    TopicRead(body, topic, rest);
    hide Be16, FromBe16;
    if qos > 0 {
      IdRead(rest, id, data);
      Behind(body, top);
    } else {
      assert rest == data;
    }
  }

  lemma PublishBodyParts(m: Sent)
    requires |m.topic| < 0x1_0000 && m.id < 0x1_0000
    ensures PublishBody(m) == Be16(|m.topic|) + m.topic + ((if Qos(m.flags) > 0 then Be16(m.id) else []) + m.data)
  {
    hide Qos, Be16;
    Cut(Be16(|m.topic|) + m.topic, if Qos(m.flags) > 0 then Be16(m.id) else [], m.data);
  }

  lemma PublishBodyRoundTrip(m: Sent)
    requires Sendable(m)
    ensures DecodePublish(Qos(m.flags), PublishBody(m)) == Shown(m)
  {
    hide Qos, PublishBody, DecodePublish;
    PublishBodyParts(m);
    PublishRead(Qos(m.flags), m.topic, m.id, m.data);
  }

  lemma RemainingLengthRoundTrip(n: nat, t: bytes)
    requires n < 0x8000_0000
    ensures DecodeLength(EncodeLength(n) + t, 0) == Length(n, |EncodeLength(n)|, false)
  {
    assert Limit(4) == 0x1000_0000 by { assert Limit(2) == 0x4000; }
    assert n < Limit(5);
    LengthRoundTrip(n, t, 0, 5);
  }

  lemma ParseAssembled(header: byte, body: bytes)
    requires |body| < 0x8000_0000
    ensures var s := [header] + EncodeLength(|body|) + body;
            Parse(s) == Some(Frame(DecodeBody(header / 16, Qos(header), body), |s|))
  {
    hide DecodeBody, EncodeLength, DecodeLength;
    var len := EncodeLength(|body|);
    Cut([header], len, body);
    RemainingLengthRoundTrip(|body|, body);
    var s := [header] + len + body;
    assert s[1 + |len|..|s|] == s[1 + |len|..];
  }

  lemma PacketRoundTrip(m: Sent)
    requires Sendable(m)
    ensures Inverts(Parse, Encode, Shown, m)
  {
    hide HeaderOctet, Parse, EncodeLength;
    var header, body := HeaderOctet(CMD_PUBLISH, m.flags), PublishBody(m);
    HeaderParts(m.flags);
    ParseAssembled(header, body);
    assert DecodeBody(CMD_PUBLISH, Qos(m.flags), body) == DecodePublish(Qos(m.flags), body);
    PublishBodyRoundTrip(m);
  }

  lemma NotShown(m: Sent, cmd: nat)
    requires m.id < 0x1_0000 && (cmd == CMD_PUBLISH ==> |m.topic| >= 0x1_0000)
    ensures DecodeBody(cmd, Qos(m.flags), PublishBody(m)) != Shown(m)
  {
    if cmd == CMD_PUBLISH {
      var body, n := PublishBody(m), |m.topic| % 0x1_0000;
      assert body[0] == Be16(n)[0] && body[1] == Be16(n)[1];
      assert FromBe16(body[0], body[1]) == n;
      assert n < |m.topic|;
    }
  }

  /** A packet with a remaining length in the range of an `int` comes back exactly
      when its flags leave the command alone and its topic's length fits 16 bits. */
  lemma RoundTripCondition(m: Sent)
    requires m.id < 0x1_0000 && |PublishBody(m)| < 0x8000_0000
    ensures Inverts(Parse, Encode, Shown, m) <==> m.flags % 256 < 64 && |m.topic| < 0x1_0000
  {
    if Sendable(m) {
      PacketRoundTrip(m);
    } else {
      hide HeaderOctet, Parse, EncodeLength;
      HeaderParts(m.flags);
      ParseAssembled(HeaderOctet(CMD_PUBLISH, m.flags), PublishBody(m));
      NotShown(m, HeaderOctet(CMD_PUBLISH, m.flags) / 16);
    }
  }

  /** A topic filter of a subscription and the quality of service asked for. */
  datatype Topic = Topic(name: bytes, qos: byte)

  function EncodeTopics(topics: seq<Topic>): bytes {
    if topics == [] then []
    else Be16(|topics[0].name| % 0x1_0000) + topics[0].name + [topics[0].qos] + EncodeTopics(topics[1..])
  }

  function Assembled(cmd: nat, flags: nat, body: bytes): bytes
    requires cmd < 16
  {
    [HeaderOctet(cmd, flags)] + EncodeLength(|body|) + body
  }

  /** Commands that hold nothing but a message id: acknowledgements are reported
      with their command and the id, as is the release, which sets a flag. */
  lemma AckRoundTrip(cmd: nat, id: nat)
    requires cmd in {4, 5, 6, 7, 9} && id < 0x1_0000
    ensures var packet := Assembled(cmd, if cmd == 6 then 2 else 0, Be16(id));
            Parse(packet) == Some(Frame(Ack(cmd, if cmd == 6 then 1 else 0, id), |packet|))
  {
    HeaderSum(cmd, if cmd == 6 then 2 else 0);
    ParseAssembled(HeaderOctet(cmd, if cmd == 6 then 2 else 0), Be16(id));
    Be16RoundTrip(id);
    hide Parse, HeaderOctet, EncodeLength, Be16, FromBe16;
  }

  /** A subscription is reported with its id and the octets of its topics. */
  lemma SubscribeRoundTrip(topics: seq<Topic>, id: nat)
    requires id < 0x1_0000 && 2 + |EncodeTopics(topics)| < 0x8000_0000
    ensures var packet := Assembled(8, 2, Be16(id) + EncodeTopics(topics));
            Parse(packet) == Some(Frame(Subscribe(1, id, EncodeTopics(topics)), |packet|))
  {
    HeaderSum(8, 2);
    ParseAssembled(HeaderOctet(8, 2), Be16(id) + EncodeTopics(topics));
    IdRead(Be16(id) + EncodeTopics(topics), id, EncodeTopics(topics));
    hide Parse, HeaderOctet, EncodeLength, Be16, FromBe16, EncodeTopics;
  }

  /** What the reader of topics finds at a position of a subscription's payload:
      the topic and the position behind it, or nothing at the end. */
  function NextTopic(payload: bytes, pos: nat): Option<(Topic, nat)>
    requires pos >= |payload|
             || (pos + 2 < |payload| && pos + 2 + FromBe16(payload[pos], payload[pos + 1]) < |payload|)
  {
    if pos >= |payload| then None
    else
      var len := FromBe16(payload[pos], payload[pos + 1]);
      Some((Topic(payload[pos + 2..pos + 2 + len], payload[pos + 2 + len]), pos + 2 + len + 1))
  }

  lemma TopicWritten(front: bytes, topics: seq<Topic>)
    requires topics != []
    ensures var t := topics[0];
            front + EncodeTopics(topics)
            == front + Be16(|t.name| % 0x1_0000) + t.name + [t.qos] + EncodeTopics(topics[1..])
  {
    var size, name, qos, more := Be16(|topics[0].name| % 0x1_0000), topics[0].name, [topics[0].qos], EncodeTopics(topics[1..]);
    assert front + (size + name + qos + more) == front + size + name + qos + more;
  }

  lemma NoTopics(front: bytes)
    ensures front + EncodeTopics([]) == front
  {
  }

  lemma OneTopic(t: Topic)
    requires |t.name| < 0x1_0000
    ensures EncodeTopics([t]) == Be16(|t.name|) + t.name + [t.qos]
    ensures |EncodeTopics([t])| == 2 + |t.name| + 1
  {
    assert [t][1..] == [];
    assert Be16(|t.name|) + t.name + [t.qos] + [] == Be16(|t.name|) + t.name + [t.qos];
  }

  lemma TopicAt(front: bytes, size: bytes, name: bytes, qos: byte, more: bytes)
    requires |size| == 2
    ensures var payload, n := front + size + name + [qos] + more, |front|;
            && payload == front + (size + name + [qos]) + more
            && payload[n] == size[0] && payload[n + 1] == size[1] && n + 2 + |name| < |payload|
            && payload[n + 2..n + 2 + |name|] == name && payload[n + 2 + |name|] == qos
  {
  }

  lemma NothingThere(payload: bytes)
    ensures NextTopic(payload, |payload|) == None
  {
  }

  lemma TopicFound(front: bytes, t: Topic, more: bytes)
    requires |t.name| < 0x1_0000
    ensures var payload, n := front + Be16(|t.name|) + t.name + [t.qos] + more, |front|;
            && payload == front + (Be16(|t.name|) + t.name + [t.qos]) + more && n + 2 < |payload|
            && n + 2 + FromBe16(payload[n], payload[n + 1]) < |payload|
            && NextTopic(payload, n) == Some((t, n + 2 + |t.name| + 1))
  {
    Be16RoundTrip(|t.name|);
    hide Be16, FromBe16;
    TopicAt(front, Be16(|t.name|), t.name, t.qos, more);
  }

  /** The topics of a subscription are read back one after the other. */
  lemma TopicsRead(before: bytes, topics: seq<Topic>)
    requires forall t | t in topics :: |t.name| < 0x1_0000
    ensures var payload := before + EncodeTopics(topics);
            if topics == [] then NextTopic(payload, |before|) == None
            else
              var first := EncodeTopics([topics[0]]);
              && payload == before + first + EncodeTopics(topics[1..])
              && |before| + 2 < |payload|
              && |before| + 2 + FromBe16(payload[|before|], payload[|before| + 1]) < |payload|
              && NextTopic(payload, |before|) == Some((topics[0], |before + first|))
  {
    hide EncodeTopics, Be16, FromBe16, NextTopic;
    if topics == [] {
      NoTopics(before);
      NothingThere(before);
    } else {
      var t, more := topics[0], EncodeTopics(topics[1..]);
      assert t in topics && |t.name| % 0x1_0000 == |t.name|;
      OneTopic(t);
      TopicWritten(before, topics);
      TopicFound(before, t, more);
    }
  }

  /** The first octet of a publication: its type, and the low four flags. */
  lemma FirstOctet(m: Sent)
    requires Sendable(m)
    ensures Encode(m)[0] == 0x30 + m.flags % 16
  {
    HeaderParts(m.flags);
    hide HeaderOctet;
  }

  /** The examples of sections 2.2.3 and 3.3 of MQTT 3.1.1: a remaining length of
      321, and the topic "a/b" with the id 10. */
  lemma Examples()
    ensures EncodeLength(321) == [193, 2]
    ensures PublishBody(Sent([0x61, 0x2f, 0x62], 10, 2, [])) == [0, 3, 0x61, 0x2f, 0x62, 0, 10]
  {
    assert EncodeLength(321) == [321 % 0x80 + 0x80] + EncodeLength(2);
  }

  /** Section 2.2.3 of MQTT 3.1.1 on streams: however the octets of a series of
      publications are cut, the receiver reports the same topics, qualities of
      service, payloads and, where there are any, message ids, in order. */
  lemma {:induction false} MqttStream(ms: seq<Sent>, pieces: seq<bytes>)
    requires forall m | m in ms :: Sendable(m)
    requires Flatten(pieces) == EncodeAll(Encode, ms)
    ensures Receive(Parse, [], pieces) == Drained(Events(Shown, ms), [])
    ensures var got := Receive(Parse, [], pieces).events;
            |got| == |ms| && forall i | 0 <= i < |ms| ::
              var qos := ms[i].flags / 2 % 4;
              got[i] == Packet.Publish(qos, ms[i].topic, if qos > 0 then Some(ms[i].id) else None, ms[i].data)
  {
    ParseStable();
    forall m | m in ms
      ensures Inverts(Parse, Encode, Shown, m)
    {
      PacketRoundTrip(m);
    }
    StreamRoundTrip(Parse, Encode, Shown, ms, pieces);
  }

  /** After any part of the stream, however it was cut into receives, exactly the
      packets that have arrived whole were reported. */
  lemma MqttNoPartialPacket(ms: seq<Sent>, k: nat, pieces: seq<bytes>) returns (whole: nat)
    requires forall m | m in ms :: Sendable(m)
    requires k <= |EncodeAll(Encode, ms)| && Flatten(pieces) == EncodeAll(Encode, ms)[..k]
    ensures whole <= |ms|
    ensures var d := Receive(Parse, [], pieces);
            d.events == Events(Shown, ms[..whole]) && EncodeAll(Encode, ms[..whole]) + d.rest == Flatten(pieces)
    ensures whole < |ms| ==> k < |EncodeAll(Encode, ms[..whole])| + |Encode(ms[whole])|
  {
    hide Parse, Encode, Shown, Sendable;
    ParseStable();
    forall m | m in ms
      ensures Inverts(Parse, Encode, Shown, m)
    {
      PacketRoundTrip(m);
    }
    whole := PartialStream(Parse, Encode, Shown, ms, k, pieces);
  }

  /** Nothing short of a whole packet is recognised, whatever its command. */
  lemma ProperPrefix(packet: bytes, k: nat)
    requires Parse(packet).Some? && Parse(packet).value.size == |packet| && k < |packet|
    ensures Parse(packet[..k]) == None
  {
    ParseStable();
    NoPartialFrame(Parse, packet, k);
  }

  lemma PublishProperPrefix(m: Sent, k: nat)
    requires Sendable(m) && k < |Encode(m)|
    ensures Parse(Encode(m)[..k]) == None
  {
    PacketRoundTrip(m);
    ProperPrefix(Encode(m), k);
  }

  lemma Prepended(was: bytes, header: bytes, body: bytes)
    ensures var all := was + body;
            all[..|all| - |body|] + header + all[|all| - |body|..] == was + (header + body)
  {
    Halves(was, body);
    Cut(was, header, body);
  }

  /** The parts of `struct mg_connection` that MQTT uses. `log` stands for the
      calls of the user's handler. */
  class Connection {
    const sendBuf: Mbuf
    const recvBuf: Mbuf
    var log: seq<Packet>

    ghost predicate Valid()
      reads this, sendBuf, recvBuf
    {
      sendBuf.Valid() && recvBuf.Valid() && sendBuf != recvBuf && sendBuf.buf != recvBuf.buf
    }

    constructor ()
      ensures Valid() && fresh(sendBuf) && fresh(sendBuf.buf) && fresh(recvBuf) && fresh(recvBuf.buf)
      ensures sendBuf.Contents() == [] && recvBuf.Contents() == [] && log == []
    {
      sendBuf := new Mbuf(0);
      recvBuf := new Mbuf(0);
      log := [];
    }

    /** Puts a fixed header in front of the last `len` octets to send. */
    method PrependHeader(cmd: nat, flags: nat, len: nat)
      requires Valid() && cmd < 16 && len <= sendBuf.len
      modifies sendBuf, sendBuf.buf
      ensures Valid() && (sendBuf.buf == old(sendBuf.buf) || fresh(sendBuf.buf))
      ensures var was := old(sendBuf.Contents());
              sendBuf.Contents() == was[..|was| - len] + ([HeaderOctet(cmd, flags)] + EncodeLength(len)) + was[|was| - len..]
    {
      hide HeaderOctet;
      var off := sendBuf.len - len;
      var buf: bytes := [HeaderOctet(cmd, flags)];
      var left, vlen := len, len % 0x80;
      left := left / 0x80;
      while left > 0
        invariant 0 <= vlen < 0x80
        invariant buf + (if left > 0 then [vlen + 0x80] + EncodeLength(left) else [vlen]) == [HeaderOctet(cmd, flags)] + EncodeLength(len)
      {
        buf := buf + [vlen + 0x80];
        vlen := left % 0x80;
        left := left / 0x80;
      }
      buf := buf + [vlen];
      sendBuf.Insert(off, buf);
    }

    method SendBody(m: Sent)
      requires Valid() && m.id < 0x1_0000
      modifies sendBuf, sendBuf.buf
      ensures Valid() && (sendBuf.buf == old(sendBuf.buf) || fresh(sendBuf.buf))
      ensures sendBuf.Contents() == old(sendBuf.Contents()) + PublishBody(m)
    {
      ghost var was := sendBuf.Contents();
      sendBuf.Append(Be16(|m.topic| % 0x1_0000));
      sendBuf.Append(m.topic);
      ghost var front := Be16(|m.topic| % 0x1_0000) + m.topic;
      assert sendBuf.Contents() == was + front;
      if Qos(m.flags) > 0 {
        sendBuf.Append(Be16(m.id));
        front := front + Be16(m.id);
        assert sendBuf.Contents() == was + front;
      }
      sendBuf.Append(m.data);
      assert was + front + m.data == was + (front + m.data);
    }

    method Publish(topic: bytes, id: nat, flags: nat, data: bytes)
      requires Valid() && id < 0x1_0000
      modifies sendBuf, sendBuf.buf
      ensures Valid() && (sendBuf.buf == old(sendBuf.buf) || fresh(sendBuf.buf))
      ensures sendBuf.Contents() == old(sendBuf.Contents()) + Encode(Sent(topic, id, flags, data))
    {
      hide EncodeLength, PublishBody, HeaderOctet;
      ghost var was, body := sendBuf.Contents(), PublishBody(Sent(topic, id, flags, data));
      var oldLen := sendBuf.len;
      SendBody(Sent(topic, id, flags, data));
      Prepended(was, [HeaderOctet(CMD_PUBLISH, flags)] + EncodeLength(|body|), body);
      PrependHeader(CMD_PUBLISH, flags, sendBuf.len - oldLen);
    }

    /** A command that holds nothing but a message id. */
    method SendShortCommand(cmd: nat, id: nat)
      requires Valid() && cmd < 16 && id < 0x1_0000
      modifies sendBuf, sendBuf.buf
      ensures Valid() && (sendBuf.buf == old(sendBuf.buf) || fresh(sendBuf.buf))
      ensures sendBuf.Contents() == old(sendBuf.Contents()) + Assembled(cmd, if cmd == 6 then 2 else 0, Be16(id))
    {
      hide EncodeLength, HeaderOctet, Be16;
      var flags := if cmd == 6 then 2 else 0;
      Prepended(sendBuf.Contents(), [HeaderOctet(cmd, flags)] + EncodeLength(2), Be16(id));
      sendBuf.Append(Be16(id));
      PrependHeader(cmd, flags, 2);
    }

    method Subscribe(topics: seq<Topic>, id: nat)
      requires Valid() && id < 0x1_0000
      modifies sendBuf, sendBuf.buf
      ensures Valid() && (sendBuf.buf == old(sendBuf.buf) || fresh(sendBuf.buf))
      ensures sendBuf.Contents() == old(sendBuf.Contents()) + Assembled(8, 2, Be16(id) + EncodeTopics(topics))
    {
      hide EncodeLength, HeaderOctet, Be16;
      ghost var was, body := sendBuf.Contents(), Be16(id) + EncodeTopics(topics);
      var oldLen := sendBuf.len;
      sendBuf.Append(Be16(id));
      var i := 0;
      while i < |topics|
        invariant 0 <= i <= |topics| && Valid() && (sendBuf.buf == old(sendBuf.buf) || fresh(sendBuf.buf))
        invariant sendBuf.Contents() + EncodeTopics(topics[i..]) == was + body
      {
        TopicWritten(sendBuf.Contents(), topics[i..]);
        assert topics[i..][1..] == topics[i + 1..];
        sendBuf.Append(Be16(|topics[i].name| % 0x1_0000));
        sendBuf.Append(topics[i].name);
        sendBuf.Append([topics[i].qos]);
        i := i + 1;
      }
      NoTopics(sendBuf.Contents());
      Prepended(was, [HeaderOctet(8, 2)] + EncodeLength(|body|), body);
      PrependHeader(CMD_SUBSCRIBE, 2, sendBuf.len - oldLen);
    }

    /** The loop over the length field. */
    method ReadLength() returns (len: nat, p: nat, lc: byte)
      requires Valid() && recvBuf.len >= 2
      ensures p >= 1 && DecodeLength(recvBuf.Contents()[1..], 0) == Length(len, p - 1, lc >= 0x80)
    {
      ghost var s := recvBuf.Contents()[1..];
      ghost var total := DecodeLength(s, 0);
      len, p, lc := 0, 1, 0;
      var lenLen := 0;
      while p < recvBuf.len
        invariant 1 <= p <= recvBuf.len && lenLen == p - 1
        invariant Decoding(total, DecodeLength(s[lenLen..], lenLen), lenLen, len)
        invariant lenLen > 0 ==> lc >= 0x80
        decreases recvBuf.len - p
      {
        assert s[lenLen..][0] == recvBuf.buf[p] && s[lenLen..][1..] == s[lenLen + 1..];
        DecodingNext(total, s[lenLen..], lenLen, len);
        lc := recvBuf.buf[p];
        p := p + 1;
        len := len + Shift(lc % 0x80, lenLen);
        lenLen := lenLen + 1;
        if lc < 0x80 || lenLen > 8 { return; }
      }
      ShiftZero(lenLen);
    }

    method ParseMqtt() returns (r: Option<Frame<Packet>>)
      requires Valid()
      ensures r == Parse(recvBuf.Contents())
    {
      if recvBuf.len < 2 { return None; }
      var header := recvBuf.buf[0];
      var len, p, lc := ReadLength();
      var end := p + len;
      if lc >= 0x80 || end > recvBuf.len {
        return None;
      }
      var body := recvBuf.buf[p..end];
      assert body == recvBuf.Contents()[p..end];
      return Some(Frame(DecodeBody(header / 16, Qos(header), body), end));
    }

    /** The handler of receive events. */
    method HandleReceived()
      requires Valid()
      modifies this`log, recvBuf, recvBuf.buf
      ensures Valid() && recvBuf.buf == old(recvBuf.buf)
      ensures var d := Drain(Parse, old(recvBuf.Contents()));
              log == old(log) + d.events && recvBuf.Contents() == d.rest
    {
      ghost var before, s0 := log, recvBuf.Contents();
      while true
        invariant Valid() && recvBuf.buf == old(recvBuf.buf)
        invariant Reached(Parse, before, s0, log, recvBuf.Contents())
        decreases recvBuf.len
      {
        ghost var s := recvBuf.Contents();
        var packet := ParseMqtt();
        if packet == None {
          ReachedEnd(Parse, before, s0, log, s);
          break;
        }
        ParseStableAt(s, []);
        ReachedNext(Parse, before, s0, log, s);
        log := log + [packet.value.event];
        recvBuf.Remove(packet.value.size);
      }
    }

    /** Octets arrive and the receive event is handled. */
    method OnReceive(data: bytes)
      requires Valid()
      modifies this`log, recvBuf, recvBuf.buf
      ensures Valid() && (recvBuf.buf == old(recvBuf.buf) || fresh(recvBuf.buf))
      ensures var d := Drain(Parse, old(recvBuf.Contents()) + data);
              log == old(log) + d.events && recvBuf.Contents() == d.rest
    {
      recvBuf.Append(data);
      HandleReceived();
    }

    /** A stream of publications, arriving in any pieces. */
    method ReceiveStream(pieces: seq<bytes>, ghost ms: seq<Sent>)
      requires Valid() && recvBuf.Contents() == []
      requires forall m | m in ms :: Sendable(m)
      requires Flatten(pieces) == EncodeAll(Encode, ms)
      modifies this`log, recvBuf, recvBuf.buf
      ensures Valid() && recvBuf.Contents() == []
      ensures |log| == |old(log)| + |ms| && log[..|old(log)|] == old(log)
      ensures forall i | 0 <= i < |ms| ::
                var qos := ms[i].flags / 2 % 4;
                log[|old(log)| + i]
                == Packet.Publish(qos, ms[i].topic, if qos > 0 then Some(ms[i].id) else None, ms[i].data)
    {
      ghost var before := log;
      var i := 0;
      while i < |pieces|
        invariant 0 <= i <= |pieces| && Valid()
        invariant recvBuf.buf == old(recvBuf.buf) || fresh(recvBuf.buf)
        invariant Arrived(Parse, before, [], pieces, i, log, recvBuf.Contents())
      {
        ArrivedNext(Parse, before, [], pieces, i, log, recvBuf.Contents());
        OnReceive(pieces[i]);
        i := i + 1;
      }
      ArrivedEnd(Parse, before, [], pieces, log, recvBuf.Contents());
      MqttStream(ms, pieces);
      assert log == before + Events(Shown, ms);
    }
  }
}
