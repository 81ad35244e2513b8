/** WebSocket framing (section 5.2 of RFC 6455) as 3rd_party/mongoose.c sends
    and receives it. */
module WebSocket {
  import opened Bytes
  import opened Mbufs
  import opened Framing
  const OP_CONTINUE := 0
  const OP_CLOSE := 8
  const DONT_FIN := 0x100

  /** One call of the sending function; a client draws a mask, a server has none. */
  datatype Sent = Sent(op: nat, data: bytes, mask: Option<bytes>)

  /** What the handler is given: the first octet of the frame, and the payload. */
  datatype Message = Message(flags: byte, data: bytes)

  predicate IsFragment(flags: byte) {
    flags < 128 || flags % 16 == OP_CONTINUE
  }

  function ApplyMask(mask: bytes, data: bytes): (r: bytes)
    requires |mask| == 4
    ensures |r| == |data|
  {
    seq(|data|, i requires 0 <= i < |data| => Xor(data[i], mask[i % 4]))
  }

  lemma MaskTwice(mask: bytes, data: bytes)
    requires |mask| == 4
    ensures ApplyMask(mask, ApplyMask(mask, data)) == data
  {
    forall i | 0 <= i < |data|
      ensures ApplyMask(mask, ApplyMask(mask, data))[i] == data[i]
    {
      XorTwice(data[i], mask[i % 4]);
    }
  }

  function FirstOctet(op: nat): byte {
    (if op / DONT_FIN % 2 == 1 then 0 else 0x80) + op % 16
  }

  /** The FIN bit, the opcode, and nothing between them. */
  lemma FirstOctetBits(op: nat)
    ensures var r := FirstOctet(op);
            r % 16 == op % 16 && r / 16 in {0, 8} && (r >= 128 <==> op / 256 % 2 == 0)
  {
  }

  /** The fixed part of a header, `bit` being the masking bit's weight. */
  function Header(op: nat, len: nat, bit: nat): bytes
    requires len < 0x1_0000_0000_0000_0000 && bit in {0, 128}
  {
    if len < 126 then [FirstOctet(op), len + bit]
    else if len < 65535 then [FirstOctet(op), 126 + bit] + Be16(len)
    else [FirstOctet(op), 127 + bit] + Be32(len / 0x1_0000_0000) + Be32(len % 0x1_0000_0000)
  }

  predicate Sendable(m: Sent) {
    |m.data| < 0x1_0000_0000_0000_0000 && (m.mask.Some? ==> |m.mask.value| == 4)
  }

  /** The octets of a frame on the wire. */
  function Encode(m: Sent): bytes {
    if !Sendable(m) then []
    else match m.mask
      case None => Header(m.op, |m.data|, 0) + m.data
      case Some(mask) => Header(m.op, |m.data|, 128) + mask + ApplyMask(mask, m.data)
  }

  function Shown(m: Sent): Message {
    Message(FirstOctet(m.op), m.data)
  }

  datatype Lengths = Lengths(header: nat, payload: nat)

  /** Length of the header, mask included, and of the payload, once the buffer
      holds enough to tell. */
  function Shape(s: bytes): (r: Option<Lengths>)
    ensures r.Some? ==> |s| >= 2 && r.value.header >= 2 && (s[1] >= 128 ==> r.value.header >= 6)
  {
    if |s| < 2 then None
    else
      var len: nat, maskLen: nat := s[1] % 128, if s[1] >= 128 then 4 else 0;
      if len < 126 && |s| >= maskLen then Some(Lengths(2 + maskLen, len))
      else if len == 126 && |s| >= 4 + maskLen then Some(Lengths(4 + maskLen, FromBe16(s[2], s[3])))
      else if |s| >= 10 + maskLen then
        Some(Lengths(10 + maskLen, FromBe32(s[2..6]) * 0x1_0000_0000 + FromBe32(s[6..10])))
      else None
  }

  /** The payload behind a header of `h` octets, its mask removed. */
  function Payload(s: bytes, h: nat, n: nat): bytes
    requires |s| >= 2 && h + n <= |s| && (s[1] >= 128 ==> h >= 4)
  {
    if s[1] >= 128 then ApplyMask(s[h - 4..h], s[h..h + n]) else s[h..h + n]
  }

  /** The frame at the front of the buffer, when it is all there. */
  function ParseFrame(s: bytes): Option<Frame<Message>> {
    match Shape(s)
    case None => None
    case Some(Lengths(h, n)) =>
      if h + n > |s| then None
      else
        Some(Frame(Message(s[0], Payload(s, h, n)), h + n))
  }

  /** Frames that are not handed to reassembly, which happens to fragments
      unless MG_F_WEBSOCKET_NO_DEFRAG is set. */
  function ParseWhole(s: bytes): Option<Frame<Message>> {
    if s != [] && IsFragment(s[0]) then None else ParseFrame(s)
  }

  lemma ShapeStable(s: bytes, t: bytes)
    requires Shape(s).Some?
    ensures Shape(s + t) == Shape(s)
  {
    if |s| >= 10 {
      assert (s + t)[2..6] == s[2..6] && (s + t)[6..10] == s[6..10];
    }
  }

  lemma ParseFrameStable(s: bytes, t: bytes)
    ensures StableAt(ParseFrame, s, t)
  {
    if ParseFrame(s).Some? {
      ShapeStable(s, t);
      var Lengths(h, n) := Shape(s).value;
      Within(s, t, h, h + n);
      if s[1] >= 128 {
        Within(s, t, h - 4, h);
      }
    }
  }

  lemma ParsersStable()
    ensures Stable(ParseFrame) && Stable(ParseWhole)
  {
    forall s: bytes, t: bytes
      ensures StableAt(ParseFrame, s, t) && StableAt(ParseWhole, s, t)
    {
      ParseFrameStable(s, t);
    }
  }

  lemma ShapeOfEncoded(m: Sent)
    requires Sendable(m)
    ensures var h := |Header(m.op, |m.data|, 0)| + if m.mask.Some? then 4 else 0;
            Shape(Encode(m)) == Some(Lengths(h, |m.data|)) && |Encode(m)| == h + |m.data|
  {
    var len := |m.data|;
    var s := Encode(m);
    if len >= 65535 {
      assert s[2..6] == Be32(len / 0x1_0000_0000) && s[6..10] == Be32(len % 0x1_0000_0000);
    }
  }

  lemma ParseMasked(m: Sent)
    requires Sendable(m) && m.mask.Some?
    ensures ParseFrame(Encode(m)) == Some(Frame(Shown(m), |Encode(m)|))
  {
    ShapeOfEncoded(m);
    var s, h, n := Encode(m), Shape(Encode(m)).value.header, |m.data|;
    assert s[h - 4..h] == m.mask.value;
    assert s[h..h + n] == ApplyMask(m.mask.value, m.data);
    MaskTwice(m.mask.value, m.data);
  }

  /** The receiver reads back what one call of the sender wrote, in all three
      length forms, masked or not. */
  lemma FrameRoundTrip(m: Sent)
    requires Sendable(m)
    ensures Inverts(ParseFrame, Encode, Shown, m)
  {
    if m.mask.Some? {
      ParseMasked(m);
    } else {
      ShapeOfEncoded(m);
      var s, h, n := Encode(m), Shape(Encode(m)).value.header, |m.data|;
      assert s[h..h + n] == m.data;
    }
  }

  lemma NumberIsFromBe(a: byte, b: byte)
    ensures Number([a, b]) == FromBe16(a, b)
  {
    assert [a, b] == Be16(FromBe16(a, b));
    NumberOfTwo(FromBe16(a, b));
  }

  lemma NumberIsFromBe32(b: bytes, pre: bytes)
    requires |b| == 4
    ensures Number(pre + b) == Number(pre) * 0x1_0000_0000 + FromBe32(b)
  {
    assert pre + b == pre + b[..2] + b[2..] && b[..2] == [b[0], b[1]] && b[2..] == [b[2], b[3]];
    NumberJoined(pre + b[..2], b[2..]);
    NumberJoined(pre, b[..2]);
    NumberIsFromBe(b[0], b[1]);
    NumberIsFromBe(b[2], b[3]);
  }

  lemma ShapeRead(s: bytes)
    requires |s| >= 2
    ensures var c := s[1] % 128;
            var k := if c < 126 then 2 else if c == 126 then 4 else 10;
            var h := k + if s[1] >= 128 then 4 else 0;
            if |s| < h then Shape(s).Some? ==> Shape(s).value.header == h
            else Shape(s) == Some(Lengths(h, if c < 126 then c else Number(s[2..k])))
  {
    hide Number;
    if |s| >= 10 && s[1] % 128 == 127 {
      assert s[2..10] == s[2..6] + s[6..10] && [] + s[2..6] == s[2..6];
      NumberIsFromBe32(s[6..10], s[2..6]);
      NumberIsFromBe32(s[2..6], []);
      NumberOfNone();
    } else if |s| >= 4 && s[1] % 128 == 126 {
      assert s[2..4] == [s[2], s[3]];
      NumberIsFromBe(s[2], s[3]);
    }
  }

  lemma PayloadOctets(s: bytes, h: nat, n: nat)
    requires |s| >= 2 && h + n <= |s| && (s[1] >= 128 ==> h >= 4)
    ensures |Payload(s, h, n)| == n
    ensures forall i | 0 <= i < n ::
              Payload(s, h, n)[i] == if s[1] >= 128 then Xor(s[h + i], s[h - 4 + i % 4]) else s[h + i]
  {
    hide Xor;
  }

  /** Whoever sent them, octets are a frame exactly when header, mask and as much
      payload as the length says are there. */
  lemma FrameRead(s: bytes)
    requires |s| >= 2
    ensures var c := s[1] % 128;
            var k := if c < 126 then 2 else if c == 126 then 4 else 10;
            var h := k + if s[1] >= 128 then 4 else 0;
            if |s| < h || |s| < h + (if c < 126 then c else Number(s[2..k])) then ParseFrame(s) == None
            else
              var n := if c < 126 then c else Number(s[2..k]);
              && ParseFrame(s).Some? && ParseFrame(s).value.size == h + n && ParseFrame(s).value.event.flags == s[0]
              && var data := ParseFrame(s).value.event.data;
                 |data| == n && forall i | 0 <= i < n :: data[i] == if s[1] >= 128 then Xor(s[h + i], s[k + i % 4]) else s[h + i]
  {
    ShapeRead(s);
    hide Xor, Number, Shape, Payload;
    if ParseFrame(s).Some? {
      PayloadOctets(s, Shape(s).value.header, Shape(s).value.payload);
    }
  }

  /** How the length of a payload is written: in the low seven bits of the second
      octet, or in the two or eight octets behind it. */
  lemma LengthLayout(op: nat, n: nat, bit: nat)
    requires n < 0x1_0000_0000_0000_0000 && bit in {0, 128}
    ensures var header := Header(op, n, bit);
            && |header| == (if n < 126 then 2 else if n < 65535 then 4 else 10)
            && header[0] == FirstOctet(op) && header[1] / 128 * 128 == bit
            && header[1] % 128 == (if n < 126 then n else if n < 65535 then 126 else 127)
            && (n >= 126 ==> Number(header[2..]) == n)
  {
    hide FirstOctet, Be16, Be32, Number;
    var header := Header(op, n, bit);
    if n >= 65535 {
      NumberOfEight(n);
      assert header[2..] == Be32(n / 0x1_0000_0000) + Be32(n % 0x1_0000_0000);
    } else if n >= 126 {
      NumberOfTwo(n);
      assert header[2..] == Be16(n);
    }
  }

  /** The wire format: FIN, opcode and masking bit, the length, the mask and the
      masked payload. */
  lemma FrameLayout(m: Sent)
    requires Sendable(m)
    ensures var s, n := Encode(m), |m.data|;
            var k := if n < 126 then 2 else if n < 65535 then 4 else 10;
            var h := k + if m.mask.Some? then 4 else 0;
            && |s| == h + n && s[0] % 16 == m.op % 16 && (s[0] >= 128 <==> m.op / 256 % 2 == 0) && s[0] / 16 in {0, 8}
            && (s[1] >= 128 <==> m.mask.Some?)
            && s[1] % 128 == (if n < 126 then n else if n < 65535 then 126 else 127)
            && (n >= 126 ==> Number(s[2..k]) == n)
            && (m.mask.None? ==> s[h..] == m.data)
            && (m.mask.Some? ==> s[k..h] == m.mask.value
                                 && forall i | 0 <= i < n :: s[h + i] == Xor(m.data[i], m.mask.value[i % 4]))
  {
    FirstOctetBits(m.op);
    var s, n, bit := Encode(m), |m.data|, if m.mask.Some? then 128 else 0;
    LengthLayout(m.op, n, bit);
    hide FirstOctet, Xor, Header, Number;
    var header := Header(m.op, n, bit);
    assert s[2..|header|] == header[2..];
  }

  /** Calls that send a whole frame: FIN is not held back and the opcode does
      not continue an earlier frame. */
  predicate IsWhole(m: Sent) {
    Sendable(m) && m.op / 256 % 2 == 0 && m.op % 16 != 0
  }

  /** On any octets, reassembly is for frames without FIN or with opcode 0. */
  lemma WholeFrames(s: bytes)
    ensures ParseWhole(s) == if s != [] && s[0] >= 128 && s[0] % 16 != 0 then ParseFrame(s) else None
  {
  }

  lemma WholeInverts(m: Sent)
    requires IsWhole(m)
    ensures Inverts(ParseWhole, Encode, Shown, m)
  {
    FrameRoundTrip(m);
    FirstOctetBits(m.op);
  }

  /** What the handler is given for these calls. */
  lemma ShownAsSent(ms: seq<Sent>, i: nat)
    requires i < |ms|
    ensures var got := Events(Shown, ms)[i];
            && got.flags % 16 == ms[i].op % 16 && (got.flags >= 128 <==> ms[i].op / 256 % 2 == 0)
            && got.data == ms[i].data
  {
    FirstOctetBits(ms[i].op);
  }

  /** Section 5.2 of RFC 6455 on streams: unfragmented frames cut anyhow on the
      way arrive with the same opcodes and payloads, in order. */
  lemma {:induction false} WebSocketStream(ms: seq<Sent>, pieces: seq<bytes>)
    requires forall m | m in ms :: IsWhole(m)
    requires Flatten(pieces) == EncodeAll(Encode, ms)
    ensures Receive(ParseWhole, [], pieces) == Drained(Events(Shown, ms), [])
    ensures var got := Receive(ParseWhole, [], pieces).events;
            |got| == |ms| && forall i | 0 <= i < |ms| ::
              got[i].flags % 16 == ms[i].op % 16 && got[i].flags >= 128 && got[i].data == ms[i].data
  {
    ParsersStable();
    forall m | m in ms
      ensures Inverts(ParseWhole, Encode, Shown, m)
    {
      WholeInverts(m);
    }
    StreamRoundTrip(ParseWhole, Encode, Shown, ms, pieces);
    forall i | 0 <= i < |ms|
      ensures var got := Events(Shown, ms)[i];
              got.flags % 16 == ms[i].op % 16 && got.flags >= 128 && got.data == ms[i].data
    {
      assert ms[i] in ms;
      ShownAsSent(ms, i);
    }
  }

  /** With MG_F_WEBSOCKET_NO_DEFRAG the same holds of every frame. */
  lemma {:induction false} WebSocketStreamNoDefrag(ms: seq<Sent>, pieces: seq<bytes>)
    requires forall m | m in ms :: Sendable(m)
    requires Flatten(pieces) == EncodeAll(Encode, ms)
    ensures Receive(ParseFrame, [], pieces) == Drained(Events(Shown, ms), [])
    ensures var got := Receive(ParseFrame, [], pieces).events;
            |got| == |ms| && forall i | 0 <= i < |ms| ::
              && got[i].flags % 16 == ms[i].op % 16 && (got[i].flags >= 128 <==> ms[i].op / 256 % 2 == 0)
              && got[i].data == ms[i].data
  {
    ParsersStable();
    forall m | m in ms
      ensures Inverts(ParseFrame, Encode, Shown, m)
    {
      FrameRoundTrip(m);
    }
    StreamRoundTrip(ParseFrame, Encode, Shown, ms, pieces);
    forall i | 0 <= i < |ms|
      ensures var got := Events(Shown, ms)[i];
              && got.flags % 16 == ms[i].op % 16 && (got.flags >= 128 <==> ms[i].op / 256 % 2 == 0)
              && got.data == ms[i].data
    {
      assert ms[i] in ms;
      ShownAsSent(ms, i);
    }
  }

  /** After any part of the stream, however it was cut into receives, exactly the
      frames that have arrived whole were delivered; of the next one nothing was,
      and what has arrived of it is kept. */
  lemma WebSocketNoPartialFrame(ms: seq<Sent>, k: nat, pieces: seq<bytes>) returns (whole: nat)
    requires forall m | m in ms :: IsWhole(m)
    requires k <= |EncodeAll(Encode, ms)| && Flatten(pieces) == EncodeAll(Encode, ms)[..k]
    ensures whole <= |ms|
    ensures var d := Receive(ParseWhole, [], pieces);
            d.events == Events(Shown, ms[..whole]) && EncodeAll(Encode, ms[..whole]) + d.rest == Flatten(pieces)
    ensures |EncodeAll(Encode, ms[..whole])| <= k
    ensures whole < |ms| ==> k < |EncodeAll(Encode, ms[..whole])| + |Encode(ms[whole])|
  {
    hide ParseWhole, Encode, Shown, IsWhole;
    ParsersStable();
    forall m | m in ms
      ensures Inverts(ParseWhole, Encode, Shown, m)
    {
      WholeInverts(m);
    }
    whole := PartialStream(ParseWhole, Encode, Shown, ms, k, pieces);
  }

  datatype Delivery = NeedMore | Delivered | LeftToReassembly

  /** Position in the send buffer where masking starts (0: no masking). */
  datatype MaskContext = MaskContext(pos: nat, mask: bytes)

  lemma Unmasked(was: bytes, now: bytes, h: nat, n: nat)
    requires 2 <= h && h + n <= |was| == |now| && was[1] >= 128 && h >= 6
    requires forall k :: 0 <= k < h ==> now[k] == was[k]
    requires forall k :: 0 <= k < n ==> now[h + k] == Xor(was[h + k], was[h - 4 + k % 4])
    requires forall k :: h + n <= k < |was| ==> now[k] == was[k]
    ensures now == was[..h] + Payload(was, h, n) + was[h + n..]
  {
    hide Xor;
    var mask := was[h - 4..h];
    var part, plain := now[h..h + n], ApplyMask(mask, was[h..h + n]);
    forall k | 0 <= k < n ensures part[k] == plain[k] {
      assert mask[k % 4] == was[h - 4 + k % 4];
    }
    assert part == plain;
    assert now == was[..h] + part + was[h + n..];
  }

  lemma Taken(was: bytes, now: bytes, h: nat, n: nat)
    requires 2 <= h && h + n <= |was| && (was[1] >= 128 ==> h >= 6)
    requires now == was[..h] + Payload(was, h, n) + was[h + n..]
    ensures |now| == |was| && now[0] == was[0] && now[h..h + n] == Payload(was, h, n) && now[h + n..] == was[h + n..]
  {
    Cut(was[..h], Payload(was, h, n), was[h + n..]);
  }

  /** Setting the masking bit. */
  lemma MarkMasked(op: nat, len: nat)
    requires len < 0x1_0000_0000_0000_0000
    ensures var header := Header(op, len, 0);
            |header| >= 2 && header[1] < 128 && header[1 := header[1] + 128] == Header(op, len, 128)
  {
  }

  /** The parts of `struct mg_connection` that framing uses. `log` stands for
      the calls of the user's handler. */
  class Connection {
    const isClient: bool
    const noDefrag: bool
    const sendBuf: Mbuf
    const recvBuf: Mbuf
    var log: seq<Message>
    var sendAndClose: bool

    ghost predicate Valid()
      reads this, sendBuf, recvBuf
    {
      sendBuf.Valid() && recvBuf.Valid() && sendBuf != recvBuf && sendBuf.buf != recvBuf.buf
    }

    constructor (isClient: bool, noDefrag: bool)
      ensures Valid() && this.isClient == isClient && this.noDefrag == noDefrag
      ensures fresh(sendBuf) && fresh(sendBuf.buf) && fresh(recvBuf) && fresh(recvBuf.buf)
      ensures sendBuf.Contents() == [] && recvBuf.Contents() == [] && log == [] && !sendAndClose
    {
      this.isClient, this.noDefrag := isClient, noDefrag;
      sendBuf := new Mbuf(0);
      recvBuf := new Mbuf(0);
      log, sendAndClose := [], false;
    }

    static method HeaderOctets(op: nat, len: nat) returns (header: bytes)
      requires len < 0x1_0000_0000_0000_0000
      ensures header == Header(op, len, 0)
    {
      header := [FirstOctet(op)];
      if len < 126 {
        header := header + [len];
      } else if len < 65535 {
        header := header + [126] + Be16(len);
      } else {
        header := header + [127] + Be32(len / 0x1_0000_0000) + Be32(len % 0x1_0000_0000);
      }
    }

    method SendHeader(op: nat, len: nat, randomMask: bytes) returns (ctx: MaskContext)
      requires Valid() && len < 0x1_0000_0000_0000_0000 && |randomMask| == 4
      modifies sendBuf, sendBuf.buf
      ensures Valid() && (sendBuf.buf == old(sendBuf.buf) || fresh(sendBuf.buf))
      ensures sendBuf.Contents() == old(sendBuf.Contents())
              + if isClient then Header(op, len, 128) + randomMask else Header(op, len, 0)
      ensures ctx == if isClient then MaskContext(sendBuf.len, randomMask) else MaskContext(0, [])
    {
      hide Header;
      var header := HeaderOctets(op, len);
      if isClient {
        MarkMasked(op, len);
        header := header[1 := header[1] + 128];
        sendBuf.Append(header);
        sendBuf.Append(randomMask);
        Cut(old(sendBuf.Contents()), header, randomMask);
        ctx := MaskContext(sendBuf.len, randomMask);
      } else {
        sendBuf.Append(header);
        ctx := MaskContext(0, []);
      }
    }

    method MaskFrame(ctx: MaskContext)
      requires Valid() && (ctx.pos > 0 ==> ctx.pos <= sendBuf.len && |ctx.mask| == 4)
      modifies sendBuf.buf
      ensures Valid()
      ensures sendBuf.Contents() == if ctx.pos == 0 then old(sendBuf.Contents())
                                    else var was := old(sendBuf.Contents());
                                      was[..ctx.pos] + ApplyMask(ctx.mask, was[ctx.pos..])
    {
      if ctx.pos == 0 { return; }
      ghost var was := sendBuf.Contents();
      var i := 0;
      while i < sendBuf.len - ctx.pos
        invariant 0 <= i <= sendBuf.len - ctx.pos
        invariant forall k :: 0 <= k < ctx.pos ==> sendBuf.buf[k] == was[k]
        invariant forall k :: 0 <= k < i ==> sendBuf.buf[ctx.pos + k] == Xor(was[ctx.pos + k], ctx.mask[k % 4])
        invariant forall k :: ctx.pos + i <= k < sendBuf.len ==> sendBuf.buf[k] == was[k]
      {
        sendBuf.buf[ctx.pos + i] := Xor(sendBuf.buf[ctx.pos + i], ctx.mask[i % 4]);
        i := i + 1;
      }
      assert sendBuf.Contents() == was[..ctx.pos] + ApplyMask(ctx.mask, was[ctx.pos..]);
    }

    /** What a call puts on the wire, as a value. */
    function ToSend(op: nat, data: bytes, randomMask: bytes): Sent {
      Sent(op, data, if isClient then Some(randomMask) else None)
    }

    method SendFrame(op: nat, data: bytes, randomMask: bytes)
      requires Valid() && |data| < 0x1_0000_0000_0000_0000 && |randomMask| == 4
      modifies this`sendAndClose, sendBuf, sendBuf.buf
      ensures Valid() && (sendBuf.buf == old(sendBuf.buf) || fresh(sendBuf.buf))
      ensures sendBuf.Contents() == old(sendBuf.Contents()) + Encode(ToSend(op, data, randomMask))
      ensures sendAndClose == (old(sendAndClose) || op == 8)
    {
      ghost var was, header := sendBuf.Contents(), Header(op, |data|, if isClient then 128 else 0);
      var ctx := SendHeader(op, |data|, randomMask);
      ghost var head := if isClient then header + randomMask else header;
      sendBuf.Append(data);
      Cut(was + head, data, []);
      MaskFrame(ctx);
      Cut(was, head, if isClient then ApplyMask(randomMask, data) else data);
      if op == OP_CLOSE {
        sendAndClose := true;
      }
    }

    /** The parser that the connection's flags select. */
    function Parse(s: bytes): Option<Frame<Message>> {
      if noDefrag then ParseFrame(s) else ParseWhole(s)
    }

    lemma ParseStable()
      ensures Stable(Parse)
    {
      forall s: bytes, t: bytes
        ensures StableAt(Parse, s, t)
      {
        ParseFrameStable(s, t);
      }
    }

    lemma ParseInverts(m: Sent)
      requires IsWhole(m)
      ensures Inverts(Parse, Encode, Shown, m)
    {
      FrameRoundTrip(m);
      WholeInverts(m);
    }

    /** Removes the mask, if there is one, in place. */
    method Unmask(h: nat, n: nat, maskLen: nat)
      requires Valid() && 2 <= h && h + n <= recvBuf.len
      requires maskLen == (if recvBuf.buf[1] >= 128 then 4 else 0) && (maskLen > 0 ==> h >= 6)
      modifies recvBuf.buf
      ensures Valid()
      ensures var was := old(recvBuf.Contents());
              recvBuf.Contents() == was[..h] + Payload(was, h, n) + was[h + n..]
    {
      hide Xor;
      ghost var was := recvBuf.Contents();
      if maskLen == 0 {
        assert was == was[..h] + was[h..h + n] + was[h + n..];
        return;
      }
      var i := 0;
      while i < n
        invariant 0 <= i <= n
        invariant forall k :: 0 <= k < h ==> recvBuf.buf[k] == was[k]
        invariant forall k :: 0 <= k < i ==> recvBuf.buf[h + k] == Xor(was[h + k], was[h - 4 + k % 4])
        invariant forall k :: h + i <= k < recvBuf.len ==> recvBuf.buf[k] == was[k]
      {
        recvBuf.buf[h + i] := Xor(recvBuf.buf[h + i], recvBuf.buf[h - 4 + i % 4]);
        i := i + 1;
      }
      Unmasked(was, recvBuf.Contents(), h, n);
    }

    /** Reads the lengths that a header gives; both are 0 while it is short. */
    method ReadLengths() returns (headerLen: nat, dataLen: nat, maskLen: nat)
      requires Valid()
      ensures var s := recvBuf.Contents();
              && Shape(s) == (if headerLen > 0 then Some(Lengths(headerLen, dataLen)) else None)
              && (headerLen == 0 ==> dataLen == 0)
              && (headerLen > 0 ==> maskLen == if s[1] >= 128 then 4 else 0)
    {
      var p, bufLen := recvBuf.buf, recvBuf.len;
      ghost var s := recvBuf.Contents();
      headerLen, dataLen, maskLen := 0, 0, 0;
      if bufLen >= 2 {
        var len: nat := p[1] % 128;
        maskLen := if p[1] >= 128 then 4 else 0;
        if len < 126 && bufLen >= maskLen {
          dataLen, headerLen := len, 2 + maskLen;
        } else if len == 126 && bufLen >= 4 + maskLen {
          headerLen, dataLen := 4 + maskLen, FromBe16(p[2], p[3]);
        } else if bufLen >= 10 + maskLen {
          assert p[2..6] == s[2..6] && p[6..10] == s[6..10];
          headerLen := 10 + maskLen;
          dataLen := FromBe32(p[2..6]) * 0x1_0000_0000 + FromBe32(p[6..10]);
        }
      }
    }

    /** Hands the frame at the front to the user and removes it. */
    method TakeFrame(headerLen: nat, dataLen: nat, maskLen: nat)
      requires Valid() && 2 <= headerLen && headerLen + dataLen <= recvBuf.len
      requires maskLen == (if recvBuf.buf[1] >= 128 then 4 else 0) && (maskLen > 0 ==> headerLen >= 6)
      modifies this`log, recvBuf, recvBuf.buf
      ensures Valid() && recvBuf.buf == old(recvBuf.buf)
      ensures var s := old(recvBuf.Contents());
              && log == old(log) + [Message(s[0], Payload(s, headerLen, dataLen))]
              && recvBuf.Contents() == s[headerLen + dataLen..]
    {
      hide Payload;
      ghost var s := recvBuf.Contents();
      Unmask(headerLen, dataLen, maskLen);
      Taken(s, recvBuf.Contents(), headerLen, dataLen);
      log := log + [Message(recvBuf.buf[0], recvBuf.Contents()[headerLen..headerLen + dataLen])];
      recvBuf.Remove(headerLen + dataLen);
    }

    /** One attempt to take a frame off the front of the receive buffer. */
    method DeliverData() returns (r: Delivery)
      requires Valid()
      modifies this`log, recvBuf, recvBuf.buf
      ensures Valid() && recvBuf.buf == old(recvBuf.buf)
      ensures var s := old(recvBuf.Contents());
              var frame := Parse(s);
              && (r == Delivered <==> frame.Some?)
              && (r == LeftToReassembly <==> !noDefrag && s != [] && (s[0] < 128 || s[0] % 16 == 0))
              && (r == NeedMore ==> ParseFrame(s) == None)
              && log == old(log) + (if frame.Some? then [frame.value.event] else [])
              && recvBuf.Contents() == if frame.Some? then s[frame.value.size..] else s
    {
      var reass := recvBuf.len > 0 && IsFragment(recvBuf.buf[0]) && !noDefrag;
      if reass {
        return LeftToReassembly;
      }
      var headerLen, dataLen, maskLen := ReadLengths();
      if headerLen > 0 && headerLen + dataLen <= recvBuf.len {
        TakeFrame(headerLen, dataLen, maskLen);
        return Delivered;
      }
      return NeedMore;
    }

    /** The handler of receive events. */
    method HandleReceived()
      requires Valid()
      modifies this`log, recvBuf, recvBuf.buf
      ensures Valid() && recvBuf.buf == old(recvBuf.buf)
      ensures var d := Drain(Parse, old(recvBuf.Contents()));
              log == old(log) + d.events && recvBuf.Contents() == d.rest
    {
      ghost var before, s0 := log, recvBuf.Contents();
      ghost var s := s0;
      var r := Delivered;
      while r == Delivered
        invariant Valid() && recvBuf.buf == old(recvBuf.buf) && s == recvBuf.Contents()
        invariant Reached(Parse, before, s0, log, s)
        invariant r != Delivered ==> Parse(s) == None
        decreases |s|, r == Delivered
      {
        ghost var logged := log;
        r := DeliverData();
        if r == Delivered {
          ParseStable();
          assert StableAt(Parse, s, []);
          ReachedNext(Parse, before, s0, logged, s);
        }
        s := recvBuf.Contents();
      }
      ReachedEnd(Parse, before, s0, log, s);
    }

    /** Octets arrive and the receive event is handled. */
    method OnReceive(data: bytes)
      requires Valid()
      modifies this`log, recvBuf, recvBuf.buf
      ensures Valid() && (recvBuf.buf == old(recvBuf.buf) || fresh(recvBuf.buf))
      ensures var d := Drain(Parse, old(recvBuf.Contents()) + data);
              log == old(log) + d.events && recvBuf.Contents() == d.rest
    {
      recvBuf.Append(data);
      HandleReceived();
    }

    lemma StreamArrives(pieces: seq<bytes>, ms: seq<Sent>)
      requires forall m | m in ms :: IsWhole(m)
      requires Flatten(pieces) == EncodeAll(Encode, ms)
      ensures Receive(Parse, [], pieces) == Drained(Events(Shown, ms), [])
    {
      ParseStable();
      forall m | m in ms
        ensures Inverts(Parse, Encode, Shown, m)
      {
        ParseInverts(m);
      }
      StreamRoundTrip(Parse, Encode, Shown, ms, pieces);
    }

    /** A stream of unfragmented frames, arriving in any pieces. */
    method ReceiveStream(pieces: seq<bytes>, ghost ms: seq<Sent>)
      requires Valid() && recvBuf.Contents() == []
      requires forall m | m in ms :: IsWhole(m)
      requires Flatten(pieces) == EncodeAll(Encode, ms)
      modifies this`log, recvBuf, recvBuf.buf
      ensures Valid() && recvBuf.Contents() == []
      ensures |log| == |old(log)| + |ms| && log[..|old(log)|] == old(log)
      ensures forall i | 0 <= i < |ms| ::
                var got := log[|old(log)| + i];
                got.flags % 16 == ms[i].op % 16 && got.flags >= 128 && got.data == ms[i].data
    {
      ghost var before := log;
      var i := 0;
      while i < |pieces|
        invariant 0 <= i <= |pieces| && Valid()
        invariant recvBuf.buf == old(recvBuf.buf) || fresh(recvBuf.buf)
        invariant Arrived(Parse, before, [], pieces, i, log, recvBuf.Contents())
      {
        ArrivedNext(Parse, before, [], pieces, i, log, recvBuf.Contents());
        OnReceive(pieces[i]);
        i := i + 1;
      }
      ArrivedEnd(Parse, before, [], pieces, log, recvBuf.Contents());
      StreamArrives(pieces, ms);
      ghost var shown := Events(Shown, ms);
      assert log == before + shown;
      forall i | 0 <= i < |ms|
        ensures log[|before| + i] == shown[i] && shown[i].flags % 16 == ms[i].op % 16
        ensures shown[i].flags >= 128 && shown[i].data == ms[i].data
      {
        assert ms[i] in ms;
        ShownAsSent(ms, i);
      }
    }
  }
}
