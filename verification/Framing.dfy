/** What the receive loops of 3rd_party/mongoose.c have in common: keep a
    buffer, append what arrives, and take whole frames off its front until the
    parser asks for more octets. The results here hold for every parser that
    ignores what follows a frame, so each protocol only proves that of its own. */
module Framing {
  import opened Bytes

  datatype Frame<+E> = Frame(event: E, size: nat)

  datatype Drained<+E> = Drained(events: seq<E>, rest: bytes)

  function Then<E>(first: Drained<E>, second: Drained<E>): Drained<E> {
    Drained(first.events + second.events, second.rest)
  }

  lemma ThenAssociative<E>(a: Drained<E>, b: Drained<E>, c: Drained<E>)
    ensures Then(Then(a, b), c) == Then(a, Then(b, c))
  {
    assert a.events + b.events + c.events == a.events + (b.events + c.events);
  }

  type Parser<!E> = bytes -> Option<Frame<E>>

  /** A frame is recognised whatever follows it, and is a non-empty part of
      what is buffered. */
  ghost predicate StableAt<E>(parse: Parser<E>, s: bytes, t: bytes) {
    parse(s).Some? ==> 0 < parse(s).value.size <= |s| && parse(s + t) == parse(s)
  }

  ghost predicate Stable<E(!new)>(parse: Parser<E>) {
    forall s: bytes, t: bytes :: StableAt(parse, s, t)
  }

  /** One run of the receive loop over a buffer. */
  function Drain<E>(parse: Parser<E>, s: bytes): Drained<E>
    decreases |s|
  {
    if parse(s).Some? && 0 < parse(s).value.size <= |s| then
      Then(Drained([parse(s).value.event], []), Drain(parse, s[parse(s).value.size..]))
    else Drained([], s)
  }

  /** The loop run after each of the pieces in turn, starting from `kept`. */
  function Receive<E>(parse: Parser<E>, kept: bytes, pieces: seq<bytes>): Drained<E>
    decreases |pieces|
  {
    if pieces == [] then Drained([], kept)
    else
      var now := Drain(parse, kept + pieces[0]);
      Then(now, Receive(parse, now.rest, pieces[1..]))
  }

  /** A run of the loop that began with log `before` and buffer `s0` has come
      to log `log` and buffer `s`. */
  ghost predicate Reached<E>(parse: Parser<E>, before: seq<E>, s0: bytes, log: seq<E>, s: bytes) {
    && before + Drain(parse, s0).events == log + Drain(parse, s).events
    && Drain(parse, s0).rest == Drain(parse, s).rest
  }

  lemma ReachedNext<E>(parse: Parser<E>, before: seq<E>, s0: bytes, log: seq<E>, s: bytes)
    requires Reached(parse, before, s0, log, s) && StableAt(parse, s, []) && parse(s).Some?
    ensures var frame := parse(s).value;
            0 < frame.size <= |s| && Reached(parse, before, s0, log + [frame.event], s[frame.size..])
  {
    var frame := parse(s).value;
    var later := Drain(parse, s[frame.size..]);
    assert log + ([frame.event] + later.events) == log + [frame.event] + later.events;
  }

  lemma ReachedEnd<E>(parse: Parser<E>, before: seq<E>, s0: bytes, log: seq<E>, s: bytes)
    requires Reached(parse, before, s0, log, s) && parse(s) == None
    ensures log == before + Drain(parse, s0).events && s == Drain(parse, s0).rest
  {
    assert log + [] == log;
  }

  /** The same for what is still to come after the first `i` pieces. */
  ghost predicate Arrived<E>(parse: Parser<E>, before: seq<E>, s0: bytes, pieces: seq<bytes>, i: nat, log: seq<E>, s: bytes) {
    i <= |pieces| && Then(Drained(before, []), Receive(parse, s0, pieces)) == Then(Drained(log, []), Receive(parse, s, pieces[i..]))
  }

  lemma ArrivedStart<E>(parse: Parser<E>, s0: bytes, pieces: seq<bytes>)
    ensures Arrived(parse, [], s0, pieces, 0, [], s0)
  {
    assert pieces[0..] == pieces;
  }

  lemma ArrivedNext<E>(parse: Parser<E>, before: seq<E>, s0: bytes, pieces: seq<bytes>, i: nat, log: seq<E>, s: bytes)
    requires Arrived(parse, before, s0, pieces, i, log, s) && i < |pieces|
    ensures var d := Drain(parse, s + pieces[i]);
            Arrived(parse, before, s0, pieces, i + 1, log + d.events, d.rest)
  {
    var d := Drain(parse, s + pieces[i]);
    assert pieces[i..][0] == pieces[i] && pieces[i..][1..] == pieces[i + 1..];
    ThenAssociative(Drained(log, []), d, Receive(parse, d.rest, pieces[i + 1..]));
  }

  lemma ArrivedEnd<E>(parse: Parser<E>, before: seq<E>, s0: bytes, pieces: seq<bytes>, log: seq<E>, s: bytes)
    requires Arrived(parse, before, s0, pieces, |pieces|, log, s)
    ensures log == before + Receive(parse, s0, pieces).events && s == Receive(parse, s0, pieces).rest
  {
    assert pieces[|pieces|..] == [] && log + [] == log;
  }

  /** Stopping to wait for more octets changes nothing. */
  lemma {:induction false} DrainSplit<E(!new)>(parse: Parser<E>, s: bytes, t: bytes)
    requires Stable(parse)
    ensures Drain(parse, s + t) == Then(Drain(parse, s), Drain(parse, Drain(parse, s).rest + t))
    decreases |s|
  {
    assert StableAt(parse, s, t);
    if parse(s).Some? {
      var n, one := parse(s).value.size, Drained([parse(s).value.event], []);
      var first := Drain(parse, s[n..]);
      DrainSplit(parse, s[n..], t);
      assert (s + t)[n..] == s[n..] + t;
      ThenAssociative(one, first, Drain(parse, first.rest + t));
    } else {
      var second := Drain(parse, s + t);
      assert [] + second.events == second.events;
    }
  }

  lemma {:induction false} DrainRest<E(!new)>(parse: Parser<E>, s: bytes)
    requires Stable(parse)
    ensures parse(Drain(parse, s).rest) == None
    decreases |s|
  {
    assert StableAt(parse, s, []);
    if parse(s).Some? {
      DrainRest(parse, s[parse(s).value.size..]);
    }
  }

  /** However the octets are cut into pieces, the same frames come out. */
  lemma {:induction false} ReceiveIsDrain<E(!new)>(parse: Parser<E>, kept: bytes, pieces: seq<bytes>)
    requires Stable(parse) && parse(kept) == None
    ensures Receive(parse, kept, pieces) == Drain(parse, kept + Flatten(pieces))
    decreases |pieces|
  {
    if pieces == [] {
      assert kept + Flatten(pieces) == kept;
    } else {
      var now := Drain(parse, kept + pieces[0]);
      DrainRest(parse, kept + pieces[0]);
      ReceiveIsDrain(parse, now.rest, pieces[1..]);
      DrainSplit(parse, kept + pieces[0], Flatten(pieces[1..]));
      assert kept + Flatten(pieces) == kept + pieces[0] + Flatten(pieces[1..]);
    }
  }

  lemma {:induction false} NothingReported<E>(parse: Parser<E>, s: bytes)
    requires Drain(parse, s).events == []
    ensures Drain(parse, s).rest == s
  {
  }

  /** As long as nothing is reported, everything is kept. */
  lemma {:induction false} NothingReceived<E>(parse: Parser<E>, kept: bytes, pieces: seq<bytes>)
    requires Receive(parse, kept, pieces).events == []
    ensures Receive(parse, kept, pieces).rest == kept + Flatten(pieces)
    decreases |pieces|
  {
    if pieces == [] {
      assert kept + [] == kept;
    } else {
      NothingReported(parse, kept + pieces[0]);
      NothingReceived(parse, kept + pieces[0], pieces[1..]);
      assert kept + pieces[0] + Flatten(pieces[1..]) == kept + (pieces[0] + Flatten(pieces[1..]));
    }
  }

  function EncodeAll<M>(encode: M -> bytes, ms: seq<M>): bytes {
    if ms == [] then [] else encode(ms[0]) + EncodeAll(encode, ms[1..])
  }

  function Events<M, E>(event: M -> E, ms: seq<M>): (r: seq<E>)
    ensures |r| == |ms| && forall i :: 0 <= i < |ms| ==> r[i] == event(ms[i])
  {
    seq(|ms|, i requires 0 <= i < |ms| => event(ms[i]))
  }

  /** The parser inverts the encoder on one message. */
  ghost predicate Inverts<M, E>(parse: Parser<E>, encode: M -> bytes, event: M -> E, m: M) {
    parse(encode(m)) == Some(Frame(event(m), |encode(m)|))
  }

  lemma {:induction false} DrainEncoded<M, E(!new)>(parse: Parser<E>, encode: M -> bytes, event: M -> E, ms: seq<M>, tail: bytes)
    requires Stable(parse) && forall m | m in ms :: Inverts(parse, encode, event, m)
    requires parse(tail) == None
    ensures Drain(parse, EncodeAll(encode, ms) + tail) == Drained(Events(event, ms), tail)
    decreases |ms|
  {
    if ms == [] {
      assert EncodeAll(encode, ms) + tail == tail;
    } else {
      var front, back := encode(ms[0]), EncodeAll(encode, ms[1..]) + tail;
      assert Inverts(parse, encode, event, ms[0]) && StableAt(parse, front, back);
      assert EncodeAll(encode, ms) + tail == front + back && (front + back)[|front|..] == back;
      DrainEncoded(parse, encode, event, ms[1..], tail);
      assert Events(event, ms) == [event(ms[0])] + Events(event, ms[1..]);
    }
  }

  /** No part of a frame short of the whole is taken for one. */
  lemma NoPartialFrame<E(!new)>(parse: Parser<E>, frame: bytes, k: nat)
    requires Stable(parse) && parse(frame).Some? && parse(frame).value.size == |frame|
    requires k < |frame|
    ensures parse(frame[..k]) == None
  {
    assert StableAt(parse, frame[..k], frame[k..]);
    assert frame[..k] + frame[k..] == frame;
  }

  /** Stream round trip: cut anyhow, a stream of messages is reported as just
      those messages in order, and the buffer ends up empty. */
  lemma StreamRoundTrip<M, E(!new)>(parse: Parser<E>, encode: M -> bytes, event: M -> E, ms: seq<M>, pieces: seq<bytes>)
    requires Stable(parse) && forall m | m in ms :: Inverts(parse, encode, event, m)
    requires Flatten(pieces) == EncodeAll(encode, ms)
    ensures Receive(parse, [], pieces) == Drained(Events(event, ms), [])
  {
    assert StableAt(parse, [], []);
    ReceiveIsDrain(parse, [], pieces);
    DrainEncoded(parse, encode, event, ms, []);
    assert [] + Flatten(pieces) == EncodeAll(encode, ms) + [];
  }

  /** The loop's outcome on a part `text` of a stream: the first `whole`
      messages are reported, and a proper part of the next one is kept. */
  ghost predicate ReportsWhole<M, E>(encode: M -> bytes, event: M -> E, ms: seq<M>, whole: nat, text: bytes, d: Drained<E>) {
    && whole <= |ms|
    && d.events == Events(event, ms[..whole])
    && text == EncodeAll(encode, ms[..whole]) + d.rest
    && (whole < |ms| ==> |d.rest| < |encode(ms[whole])| && d.rest == encode(ms[whole])[..|d.rest|])
    && (whole == |ms| ==> d.rest == [])
  }

  lemma ReportsOneMore<M, E>(encode: M -> bytes, event: M -> E, ms: seq<M>, later: nat, text: bytes, d: Drained<E>)
    requires ms != [] && ReportsWhole(encode, event, ms[1..], later, text, d)
    ensures ReportsWhole(encode, event, ms, later + 1, encode(ms[0]) + text, Then(Drained([event(ms[0])], []), d))
  {
    var some := ms[..later + 1];
    assert some[1..] == ms[1..][..later];
    assert EncodeAll(encode, some) + d.rest == encode(ms[0]) + (EncodeAll(encode, some[1..]) + d.rest);
    assert Events(event, some) == [event(ms[0])] + Events(event, some[1..]);
  }

  /** This is what draining a part of the stream from one buffer gives. */
  lemma {:induction false} PartialDrain<M, E(!new)>(parse: Parser<E>, encode: M -> bytes, event: M -> E, ms: seq<M>, k: nat)
    returns (whole: nat)
    requires Stable(parse) && forall m | m in ms :: Inverts(parse, encode, event, m)
    requires k <= |EncodeAll(encode, ms)|
    ensures var text := EncodeAll(encode, ms)[..k];
            ReportsWhole(encode, event, ms, whole, text, Drain(parse, text))
    decreases |ms|
  {
    assert StableAt(parse, [], []);
    whole := 0;
    if ms != [] {
      var front, text := encode(ms[0]), EncodeAll(encode, ms)[..k];
      assert Inverts(parse, encode, event, ms[0]);
      if k < |front| {
        NoPartialFrame(parse, front, k);
        assert text == front[..k] && ms[..0] == [];
      } else {
        var later := PartialDrain(parse, encode, event, ms[1..], k - |front|);
        var back := EncodeAll(encode, ms[1..])[..k - |front|];
        assert text == front + back && text[|front|..] == back;
        assert StableAt(parse, front, back);
        ReportsOneMore(encode, event, ms, later, back, Drain(parse, back));
        whole := later + 1;
      }
    }
  }

  /** After any part of the stream, however it was cut into receives, the messages
      reported are those that have arrived completely, and what is kept is a
      proper part of the next one. */
  lemma PartialStream<M, E(!new)>(parse: Parser<E>, encode: M -> bytes, event: M -> E, ms: seq<M>, k: nat, pieces: seq<bytes>)
    returns (whole: nat)
    requires Stable(parse) && forall m | m in ms :: Inverts(parse, encode, event, m)
    requires k <= |EncodeAll(encode, ms)| && Flatten(pieces) == EncodeAll(encode, ms)[..k]
    ensures ReportsWhole(encode, event, ms, whole, Flatten(pieces), Receive(parse, [], pieces))
  {
    assert StableAt(parse, [], []);
    whole := PartialDrain(parse, encode, event, ms, k);
    ReceiveIsDrain(parse, [], pieces);
    assert [] + Flatten(pieces) == Flatten(pieces);
  }
}
