/** Chunked transfer coding (section 4.1 of RFC 7230) as 3rd_party/mongoose.c
    writes it and collapses it in place. */
module HttpChunks {
  import opened Bytes
  import opened Mbufs
  import opened Framing
  const CR: byte := '\r' as int
  const LF: byte := '\n' as int

  predicate IsHex(c: byte) {
    48 <= c <= 57 || 65 <= c <= 70 || 97 <= c <= 102
  }

  function HexValue(c: byte): (r: nat)
    requires IsHex(c)
    ensures r < 16
  {
    if c <= 57 then c - 48 else if c <= 70 then c - 55 else c - 87
  }

  function HexDigit(d: nat): (c: byte)
    requires d < 16
    ensures IsHex(c) && HexValue(c) == d
  {
    if d < 10 then 48 + d else 55 + d
  }

  /** A number as "%lX" prints it. */
  function Hex(n: nat): (r: bytes)
    ensures r != []
  {
    (if n < 16 then [] else Hex(n / 16)) + [HexDigit(n % 16)]
  }

  datatype Scanned = Scanned(value: nat, used: nat)

  /** The hexadecimal digits at the front of `s`, read after `n`. */
  function ScanHex(s: bytes, n: nat): (r: Scanned)
    ensures r.used <= |s|
  {
    if s == [] || !IsHex(s[0]) then Scanned(n, 0)
    else
      var rest := ScanHex(s[1..], n * 16 + HexValue(s[0]));
      Scanned(rest.value, 1 + rest.used)
  }

  lemma ScanDigit(d: nat, t: bytes, n: nat)
    requires d < 16
    ensures var rest := ScanHex(t, n * 16 + d);
            ScanHex([HexDigit(d)] + t, n) == Scanned(rest.value, 1 + rest.used)
  {
    hide IsHex, HexValue;
    assert ([HexDigit(d)] + t)[1..] == t;
  }

  lemma {:induction false} ScanPrinted(n: nat, t: bytes)
    ensures var rest := ScanHex(t, n);
            ScanHex(Hex(n) + t, 0) == Scanned(rest.value, |Hex(n)| + rest.used)
    decreases n
  {
    hide ScanHex;
    var last := [HexDigit(n % 16)];
    if n < 16 {
      assert Hex(n) == last;
      ScanDigit(n % 16, t, 0);
    } else {
      Cut(Hex(n / 16), last, t);
      ScanDigit(n % 16, t, n / 16);
      ScanPrinted(n / 16, last + t);
    }
  }

  /** The digit of value `d`, in either case. */
  predicate IsDigit(c: byte, d: nat) {
    || (d < 10 && c == '0' as int + d)
    || (10 <= d < 16 && (c == 'A' as int + d - 10 || c == 'a' as int + d - 10))
  }

  /** Hexadecimal digits of either case that spell `n`, with any number of zeros
      in front. */
  predicate Spells(digits: bytes, n: nat) {
    if digits == [] then n == 0 else IsDigit(digits[|digits| - 1], n % 16) && Spells(digits[..|digits| - 1], n / 16)
  }

  /** The digits of either case and no other octets are read, for their value. */
  lemma HexDigits(c: byte)
    ensures IsHex(c) ==> IsDigit(c, HexValue(c))
    ensures forall d | IsDigit(c, d) :: IsHex(c) && HexValue(c) == d
  {
  }

  lemma SpellsMore(digits: bytes, n: nat, c: byte, d: nat)
    requires Spells(digits, n) && IsDigit(c, d)
    ensures Spells(digits + [c], n * 16 + d)
  {
    assert (digits + [c])[..|digits|] == digits && (n * 16 + d) % 16 == d && (n * 16 + d) / 16 == n;
  }

  lemma {:induction false} SpellsOne(digits: bytes, m: nat, n: nat)
    requires Spells(digits, m) && Spells(digits, n)
    ensures m == n
  {
    if digits != [] {
      HexDigits(digits[|digits| - 1]);
      SpellsOne(digits[..|digits| - 1], m / 16, n / 16);
    }
  }

  lemma {:induction false} SpellsHex(digits: bytes, n: nat)
    requires Spells(digits, n)
    ensures forall c | c in digits :: IsHex(c)
  {
    if digits != [] {
      var front, last := digits[..|digits| - 1], digits[|digits| - 1];
      HexDigits(last);
      SpellsHex(front, n / 16);
      assert digits == front + [last];
    }
  }

  lemma {:induction false} ScanSpells(done: bytes, s: bytes, n: nat)
    requires Spells(done, n)
    ensures var r := ScanHex(s, n); Spells(done + s[..r.used], r.value)
    decreases s
  {
    hide Spells, IsHex, HexValue, IsDigit;
    if s == [] || !IsHex(s[0]) {
      assert done + [] == done;
    } else {
      HexDigits(s[0]);
      SpellsMore(done, n, s[0], HexValue(s[0]));
      ScanSpells(done + [s[0]], s[1..], n * 16 + HexValue(s[0]));
      var used := ScanHex(s[1..], n * 16 + HexValue(s[0])).used;
      assert done + [s[0]] + s[1..][..used] == done + s[..1 + used];
    }
  }

  lemma {:induction false} ScanAll(digits: bytes, t: bytes, n: nat)
    requires (forall c | c in digits :: IsHex(c)) && (t != [] ==> !IsHex(t[0]))
    ensures ScanHex(digits + t, n).used == |digits|
    decreases digits
  {
    hide IsHex, HexValue;
    if digits == [] {
      assert digits + t == t;
    } else {
      assert digits[0] in digits && (digits + t)[1..] == digits[1..] + t;
      ScanAll(digits[1..], t, n * 16 + HexValue(digits[0]));
    }
  }

  /** A size is read whatever the case of its digits. */
  lemma ScanSpelled(digits: bytes, n: nat, t: bytes)
    requires Spells(digits, n) && (t != [] ==> !IsHex(t[0]))
    ensures ScanHex(digits + t, 0) == Scanned(n, |digits|)
  {
    SpellsHex(digits, n);
    ScanAll(digits, t, 0);
    ScanSpells([], digits + t, 0);
    hide Spells, ScanHex, IsHex;
    assert [] + (digits + t)[..|digits|] == digits;
    SpellsOne(digits, n, ScanHex(digits + t, 0).value);
  }

  /** What is printed spells the number in capitals, without a zero in front. */
  lemma {:induction false} HexSpells(n: nat)
    ensures Spells(Hex(n), n) && (n > 0 ==> Hex(n)[0] != '0' as int) && forall c | c in Hex(n) :: c <= 'F' as int
    decreases n
  {
    var front: bytes, last := if n < 16 then [] else Hex(n / 16), HexDigit(n % 16);
    assert Hex(n) == front + [last];
    assert IsDigit(last, n % 16) && last <= 'F' as int && (0 < n < 16 ==> last != '0' as int);
    hide Hex, HexDigit, IsDigit;
    if n >= 16 {
      HexSpells(n / 16);
    } else {
      assert Spells([], 0);
    }
    hide Spells;
    assert n / 16 * 16 + n % 16 == n;
    SpellsMore(front, n / 16, last, n % 16);
  }

  lemma {:induction false} ScanStable(s: bytes, t: bytes, n: nat)
    requires ScanHex(s, n).used < |s|
    ensures ScanHex(s + t, n) == ScanHex(s, n)
    decreases |s|
  {
    if IsHex(s[0]) {
      ScanStable(s[1..], t, n * 16 + HexValue(s[0]));
      assert (s + t)[1..] == s[1..] + t;
    }
  }

  predicate LineEnd(s: bytes, i: nat) {
    i + 2 <= |s| && s[i] == CR && s[i + 1] == LF
  }

  /** The data of the chunk at the front of the buffer, when it is all there. */
  function ParseChunk(s: bytes): Option<Frame<bytes>> {
    var size := ScanHex(s, 0);
    var i := size.used + 2;
    if size.used == 0 || !LineEnd(s, size.used) || !LineEnd(s, i + size.value) then None
    else Some(Frame(s[i..i + size.value], i + size.value + 2))
  }

  function EncodeChunk(data: bytes): bytes {
    Hex(|data|) + [CR, LF] + data + [CR, LF]
  }

  lemma ParseChunkStable()
    ensures Stable(ParseChunk)
  {
    forall s: bytes, t: bytes
      ensures StableAt(ParseChunk, s, t)
    {
      if ParseChunk(s).Some? {
        ScanStable(s, t, 0);
        var size := ScanHex(s, 0);
        var i := size.used + 2;
        assert (s + t)[i..i + size.value] == s[i..i + size.value];
      }
    }
  }

  /** A chunk as any sender may write it. */
  datatype Sized = Sized(digits: bytes, data: bytes)

  predicate WellSized(c: Sized) {
    c.digits != [] && Spells(c.digits, |c.data|)
  }

  function EncodeSized(c: Sized): bytes {
    c.digits + [CR, LF] + c.data + [CR, LF]
  }

  /** What the receive loop is told about a chunk. */
  function Body(c: Sized): bytes { c.data }

  lemma LineEndAfter(front: bytes, back: bytes)
    ensures LineEnd(front + [CR, LF] + back, |front|)
  {
  }

  lemma ChunkParts(digits: bytes, data: bytes)
    ensures var s, i := digits + [CR, LF] + data + [CR, LF], |digits| + 2;
            LineEnd(s, |digits|) && LineEnd(s, i + |data|) && s[i..i + |data|] == data && |s| == i + |data| + 2
  {
    LineEndAfter(digits, data + [CR, LF]);
    LineEndAfter(digits + [CR, LF] + data, []);
    Cut(digits + [CR, LF], data, [CR, LF]);
    hide LineEnd;
    assert digits + [CR, LF] + data + [CR, LF] + [] == digits + [CR, LF] + data + [CR, LF];
  }

  /** The parts of what is recognised. */
  lemma ChunkJoined(s: bytes, k: nat, n: nat)
    requires LineEnd(s, k) && LineEnd(s, k + 2 + n)
    ensures s[..k] + [CR, LF] + s[k + 2..k + 2 + n] + [CR, LF] == s[..k + 2 + n + 2]
  {
    assert s[k..k + 2] == [CR, LF] && s[k + 2 + n..k + 2 + n + 2] == [CR, LF];
    assert s[..k + 2] == s[..k] + s[k..k + 2];
    assert s[..k + 2 + n] == s[..k + 2] + s[k + 2..k + 2 + n];
    assert s[..k + 2 + n + 2] == s[..k + 2 + n] + s[k + 2 + n..k + 2 + n + 2];
  }

  /** A chunk is recognised whatever the case of the digits and however many zeros
      stand in front of them. */
  lemma ChunkRoundTrip(c: Sized)
    requires WellSized(c)
    ensures Inverts(ParseChunk, EncodeSized, Body, c)
    ensures EncodeSized(c) == c.digits + [13, 10] + c.data + [13, 10]
  {
    var rest := [CR, LF] + c.data + [CR, LF];
    assert EncodeSized(c) == c.digits + rest;
    ScanSpelled(c.digits, |c.data|, rest);
    hide ScanHex, Spells;
    ChunkParts(c.digits, c.data);
  }

  lemma ScannedSpells(s: bytes)
    ensures Spells(s[..ScanHex(s, 0).used], ScanHex(s, 0).value)
  {
    ScanSpells([], s, 0);
    hide ScanHex;
    assert [] + s[..ScanHex(s, 0).used] == s[..ScanHex(s, 0).used];
  }

  lemma LineEndInside(s: bytes, i: nat)
    requires LineEnd(s, i)
    ensures i + 2 <= |s|
  {
  }

  /** Nothing else is recognised: what the reader takes is such a chunk. */
  lemma ChunkRead(s: bytes)
    requires ParseChunk(s).Some?
    ensures var c := Sized(s[..ScanHex(s, 0).used], ParseChunk(s).value.event);
            WellSized(c) && ParseChunk(s).value.size == |EncodeSized(c)| && s[..|EncodeSized(c)|] == EncodeSized(c)
  {
    hide ScanHex, Spells, LineEnd;
    var k, n := ScanHex(s, 0).used, ScanHex(s, 0).value;
    ScannedSpells(s);
    assert LineEnd(s, k) && LineEnd(s, k + 2 + n);
    LineEndInside(s, k + 2 + n);
    assert ParseChunk(s) == Some(Frame(s[k + 2..k + 2 + n], k + 2 + n + 2));
    hide ParseChunk;
    ChunkJoined(s, k, n);
  }

  /** The octets of a whole message with these chunks: each has data, and an empty
      one ends it. */
  ghost predicate IsMessage(s: bytes, chunks: seq<bytes>) {
    && [] !in chunks
    && exists sized: seq<Sized> ::
         (forall c | c in sized :: WellSized(c)) && Events(Body, sized) == chunks + [[]] && s == EncodeAll(EncodeSized, sized)
  }

  lemma MessageData(s: bytes, chunks: seq<bytes>)
    requires IsMessage(s, chunks)
    ensures [] !in chunks
  {
  }

  /** What is sent chunk by chunk. */
  function EncodeMessage(chunks: seq<bytes>): bytes {
    EncodeAll(EncodeChunk, chunks + [[]])
  }

  /** A chunk as the sender writes it: capitals and no zero in front. */
  function Printed(data: bytes): (c: Sized)
    ensures EncodeSized(c) == EncodeChunk(data) && c.data == data
  {
    Sized(Hex(|data|), data)
  }

  lemma {:induction false} PrintedAll(chunks: seq<bytes>)
    ensures EncodeAll(EncodeChunk, chunks) == EncodeAll(EncodeSized, Events(Printed, chunks))
  {
    if chunks != [] {
      PrintedAll(chunks[1..]);
      assert Events(Printed, chunks)[1..] == Events(Printed, chunks[1..]);
    }
  }

  lemma SentIsMessage(chunks: seq<bytes>)
    requires [] !in chunks
    ensures IsMessage(EncodeMessage(chunks), chunks)
  {
    var all := chunks + [[]];
    var sized := Events(Printed, all);
    PrintedAll(all);
    forall c | c in sized ensures WellSized(c) {
      HexSpells(|c.data|);
    }
    assert Events(Body, sized) == all;
  }

  /** What one traversal of the buffered chunks yields: the data joined, how
      much was consumed, and whether the terminating chunk was met. */
  datatype Collapsed = Collapsed(data: bytes, used: nat, ended: bool)

  function Collapse(s: bytes): (r: Collapsed)
    ensures r.used <= |s| && |r.data| <= r.used
    decreases |s|
  {
    match ParseChunk(s)
    case None => Collapsed([], 0, false)
    case Some(Frame(data, n)) =>
      if data == [] then Collapsed([], n, true)
      else
        var rest := Collapse(s[n..]);
        Collapsed(data + rest.data, n + rest.used, rest.ended)
  }

  /** Only the last of the chunks, if any, is the terminating one. */
  ghost predicate EndsAtMostOnce(chunks: seq<bytes>) {
    forall i | 0 <= i < |chunks| - 1 :: chunks[i] != []
  }

  predicate Ended(chunks: seq<bytes>) {
    chunks != [] && chunks[|chunks| - 1] == []
  }

  /** The traversal stops at a terminating chunk; when nothing follows one it
      takes what the receive loop of other protocols would. */
  lemma {:induction false} CollapseIsDrain(s: bytes)
    requires EndsAtMostOnce(Drain(ParseChunk, s).events)
    ensures var d, c := Drain(ParseChunk, s), Collapse(s);
            c.data == Flatten(d.events) && s[c.used..] == d.rest && c.ended == Ended(d.events)
    decreases |s|
  {
    hide ParseChunk;
    var d := Drain(ParseChunk, s);
    ParseChunkStable();
    assert StableAt(ParseChunk, s, []);
    if ParseChunk(s).Some? {
      var data, n := ParseChunk(s).value.event, ParseChunk(s).value.size;
      var later := Drain(ParseChunk, s[n..]);
      assert d.events[0] == data && d.events[1..] == later.events;
      if data == [] {
        assert |d.events| == 1;
      } else {
        assert EndsAtMostOnce(later.events);
        CollapseIsDrain(s[n..]);
      }
    }
  }

  lemma DrainedWhole(parse: Parser<bytes>, s: bytes)
    ensures var d := Drain(parse, s); |d.rest| <= |s| && (d.events == [] <==> |d.rest| == |s|)
    decreases |s|
  {
    if parse(s).Some? && 0 < parse(s).value.size <= |s| {
      DrainedWhole(parse, s[parse(s).value.size..]);
    }
  }

  lemma OneTerminator(chunks: seq<bytes>, log: seq<bytes>, now: seq<bytes>, later: seq<bytes>)
    requires [] !in chunks && chunks + [[]] == log + now + later
    ensures EndsAtMostOnce(now) && (Ended(log) ==> now == [])
  {
    var all := chunks + [[]];
    assert forall k | 0 <= k < |now| - 1 :: now[k] == all[|log| + k] == chunks[|log| + k];
    assert log != [] ==> log[|log| - 1] == all[|log| - 1];
  }

  /** Section 4.1 of RFC 7230 on streams: the chunks of a message arrive as
      they were sent, however its octets are cut and its sizes spelled. */
  lemma MessageArrives(chunks: seq<bytes>, pieces: seq<bytes>)
    requires IsMessage(Flatten(pieces), chunks)
    ensures Receive(ParseChunk, [], pieces) == Drained(chunks + [[]], [])
  {
    hide ParseChunk, EncodeSized, WellSized;
    ParseChunkStable();
    var sized: seq<Sized> :|
      (forall c | c in sized :: WellSized(c)) && Events(Body, sized) == chunks + [[]]
      && Flatten(pieces) == EncodeAll(EncodeSized, sized);
    forall c | c in sized
      ensures Inverts(ParseChunk, EncodeSized, Body, c)
    {
      ChunkRoundTrip(c);
    }
    StreamRoundTrip(ParseChunk, EncodeSized, Body, sized, pieces);
  }

  /** One receive event of a message: what the traversal does is what the
      receive loop of other protocols would do. */
  lemma MessageStep(chunks: seq<bytes>, pieces: seq<bytes>, i: nat, log: seq<bytes>, s: bytes)
    requires IsMessage(Flatten(pieces), chunks)
    requires i < |pieces| && Arrived(ParseChunk, [], [], pieces, i, log, s)
    ensures var d, c := Drain(ParseChunk, s + pieces[i]), Collapse(s + pieces[i]);
            && Arrived(ParseChunk, [], [], pieces, i + 1, log + d.events, d.rest)
            && c.data == Flatten(d.events) && (s + pieces[i])[c.used..] == d.rest && c.ended == Ended(d.events)
            && (c.used == 0 <==> d.events == [])
            && (Ended(log) ==> d.events == []) && (Ended(log + d.events) ==> d.rest == [])
            && Flatten(log + d.events) == Flatten(log) + Flatten(d.events)
  {
    hide ParseChunk, Collapse, Drain, Receive, Flatten, IsMessage;
    MessageData(Flatten(pieces), chunks);
    var d := Drain(ParseChunk, s + pieces[i]);
    MessageArrives(chunks, pieces);
    ArrivedNext(ParseChunk, [], [], pieces, i, log, s);
    var later := Receive(ParseChunk, d.rest, pieces[i + 1..]);
    OneTerminator(chunks, log, d.events, later.events);
    if Ended(log + d.events) {
      OneTerminator(chunks, log + d.events, later.events, []);
      NothingReceived(ParseChunk, d.rest, pieces[i + 1..]);
    }
    CollapseIsDrain(s + pieces[i]);
    DrainedWhole(ParseChunk, s + pieces[i]);
    FlattenConcat(log, d.events);
  }

  /** A traversal whose outcome is `total` has turned `used` octets into
      `data`; `rest` is the outcome for the others. */
  ghost predicate Collapsing(total: Collapsed, rest: Collapsed, data: bytes, used: nat) {
    total == Collapsed(data + rest.data, used + rest.used, rest.ended)
  }

  lemma CollapsingNext(total: Collapsed, s: bytes, data: bytes, used: nat)
    requires Collapsing(total, Collapse(s), data, used) && ParseChunk(s).Some?
    ensures var chunk, n := ParseChunk(s).value.event, ParseChunk(s).value.size;
            if chunk == [] then total == Collapsed(data, used + n, true)
            else Collapsing(total, Collapse(s[n..]), data + chunk, used + n)
  {
    var chunk, n := ParseChunk(s).value.event, ParseChunk(s).value.size;
    if chunk == [] {
      assert data + [] == data;
    } else {
      var rest := Collapse(s[n..]);
      assert data + (chunk + rest.data) == data + chunk + rest.data;
    }
  }

  /** `n` is the size of the chunk at the front of `s`, or 0 without one, and
      its data are the `dataLen` octets from `data`. */
  ghost predicate ChunkAt(s: bytes, n: nat, data: nat, dataLen: nat) {
    match ParseChunk(s)
    case None => n == 0
    case Some(Frame(chunk, size)) => n == size && data + dataLen + 2 == n <= |s| && s[data..data + dataLen] == chunk
  }

  /** The chunk at `from` has been moved to `to`: what the buffer held and what
      it holds now. Without a chunk there, `n` and `dataLen` are 0. */
  ghost predicate OneCollapsed(was: bytes, now: bytes, to: nat, from: nat, n: nat, dataLen: nat) {
    to <= from <= |was| == |now| &&
    match ParseChunk(was[from..])
    case None => n == 0 && dataLen == 0 && now == was
    case Some(Frame(chunk, size)) =>
      && n == size > 0 && dataLen == |chunk| && from + n <= |now| && to + dataLen <= from + n
      && now[..to + dataLen] == was[..to] + chunk
      && now[from + n..] == was[from..][n..]
  }

  lemma ChunkMoved(was: bytes, to: nat, from: nat, n: nat, p: nat, dataLen: nat)
    requires to <= from <= |was| && ChunkAt(was[from..], n, p, dataLen)
    ensures if n == 0 then OneCollapsed(was, was, to, from, 0, 0)
            else p + dataLen + 2 == n <= |was| - from
                 && OneCollapsed(was, Moved(was, to, from + p, dataLen), to, from, n, dataLen)
  {
    hide ScanHex;
    if n > 0 {
      MovedParts(was, to, from + p, dataLen, from + n);
      assert was[from..][p..p + dataLen] == was[from + p..from + p + dataLen];
      assert was[from..][n..] == was[from + n..];
    }
  }

  /** State of the traversal: the buffer holds `front` and the data so far up
      to `to`, and from `from` on the pending octets not yet traversed. */
  ghost predicate Traversed(front: bytes, pending: bytes, now: bytes, to: nat, from: nat, data: bytes, stuck: bool, ended: bool) {
    && |front| <= to <= from <= |now| && from - |front| <= |pending|
    && now[..to] == front + data && now[from..] == pending[from - |front|..]
    && if stuck || ended then Collapse(pending) == Collapsed(data, from - |front|, ended)
       else Collapsing(Collapse(pending), Collapse(now[from..]), data, from - |front|)
  }

  lemma TraversedStart(front: bytes, pending: bytes, now: bytes)
    requires |front| <= |now| && now[..|front|] == front && now[|front|..] == pending
    ensures Traversed(front, pending, now, |front|, |front|, [], false, false)
  {
    assert front + [] == front && [] + Collapse(pending).data == Collapse(pending).data;
  }

  lemma MovedChunk(head: bytes, was: bytes, now: bytes, to: nat, from: nat, n: nat, dataLen: nat)
    requires OneCollapsed(was, now, to, from, n, dataLen) && n > 0 && was[..to] == head
    ensures var chunk := now[to..to + dataLen];
            now[..to + dataLen] == head + chunk && ParseChunk(was[from..]) == Some(Frame(chunk, n))
  {
    assert now[to..to + dataLen] == now[..to + dataLen][to..];
  }

  lemma TraversedChunk(front: bytes, pending: bytes, was: bytes, now: bytes, to: nat, from: nat, data: bytes, n: nat, dataLen: nat)
    requires Traversed(front, pending, was, to, from, data, false, false)
    requires OneCollapsed(was, now, to, from, n, dataLen) && n > 0
    ensures Traversed(front, pending, now, to + dataLen, from + n, data + now[to..to + dataLen], false, dataLen == 0)
  {
    hide Collapse, ParseChunk;
    var used, chunk := from - |front|, now[to..to + dataLen];
    MovedChunk(front + data, was, now, to, from, n, dataLen);
    assert front + (data + chunk) == front + data + chunk;
    assert was[from..][n..] == pending[used + n..];
    CollapsingNext(Collapse(pending), was[from..], data, used);
    assert chunk == [] ==> data + chunk == data;
  }

  lemma TraversedNext(front: bytes, pending: bytes, was: bytes, now: bytes, to: nat, from: nat, data: bytes, n: nat, dataLen: nat)
    requires Traversed(front, pending, was, to, from, data, false, false)
    requires OneCollapsed(was, now, to, from, n, dataLen)
    ensures Traversed(front, pending, now, to + dataLen, from + n, data + now[to..to + dataLen], n == 0, n > 0 && dataLen == 0)
  {
    if n > 0 {
      TraversedChunk(front, pending, was, now, to, from, data, n, dataLen);
    } else {
      assert data + [] == data && now[to..to] == [];
    }
  }

  lemma TraversedDone(front: bytes, pending: bytes, now: bytes, to: nat, from: nat, data: bytes, stuck: bool, ended: bool)
    requires Traversed(front, pending, now, to, from, data, stuck, ended) && (stuck || ended)
    ensures Traversed(front, pending, now, to, from, data, true, ended)
  {
  }

  /** Collapsing always frees some octets. */
  lemma CollapseShrinks(s: bytes)
    ensures var c := Collapse(s); if c.used == 0 then c.data == [] else |c.data| < c.used
  {
    ParseChunkStable();
    assert StableAt(ParseChunk, s, []);
  }

  lemma TraversedAll(front: bytes, pending: bytes, now: bytes, to: nat, from: nat, data: bytes, ended: bool)
    requires Traversed(front, pending, now, to, from, data, true, ended)
    ensures |front| <= to <= from <= |now|
    ensures var c := Collapse(pending);
            && c == Collapsed(data, from - |front|, ended) && to == |front| + |data|
            && (to == from <==> c.used == 0)
            && now[..to] == front + data && now[from..] == pending[c.used..]
  {
    CollapseShrinks(pending);
    assert |now[..to]| == |front| + |data|;
  }

  /** The receive buffer in its three parts: the headers, the body collapsed so
      far, and what has arrived and is not collapsed yet. */
  datatype Held = Held(headers: bytes, body: bytes, pending: bytes)

  function Split(s: bytes, reqLen: nat, bodyLen: nat): Held
    requires reqLen + bodyLen <= |s|
  {
    Held(s[..reqLen], s[reqLen..reqLen + bodyLen], s[reqLen + bodyLen..])
  }

  lemma SplitJoined(headers: bytes, body: bytes, pending: bytes)
    ensures Split(headers + body + pending, |headers|, |body|) == Held(headers, body, pending)
  {
    Cut(headers, body, pending);
  }

  lemma SplitParts(s: bytes, reqLen: nat, bodyLen: nat)
    requires reqLen + bodyLen <= |s|
    ensures var h := Split(s, reqLen, bodyLen);
            && |h.headers| == reqLen && |h.body| == bodyLen
            && s[..reqLen + bodyLen] == h.headers + h.body && s[reqLen + bodyLen..] == h.pending
  {
    assert s[..reqLen + bodyLen] == s[..reqLen] + s[reqLen..reqLen + bodyLen];
  }

  lemma SplitSizes(s: bytes, reqLen: nat, bodyLen: nat)
    requires reqLen + bodyLen <= |s|
    ensures var h := Split(s, reqLen, bodyLen);
            s[..reqLen] == h.headers && |h.headers| + |h.body| + |h.pending| == |s|
  {
  }

  /** The buffer after a traversal that collapsed some chunks. */
  function AfterCollapse(h: Held): Held {
    Held(h.headers, h.body + Collapse(h.pending).data, h.pending[Collapse(h.pending).used..])
  }

  function Size(h: Held): nat {
    |h.headers| + |h.body| + |h.pending|
  }

  /** A connection as a value: `events` are the bodies given to the handler,
      `taken` is what it had deleted, and `messageLen` is set at the end. */
  datatype State = State(held: Held, events: seq<bytes>, taken: bytes, messageLen: Option<nat>)

  /** What handling the buffered octets does. The handler, if it is called,
      sees the body collapsed so far and says whether to delete it. */
  function Handle(st: State, delete: bool): State {
    var c, now := Collapse(st.held.pending), AfterCollapse(st.held);
    if c.used == 0 then st
    else
      var held := if delete then now.(body := []) else now;
      State(held, st.events + [now.body], if delete then st.taken + now.body else st.taken,
            if c.ended then Some(Size(held)) else st.messageLen)
  }

  function React(st: State, data: bytes, delete: bool): State {
    Handle(st.(held := st.held.(pending := st.held.pending + data)), delete)
  }

  /** State of a connection that has received the first `i` pieces of a message
      and, in them, the chunks `log`. */
  ghost predicate Receiving(pieces: seq<bytes>, deletes: seq<bool>, i: nat, log: seq<bytes>, headers: bytes, st: State) {
    && i <= |pieces| == |deletes| && st.held.headers == headers
    && Arrived(ParseChunk, [], [], pieces, i, log, st.held.pending)
    && st.taken + st.held.body == Flatten(log)
    && (Ended(log) ==> st.held.pending == [])
    && st.messageLen == (if Ended(log) then Some(Size(st.held)) else None)
    && (true !in deletes[..i] ==> st.taken == [])
    && (false !in deletes[..i] ==> st.taken == Flatten(st.events) && st.held.body == [])
  }

  lemma EndedAppend(log: seq<bytes>, more: seq<bytes>)
    requires more != []
    ensures Ended(log + more) == Ended(more)
  {
  }

  lemma ReceivingStart(pieces: seq<bytes>, deletes: seq<bool>, headers: bytes)
    requires |deletes| == |pieces|
    ensures Receiving(pieces, deletes, 0, [], headers, State(Held(headers, [], []), [], [], None))
  {
    ArrivedStart(ParseChunk, [], pieces);
  }

  lemma OneMoreChoice(deletes: seq<bool>, i: nat)
    requires i < |deletes|
    ensures forall b :: b !in deletes[..i + 1] <==> b !in deletes[..i] && b != deletes[i]
  {
    assert deletes[..i + 1] == deletes[..i] + [deletes[i]];
  }

  lemma ReceivingNext(chunks: seq<bytes>, pieces: seq<bytes>, deletes: seq<bool>, i: nat, log: seq<bytes>, headers: bytes, st: State)
    requires IsMessage(Flatten(pieces), chunks)
    requires i < |pieces| && Receiving(pieces, deletes, i, log, headers, st)
    ensures var more := Drain(ParseChunk, st.held.pending + pieces[i]).events;
            Receiving(pieces, deletes, i + 1, log + more, headers, React(st, pieces[i], deletes[i]))
  {
    hide ParseChunk, Collapse, Drain, Receive, Flatten, IsMessage, Arrived;
    MessageStep(chunks, pieces, i, log, st.held.pending);
    var d, delete := Drain(ParseChunk, st.held.pending + pieces[i]), deletes[i];
    OneMoreChoice(deletes, i);
    var next := React(st, pieces[i], delete);
    if d.events == [] {
      assert log + d.events == log;
      assert next == st.(held := st.held.(pending := d.rest));
    } else {
      var body := st.held.body + Flatten(d.events);
      EndedAppend(log, d.events);
      Cut(st.taken, st.held.body, Flatten(d.events));
      FlattenAppend(st.events, body);
      Cut(st.taken + body, [], []);
    }
  }

  lemma ReceivedAll(chunks: seq<bytes>, pieces: seq<bytes>, deletes: seq<bool>, log: seq<bytes>, headers: bytes, st: State)
    requires IsMessage(Flatten(pieces), chunks)
    requires Receiving(pieces, deletes, |pieces|, log, headers, st)
    ensures st.held.headers == headers && st.held.pending == [] && st.taken + st.held.body == Flatten(chunks)
    ensures st.messageLen == Some(Size(st.held))
    ensures true !in deletes ==> st.taken == []
    ensures false !in deletes ==> st.taken == Flatten(st.events) && st.held.body == []
  {
    hide ParseChunk, Flatten, IsMessage;
    ArrivedEnd(ParseChunk, [], [], pieces, log, st.held.pending);
    MessageArrives(chunks, pieces);
    FlattenAppend(chunks, []);
    assert log == chunks + [[]] && Flatten(log) == Flatten(chunks);
    assert deletes[..|pieces|] == deletes;
  }

  lemma Closed(h: Held, now: bytes, to: nat, from: nat, data: bytes, ended: bool)
    requires Traversed(h.headers + h.body, h.pending, now, to, from, data, true, ended)
    ensures var c := Collapse(h.pending);
            && (from > to <==> c.used > 0) && c.ended == ended && |h.headers| <= to <= from <= |now|
            && Split(now[..to] + now[from..], |h.headers|, to - |h.headers|) == AfterCollapse(h)
            && (from == to ==> to == |h.headers| + |h.body| && now[..to] + now[from..] == now)
  {
    TraversedAll(h.headers + h.body, h.pending, now, to, from, data, ended);
    hide Traversed, Collapse;
    Cut(h.headers, h.body, data);
    SplitJoined(h.headers, h.body + data, now[from..]);
    assert data == [] ==> h.headers + h.body + data == h.headers + h.body;
  }

  lemma Deleted(headers: bytes, body: bytes, pending: bytes)
    ensures var s, n, m := headers + body + pending, |headers|, |body|;
            Split(Moved(s, n, n + m, |pending|)[..n + |pending|], n, 0) == Held(headers, [], pending)
  {
    Cut(headers, body, pending);
    MovedParts(headers + body + pending, |headers|, |headers| + |body|, |pending|, |headers + body + pending|);
    SplitJoined(headers, [], pending);
    assert headers + [] + pending == headers + pending;
  }

  /** The parts of a connection that chunked coding uses: `reqLen` octets of
      headers come first in the receive buffer, then `bodyLen` octets of
      collapsed body. The other fields are
      those of `State`. */
  class Connection {
    const sendBuf: Mbuf
    const recvBuf: Mbuf
    const reqLen: nat
    var bodyLen: nat
    var events: seq<bytes>
    var taken: bytes
    var messageLen: Option<nat>

    ghost predicate Valid()
      reads this, sendBuf, recvBuf
    {
      && sendBuf.Valid() && recvBuf.Valid() && sendBuf != recvBuf && sendBuf.buf != recvBuf.buf
      && reqLen + bodyLen <= recvBuf.len
    }

    function View(): Held
      requires Valid()
      reads this, sendBuf, recvBuf, recvBuf.buf
    {
      Split(recvBuf.Contents(), reqLen, bodyLen)
    }

    function Current(): State
      requires Valid()
      reads this, sendBuf, recvBuf, recvBuf.buf
    {
      State(View(), events, taken, messageLen)
    }

    constructor (headers: bytes)
      ensures Valid() && reqLen == |headers|
      ensures Current() == State(Held(headers, [], []), [], [], None)
      ensures sendBuf.Contents() == []
    {
      sendBuf := new Mbuf(0);
      recvBuf := new Mbuf(0);
      reqLen := |headers|;
      bodyLen, events, taken, messageLen := 0, [], [], None;
      new;
      recvBuf.Append(headers);
      assert recvBuf.Contents() == headers + [] + [];
      SplitJoined(headers, [], []);
    }

    method SendChunk(data: bytes)
      requires Valid()
      modifies sendBuf, sendBuf.buf
      ensures Valid() && (sendBuf.buf == old(sendBuf.buf) || fresh(sendBuf.buf))
      ensures sendBuf.Contents() == old(sendBuf.Contents()) + EncodeChunk(data)
    {
      var chunkSize := Hex(|data|) + [CR, LF];
      sendBuf.Append(chunkSize);
      sendBuf.Append(data);
      sendBuf.Append([CR, LF]);
      Cut(old(sendBuf.Contents()), chunkSize + data, [CR, LF]);
      Cut(old(sendBuf.Contents()), chunkSize, data);
    }

    /** The loop over the digits of a chunk's length. */
    method ReadSize(from: nat) returns (size: nat, i: nat)
      requires Valid() && from <= recvBuf.len
      ensures from <= i <= recvBuf.len && ScanHex(recvBuf.Contents()[from..], 0) == Scanned(size, i - from)
    {
      ghost var s := recvBuf.Contents()[from..];
      size, i := 0, from;
      while i < recvBuf.len && IsHex(recvBuf.buf[i])
        invariant from <= i <= recvBuf.len
        invariant var rest := ScanHex(s[i - from..], size);
                  ScanHex(s, 0) == Scanned(rest.value, i - from + rest.used)
      {
        assert s[i - from..][0] == recvBuf.buf[i] && s[i - from..][1..] == s[i - from + 1..];
        size := size * 16 + HexValue(recvBuf.buf[i]);
        i := i + 1;
      }
      assert i < recvBuf.len ==> s[i - from..][0] == recvBuf.buf[i];
    }

    /** Looks for a chunk at `from` in the receive buffer. */
    method ReadChunk(from: nat) returns (n: nat, data: nat, dataLen: nat)
      requires Valid() && from <= recvBuf.len
      ensures ChunkAt(recvBuf.Contents()[from..], n, data, dataLen)
    {
      var size, i := ReadSize(from);
      ghost var s := recvBuf.Contents()[from..];
      if i == from || i + 2 > recvBuf.len || recvBuf.buf[i] != CR || recvBuf.buf[i + 1] != LF {
        assert !LineEnd(s, i - from) || i == from;
        return 0, 0, 0;
      }
      assert LineEnd(s, i - from);
      i := i + 2;
      data, dataLen := i - from, size;
      i := i + size;
      if i + 2 > recvBuf.len || recvBuf.buf[i] != CR || recvBuf.buf[i + 1] != LF {
        assert !LineEnd(s, i - from);
        return 0, 0, 0;
      }
      n := i + 2 - from;
    }

    /** Moves the octets after `i` up to the collapsed body of length `bl`. */
    method CloseGap(bl: nat, i: nat)
      requires Valid() && bodyLen <= bl < i && reqLen + i <= recvBuf.len
      modifies this`bodyLen, recvBuf, recvBuf.buf
      ensures Valid() && recvBuf.buf == old(recvBuf.buf) && bodyLen == bl
      ensures recvBuf.Contents() == old(recvBuf.Contents())[..reqLen + bl] + old(recvBuf.Contents())[reqLen + i..]
    {
      var blen := recvBuf.len - reqLen;
      MovedParts(recvBuf.Contents(), reqLen + bl, reqLen + i, blen - i, recvBuf.len);
      recvBuf.MoveDown(reqLen + bl, reqLen + i, blen - i);
      ghost var moved := recvBuf.Contents();
      recvBuf.ClearPart(reqLen + bl + blen - i, i - bl);
      recvBuf.Shorten(reqLen + bl + blen - i);
      assert recvBuf.Contents() == moved[..recvBuf.len];
      bodyLen := bl;
    }

    method DeleteBody()
      requires Valid()
      modifies this`bodyLen, recvBuf, recvBuf.buf
      ensures Valid() && recvBuf.buf == old(recvBuf.buf) && bodyLen == 0
      ensures View() == old(View()).(body := [])
    {
      hide Moved, Split;
      ghost var h := View();
      SplitParts(recvBuf.Contents(), reqLen, bodyLen);
      SplitSizes(recvBuf.Contents(), reqLen, bodyLen);
      recvBuf.ClearPart(reqLen, bodyLen);
      Deleted(h.headers, ZeroBytes(bodyLen), h.pending);
      recvBuf.MoveDown(reqLen, reqLen + bodyLen, recvBuf.len - reqLen - bodyLen);
      recvBuf.Shorten(recvBuf.len - bodyLen);
      bodyLen := 0;
    }

    /** Parses at offset `i` and moves the data of the chunk found there, if
        any, to the end of the body of length `bl`. */
    method CollapseOne(bl: nat, i: nat) returns (n: nat, dataLen: nat)
      requires Valid() && bodyLen <= bl <= i && reqLen + i <= recvBuf.len
      modifies recvBuf.buf
      ensures Valid() && bl + dataLen <= i + n && reqLen + i + n <= recvBuf.len == old(recvBuf.len)
      ensures OneCollapsed(old(recvBuf.Contents()), recvBuf.Contents(), reqLen + bl, reqLen + i, n, dataLen)
    {
      hide ParseChunk, OneCollapsed;
      ghost var was := recvBuf.Contents();
      var p;
      n, p, dataLen := ReadChunk(reqLen + i);
      ChunkMoved(was, reqLen + bl, reqLen + i, n, p, dataLen);
      if n > 0 {
        recvBuf.MoveDown(reqLen + bl, reqLen + i + p, dataLen);
      } else {
        dataLen := 0;
      }
    }

    /** The traversal of all chunks that are buffered whole, `front` being the
        headers and the body so far. */
    method CollapseChunks(ghost front: bytes, ghost pending: bytes)
      returns (bl: nat, i: nat, zeroChunk: bool, ghost data: bytes)
      requires Valid() && |front| == reqLen + bodyLen
      requires recvBuf.Contents()[..|front|] == front && recvBuf.Contents()[|front|..] == pending
      modifies recvBuf.buf
      ensures Valid() && bodyLen <= bl <= i && reqLen + i <= recvBuf.len
      ensures Traversed(front, pending, recvBuf.Contents(), reqLen + bl, reqLen + i, data, true, zeroChunk)
    {
      hide Collapse, ParseChunk, OneCollapsed, Traversed, Collapsing;
      ghost var now := recvBuf.Contents();
      data := [];
      TraversedStart(front, pending, now);
      ghost var to, from, stuck := |front|, |front|, false;
      bl, i, zeroChunk := bodyLen, bodyLen, false;
      while !zeroChunk
        invariant Valid() && bodyLen <= bl <= i && to == reqLen + bl && from == reqLen + i && !stuck
        invariant now == recvBuf.Contents()
        invariant Traversed(front, pending, now, to, from, data, stuck, zeroChunk) && to <= from <= |now|
        decreases |now| - from
      {
        var n, dataLen := CollapseOne(bl, i);
        TraversedNext(front, pending, now, recvBuf.Contents(), to, from, data, n, dataLen);
        now := recvBuf.Contents();
        data, to, from, stuck := data + now[to..to + dataLen], to + dataLen, from + n, n == 0;
        bl, i, zeroChunk := bl + dataLen, i + n, n > 0 && dataLen == 0;
        if n == 0 { break; }
      }
      TraversedDone(front, pending, now, to, from, data, stuck, zeroChunk);
    }

    /** Collapses what is buffered and closes the gap that this leaves. */
    method CollapseBuffered() returns (progress: bool, zeroChunk: bool)
      requires Valid()
      modifies this`bodyLen, recvBuf, recvBuf.buf
      ensures Valid() && recvBuf.buf == old(recvBuf.buf)
      ensures var h := old(View());
              && View() == AfterCollapse(h)
              && progress == (Collapse(h.pending).used > 0) && zeroChunk == Collapse(h.pending).ended
    {
      hide Collapse, Traversed, Split, AfterCollapse;
      ghost var h := View();
      ghost var front := recvBuf.Contents()[..reqLen + bodyLen];
      SplitParts(recvBuf.Contents(), reqLen, bodyLen);
      var bl, i;
      ghost var data;
      bl, i, zeroChunk, data := CollapseChunks(front, h.pending);
      ghost var now := recvBuf.Contents();
      Closed(h, now, reqLen + bl, reqLen + i, data, zeroChunk);
      progress := i > bl;
      if progress {
        CloseGap(bl, i);
      }
    }

    method HandleChunked(delete: bool)
      requires Valid()
      modifies this, recvBuf, recvBuf.buf
      ensures Valid() && recvBuf.buf == old(recvBuf.buf)
      ensures Current() == Handle(old(Current()), delete)
    {
      hide Collapse, ParseChunk;
      ghost var h := View();
      var progress, zeroChunk := CollapseBuffered();
      if progress {
        events := events + [View().body];
        if delete {
          taken := taken + View().body;
          DeleteBody();
        }
        if zeroChunk {
          messageLen := Some(bodyLen + (recvBuf.len - reqLen - bodyLen) + reqLen);
        }
      } else {
        assert AfterCollapse(h) == h;
      }
    }

    /** Octets arrive and the receive event is handled. */
    method OnReceive(data: bytes, delete: bool)
      requires Valid()
      modifies this, recvBuf, recvBuf.buf
      ensures Valid() && (recvBuf.buf == old(recvBuf.buf) || fresh(recvBuf.buf))
      ensures Current() == React(old(Current()), data, delete)
    {
      hide Collapse, ParseChunk, Handle;
      recvBuf.Append(data);
      assert View() == old(View()).(pending := old(View()).pending + data);
      HandleChunked(delete);
    }

    /** A whole message arriving in any pieces, the handler deleting the body
        whenever it likes: nothing of the data is lost, repeated or reordered,
        and the end is noticed. */
    method ReceiveMessage(pieces: seq<bytes>, deletes: seq<bool>, ghost chunks: seq<bytes>)
      requires Valid() && Current() == State(Held(View().headers, [], []), [], [], None)
      requires |deletes| == |pieces| && IsMessage(Flatten(pieces), chunks)
      modifies this, recvBuf, recvBuf.buf
      ensures Valid() && View().headers == old(View().headers) && View().pending == []
      ensures taken + View().body == Flatten(chunks)
      ensures messageLen == Some(Size(View()))
      ensures true !in deletes ==> View().body == Flatten(chunks)
      ensures false !in deletes ==> Flatten(events) == Flatten(chunks)
    {
      hide ParseChunk, Drain, React, Receiving, Flatten, IsMessage;
      ghost var headers := View().headers;
      ghost var log: seq<bytes> := [];
      ReceivingStart(pieces, deletes, headers);
      var i := 0;
      while i < |pieces|
        invariant 0 <= i <= |pieces| && Valid() && (recvBuf.buf == old(recvBuf.buf) || fresh(recvBuf.buf))
        invariant Receiving(pieces, deletes, i, log, headers, Current())
      {
        ReceivingNext(chunks, pieces, deletes, i, log, headers, Current());
        log := log + Drain(ParseChunk, View().pending + pieces[i]).events;
        OnReceive(pieces[i], deletes[i]);
        i := i + 1;
      }
      ReceivedAll(chunks, pieces, deletes, log, headers, Current());
    }
  }
}
