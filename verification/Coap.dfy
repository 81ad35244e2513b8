/** CoAP messages as 3rd_party/mongoose.c holds them: the options form a linked
    list that is kept in order while options are added. */
module Coap {
  import opened Bytes
  import opened Mbufs
  import opened CoapCodec

  class OptionNode {
    var next: OptionNode?
    const opt: Opt

    constructor (opt: Opt)
      ensures this.opt == opt && next == null
    {
      this.opt := opt;
      next := null;
    }
  }

  lemma {:induction false} InsertAt(opts: seq<Opt>, o: Opt, i: nat)
    requires i <= |opts| && (forall k | 0 <= k < i :: opts[k].number <= o.number)
    requires i < |opts| ==> opts[i].number > o.number
    ensures Insert(opts, o) == opts[..i] + [o] + opts[i..]
  {
    if i > 0 {
      InsertAt(opts[1..], o, i - 1);
      assert opts[..i] == [opts[0]] + opts[1..][..i - 1] && opts[1..][i - 1..] == opts[i..];
    }
  }

  /** The extension, at `p`, of a difference or length whose four bits are
      `base`; -1 octets are used when it is cut short. */
  method GetExtOpt(io: Mbuf, p: nat, base: nat) returns (info: nat, used: int)
    requires io.Valid() && p <= io.len
    ensures match ReadExt(base, io.Contents()[p..])
            case None => used == -1
            case Some(e) => info == e.value && used == e.used && p + used <= io.len
  {
    info, used := base, 0;
    if base == 13 {
      if p < io.len {
        var low: nat := io.buf[p];
        info, used := low + 13, 1;
      } else {
        used := -1;
      }
    } else if base == 14 {
      if p + 1 < io.len {
        info, used := (FromBe16(io.buf[p], io.buf[p + 1]) + 269) % 0x1_0000, 2;
      } else {
        used := -1;
      }
    }
  }

  /** What stands before an option's value: its number, where the value starts
      and how long it is said to be. */
  method ReadHead(io: Mbuf, p: nat, prev: nat) returns (why: set<Flag>, number: nat, start: nat, len: nat)
    requires io.Valid() && p < io.len
    ensures why == {} ==> p < start <= io.len
    ensures ReadOption(io.Contents()[p..], prev) ==
            if why != {} then Not(why)
            else if start + len > io.len then Not({Error, NotEnoughData})
            else One(Opt(number, io.Contents()[start..start + len]), start + len - p)
  {
    hide ReadExt;
    ghost var s := io.Contents()[p..];
    why, number, start := {}, 0, p;
    var delta: nat, used: int := io.buf[p] / 16, 0;
    len := io.buf[p] % 16;
    assert s[0] == io.buf[p];
    if delta == 15 || len == 15 {
      why := {Error, FormatError};
      return;
    }
    assert s[1..] == io.Contents()[p + 1..];
    delta, used := GetExtOpt(io, p + 1, delta);
    if used == -1 {
      why := {Error, NotEnoughData};
      return;
    }
    start := p + 1 + used;
    assert s[start - p..] == io.Contents()[start..];
    len, used := GetExtOpt(io, start, len);
    if used == -1 {
      why := {Error, NotEnoughData};
      return;
    }
    start := start + used;
    number := (delta + prev) % 0x1_0000;
    assert start + len <= io.len ==> s[start - p..start + len - p] == io.Contents()[start..start + len];
  }

  /** The first `i` options have been found writable and their sizes added to `fixed`. */
  ghost predicate Measuring(opts: seq<Opt>, i: nat, prev: nat, fixed: nat, len: nat) {
    && i <= |opts| && Sorted(opts) && (forall k | i <= k < |opts| :: prev <= opts[k].number)
    && Writable(opts[i..], prev) == Writable(opts, 0)
    && (Writable(opts, 0) ==> len + OptionsSize(opts[i..], prev) == fixed + OptionsSize(opts, 0))
  }

  lemma MeasuringStart(opts: seq<Opt>, fixed: nat)
    requires Sorted(opts)
    ensures Measuring(opts, 0, 0, fixed, fixed)
  {
    assert opts[0..] == opts;
  }

  lemma MeasuringNext(opts: seq<Opt>, i: nat, prev: nat, fixed: nat, len: nat)
    requires Measuring(opts, i, prev, fixed, len) && i < |opts|
    ensures prev <= opts[i].number && (i + 1 < |opts| ==> opts[i].number <= opts[i + 1].number)
    ensures var number, size := opts[i].number, |opts[i].value|;
            if size > MAX_EXT || number - prev > MAX_EXT then !Writable(opts, 0)
            else Measuring(opts, i + 1, number, fixed, len + 1 + ExtSize(number - prev) + ExtSize(size) + size)
  {
    hide ExtSize;
    assert opts[i..][0] == opts[i] && opts[i..][1..] == opts[i + 1..];
  }

  lemma MeasuringEnd(opts: seq<Opt>, prev: nat, fixed: nat, len: nat)
    requires Measuring(opts, |opts|, prev, fixed, len)
    ensures Writable(opts, 0) && len == fixed + OptionsSize(opts, 0)
  {
    assert opts[|opts|..] == [];
  }

  /** The first `i` options have been written as `done`. */
  ghost predicate Composing(opts: seq<Opt>, i: nat, prev: nat, done: bytes) {
    && i <= |opts| && Writable(opts, 0) && Writable(opts[i..], prev)
    && done + EncodeOptions(opts[i..], prev) == EncodeOptions(opts, 0)
    && |done| + OptionsSize(opts[i..], prev) == OptionsSize(opts, 0)
  }

  lemma ComposingStart(opts: seq<Opt>)
    requires Writable(opts, 0)
    ensures Composing(opts, 0, 0, [])
  {
    assert opts[0..] == opts && [] + EncodeOptions(opts, 0) == EncodeOptions(opts, 0);
  }

  lemma EncodeOptionSize(delta: nat, value: bytes)
    requires delta <= MAX_EXT && |value| <= MAX_EXT
    ensures |EncodeOption(delta, value)| == 1 + ExtSize(delta) + ExtSize(|value|) + |value|
  {
  }

  lemma ComposingNext(opts: seq<Opt>, i: nat, prev: nat, done: bytes)
    requires Writable(opts, 0) && Composing(opts, i, prev, done) && i < |opts|
    ensures prev <= opts[i].number <= prev + MAX_EXT && |opts[i].value| <= MAX_EXT
    ensures var code := EncodeOption(opts[i].number - prev, opts[i].value);
            Composing(opts, i + 1, opts[i].number, done + code) && |done + code| <= OptionsSize(opts, 0)
  {
    hide EncodeOption;
    var o, rest := opts[i], opts[i + 1..];
    assert opts[i..][0] == o && opts[i..][1..] == rest;
    EncodeOptionSize(o.number - prev, o.value);
    Cut(done, EncodeOption(o.number - prev, o.value), EncodeOptions(rest, o.number));
  }

  lemma ComposingEnd(opts: seq<Opt>, prev: nat, done: bytes)
    requires Writable(opts, 0) && Composing(opts, |opts|, prev, done)
    ensures done == EncodeOptions(opts, 0) && |done| == OptionsSize(opts, 0)
  {
    assert opts[|opts|..] == [] && done + [] == done;
  }

  /** A loop whose outcome is `total` has read `opts`; `more` is the outcome of
      what it still has to do. */
  ghost predicate Reading(total: Read, more: Read, opts: seq<Opt>) {
    total == if more.Failed? then more else Options(opts + more.opts, more.rest)
  }

  lemma ReadingStart(total: Read)
    ensures Reading(total, total, []) && AddAll([]) == []
  {
    assert total.Options? ==> [] + total.opts == total.opts;
  }

  lemma ReadFails(s: bytes, prev: nat)
    requires s != [] && s[0] != MARKER && ReadOption(s, prev).Not?
    ensures ReadOptions(s, prev) == Failed(ReadOption(s, prev).why) && ReadOption(s, prev).why != {}
  {
    assert Error in ReadOption(s, prev).why;
  }

  lemma ReadingNext(total: Read, s: bytes, prev: nat, opts: seq<Opt>)
    requires s != [] && s[0] != MARKER && Reading(total, ReadOptions(s, prev), opts)
    ensures match ReadOption(s, prev)
            case Not(why) => total == Failed(why) && why != {}
            case One(o, used) => Reading(total, ReadOptions(s[used..], o.number), opts + [o])
  {
    hide ReadOptions;
    if ReadOption(s, prev).One? {
      ReadOptionsStep(s, prev);
      var o, used := ReadOption(s, prev).opt, ReadOption(s, prev).used;
      var more := ReadOptions(s[used..], o.number);
      if more.Options? {
        assert opts + ([o] + more.opts) == opts + [o] + more.opts;
      }
    } else {
      ReadFails(s, prev);
    }
  }

  lemma ReadingEnd(total: Read, s: bytes, prev: nat, opts: seq<Opt>)
    requires (s != [] ==> s[0] == MARKER) && Reading(total, ReadOptions(s, prev), opts)
    ensures total == Options(opts, s)
  {
    ReadNothing(s, prev);
    assert opts + [] == opts;
  }

  lemma AddAllMore(opts: seq<Opt>, o: Opt)
    ensures AddAll(opts + [o]) == Insert(AddAll(opts), o)
  {
    assert (opts + [o])[..|opts|] == opts;
  }

  lemma Parts(was: bytes, m: Message, head: bytes)
    requires Composable(m) && head == Head(m)
    ensures was + head + m.token + EncodeOptions(m.options, 0) + PayloadPart(m.payload) == was + Encode(m)
  {
    hide EncodeOptions, PayloadPart;
    var a, b := EncodeOptions(m.options, 0), PayloadPart(m.payload);
    Cut(was, head, m.token);
    Cut(was, head + m.token, a);
    Cut(was, head + m.token + a, b);
  }

  lemma SizeParts(m: Message)
    requires Composable(m)
    ensures Writable(m.options, 0) && PacketSize(m) == 4 + |m.token| + OptionsSize(m.options, 0) + |PayloadPart(m.payload)|
  {
  }

  /** Writes at a position of the space reserved. */
  method Put(io: Mbuf, p: nat, data: bytes) returns (p': nat)
    requires io.Valid() && p + |data| <= io.len
    modifies io.buf
    ensures io.Valid() && p' == p + |data|
    ensures io.Contents()[..p'] == old(io.Contents())[..p] + data
  {
    Memcpy(io.buf, p, data);
    p' := p + |data|;
    assert io.Contents()[..p'] == io.buf[..p'];
  }

  class CoapMessage {
    var flags: set<Flag>
    var msgType: nat
    var codeClass: nat
    var codeDetail: nat
    var msgId: nat
    var tokenLen: nat
    var token: bytes
    var payload: bytes
    var options: OptionNode?
    var tail: OptionNode?
    ghost var nodes: seq<OptionNode>

    /** The list that starts at `options` is made of `nodes`. */
    ghost predicate Linked()
      reads this, nodes
    {
      && options == (if nodes == [] then null else nodes[0])
      && (nodes != [] ==> tail == nodes[|nodes| - 1])
      && (forall i | 0 <= i < |nodes| - 1 :: nodes[i].next == nodes[i + 1])
      && (nodes != [] ==> nodes[|nodes| - 1].next == null)
      && (forall i, j | 0 <= i < j < |nodes| :: nodes[i] != nodes[j])
    }

    ghost function Opts(): (r: seq<Opt>)
      reads this
      ensures |r| == |nodes|
    {
      seq(|nodes|, i requires 0 <= i < |nodes| reads this => nodes[i].opt)
    }

    ghost predicate Valid()
      reads this, nodes
    {
      Linked() && Sorted(Opts())
    }

    /** The message as a value. */
    ghost function Value(): Message
      reads this
    {
      Message(flags, msgType, codeClass, codeDetail, msgId, tokenLen, token, Opts(), payload)
    }

    constructor ()
      ensures Valid() && Value() == BLANK && nodes == []
    {
      flags, msgType, codeClass, codeDetail, msgId := {}, 0, 0, 0, 0;
      tokenLen, token, payload := 0, [], [];
      options, tail, nodes := null, null, [];
    }

    /** `prev` and `current` are the nodes before and at position `at`. */
    ghost predicate Between(prev: OptionNode?, current: OptionNode?, at: nat)
      reads this
    {
      && at <= |nodes|
      && (if at == 0 then prev == null else prev == nodes[at - 1])
      && (if at < |nodes| then current == nodes[at] else current == null)
    }

    /** The first option with a higher number, and the one before it. */
    method FindPlace(number: nat) returns (prev: OptionNode?, current: OptionNode?, ghost at: nat)
      requires Valid()
      ensures Between(prev, current, at)
      ensures forall k | 0 <= k < at :: Opts()[k].number <= number
      ensures at < |nodes| ==> Opts()[at].number > number
    {
      prev, current, at := null, options, 0;
      while current != null
        invariant Between(prev, current, at)
        invariant forall k | 0 <= k < at :: Opts()[k].number <= number
        decreases |nodes| - at
      {
        if current.opt.number > number { return; }
        prev, current, at := current, current.next, at + 1;
      }
    }

    /** Links a new node in front of a node of the list. */
    method LinkBefore(node: OptionNode, prev: OptionNode?, current: OptionNode, ghost at: nat)
      requires Linked() && Between(prev, current, at) && node !in nodes && node.next == null
      modifies this`options, this`nodes, nodes, node
      ensures nodes == old(nodes[..at] + [node] + nodes[at..]) && Linked()
    {
      if prev != null {
        prev.next := node;
        node.next := current;
      } else {
        node.next := options;
        options := node;
      }
      nodes := nodes[..at] + [node] + nodes[at..];
    }

    method LinkLast(node: OptionNode)
      requires Linked() && node !in nodes && node.next == null
      modifies this`options, this`tail, this`nodes, nodes
      ensures nodes == old(nodes) + [node] && Linked()
    {
      if options == null {
        options, tail := node, node;
      } else {
        tail.next := node;
        tail := node;
      }
      nodes := nodes + [node];
    }

    /** Every option before the place found has at most the new number. */
    lemma TailIsHighest(number: nat)
      requires Valid() && nodes != [] && tail.opt.number <= number
      ensures forall k | 0 <= k < |nodes| :: Opts()[k].number <= number
    {
      assert forall k | 0 <= k < |nodes| :: Opts()[k].number <= Opts()[|nodes| - 1].number;
    }

    /** Links a new node behind the last one with the same or a lower number. */
    method Link(node: OptionNode) returns (ghost at: nat)
      requires Valid() && node !in nodes && node.next == null
      modifies this`options, this`tail, this`nodes, nodes, node
      ensures at <= |old(nodes)| && nodes == old(nodes[..at] + [node] + nodes[at..]) && Linked()
      ensures forall k | 0 <= k < at :: old(Opts())[k].number <= node.opt.number
      ensures at < |old(nodes)| ==> old(Opts())[at].number > node.opt.number
    {
      hide Sorted;
      at := |nodes|;
      if options == null || tail.opt.number <= node.opt.number {
        if nodes != [] { TailIsHighest(node.opt.number); }
        LinkLast(node);
      } else {
        var prev, current;
        prev, current, at := FindPlace(node.opt.number);
        assert Opts()[|nodes| - 1].number > node.opt.number;
        LinkBefore(node, prev, current, at);
      }
    }

    method AddOption(number: nat, value: bytes)
      requires Valid()
      modifies this`options, this`tail, this`nodes, nodes
      ensures Valid() && forall k | 0 <= k < |nodes| :: nodes[k] in old(nodes) || fresh(nodes[k])
      ensures Opts() == Insert(old(Opts()), Opt(number, value))
    {
      hide Insert, Sorted;
      ghost var opts := Opts();
      var o := Opt(number, value);
      InsertSorted(opts, o);
      var node := new OptionNode(o);
      ghost var at := Link(node);
      InsertAt(opts, o, at);
      assert Opts() == opts[..at] + [o] + opts[at..];
    }

    /** Frees the list. */
    method FreeOptions()
      requires Linked()
      modifies this`options, this`nodes
      ensures Valid() && nodes == [] && options == null
    {
      ghost var left := nodes;
      while options != null
        invariant options == if left == [] then null else left[0]
        invariant forall i | 0 <= i < |left| - 1 :: left[i].next == left[i + 1]
        invariant left != [] ==> left[|left| - 1].next == null
        decreases |left|
      {
        options := options.next;
        left := left[1..];
      }
      nodes := [];
    }

    /** The error, if any, and the size of the packet. */
    /** The loop over the options, which adds to the size of the rest. */
    method MeasureOptions(fixed: nat) returns (ok: bool, len: nat)
      requires Valid()
      ensures ok == Writable(Opts(), 0)
      ensures ok ==> len == fixed + OptionsSize(Opts(), 0)
    {
      hide Writable, OptionsSize, Measuring, Sorted, ExtSize;
      var opt, prevNumber: nat := options, 0;
      ghost var opts, i := Opts(), 0;
      len := fixed;
      MeasuringStart(opts, fixed);
      while opt != null
        invariant i <= |nodes| && (if i < |nodes| then opt == nodes[i] else opt == null)
        invariant Measuring(opts, i, prevNumber, fixed, len)
        decreases |nodes| - i
      {
        MeasuringNext(opts, i, prevNumber, fixed, len);
        var number, size := opt.opt.number, |opt.opt.value|;
        len := len + 1 + ExtSize(number - prevNumber) + ExtSize(size);
        if (opt.next != null && number > opt.next.opt.number) || size > MAX_EXT || number - prevNumber > MAX_EXT {
          return false, len;
        }
        len := len + size;
        prevNumber, opt, i := number, opt.next, i + 1;
      }
      MeasuringEnd(opts, prevNumber, fixed, len);
      ok := true;
    }

    method CalculatePacketSize() returns (err: Option<Flag>, len: nat)
      requires Valid()
      ensures err == Invalid(Value())
      ensures err == None ==> len == PacketSize(Value())
    {
      len := 4;
      if msgType > 3 { return Some(TypeField), len; }
      if |token| > 8 { return Some(TokenField), len; }
      if codeClass > 7 { return Some(ClassField), len; }
      if codeDetail > 31 { return Some(DetailField), len; }
      len := len + |token|;
      if payload != [] {
        len := len + |payload| + 1;
      }
      var ok;
      ok, len := MeasureOptions(len);
      if !ok { return Some(OptionsField), len; }
      return None, len;
    }

    /** Writes the options from position `p` of the space reserved. */
    method ComposeOptions(io: Mbuf, p: nat) returns (p': nat)
      requires Valid() && io.Valid() && Writable(Opts(), 0) && p + OptionsSize(Opts(), 0) <= io.len
      modifies io.buf
      ensures io.Valid() && p' == p + OptionsSize(Opts(), 0)
      ensures io.Contents()[..p'] == old(io.Contents())[..p] + EncodeOptions(Opts(), 0)
    {
      hide EncodeOption, EncodeOptions, OptionsSize, Writable, Composing, Sorted;
      p' := p;
      var opt, prevNumber: nat := options, 0;
      ghost var opts, front, done: bytes, i := Opts(), io.Contents()[..p], [], 0;
      ComposingStart(opts);
      assert front + [] == front;
      while opt != null
        invariant i <= |nodes| && (if i < |nodes| then opt == nodes[i] else opt == null)
        invariant io.Valid() && Composing(opts, i, prevNumber, done)
        invariant p' == p + |done| <= io.len && io.Contents()[..p'] == front + done
        decreases |nodes| - i
      {
        ComposingNext(opts, i, prevNumber, done);
        var delta, value := opt.opt.number - prevNumber, opt.opt.value;
        p' := Put(io, p', EncodeOption(delta, value));
        Cut(front, done, EncodeOption(delta, value));
        done := done + EncodeOption(delta, value);
        prevNumber, opt, i := opt.opt.number, opt.next, i + 1;
      }
      ComposingEnd(opts, prevNumber, done);
    }

    /** Reserves the space for the packet and fills it. */
    method Fill(io: Mbuf, packetSize: nat)
      requires Valid() && io.Valid() && Composable(Value()) && packetSize == PacketSize(Value())
      modifies io, io.buf
      ensures io.Valid() && io.Contents() == old(io.Contents()) + Encode(Value())
    {
      hide EncodeOptions, Writable, PacketSize, OptionsSize, Encode, PayloadPart;
      ghost var was, m := io.Contents(), Value();
      SizeParts(m);
      var p := io.len;
      io.InsertGap(p, packetSize);
      assert io.Contents()[..p] == was;
      var head := [64 + msgType * 16 + |token|, codeClass * 32 + codeDetail] + Be16(msgId);
      p := Put(io, p, head);
      p := Put(io, p, token);
      p := ComposeOptions(io, p);
      p := Put(io, p, PayloadPart(payload));
      Parts(was, m, head);
      assert io.Contents()[..p] == io.Contents();
    }

    /** The error, if any; without one, the message has been appended. */
    method Compose(io: Mbuf) returns (err: Option<Flag>)
      requires Valid() && io.Valid() && msgId < 0x1_0000
      modifies io, io.buf
      ensures io.Valid() && err == Invalid(Value())
      ensures io.Contents() == old(io.Contents()) + if err == None then Encode(Value()) else []
    {
      hide EncodeOptions, Writable, PacketSize, OptionsSize;
      var packetSize;
      err, packetSize := CalculatePacketSize();
      if err != None { return; }
      Fill(io, packetSize);
    }

    /** The header; the result says whether it is good. */
    method ParseHeader(io: Mbuf) returns (ok: bool)
      requires Valid() && io.Valid() && Value() == BLANK
      modifies this`flags, this`msgType, this`codeClass, this`codeDetail, this`msgId, this`tokenLen
      ensures Valid() && Value() == CoapCodec.ParseHeader(io.Contents())
      ensures (ok <==> Error !in flags) && nodes == old(nodes) && payload == old(payload)
      ensures ok ==> io.len >= 4 && tokenLen == io.Contents()[0] % 16
    {
      hide FromBe16;
      ghost var s := io.Contents();
      if io.len < 4 {
        flags := {Error, NotEnoughData};
        return false;
      }
      var b0, b1 := io.buf[0], io.buf[1];
      assert s[0] == b0 && s[1] == b1;
      if b0 / 64 != 1 {
        flags := {Error, Ignore};
        return false;
      }
      msgType, flags, tokenLen := b0 / 16 % 4, {TypeField}, b0 % 16;
      if tokenLen > 8 {
        flags := flags + {Error, FormatError};
        return false;
      }
      codeClass, codeDetail, msgId := b1 / 32, b1 % 32, FromBe16(io.buf[2], io.buf[3]);
      flags := {TypeField, ClassField, DetailField, IdField};
      assert Opts() == [];
      ok := true;
    }

    /** One turn of the loop: reads the option at `p` and adds it, also when its
        value turns out to run past the end of the packet. */
    method TakeOption(io: Mbuf, p: nat, prev: nat) returns (why: set<Flag>, number: nat, next: nat)
      requires Valid() && io.Valid() && p < io.len && io.buf[p] != MARKER
      modifies this`options, this`tail, this`nodes, nodes
      ensures Valid() && forall k | 0 <= k < |nodes| :: nodes[k] in old(nodes) || fresh(nodes[k])
      ensures match ReadOption(io.Contents()[p..], prev)
              case Not(flags) => why == flags != {}
              case One(o, used) =>
                why == {} && number == o.number && next == p + used <= io.len && Opts() == Insert(old(Opts()), o)
    {
      hide ReadOption, Insert, Sorted;
      var len;
      why, number, next, len := ReadHead(io, p, prev);
      if why != {} { return; }
      var end := if next + len > io.len then io.len else next + len;
      AddOption(number, io.Contents()[next..end]);
      if next + len > io.len {
        why := {Error, NotEnoughData};
        return;
      }
      next := end;
    }

    /** The loop over the options from position `p` on. */
    method ParseOptions(io: Mbuf, p: nat) returns (rest: nat, why: set<Flag>)
      requires Valid() && nodes == [] && io.Valid() && p <= io.len
      modifies this`options, this`tail, this`nodes
      ensures Valid() && p <= rest <= io.len
      ensures match ReadOptions(io.Contents()[p..], 0)
              case Failed(flags) => why == flags != {} && Opts() == []
              case Options(opts, more) => why == {} && Opts() == AddAll(opts) && more == io.Contents()[rest..]
    {
      hide Insert, AddAll, Reading, ReadOption, ReadOptions, Sorted;
      rest, why := p, {};
      var prev: nat := 0;
      ghost var s, total, opts: seq<Opt> := io.Contents()[p..], ReadOptions(io.Contents()[p..], 0), [];
      ReadingStart(total);
      while rest < io.len && io.buf[rest] != MARKER
        invariant Valid() && (forall k | 0 <= k < |nodes| :: fresh(nodes[k])) && p <= rest <= io.len
        invariant why == {} && s == io.Contents()[rest..] && Opts() == AddAll(opts)
        invariant Reading(total, ReadOptions(s, prev), opts)
        decreases io.len - rest
      {
        ReadingNext(total, s, prev, opts);
        ghost var read := ReadOption(s, prev);
        var number, next;
        why, number, next := TakeOption(io, rest, prev);
        if why != {} {
          FreeOptions();
          return;
        }
        AddAllMore(opts, read.opt);
        assert s[read.used..] == io.Contents()[next..];
        opts, s := opts + [read.opt], s[read.used..];
        prev, rest := number, next;
      }
      ReadingEnd(total, s, prev, opts);
    }

    /** The part after the token, from position `p` on. */
    method ParseBody(io: Mbuf, p: nat)
      requires Valid() && nodes == [] && payload == [] && io.Valid() && p <= io.len
      modifies this
      ensures Valid() && Value() == CoapCodec.ParseBody(old(Value()), io.Contents()[p..])
    {
      hide ReadOptions, AddAll, Sorted;
      ghost var m, s := Value(), io.Contents()[p..];
      if p == io.len {
        assert s == [];
        return;
      }
      var rest, why := ParseOptions(io, p);
      if why != {} {
        flags := flags + why;
        assert Value() == m.(flags := m.flags + why);
        return;
      }
      ghost var opts := Opts();
      flags := flags + {OptionsField};
      if rest < io.len && rest + 1 < io.len {
        payload := io.Contents()[rest..][1..];
        flags := flags + {PayloadField};
      }
      assert Opts() == opts;
    }

    /** The token and all that follows it. */
    method ParseToken(io: Mbuf)
      requires Valid() && nodes == [] && payload == [] && io.Valid() && io.len >= 4
      modifies this
      ensures Valid() && Value() == CoapCodec.ParseToken(old(Value()), old(tokenLen), io.Contents()[4..])
    {
      hide CoapCodec.ParseBody, FromBe16;
      ghost var m, s := Value(), io.Contents();
      if 4 + tokenLen > io.len {
        flags := flags + {Error, NotEnoughData};
        assert Value() == m.(flags := m.flags + {Error, NotEnoughData});
        return;
      }
      if tokenLen != 0 {
        token, flags := io.Contents()[4..][..tokenLen], flags + {TokenField};
      }
      assert Value() == if tokenLen == 0 then m else m.(flags := m.flags + {TokenField}, token := s[4..][..tokenLen]);
      assert s[4..][tokenLen..] == s[4 + tokenLen..];
      ParseBody(io, 4 + tokenLen);
    }

    /** What `memset` to 0 leaves. */
    method Clear()
      modifies this
      ensures Valid() && Value() == BLANK && nodes == []
    {
      flags, msgType, codeClass, codeDetail, msgId := {}, 0, 0, 0, 0;
      tokenLen, token, payload := 0, [], [];
      options, tail, nodes := null, null, [];
      assert Value() == BLANK;
    }

    /** Parses the packet in the buffer; whatever the message held is gone. */
    method Parse(io: Mbuf) returns (result: set<Flag>)
      requires io.Valid()
      modifies this
      ensures Valid() && Value() == CoapCodec.Parse(io.Contents()) && result == flags
    {
      hide CoapCodec.ParseHeader, CoapCodec.ParseToken;
      Clear();
      var ok := ParseHeader(io);
      if ok {
        ParseToken(io);
      }
      return flags;
    }
  }

  /** Composing into an empty buffer and parsing from it. */
  method Transmit(cm: CoapMessage) returns (err: Option<Flag>, packet: bytes, received: CoapMessage)
    requires cm.Valid() && cm.msgId < 0x1_0000
    ensures err == Invalid(cm.Value()) && fresh(received) && received.Valid()
    ensures if err == None then |packet| == PacketSize(cm.Value()) else packet == []
    ensures err == None ==> (received.Value() == Received(cm.Value()) <==> Narrow(cm.Value().options))
    ensures err == None && Short(cm.Value().options)
            ==> received.Value() == Received(cm.Value()).(options := AddAll(Cut16(cm.Value().options)))
  {
    hide CoapCodec.Parse, Encode, Invalid, PacketSize, Received, Sorted, Narrow, Short, AddAll, Cut16;
    received := new CoapMessage();
    var io := new Mbuf(0);
    err := cm.Compose(io);
    packet := io.Contents();
    if err == None {
      ghost var sent := cm.Value();
      assert packet == [] + Encode(sent) == Encode(sent);
      PacketSizeRight(sent);
      RoundTripCondition(sent);
      if Short(sent.options) { WideRoundTrip(sent); }
      var flags := received.Parse(io);
    }
  }

  lemma NoneAdded()
    ensures AddAll([]) == []
  {
  }

  method AddOptions(cm: CoapMessage, added: seq<Opt>)
    requires cm.Valid() && cm.nodes == []
    modifies cm
    ensures cm.Valid() && cm.Value() == old(cm.Value()).(options := AddAll(added))
    ensures forall k | 0 <= k < |cm.nodes| :: fresh(cm.nodes[k])
  {
    hide AddAll, Insert, Sorted;
    NoneAdded();
    var i := 0;
    while i < |added|
      invariant 0 <= i <= |added| && cm.Valid() && forall k | 0 <= k < |cm.nodes| :: fresh(cm.nodes[k])
      invariant cm.Value() == old(cm.Value()).(options := AddAll(added[..i]))
    {
      AddAllMore(added[..i], added[i]);
      assert added[..i] + [added[i]] == added[..i + 1];
      cm.AddOption(added[i].number, added[i].value);
      i := i + 1;
    }
    assert added[..i] == added;
  }

  lemma {:induction false} InsertedIsThere(opts: seq<Opt>, x: Opt, o: Opt)
    ensures o in CoapCodec.Insert(opts, x) <==> o == x || o in opts
  {
    if opts != [] && opts[0].number <= x.number {
      InsertedIsThere(opts[1..], x, o);
      assert opts == [opts[0]] + opts[1..];
    }
  }

  lemma {:induction false} AddedAreThere(added: seq<Opt>)
    ensures forall o :: o in AddAll(added) <==> o in added
  {
    if added != [] {
      var front, last := added[..|added| - 1], added[|added| - 1];
      assert added == front + [last];
      AddedAreThere(front);
      forall o ensures o in AddAll(added) <==> o in added {
        InsertedIsThere(AddAll(front), last, o);
      }
    }
  }

  /** Sorted options of 16 bits have gaps and lengths that can be written. */
  lemma NarrowFollow(added: seq<Opt>)
    requires forall o | o in added :: o.number < 0x1_0000 && |o.value| < 0x1_0000
    ensures forall i | 0 <= i < |AddAll(added)| :: Follows(AddAll(added), 0, i)
  {
    AddAllIsStableSort(added);
    AddedAreThere(added);
    var opts := AddAll(added);
    forall i | 0 <= i < |opts| ensures Follows(opts, 0, i) {
      assert opts[i] in opts && (i > 0 ==> opts[i - 1] in opts);
    }
  }

  /** Options added in any order, composed into an empty buffer and parsed from
      it: the receiver has them sorted by number, those of one number in the
      order in which they were added, and everything else as it was sent. */
  method Exchange(m: Message, added: seq<Opt>) returns (err: Option<Flag>, packet: bytes, received: CoapMessage)
    requires m.options == [] && m.msgId < 0x1_0000
    ensures var opts := AddAll(added);
            err == None <==>
              && m.msgType <= 3 && |m.token| <= 8 && m.codeClass <= 7 && m.codeDetail <= 31
              && forall i | 0 <= i < |opts| :: Follows(opts, 0, i)
    ensures err == Some(TypeField) <==> m.msgType > 3
    ensures err == Some(TokenField) <==> m.msgType <= 3 && |m.token| > 8
    ensures err == Some(ClassField) <==> m.msgType <= 3 && |m.token| <= 8 && m.codeClass > 7
    ensures err == Some(DetailField) <==> m.msgType <= 3 && |m.token| <= 8 && m.codeClass <= 7 && m.codeDetail > 31
    ensures err in {None, Some(TypeField), Some(TokenField), Some(ClassField), Some(DetailField), Some(OptionsField)}
    ensures err != None ==> packet == []
    ensures (forall o | o in added :: o.number < 0x1_0000 && |o.value| < 0x1_0000)
            && m.msgType <= 3 && |m.token| <= 8 && m.codeClass <= 7 && m.codeDetail <= 31
            ==> err == None && received.Value() == Received(m.(options := AddAll(added)))
    ensures var sent := m.(options := AddAll(added));
            && err == Invalid(sent) && (err == None ==> |packet| == PacketSize(sent))
            && (err == None ==>
                  (received.Value() == Received(sent) <==> forall o | o in AddAll(added) :: o.number < 0x1_0000 && |o.value| < 0x1_0000))
            && (err == None && Short(sent.options)
                ==> received.Value() == Received(sent).(options := AddAll(Cut16(sent.options))))
    ensures err == None && (forall o | o in added :: |o.value| < 0x1_0000) ==>
              && received.msgType == m.msgType && received.codeClass == m.codeClass && received.codeDetail == m.codeDetail
              && received.msgId == m.msgId && received.token == m.token && received.tokenLen == |m.token|
              && received.payload == m.payload && Error !in received.flags
  {
    hide AddAll, Invalid, PacketSize, Received;
    var cm := new CoapMessage();
    cm.msgType, cm.codeClass, cm.codeDetail, cm.msgId := m.msgType, m.codeClass, m.codeDetail, m.msgId;
    cm.tokenLen, cm.token, cm.payload, cm.flags := m.tokenLen, m.token, m.payload, m.flags;
    assert cm.Value() == m;
    AddOptions(cm, added);
    err, packet, received := Transmit(cm);
    ghost var sent := m.(options := AddAll(added));
    ComposedExactly(sent);
    AddedAreThere(added);
    if forall o | o in added :: o.number < 0x1_0000 && |o.value| < 0x1_0000 {
      NarrowFollow(added);
    }
    FieldsReceived(sent);
  }
}
