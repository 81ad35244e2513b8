/** CoAP messages as octets (section 3 of RFC 7252): the values that
    3rd_party/mongoose.c composes and parses. */
module CoapCodec {
  import opened Bytes

  datatype Opt = Opt(number: nat, value: bytes)

  datatype Flag =
    | TypeField | ClassField | DetailField | IdField | TokenField | OptionsField | PayloadField
    | Error | FormatError | Ignore | NotEnoughData

  /** The public part of `struct mg_coap_message`. `tokenLen` is the length that
      the parser records, also when it then fails to find the token. */
  datatype Message = Message(
    flags: set<Flag>, msgType: nat, codeClass: nat, codeDetail: nat, msgId: nat,
    tokenLen: nat, token: bytes, options: seq<Opt>, payload: bytes)

  const BLANK := Message({}, 0, 0, 0, 0, 0, [], [], [])
  const MAX_EXT := 0xFFFF + 269
  const MARKER: byte := 0xFF

  // Options in ascending order

  predicate Sorted(opts: seq<Opt>) {
    forall i, j | 0 <= i < j < |opts| :: opts[i].number <= opts[j].number
  }

  /** Adding an option puts it behind all those of the same or a lower number. */
  function Insert(opts: seq<Opt>, o: Opt): (r: seq<Opt>)
    ensures |r| == |opts| + 1
  {
    if opts == [] || opts[0].number > o.number then [o] + opts
    else [opts[0]] + Insert(opts[1..], o)
  }

  /** The options after adding those given, one after the other. */
  function AddAll(added: seq<Opt>): (r: seq<Opt>)
    ensures |r| == |added|
  {
    if added == [] then [] else Insert(AddAll(added[..|added| - 1]), added[|added| - 1])
  }

  /** The options of one number, in their order. */
  function Of(opts: seq<Opt>, number: nat): seq<Opt> {
    if opts == [] then []
    else (if opts[0].number == number then [opts[0]] else []) + Of(opts[1..], number)
  }

  lemma {:induction false} InsertSorted(opts: seq<Opt>, o: Opt)
    requires Sorted(opts)
    ensures Sorted(Insert(opts, o))
    ensures forall x | x in Insert(opts, o) :: x == o || x in opts
  {
    if opts != [] && opts[0].number <= o.number {
      InsertSorted(opts[1..], o);
      var rest := Insert(opts[1..], o);
      assert forall x | x in rest :: x == o || x in opts[1..];
      forall i | 0 <= i < |rest|
        ensures opts[0].number <= rest[i].number
      {
        assert rest[i] in rest;
        if rest[i] != o {
          var k :| 0 <= k < |opts[1..]| && opts[1..][k] == rest[i];
          assert opts[k + 1] == rest[i];
        }
      }
    }
  }

  lemma {:induction false} OfAppend(a: seq<Opt>, b: seq<Opt>, number: nat)
    ensures Of(a + b, number) == Of(a, number) + Of(b, number)
  {
    if a == [] {
      assert a + b == b;
    } else {
      OfAppend(a[1..], b, number);
      assert (a + b)[1..] == a[1..] + b;
      Cut(if a[0].number == number then [a[0]] else [], Of(a[1..], number), Of(b, number));
    }
  }

  lemma {:induction false} NoneOf(opts: seq<Opt>, number: nat)
    requires forall o | o in opts :: o.number != number
    ensures Of(opts, number) == []
  {
    if opts != [] {
      assert opts[0] in opts;
      NoneOf(opts[1..], number);
    }
  }

  lemma {:induction false} InsertStable(opts: seq<Opt>, o: Opt, number: nat)
    requires Sorted(opts)
    ensures Of(Insert(opts, o), number) == Of(opts, number) + Of([o], number)
  {
    if opts == [] || opts[0].number > o.number {
      OfAppend([o], opts, number);
      if o.number == number {
        NoneOf(opts, number);
      }
    } else {
      InsertStable(opts[1..], o, number);
      assert Insert(opts, o)[1..] == Insert(opts[1..], o);
    }
  }

  /** Adding options one by one sorts them by number and keeps the order of
      those with the same number. */
  lemma {:induction false} AddAllIsStableSort(added: seq<Opt>)
    ensures Sorted(AddAll(added))
    ensures forall n: nat :: Of(AddAll(added), n) == Of(added, n)
  {
    if added != [] {
      var front, last := added[..|added| - 1], added[|added| - 1];
      AddAllIsStableSort(front);
      InsertSorted(AddAll(front), last);
      forall n: nat
        ensures Of(AddAll(added), n) == Of(added, n)
      {
        InsertStable(AddAll(front), last, n);
        OfAppend(front, [last], n);
        assert added == front + [last];
      }
    }
  }

  lemma {:induction false} InsertLast(opts: seq<Opt>, o: Opt)
    requires forall x | x in opts :: x.number <= o.number
    ensures Insert(opts, o) == opts + [o]
  {
    if opts != [] {
      assert opts[0] in opts;
      InsertLast(opts[1..], o);
    }
  }

  lemma {:induction false} AddAllSorted(opts: seq<Opt>)
    requires Sorted(opts)
    ensures AddAll(opts) == opts
  {
    if opts != [] {
      var front, last := opts[..|opts| - 1], opts[|opts| - 1];
      AddAllSorted(front);
      InsertLast(front, last);
    }
  }

  // Composing

  /** An option number difference or length: its four bits, and what follows. */
  function Base(v: nat): (r: nat)
    ensures r <= 14
  {
    if v < 13 then v else if v <= 0xFF + 13 then 13 else 14
  }

  function ExtSize(v: nat): nat {
    if 13 <= v <= 0xFF + 13 then 1 else if 0xFF + 13 < v <= MAX_EXT then 2 else 0
  }

  function Ext(v: nat): (r: bytes)
    requires v <= MAX_EXT
    ensures |r| == ExtSize(v)
  {
    if v < 13 then [] else if v <= 0xFF + 13 then [v - 13] else Be16(v - 269)
  }

  /** The options can be written: ascending, with gaps and lengths in range. */
  predicate Writable(opts: seq<Opt>, prev: nat) {
    opts == [] ||
    (prev <= opts[0].number <= prev + MAX_EXT && |opts[0].value| <= MAX_EXT && Writable(opts[1..], opts[0].number))
  }

  function EncodeOption(delta: nat, value: bytes): bytes
    requires delta <= MAX_EXT && |value| <= MAX_EXT
  {
    [Base(delta) * 16 + Base(|value|)] + Ext(delta) + Ext(|value|) + value
  }

  function EncodeOptions(opts: seq<Opt>, prev: nat): bytes
    requires Writable(opts, prev)
  {
    if opts == [] then []
    else EncodeOption(opts[0].number - prev, opts[0].value) + EncodeOptions(opts[1..], opts[0].number)
  }

  function PayloadPart(payload: bytes): bytes {
    if payload == [] then [] else [MARKER] + payload
  }

  /** The field that keeps a message from being composed, in the order in which
      the fields are checked. */
  function Invalid(m: Message): Option<Flag> {
    if m.msgType > 3 then Some(TypeField)
    else if |m.token| > 8 then Some(TokenField)
    else if m.codeClass > 7 then Some(ClassField)
    else if m.codeDetail > 31 then Some(DetailField)
    else if !Writable(m.options, 0) then Some(OptionsField)
    else None
  }

  predicate Composable(m: Message) {
    Invalid(m) == None && m.msgId < 0x1_0000
  }

  /** Option `i` can be written after the one before it, the first one after `prev`. */
  predicate Follows(opts: seq<Opt>, prev: nat, i: nat)
    requires i < |opts|
  {
    var before := if i == 0 then prev else opts[i - 1].number;
    before <= opts[i].number <= before + 65804 && |opts[i].value| <= 65804
  }

  lemma {:induction false} WritableExactly(opts: seq<Opt>, prev: nat)
    ensures Writable(opts, prev) <==> forall i | 0 <= i < |opts| :: Follows(opts, prev, i)
  {
    if opts != [] {
      var rest, first := opts[1..], opts[0].number;
      WritableExactly(rest, first);
      assert Follows(opts, prev, 0) <==> prev <= first <= prev + MAX_EXT && |opts[0].value| <= MAX_EXT;
      assert forall i | 1 <= i < |opts| :: Follows(opts, prev, i) == Follows(rest, first, i - 1);
      assert forall i | 0 <= i < |rest| :: Follows(rest, first, i) == Follows(opts, prev, i + 1);
    }
  }

  /** Which messages are composed: fields in the ranges of the header, and options
      in ascending order with gaps and lengths of at most 65804. A fault is laid to
      the first field that is out of range. */
  lemma ComposedExactly(m: Message)
    ensures Invalid(m) == None <==>
            && m.msgType <= 3 && |m.token| <= 8 && m.codeClass <= 7 && m.codeDetail <= 31
            && forall i | 0 <= i < |m.options| :: Follows(m.options, 0, i)
    ensures Invalid(m) == Some(TypeField) <==> m.msgType > 3
    ensures Invalid(m) == Some(TokenField) <==> m.msgType <= 3 && |m.token| > 8
    ensures Invalid(m) == Some(ClassField) <==> m.msgType <= 3 && |m.token| <= 8 && m.codeClass > 7
    ensures Invalid(m) == Some(DetailField) <==> m.msgType <= 3 && |m.token| <= 8 && m.codeClass <= 7 && m.codeDetail > 31
    ensures Invalid(m) in {None, Some(TypeField), Some(TokenField), Some(ClassField), Some(DetailField), Some(OptionsField)}
  {
    WritableExactly(m.options, 0);
  }

  /** The four octets that every packet starts with. */
  function Head(m: Message): (r: bytes)
    requires Composable(m)
    ensures |r| == 4
  {
    [64 + m.msgType * 16 + |m.token|, m.codeClass * 32 + m.codeDetail] + Be16(m.msgId)
  }

  function Encode(m: Message): bytes
    requires Composable(m)
  {
    Head(m) + m.token + EncodeOptions(m.options, 0) + PayloadPart(m.payload)
  }

  lemma HeadFields(m: Message)
    requires Composable(m)
    ensures var s := Head(m);
            && s[0] / 64 == 1 && s[0] / 16 % 4 == m.msgType && s[0] % 16 == |m.token|
            && s[1] / 32 == m.codeClass && s[1] % 32 == m.codeDetail
            && s[2] == m.msgId / 256 && s[3] == m.msgId % 256
  {
    hide Writable;
  }

  lemma FourParts(a: bytes, b: bytes, c: bytes, d: bytes)
    ensures var s := a + b + c + d;
            && (forall i | 0 <= i < |a| :: s[i] == a[i]) && s[|a|..|a| + |b|] == b
            && forall k | 0 <= k < |d| :: s[|s| - |d| + k] == d[k] && s[|s| - |d| + k..] == d[k..]
  {
    forall k | 0 <= k < |d| ensures (a + b + c + d)[|a + b + c| + k..] == d[k..] {
    }
  }

  lemma PayloadLast(payload: bytes)
    ensures var part := PayloadPart(payload);
            |part| >= |payload| && (payload != [] ==> |part| == 1 + |payload| && part[0] == 0xFF && part[1..] == payload)
  {
  }

  /** Where the fields stand: version 1, type and token length, the code, the id in
      network byte order, the token, and at the end the payload behind its marker. */
  lemma Layout(m: Message)
    requires Composable(m)
    ensures var s, n := Encode(m), |Encode(m)| - |m.payload|;
            && |s| >= 4 + |m.token| + |m.payload|
            && s[0] / 64 == 1 && s[0] / 16 % 4 == m.msgType && s[0] % 16 == |m.token|
            && s[1] / 32 == m.codeClass && s[1] % 32 == m.codeDetail
            && s[2] == m.msgId / 256 && s[3] == m.msgId % 256
            && s[4..4 + |m.token|] == m.token
            && (m.payload != [] ==> n > 4 + |m.token| && s[n - 1] == 0xFF && s[n..] == m.payload)
  {
    HeadFields(m);
    PayloadLast(m.payload);
    hide EncodeOptions, Invalid, Head, PayloadPart;
    FourParts(Head(m), m.token, EncodeOptions(m.options, 0), PayloadPart(m.payload));
  }

  /** The size that is reserved before anything is written. */
  function OptionsSize(opts: seq<Opt>, prev: nat): nat
    requires Writable(opts, prev)
  {
    if opts == [] then 0
    else 1 + ExtSize(opts[0].number - prev) + ExtSize(|opts[0].value|) + |opts[0].value|
         + OptionsSize(opts[1..], opts[0].number)
  }

  function PacketSize(m: Message): nat
    requires Writable(m.options, 0)
  {
    4 + |m.token| + (if m.payload == [] then 0 else |m.payload| + 1) + OptionsSize(m.options, 0)
  }

  lemma {:induction false} OptionsSizeRight(opts: seq<Opt>, prev: nat)
    requires Writable(opts, prev)
    ensures |EncodeOptions(opts, prev)| == OptionsSize(opts, prev)
  {
    if opts != [] {
      OptionsSizeRight(opts[1..], opts[0].number);
    }
  }

  lemma PacketSizeRight(m: Message)
    requires Composable(m)
    ensures |Encode(m)| == PacketSize(m)
  {
    OptionsSizeRight(m.options, 0);
  }

  // Parsing

  /** What the loop over options makes of the rest of a packet: the options in
      the order read and what follows them, or the reason for giving up. */
  datatype Read = Options(opts: seq<Opt>, rest: bytes) | Failed(why: set<Flag>)

  datatype Extended = Extended(value: nat, used: nat)

  /** A difference or length whose four bits are `base`, and how many octets it
      takes from the front of `s`. The sum is kept in 16 bits. */
  function ReadExt(base: nat, s: bytes): (r: Option<Extended>)
    ensures r.Some? ==> r.value.used <= |s|
  {
    if base == 13 then
      if s == [] then None
      else
        var low: nat := s[0];
        Some(Extended(low + 13, 1))
    else if base == 14 then
      if |s| < 2 then None else Some(Extended((FromBe16(s[0], s[1]) + 269) % 0x1_0000, 2))
    else Some(Extended(base, 0))
  }

  /** One option: its number, its value, and the octets it takes. */
  datatype One = One(opt: Opt, used: nat) | Not(why: set<Flag>)

  function ReadOption(s: bytes, prev: nat): (r: One)
    requires s != []
    ensures r.One? ==> 0 < r.used <= |s|
  {
    if s[0] / 16 == 15 || s[0] % 16 == 15 then Not({Error, FormatError})
    else
      match ReadExt(s[0] / 16, s[1..])
      case None => Not({Error, NotEnoughData})
      case Some(Extended(delta, n)) =>
        match ReadExt(s[0] % 16, s[1 + n..])
        case None => Not({Error, NotEnoughData})
        case Some(Extended(len, k)) =>
          var start := 1 + n + k;
          if start + len > |s| then Not({Error, NotEnoughData})
          else One(Opt((delta + prev) % 0x1_0000, s[start..start + len]), start + len)
  }

  function ReadOptions(s: bytes, prev: nat): (r: Read)
    ensures r.Options? && r.rest != [] ==> r.rest[0] == MARKER
    decreases |s|
  {
    if s == [] || s[0] == MARKER then Options([], s)
    else
      match ReadOption(s, prev)
      case Not(why) => Failed(why)
      case One(o, used) =>
        match ReadOptions(s[used..], o.number)
        case Failed(why) => Failed(why)
        case Options(opts, rest) => Options([o] + opts, rest)
  }

  function ParseHeader(s: bytes): Message {
    if |s| < 4 then BLANK.(flags := {Error, NotEnoughData})
    else if s[0] / 64 != 1 then BLANK.(flags := {Error, Ignore})
    else
      var m := BLANK.(flags := {TypeField}, msgType := s[0] / 16 % 4, tokenLen := s[0] % 16);
      if s[0] % 16 > 8 then m.(flags := m.flags + {Error, FormatError})
      else
        m.(flags := {TypeField, ClassField, DetailField, IdField},
           codeClass := s[1] / 32, codeDetail := s[1] % 32, msgId := FromBe16(s[2], s[3]))
  }

  /** What the loop over options and the rest of the packet add to `m`. */
  function WithOptions(m: Message, r: Read): Message {
    match r
    case Failed(why) => m.(flags := m.flags + why)
    case Options(opts, rest) =>
      var withOptions := m.(flags := m.flags + {OptionsField}, options := AddAll(opts));
      if |rest| <= 1 then withOptions
      else withOptions.(flags := withOptions.flags + {PayloadField}, payload := rest[1..])
  }

  function ParseBody(m: Message, s: bytes): Message {
    if s == [] then m else WithOptions(m, ReadOptions(s, 0))
  }

  function ParseToken(m: Message, n: nat, s: bytes): Message {
    if n > |s| then m.(flags := m.flags + {Error, NotEnoughData})
    else
      ParseBody(if n == 0 then m else m.(flags := m.flags + {TokenField}, token := s[..n]), s[n..])
  }

  function Parse(s: bytes): Message {
    var m := ParseHeader(s);
    if Error in m.flags then m else ParseToken(m, s[0] % 16, s[4..])
  }

  // Round trip

  /** Numbers and lengths that the parser can hold in 16 bits. */
  predicate Narrow(opts: seq<Opt>) {
    forall o | o in opts :: o.number < 0x1_0000 && |o.value| < 0x1_0000
  }

  lemma ExtRoundTrip(v: nat, t: bytes)
    requires v <= MAX_EXT
    ensures ReadExt(Base(v), Ext(v) + t) == Some(Extended(v % 0x1_0000, ExtSize(v)))
  {
  }

  lemma OptionParts(o: Opt, delta: nat, t: bytes)
    requires delta <= MAX_EXT && |o.value| <= MAX_EXT
    ensures var s, n, k := EncodeOption(delta, o.value) + t, ExtSize(delta), ExtSize(|o.value|);
            && s[0] == Base(delta) * 16 + Base(|o.value|)
            && s[1..] == Ext(delta) + (Ext(|o.value|) + o.value + t)
            && s[1 + n..] == Ext(|o.value|) + (o.value + t)
            && s[1 + n + k..1 + n + k + |o.value|] == o.value
  {
    hide Base, Ext, ExtSize;
    var head, a, b := [Base(delta) * 16 + Base(|o.value|)], Ext(delta), Ext(|o.value|);
    var s := EncodeOption(delta, o.value) + t;
    assert s == head + a + b + o.value + t;
    Cut(head + a + b, o.value, t);
    Cut(head + a, b, o.value + t);
    Cut(head, a, b + (o.value + t));
    Cut(b, o.value, t);
  }

  /** Values whose lengths the parser can hold in 16 bits. */
  predicate Short(opts: seq<Opt>) {
    forall o | o in opts :: |o.value| < 0x1_0000
  }

  /** Option numbers as the parser's 16 bits have them. */
  function Cut16(opts: seq<Opt>): (r: seq<Opt>)
    ensures |r| == |opts|
  {
    if opts == [] then [] else [Opt(opts[0].number % 0x1_0000, opts[0].value)] + Cut16(opts[1..])
  }

  lemma NarrowParts(opts: seq<Opt>)
    requires opts != [] && Narrow(opts)
    ensures opts[0].number % 0x1_0000 == opts[0].number && Narrow(opts[1..])
  {
    assert opts[0] in opts && forall o | o in opts[1..] :: o in opts;
  }

  lemma {:induction false} CutNarrow(opts: seq<Opt>)
    requires Narrow(opts)
    ensures Cut16(opts) == opts
  {
    if opts != [] {
      NarrowParts(opts);
      hide Narrow;
      CutNarrow(opts[1..]);
    }
  }

  lemma SumOfRests(a: nat, b: nat)
    ensures (a % 0x1_0000 + b % 0x1_0000) % 0x1_0000 == (a + b) % 0x1_0000
  {
  }

  lemma OptionRoundTrip(o: Opt, prev: nat, t: bytes)
    requires prev <= o.number <= prev + MAX_EXT && |o.value| < 0x1_0000
    ensures var s := EncodeOption(o.number - prev, o.value);
            ReadOption(s + t, prev % 0x1_0000) == One(Opt(o.number % 0x1_0000, o.value), |s|) && s[0] != MARKER
  {
    hide Base, Ext, ReadExt, ExtSize;
    var delta, len := o.number - prev, |o.value|;
    OptionParts(o, delta, t);
    ExtRoundTrip(delta, Ext(len) + o.value + t);
    ExtRoundTrip(len, o.value + t);
    SumOfRests(delta, prev);
    assert (Base(delta) * 16 + Base(len)) / 16 == Base(delta) && (Base(delta) * 16 + Base(len)) % 16 == Base(len);
  }

  lemma ReadNothing(s: bytes, prev: nat)
    requires s != [] ==> s[0] == MARKER
    ensures ReadOptions(s, prev) == Options([], s)
  {
  }

  lemma ReadOptionsStep(s: bytes, prev: nat)
    requires s != [] && s[0] != MARKER && ReadOption(s, prev).One?
    ensures var One(o, used) := ReadOption(s, prev);
            var more := ReadOptions(s[used..], o.number);
            ReadOptions(s, prev) == if more.Failed? then more else Options([o] + more.opts, more.rest)
  {
  }

  lemma ShortParts(opts: seq<Opt>)
    requires opts != [] && Short(opts)
    ensures |opts[0].value| < 0x1_0000 && Short(opts[1..])
  {
    assert opts[0] in opts && forall o | o in opts[1..] :: o in opts;
  }

  function Last(opts: seq<Opt>, prev: nat): nat {
    if opts == [] then prev else opts[|opts| - 1].number
  }

  /** Whatever follows options is read as if it stood alone behind the last one. */
  lemma {:induction false} OptionsThen(opts: seq<Opt>, prev: nat, t: bytes)
    requires Writable(opts, prev) && Short(opts)
    ensures var more := ReadOptions(t, Last(opts, prev) % 0x1_0000);
            ReadOptions(EncodeOptions(opts, prev) + t, prev % 0x1_0000)
            == if more.Failed? then more else Options(Cut16(opts) + more.opts, more.rest)
  {
    hide EncodeOption, ReadOption, ReadOptions, Short;
    var more := ReadOptions(t, Last(opts, prev) % 0x1_0000);
    if opts == [] {
      assert EncodeOptions(opts, prev) + t == t;
      assert more.Options? ==> [] + more.opts == more.opts;
    } else {
      ShortParts(opts);
      var first, rest := EncodeOption(opts[0].number - prev, opts[0].value), EncodeOptions(opts[1..], opts[0].number) + t;
      OptionRoundTrip(opts[0], prev, rest);
      OptionsThen(opts[1..], opts[0].number, t);
      assert Last(opts[1..], opts[0].number) == Last(opts, prev);
      Cut(first, EncodeOptions(opts[1..], opts[0].number), t);
      assert (first + rest)[|first|..] == rest && (first + rest)[0] == first[0];
      ReadOptionsStep(first + rest, prev % 0x1_0000);
      if more.Options? {
        Cut([Opt(opts[0].number % 0x1_0000, opts[0].value)], Cut16(opts[1..]), more.opts);
      }
    }
  }

  /** Options are read back with their numbers in 16 bits. */
  lemma {:induction false} OptionsRoundTrip(opts: seq<Opt>, prev: nat, t: bytes)
    requires Writable(opts, prev) && Short(opts) && (t != [] ==> t[0] == MARKER)
    ensures ReadOptions(EncodeOptions(opts, prev) + t, prev % 0x1_0000) == Options(Cut16(opts), t)
  {
    hide EncodeOptions, ReadOptions;
    OptionsThen(opts, prev, t);
    ReadNothing(t, Last(opts, prev) % 0x1_0000);
    assert Cut16(opts) + [] == Cut16(opts);
  }

  /** Four bits of 15 are a format error, after any options. */
  lemma ReservedBits(opts: seq<Opt>, prev: nat, t: bytes)
    requires Writable(opts, prev) && Short(opts)
    requires t != [] && t[0] != 0xFF && (t[0] / 16 == 15 || t[0] % 16 == 15)
    ensures ReadOptions(EncodeOptions(opts, prev) + t, prev % 0x1_0000) == Failed({Error, FormatError})
  {
    OptionsThen(opts, prev, t);
    hide EncodeOptions;
    assert ReadOptions(t, Last(opts, prev) % 0x1_0000) == Failed({Error, FormatError});
  }

  lemma ExtCutShort(v: nat, x: bytes)
    requires v <= MAX_EXT && |x| < ExtSize(v)
    ensures ReadExt(Base(v), x) == None
  {
  }

  lemma OptionCutShort(delta: nat, value: bytes, prev: nat, k: nat)
    requires delta <= MAX_EXT && |value| < 0x1_0000 && 0 < k < |EncodeOption(delta, value)|
    ensures ReadOption(EncodeOption(delta, value)[..k], prev) == Not({Error, NotEnoughData})
  {
    hide Base, Ext, ReadExt, ExtSize;
    var len, s := |value|, EncodeOption(delta, value)[..k];
    var d, l := Ext(delta), Ext(len);
    assert (Base(delta) * 16 + Base(len)) / 16 == Base(delta) && (Base(delta) * 16 + Base(len)) % 16 == Base(len);
    if k < 1 + |d| {
      ExtCutShort(delta, s[1..]);
    } else {
      assert s[1..] == d + s[1 + |d|..];
      ExtRoundTrip(delta, s[1 + |d|..]);
      if k < 1 + |d| + |l| {
        ExtCutShort(len, s[1 + |d|..]);
      } else {
        assert s[1 + |d|..] == l + s[1 + |d| + |l|..];
        ExtRoundTrip(len, s[1 + |d| + |l|..]);
      }
    }
  }

  /** An option that the packet ends in is found to be cut short, after any others. */
  lemma CutShort(opts: seq<Opt>, prev: nat, delta: nat, value: bytes, k: nat)
    requires Writable(opts, prev) && Short(opts) && delta <= MAX_EXT && |value| < 0x1_0000
    requires 0 < k < |EncodeOption(delta, value)|
    ensures ReadOptions(EncodeOptions(opts, prev) + EncodeOption(delta, value)[..k], prev % 0x1_0000)
         == Failed({Error, NotEnoughData})
  {
    var t, last := EncodeOption(delta, value)[..k], Last(opts, prev) % 0x1_0000;
    OptionsThen(opts, prev, t);
    OptionCutShort(delta, value, last, k);
    OptionRoundTrip(Opt(delta, value), 0, []);
    hide EncodeOptions, EncodeOption, ReadOption;
    assert EncodeOption(delta, value) + [] == EncodeOption(delta, value) && t[0] == EncodeOption(delta, value)[0];
    assert ReadOptions(t, last) == Failed({Error, NotEnoughData});
  }

  lemma ReadNarrow(s: bytes, prev: nat)
    requires s != [] && ReadOption(s, prev).One?
    ensures var o := ReadOption(s, prev).opt; o.number < 0x1_0000 && |o.value| < 0x1_0000
  {
  }

  /** The parser never reports a number or a length beyond 16 bits. */
  lemma {:induction false} ReadsNarrow(s: bytes, prev: nat)
    ensures var r := ReadOptions(s, prev); r.Options? ==> Narrow(r.opts)
    decreases |s|
  {
    if s != [] && s[0] != MARKER && ReadOption(s, prev).One? {
      ReadNarrow(s, prev);
      ReadsNarrow(s[ReadOption(s, prev).used..], ReadOption(s, prev).opt.number);
    }
  }

  lemma {:induction false} InsertNarrow(opts: seq<Opt>, o: Opt)
    requires Narrow(opts) && Narrow([o])
    ensures Narrow(Insert(opts, o))
  {
    assert o in [o];
    if opts != [] {
      assert opts[0] in opts && forall x | x in opts[1..] :: x in opts;
      InsertNarrow(opts[1..], o);
    }
  }

  lemma {:induction false} AddAllNarrow(added: seq<Opt>)
    requires Narrow(added)
    ensures Narrow(AddAll(added))
  {
    if added != [] {
      var front, last := added[..|added| - 1], added[|added| - 1];
      assert last in added && forall o | o in front :: o in added;
      AddAllNarrow(front);
      InsertNarrow(AddAll(front), last);
    }
  }

  lemma {:induction false} WritableSorted(opts: seq<Opt>, prev: nat)
    requires Writable(opts, prev)
    ensures Sorted(opts) && forall o | o in opts :: o.number >= prev
  {
    if opts != [] {
      WritableSorted(opts[1..], opts[0].number);
      forall i, j | 0 <= i < j < |opts|
        ensures opts[i].number <= opts[j].number
      {
        assert opts[j] == opts[1..][j - 1] && opts[1..][j - 1] in opts[1..];
        assert i > 0 ==> opts[i] == opts[1..][i - 1];
      }
    }
  }

  /** What the parser makes of a composed message. */
  function Received(m: Message): Message {
    m.(tokenLen := |m.token|,
       flags := {TypeField, ClassField, DetailField, IdField}
                + (if m.token == [] then {} else {TokenField})
                + (if m.options == [] && m.payload == [] then {} else {OptionsField})
                + (if m.payload == [] then {} else {PayloadField}))
  }

  lemma BodyEmpty(opts: seq<Opt>, payload: bytes)
    requires Writable(opts, 0)
    ensures EncodeOptions(opts, 0) + PayloadPart(payload) == [] <==> opts == [] && payload == []
  {
  }

  lemma BodyRoundTrip(m: Message, opts: seq<Opt>, payload: bytes)
    requires m.options == [] && m.payload == [] && Writable(opts, 0) && Short(opts)
    ensures ParseBody(m, EncodeOptions(opts, 0) + PayloadPart(payload)) ==
            m.(options := AddAll(Cut16(opts)), payload := payload,
               flags := m.flags + (if opts == [] && payload == [] then {} else {OptionsField})
                        + (if payload == [] then {} else {PayloadField}))
  {
    hide ReadOptions, EncodeOptions, Writable, Short;
    OptionsRoundTrip(opts, 0, PayloadPart(payload));
    BodyEmpty(opts, payload);
  }

  /** A marker with nothing behind it is let pass: there is no payload. */
  lemma MarkerAlone(m: Message, opts: seq<Opt>)
    requires m.options == [] && m.payload == [] && Writable(opts, 0) && Short(opts)
    ensures ParseBody(m, EncodeOptions(opts, 0) + [0xFF])
         == m.(options := AddAll(Cut16(opts)), flags := m.flags + {OptionsField})
  {
    hide ReadOptions, EncodeOptions, Writable, Short;
    OptionsRoundTrip(opts, 0, [0xFF]);
  }

  function HeaderOnly(m: Message): Message {
    BLANK.(flags := {TypeField, ClassField, DetailField, IdField},
           msgType := m.msgType, codeClass := m.codeClass, codeDetail := m.codeDetail, msgId := m.msgId,
           tokenLen := |m.token|)
  }

  lemma HeaderRoundTrip(m: Message)
    requires Composable(m)
    ensures var s := Encode(m);
            && ParseHeader(s) == HeaderOnly(m) && s[0] % 16 == |m.token|
            && s[4..] == m.token + (EncodeOptions(m.options, 0) + PayloadPart(m.payload))
  {
    hide EncodeOptions, PayloadPart, Writable;
    var head := Head(m);
    var body := EncodeOptions(m.options, 0) + PayloadPart(m.payload);
    assert Encode(m) == head + (m.token + body);
    var b0: byte, b1: byte := head[0], head[1];
    assert b0 / 64 == 1 && b0 / 16 % 4 == m.msgType && b0 % 16 == |m.token|;
    assert b1 / 32 == m.codeClass && b1 % 32 == m.codeDetail;
    assert FromBe16(head[2], head[3]) == m.msgId;
  }

  function HeaderAndToken(m: Message): Message {
    var m0 := HeaderOnly(m);
    if m.token == [] then m0 else m0.(flags := m0.flags + {TokenField}, token := m.token)
  }

  lemma ReachesBody(m: Message)
    requires Composable(m)
    ensures Parse(Encode(m)) == ParseBody(HeaderAndToken(m), EncodeOptions(m.options, 0) + PayloadPart(m.payload))
  {
    hide ParseHeader, ParseBody, Encode, EncodeOptions, PayloadPart, Writable;
    HeaderRoundTrip(m);
    var body := EncodeOptions(m.options, 0) + PayloadPart(m.payload);
    assert (m.token + body)[..|m.token|] == m.token && (m.token + body)[|m.token|..] == body;
  }

  /** What any message with short values is parsed to: option numbers are cut to
      16 bits and the options sorted again by what that leaves. */
  lemma WideRoundTrip(m: Message)
    requires Composable(m) && Short(m.options)
    ensures Parse(Encode(m)) == Received(m).(options := AddAll(Cut16(m.options)))
  {
    hide Parse, ParseBody, Encode, EncodeOptions, PayloadPart, Writable, Short, AddAll, Cut16;
    ReachesBody(m);
    BodyRoundTrip(HeaderAndToken(m), m.options, m.payload);
  }

  /** Section 3 of RFC 7252: what is composed is parsed back. */
  lemma CoapRoundTrip(m: Message)
    requires Composable(m) && Narrow(m.options)
    ensures Parse(Encode(m)) == Received(m)
  {
    hide Parse, Encode, Writable, Cut16, AddAll;
    WideRoundTrip(m);
    CutNarrow(m.options);
    WritableSorted(m.options, 0);
    AddAllSorted(m.options);
  }

  lemma ParsesNarrow(s: bytes)
    ensures Narrow(Parse(s).options)
  {
    hide ReadOptions, ReadOption;
    var m := ParseHeader(s);
    if Error !in m.flags && s[0] % 16 <= |s| - 4 {
      var body := s[4..][s[0] % 16..];
      ReadsNarrow(body, 0);
      if ReadOptions(body, 0).Options? {
        AddAllNarrow(ReadOptions(body, 0).opts);
      }
    }
  }

  /** The parser gives the message back exactly when option numbers and lengths
      fit in 16 bits, although wider ones are composed without complaint. */
  lemma RoundTripCondition(m: Message)
    requires Composable(m)
    ensures Parse(Encode(m)) == Received(m) <==> Narrow(m.options)
  {
    if Narrow(m.options) {
      CoapRoundTrip(m);
    } else {
      ParsesNarrow(Encode(m));
    }
  }

  lemma FieldsReceived(m: Message)
    ensures var r := Received(m);
            && r.msgType == m.msgType && r.codeClass == m.codeClass && r.codeDetail == m.codeDetail && r.msgId == m.msgId
            && r.token == m.token && r.tokenLen == |m.token| && r.payload == m.payload && r.options == m.options
            && Error !in r.flags
  {
  }

  lemma SortedFollows(opts: seq<Opt>)
    requires Sorted(opts) && Narrow(opts)
    ensures Writable(opts, 0)
  {
    forall i | 0 <= i < |opts| ensures Follows(opts, 0, i) {
      assert opts[i] in opts;
    }
    WritableExactly(opts, 0);
  }

  /** Faults of the fixed header and of the token, each with its flags. */
  lemma HeaderFaults(s: bytes)
    ensures |s| < 4 ==> Parse(s) == Message({Error, NotEnoughData}, 0, 0, 0, 0, 0, [], [], [])
    ensures |s| >= 4 && s[0] / 64 != 1 ==> Parse(s) == Message({Error, Ignore}, 0, 0, 0, 0, 0, [], [], [])
    ensures |s| >= 4 && s[0] / 64 == 1 && s[0] % 16 > 8 ==> Parse(s).flags == {TypeField, Error, FormatError}
    ensures |s| >= 4 && s[0] / 64 == 1 && s[0] % 16 <= 8 && |s| < 4 + s[0] % 16
            ==> Parse(s).flags == {TypeField, ClassField, DetailField, IdField, Error, NotEnoughData}
  {
    hide ParseBody, FromBe16;
  }

  lemma ParsedOptionsSorted(m: Message, r: Read)
    requires Sorted(m.options)
    ensures Sorted(WithOptions(m, r).options)
  {
    if r.Options? {
      AddAllIsStableSort(r.opts);
    }
  }

  lemma ParsedRanges(s: bytes)
    ensures var m := Parse(s);
            && m.msgType <= 3 && m.codeClass <= 7 && m.codeDetail <= 31 && m.msgId < 0x1_0000 && |m.token| <= 8
            && Sorted(m.options)
  {
    var m := ParseHeader(s);
    if Error !in m.flags && s[0] % 16 <= |s| - 4 {
      var n := s[0] % 16;
      var body := s[4..][n..];
      ParsedOptionsSorted(if n == 0 then m else m.(flags := m.flags + {TokenField}, token := s[4..][..n]), ReadOptions(body, 0));
    }
  }

  /** Whatever packet is parsed, what came of it can be composed, and the packet
      that this gives is parsed to the same fields. */
  lemma Reparsed(s: bytes)
    ensures Composable(Parse(s))
    ensures var m, r := Parse(s), Parse(Encode(Parse(s)));
            && r.msgType == m.msgType && r.codeClass == m.codeClass && r.codeDetail == m.codeDetail && r.msgId == m.msgId
            && r.token == m.token && r.options == m.options && r.payload == m.payload && Error !in r.flags
  {
    hide Parse, Sorted, Narrow, Received, Encode;
    ParsedRanges(s);
    ParsesNarrow(s);
    SortedFollows(Parse(s).options);
    CoapRoundTrip(Parse(s));
    FieldsReceived(Parse(s));
  }

  lemma WritableThree(a: Opt, b: Opt, c: Opt)
    requires a.number <= b.number <= c.number && |a.value| <= MAX_EXT && |b.value| <= MAX_EXT && |c.value| <= MAX_EXT
    requires a.number <= MAX_EXT && b.number <= a.number + MAX_EXT && c.number <= b.number + MAX_EXT
    ensures Writable([a, b, c], 0)
  {
    assert [a, b, c][1..] == [b, c] && [b, c][1..] == [c] && [c][1..] == [];
    assert Writable([c], b.number) && Writable([b, c], a.number);
  }

  lemma CutThree(a: Opt, b: Opt, c: Opt)
    ensures Cut16([a, b, c])
         == [Opt(a.number % 0x1_0000, a.value), Opt(b.number % 0x1_0000, b.value), Opt(c.number % 0x1_0000, c.value)]
  {
    assert [a, b, c][1..] == [b, c] && [b, c][1..] == [c] && [c][1..] == [];
    assert Cut16([c]) == [Opt(c.number % 0x1_0000, c.value)];
    assert Cut16([b, c]) == [Opt(b.number % 0x1_0000, b.value)] + Cut16([c]);
  }

  lemma AddDescending(a: Opt, b: Opt, c: Opt)
    requires a.number > b.number > c.number
    ensures AddAll([a, b, c]) == [c, b, a]
  {
    assert [a, b, c][..2] == [a, b] && [a, b][..1] == [a] && [a][..0] == [];
    assert AddAll([]) == [] && AddAll([a]) == [a];
    assert AddAll([a, b]) == Insert([a], b) == [b] + [a];
    assert [b] + [a] == [b, a] && Insert([b, a], c) == [c] + [b, a];
  }

  lemma {:induction false} WideReversed(m: Message, a: Opt, b: Opt, c: Opt)
    requires Composable(m) && m.options == [] && a.value == b.value == c.value == []
    requires a.number <= MAX_EXT && a.number < b.number <= a.number + MAX_EXT && b.number < c.number <= b.number + MAX_EXT
    requires b.number >= 0x1_0000 && a.number % 0x1_0000 > b.number % 0x1_0000 > c.number % 0x1_0000
    ensures var wide := m.(options := [a, b, c]);
            && Composable(wide) && !Narrow(wide.options)
            && Parse(Encode(wide)) == Received(wide).(options :=
                 [Opt(c.number % 0x1_0000, []), Opt(b.number % 0x1_0000, []), Opt(a.number % 0x1_0000, [])])
  {
    var wide := m.(options := [a, b, c]);
    WritableThree(a, b, c);
    CutThree(a, b, c);
    AddDescending(Opt(a.number % 0x1_0000, []), Opt(b.number % 0x1_0000, []), Opt(c.number % 0x1_0000, []));
    assert b in wide.options;
    hide Parse, Encode, Writable, Cut16, AddAll, Received;
    WideRoundTrip(wide);
  }

  /** Such messages exist: whatever else a message holds, three options with numbers
      that grow by 65000 come back with other numbers and in another order. */
  lemma {:induction false} WideNumbers(m: Message)
    requires Composable(m) && m.options == []
    ensures var wide := m.(options := [Opt(65000, []), Opt(130000, []), Opt(195000, [])]);
            && Composable(wide) && !Narrow(wide.options)
            && Parse(Encode(wide)) == Received(wide).(options := [Opt(63928, []), Opt(64464, []), Opt(65000, [])])
  {
    WideReversed(m, Opt(65000, []), Opt(130000, []), Opt(195000, []));
  }
}
