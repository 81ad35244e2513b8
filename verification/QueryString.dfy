/** The query splitter of 3rd_party/EdUrlParser.cpp, against a specification
    that splits at '&' first and at '=' afterwards. */
module QueryString {
  import opened Bytes
  import opened UrlCodec
  import opened Walks

  datatype KeyValue = KeyValue(key: string, val: string)

  /** The pieces of `s` between separators. */
  function Split(s: string, sep: char): (r: seq<string>)
    ensures |r| > 0
  {
    if s == "" then [""]
    else
      var rest := Split(s[1..], sep);
      if s[0] == sep then [""] + rest else [[s[0]] + rest[0]] + rest[1..]
  }

  function Join(pieces: seq<string>, sep: char): string
    requires |pieces| > 0
  {
    if |pieces| == 1 then pieces[0] else pieces[0] + [sep] + Join(pieces[1..], sep)
  }

  lemma {:induction false} SplitFront(a: string, b: string, sep: char)
    requires sep !in a
    ensures Split(a + b, sep) == [a + Split(b, sep)[0]] + Split(b, sep)[1..]
  {
    if a == "" {
      assert a + b == b && "" + Split(b, sep)[0] == Split(b, sep)[0];
    } else {
      SplitFront(a[1..], b, sep);
      assert (a + b)[1..] == a[1..] + b;
      assert [a[0]] + (a[1..] + Split(b, sep)[0]) == a + Split(b, sep)[0];
    }
  }

  lemma SplitPiece(a: string, b: string, sep: char)
    requires sep !in a
    ensures Split(a + [sep] + b, sep) == [a] + Split(b, sep)
  {
    var rest := [sep] + b;
    assert a + [sep] + b == a + rest && rest[1..] == b;
    SplitFront(a, rest, sep);
    assert Split(rest, sep) == [""] + Split(b, sep) && a + "" == a;
  }

  lemma SplitWhole(a: string, sep: char)
    requires sep !in a
    ensures Split(a, sep) == [a]
  {
    SplitFront(a, "", sep);
    assert a + "" == a;
  }

  /** Splitting inverts joining. */
  lemma {:induction false} SplitJoin(pieces: seq<string>, sep: char)
    requires |pieces| > 0 && forall i | 0 <= i < |pieces| :: sep !in pieces[i]
    ensures Split(Join(pieces, sep), sep) == pieces
  {
    if |pieces| == 1 {
      SplitWhole(pieces[0], sep);
    } else {
      SplitJoin(pieces[1..], sep);
      SplitPiece(pieces[0], Join(pieces[1..], sep), sep);
    }
  }

  predicate Kept(p: KeyValue, strict: bool) {
    if strict then p.key != "" && p.val != "" else p.key != "" || p.val != ""
  }

  function Keep(pairs: seq<KeyValue>, strict: bool): seq<KeyValue> {
    if pairs == [] then []
    else (if Kept(pairs[0], strict) then [pairs[0]] else []) + Keep(pairs[1..], strict)
  }

  function Emit(p: KeyValue, strict: bool): seq<KeyValue> {
    if Kept(p, strict) then [p] else []
  }

  lemma KeepFirst(p: KeyValue, rest: seq<KeyValue>, strict: bool)
    ensures Keep([p] + rest, strict) == Emit(p, strict) + Keep(rest, strict)
  {
    assert ([p] + rest)[1..] == rest;
  }

  lemma Assoc<T>(a: seq<T>, b: seq<T>, c: seq<T>, d: seq<T>)
    ensures a + (b + c + d) == a + b + c + d
  {
  }

  /** What is kept, pair by pair, in the order that there was: strict mode asks for
      a key and a value, the other mode for one of them. */
  lemma {:induction false} KeepAt(a: seq<KeyValue>, p: KeyValue, b: seq<KeyValue>, strict: bool)
    ensures var passes := if strict then p.key != "" && p.val != "" else p.key != "" || p.val != "";
            Keep(a + [p] + b, strict) == Keep(a, strict) + (if passes then [p] else []) + Keep(b, strict)
  {
    assert Keep([], strict) == [];
    hide Keep;
    if a == [] {
      assert a + [p] + b == [p] + b;
      KeepFirst(p, b, strict);
    } else {
      KeepAt(a[1..], p, b, strict);
      assert a + [p] + b == [a[0]] + (a[1..] + [p] + b) && a == [a[0]] + a[1..];
      KeepFirst(a[0], a[1..] + [p] + b, strict);
      KeepFirst(a[0], a[1..], strict);
      Assoc(Emit(a[0], strict), Keep(a[1..], strict), Emit(p, strict), Keep(b, strict));
    }
  }

  lemma {:induction false} KeepExactly(pairs: seq<KeyValue>, strict: bool, p: KeyValue)
    ensures p in Keep(pairs, strict)
            <==> p in pairs && if strict then p.key != "" && p.val != "" else p.key != "" || p.val != ""
  {
    if pairs != [] {
      KeepExactly(pairs[1..], strict, p);
      assert p in pairs <==> p == pairs[0] || p in pairs[1..];
    }
  }

  /** The value is what follows the last '='; the key is what stands between
      that one and the '=' before it, or `key` when there is at most one. */
  function PairOf(key: string, segment: string): KeyValue {
    var parts := [key] + Split(segment, '=');
    KeyValue(parts[|parts| - 2], parts[|parts| - 1])
  }

  function PairsOf(segments: seq<string>): seq<KeyValue> {
    if segments == [] then [] else [PairOf("", segments[0])] + PairsOf(segments[1..])
  }

  function Items(s: string, strict: bool): seq<KeyValue> {
    Keep(PairsOf(Split(s, '&')), strict)
  }

  /** Of the pairs that the segments stand for, the splitter stores those whose
      fields pass the test of its mode. */
  lemma ItemsExactly(s: string, strict: bool)
    ensures forall p :: p in Items(s, strict)
                        <==> p in PairsOf(Split(s, '&'))
                             && if strict then p.key != "" && p.val != "" else p.key != "" || p.val != ""
  {
    hide Keep, PairsOf, Split;
    forall p
      ensures p in Items(s, strict)
              <==> p in PairsOf(Split(s, '&'))
                   && if strict then p.key != "" && p.val != "" else p.key != "" || p.val != ""
    {
      KeepExactly(PairsOf(Split(s, '&')), strict, p);
    }
  }

  /** What is still to come when `key` has been read in the current segment. */
  function ItemsAfter(key: string, s: string, strict: bool): seq<KeyValue> {
    var segments := Split(s, '&');
    Keep([PairOf(key, segments[0])] + PairsOf(segments[1..]), strict)
  }

  lemma ItemsAfterNothing(s: string, strict: bool)
    ensures ItemsAfter("", s, strict) == Items(s, strict)
  {
  }

  lemma PairOfLast(key: string, a: string)
    requires '=' !in a
    ensures PairOf(key, a) == KeyValue(key, a)
  {
    SplitWhole(a, '=');
  }

  lemma ItemsAtEquals(key: string, a: string, b: string, strict: bool)
    requires '=' !in a && '&' !in a
    ensures ItemsAfter(key, a + "=" + b, strict) == ItemsAfter(a, b, strict)
  {
    SplitFront(a + "=", b, '&');
    SplitPiece(a, Split(b, '&')[0], '=');
  }

  lemma ItemsAtAnd(key: string, a: string, b: string, strict: bool)
    requires '=' !in a && '&' !in a
    ensures ItemsAfter(key, a + "&" + b, strict) == Emit(KeyValue(key, a), strict) + ItemsAfter("", b, strict)
  {
    SplitPiece(a, b, '&');
    PairOfLast(key, a);
    KeepFirst(KeyValue(key, a), PairsOf(Split(b, '&')), strict);
  }

  lemma ItemsAtEnd(key: string, a: string, strict: bool)
    requires '=' !in a && '&' !in a
    ensures ItemsAfter(key, a, strict) == Emit(KeyValue(key, a), strict)
  {
    SplitWhole(a, '&');
    PairOfLast(key, a);
    KeepFirst(KeyValue(key, a), [], strict);
  }

  /** The splitter has stored `got` and begins a part at `pos`. */
  ghost predicate Splitting(s: string, got: seq<KeyValue>, key: string, pos: nat, strict: bool) {
    pos <= |s| && got + ItemsAfter(key, s[pos..], strict) == Items(SkipSpaces(s), strict)
  }

  lemma SplittingStart(s: string, pos: nat, strict: bool)
    requires pos <= |s| && SkipSpaces(s) == s[pos..]
    ensures Splitting(s, [], "", pos, strict)
  {
    ItemsAfterNothing(s[pos..], strict);
  }

  lemma SplittingNext(s: string, got: seq<KeyValue>, key: string, keyPos: nat, pos: nat, strict: bool)
    requires Splitting(s, got, key, keyPos, strict) && keyPos <= pos < |s|
    requires '=' !in s[keyPos..pos] && '&' !in s[keyPos..pos]
    ensures s[pos] == '=' ==> Splitting(s, got, s[keyPos..pos], pos + 1, strict)
    ensures s[pos] == '&'
            ==> Splitting(s, got + Emit(KeyValue(key, s[keyPos..pos]), strict), "", pos + 1, strict)
  {
    hide ItemsAfter, Items, SkipSpaces;
    var a, b := s[keyPos..pos], s[pos + 1..];
    assert s[keyPos..] == a + [s[pos]] + b;
    if s[pos] == '=' {
      ItemsAtEquals(key, a, b, strict);
    } else if s[pos] == '&' {
      ItemsAtAnd(key, a, b, strict);
      assert got + (Emit(KeyValue(key, a), strict) + ItemsAfter("", b, strict))
          == got + Emit(KeyValue(key, a), strict) + ItemsAfter("", b, strict);
    }
  }

  lemma SplittingEnd(s: string, got: seq<KeyValue>, key: string, keyPos: nat, strict: bool)
    requires Splitting(s, got, key, keyPos, strict)
    requires '=' !in s[keyPos..] && '&' !in s[keyPos..]
    ensures got + Emit(KeyValue(key, s[keyPos..]), strict) == Items(SkipSpaces(s), strict)
  {
    ItemsAtEnd(key, s[keyPos..], strict);
  }

  /** Assigning one pair after another into a map. */
  function Fold(table: map<string, string>, pairs: seq<KeyValue>): map<string, string> {
    if pairs == [] then table
    else
      var last := pairs[|pairs| - 1];
      Fold(table, pairs[..|pairs| - 1])[last.key := last.val]
  }

  /** The last pair with a given key decides what the map holds. */
  lemma {:induction false} LastWins(table: map<string, string>, pairs: seq<KeyValue>, i: nat)
    requires i < |pairs| && forall j | i < j < |pairs| :: pairs[j].key != pairs[i].key
    ensures pairs[i].key in Fold(table, pairs) && Fold(table, pairs)[pairs[i].key] == pairs[i].val
  {
    if i < |pairs| - 1 {
      LastWins(table, pairs[..|pairs| - 1], i);
    }
  }

  /** Other keys stay as they were. */
  lemma {:induction false} OthersStay(table: map<string, string>, pairs: seq<KeyValue>, key: string)
    requires forall i | 0 <= i < |pairs| :: pairs[i].key != key
    ensures key in Fold(table, pairs) <==> key in table
    ensures key in table ==> Fold(table, pairs)[key] == table[key]
  {
    if pairs != [] {
      OthersStay(table, pairs[..|pairs| - 1], key);
    }
  }

  datatype Kind = Vector | Map

  /** The `void* obj` of the parser, with the two callbacks that store into it. */
  class Collection {
    const kind: Kind
    var list: seq<KeyValue>
    var table: map<string, string>

    constructor (kind: Kind)
      ensures this.kind == kind && list == [] && table == map[]
    {
      this.kind := kind;
      list := [];
      table := map[];
    }

    method Callback(k: string, v: string)
      modifies this
      ensures match kind
              case Vector => list == old(list) + [KeyValue(k, v)] && table == old(table)
              case Map => table == old(table)[k := v] && list == old(list)
    {
      match kind
      case Vector => list := list + [KeyValue(k, v)];
      case Map => table := table[k := v];
    }

    /** The content is what `pairs` make of an earlier content. */
    ghost predicate Holds(list0: seq<KeyValue>, table0: map<string, string>, pairs: seq<KeyValue>)
      reads this
    {
      match kind
      case Vector => list == list0 + pairs && table == table0
      case Map => table == Fold(table0, pairs) && list == list0
    }
  }

  /** (size_t) -1 */
  const FAILED: nat := 0xFFFF_FFFF_FFFF_FFFF

  /** The body of the branch that ends a pair; the result is what `item_len` grows by. */
  method Store(obj: Collection, p: KeyValue, strict: bool,
      ghost list0: seq<KeyValue>, ghost table0: map<string, string>, ghost got: seq<KeyValue>)
    returns (stored: nat)
    requires obj.Holds(list0, table0, got)
    modifies obj
    ensures obj.Holds(list0, table0, got + Emit(p, strict)) && stored == |Emit(p, strict)|
  {
    stored := 0;
    if strict {
      if p.key != "" && p.val != "" {
        obj.Callback(p.key, p.val);
        stored := 1;
      }
    } else if !(p.key == "" && p.val == "") {
      obj.Callback(p.key, p.val);
      stored := 1;
    }
    assert list0 + got + [p] == list0 + (got + [p]) && got + [] == got;
    assert (got + [p])[..|got|] == got;
  }

  lemma NothingHeld(obj: Collection)
    ensures obj.Holds(obj.list, obj.table, [])
  {
    assert obj.list + [] == obj.list;
  }

  lemma NoItems(strict: bool)
    ensures Items("", strict) == []
  {
    PairOfLast("", "");
    assert PairsOf([""]) == [KeyValue("", "")] + [];
    KeepFirst(KeyValue("", ""), [], strict);
  }

  method ParseKeyValue(rawstr: string, obj: Collection, strict: bool) returns (count: nat)
    modifies obj
    ensures obj.Holds(old(obj.list), old(obj.table), Items(SkipSpaces(rawstr), strict))
    ensures count == if SkipSpaces(rawstr) == "" then 0xFFFF_FFFF_FFFF_FFFF else |Items(SkipSpaces(rawstr), strict)|
  {
    hide Items, Fold, Splitting, SkipSpaces, Kept;
    var pos := WalkSpaces(rawstr);
    NothingHeld(obj);
    if pos >= |rawstr| {
      NoItems(strict);
      return FAILED;
    }
    SplittingStart(rawstr, pos, strict);
    ghost var list0, table0, got := obj.list, obj.table, [];
    var key, keyPos: nat := "", pos;
    count := 0;
    while true
      invariant keyPos == pos <= |rawstr| && count == |got|
      invariant Splitting(rawstr, got, key, keyPos, strict) && obj.Holds(list0, table0, got)
      decreases |rawstr| - pos
    {
      pos := WalkUntil(rawstr, pos, "=&");
      var part := rawstr[keyPos..pos];
      if pos >= |rawstr| || rawstr[pos] == '&' {
        var stored := Store(obj, KeyValue(key, part), strict, list0, table0, got);
        count := count + stored;
        if pos >= |rawstr| {
          assert part == rawstr[keyPos..];
          SplittingEnd(rawstr, got, key, keyPos, strict);
          break;
        }
        SplittingNext(rawstr, got, key, keyPos, pos, strict);
        got := got + Emit(KeyValue(key, part), strict);
        key := "";
        pos := pos + 1;
        keyPos := pos;
      } else {
        SplittingNext(rawstr, got, key, keyPos, pos, strict);
        key := part;
        pos := pos + 1;
        keyPos := pos;
      }
    }
  }

  method ParseKeyValueList(kvvec: Collection, rawstr: string, strict: bool) returns (count: nat)
    requires kvvec.kind == Vector
    modifies kvvec
    ensures kvvec.list == old(kvvec.list) + Items(SkipSpaces(rawstr), strict)
    ensures forall p :: p in Items(SkipSpaces(rawstr), strict)
                        <==> p in PairsOf(Split(SkipSpaces(rawstr), '&'))
                             && if strict then p.key != "" && p.val != "" else p.key != "" || p.val != ""
    ensures count == if SkipSpaces(rawstr) == "" then 0xFFFF_FFFF_FFFF_FFFF else |Items(SkipSpaces(rawstr), strict)|
  {
    count := ParseKeyValue(rawstr, kvvec, strict);
    ItemsExactly(SkipSpaces(rawstr), strict);
  }

  method ParseKeyValueMap(kvmap: Collection, rawstr: string, strict: bool) returns (count: nat)
    requires kvmap.kind == Map
    modifies kvmap
    ensures kvmap.table == Fold(old(kvmap.table), Items(SkipSpaces(rawstr), strict))
    ensures count == if SkipSpaces(rawstr) == "" then 0xFFFF_FFFF_FFFF_FFFF else |Items(SkipSpaces(rawstr), strict)|
  {
    count := ParseKeyValue(rawstr, kvmap, strict);
  }

  /** Parsing into a map and into a list: the map is the list folded with the
      last value winning, and both counts are the same. */
  method MapAgreesWithList(rawstr: string, strict: bool)
    returns (list: seq<KeyValue>, table: map<string, string>, listCount: nat, mapCount: nat)
    ensures table == Fold(map[], list)
    ensures listCount == mapCount && (listCount == |list| || (listCount == FAILED && list == []))
  {
    hide Items, Fold, SkipSpaces;
    var kvvec := new Collection(Vector);
    var kvmap := new Collection(Map);
    listCount := ParseKeyValueList(kvvec, rawstr, strict);
    mapCount := ParseKeyValueMap(kvmap, rawstr, strict);
    list, table := kvvec.list, kvmap.table;
    assert [] + Items(SkipSpaces(rawstr), strict) == Items(SkipSpaces(rawstr), strict);
    NoItems(strict);
  }

  // Encoding, joining, splitting and decoding

  predicate AsciiPair(p: KeyValue) {
    Ascii(p.key) && Ascii(p.val)
  }

  predicate AsciiPairs(pairs: seq<KeyValue>) {
    forall i | 0 <= i < |pairs| :: AsciiPair(pairs[i])
  }

  function EncodePair(p: KeyValue): KeyValue
    requires AsciiPair(p)
  {
    KeyValue(Encode(p.key), Encode(p.val))
  }

  function EncodePairs(pairs: seq<KeyValue>): seq<KeyValue>
    requires AsciiPairs(pairs)
  {
    if pairs == [] then [] else [EncodePair(pairs[0])] + EncodePairs(pairs[1..])
  }

  /** `key=value` */
  function Segment(p: KeyValue): string {
    p.key + "=" + p.val
  }

  function Segments(pairs: seq<KeyValue>): (r: seq<string>)
    ensures |r| == |pairs|
  {
    if pairs == [] then [] else [Segment(pairs[0])] + Segments(pairs[1..])
  }

  /** The query string that stands for a list of pairs. */
  function QueryOf(pairs: seq<KeyValue>): string
    requires pairs != [] && AsciiPairs(pairs)
  {
    Join(Segments(EncodePairs(pairs)), '&')
  }

  lemma SegmentRead(p: KeyValue)
    requires AsciiPair(p)
    ensures var segment := Segment(EncodePair(p));
            PairOf("", segment) == EncodePair(p) && '&' !in segment && segment != "" && segment[0] != ' '
  {
    hide Encode, Split;
    var key, val := Encode(p.key), Encode(p.val);
    EncodedChars(p.key);
    EncodedChars(p.val);
    SplitPiece(key, val, '=');
    SplitWhole(val, '=');
    assert key != "" ==> Segment(EncodePair(p))[0] == key[0];
  }

  lemma {:induction false} SegmentsRead(pairs: seq<KeyValue>)
    requires AsciiPairs(pairs)
    ensures var segments := Segments(EncodePairs(pairs));
            PairsOf(segments) == EncodePairs(pairs)
            && forall i | 0 <= i < |segments| :: '&' !in segments[i] && segments[i] != "" && segments[i][0] != ' '
  {
    hide EncodePair, Segment, PairOf, AsciiPair;
    if pairs != [] {
      SegmentsRead(pairs[1..]);
      SegmentRead(pairs[0]);
      assert EncodePairs(pairs)[1..] == EncodePairs(pairs[1..]);
    }
  }

  /** What survives encoding and parsing is what the parser keeps. */
  lemma {:induction false} KeepEncoded(pairs: seq<KeyValue>, strict: bool)
    requires AsciiPairs(pairs)
    ensures AsciiPairs(Keep(pairs, strict))
    ensures Keep(EncodePairs(pairs), strict) == EncodePairs(Keep(pairs, strict))
  {
    hide Encode, Ascii;
    if pairs != [] {
      KeepEncoded(pairs[1..], strict);
      EncodedChars(pairs[0].key);
      EncodedChars(pairs[0].val);
      assert EncodePairs(pairs)[1..] == EncodePairs(pairs[1..]);
      var rest := Keep(pairs[1..], strict);
      if Kept(pairs[0], strict) {
        assert ([pairs[0]] + rest)[1..] == rest;
      } else {
        assert [] + rest == rest;
      }
    }
  }

  /** Splitting the query string of a list gives the encoded list back, less
      the pairs that the parser drops. */
  lemma QueryRoundTrip(pairs: seq<KeyValue>, strict: bool)
    requires pairs != [] && AsciiPairs(pairs)
    ensures var raw := QueryOf(pairs);
            AsciiPairs(Keep(pairs, strict)) && SkipSpaces(raw) == raw && raw != ""
            && Items(raw, strict) == EncodePairs(Keep(pairs, strict))
  {
    hide Encode, Split, Keep;
    var segments := Segments(EncodePairs(pairs));
    SegmentsRead(pairs);
    SplitJoin(segments, '&');
    KeepEncoded(pairs, strict);
    assert segments[0] != "" && segments[0][0] != ' ';
  }

  /** Nothing is lost exactly when every pair is one that the parser keeps. */
  lemma {:induction false} KeepsAll(pairs: seq<KeyValue>, strict: bool)
    ensures |Keep(pairs, strict)| <= |pairs|
    ensures strict ==>
              (Keep(pairs, strict) == pairs <==> forall i | 0 <= i < |pairs| :: pairs[i].key != "" && pairs[i].val != "")
    ensures !strict ==>
              (Keep(pairs, strict) == pairs <==> forall i | 0 <= i < |pairs| :: pairs[i].key != "" || pairs[i].val != "")
  {
    if pairs != [] {
      KeepsAll(pairs[1..], strict);
      assert pairs == [pairs[0]] + pairs[1..];
    }
  }

  /** In strict mode a pair without a value is lost, in the other mode one with
      neither key nor value. */
  lemma PairsLost(key: string)
    ensures Keep([KeyValue(key, "")], true) == [] && Keep([KeyValue("", "")], false) == []
  {
    assert [KeyValue(key, "")][1..] == [] && [KeyValue("", "")][1..] == [];
  }

  method BuildQuery(pairs: seq<KeyValue>) returns (raw: string)
    requires pairs != [] && AsciiPairs(pairs)
    ensures raw == QueryOf(pairs)
  {
    hide Encode;
    raw := "";
    var i := |pairs|;
    while i > 0
      invariant 0 <= i <= |pairs| && AsciiPairs(pairs[i..])
      invariant i < |pairs| ==> raw == QueryOf(pairs[i..])
    {
      i := i - 1;
      assert pairs[i..][1..] == pairs[i + 1..];
      assert AsciiPair(pairs[i]);
      var key := UrlEncode(pairs[i].key);
      var val := UrlEncode(pairs[i].val);
      raw := key + "=" + val + if i + 1 < |pairs| then "&" + raw else "";
    }
    assert pairs[0..] == pairs;
  }

  method DecodeEncoded(ghost s: string, encoded: string) returns (decoded: string)
    requires Ascii(s) && encoded == Encode(s)
    ensures decoded == s
  {
    var thrown;
    PercentRoundTrip(s);
    EncodedChars(s);
    decoded, thrown := UrlDecode(encoded);
  }

  lemma {:induction false} EncodePairsAt(pairs: seq<KeyValue>)
    requires AsciiPairs(pairs)
    ensures |EncodePairs(pairs)| == |pairs|
    ensures forall i | 0 <= i < |pairs| :: EncodePairs(pairs)[i] == EncodePair(pairs[i])
  {
    if pairs != [] {
      EncodePairsAt(pairs[1..]);
    }
  }

  method DecodePairs(encoded: seq<KeyValue>, ghost pairs: seq<KeyValue>) returns (got: seq<KeyValue>)
    requires AsciiPairs(pairs) && encoded == EncodePairs(pairs)
    ensures got == pairs
  {
    hide Encode, EncodePairs, Ascii;
    EncodePairsAt(pairs);
    got := [];
    while |got| < |encoded|
      invariant |got| <= |pairs| && got == pairs[..|got|]
    {
      ghost var p := pairs[|got|];
      assert AsciiPair(p) && encoded[|got|] == EncodePair(p);
      var key := DecodeEncoded(p.key, encoded[|got|].key);
      var val := DecodeEncoded(p.val, encoded[|got|].val);
      got := got + [KeyValue(key, val)];
    }
  }

  /** A list of pairs written as a query string, parsed and decoded again. */
  method Exchange(pairs: seq<KeyValue>, strict: bool) returns (got: seq<KeyValue>, count: nat)
    requires pairs != [] && AsciiPairs(pairs)
    ensures got == Keep(pairs, strict) && count == |got|
    ensures strict ==> (got == pairs <==> forall i | 0 <= i < |pairs| :: pairs[i].key != "" && pairs[i].val != "")
    ensures !strict ==> (got == pairs <==> forall i | 0 <= i < |pairs| :: pairs[i].key != "" || pairs[i].val != "")
  {
    hide Keep, Kept, Items, SkipSpaces, QueryOf, AsciiPairs, EncodePairs;
    var raw := BuildQuery(pairs);
    var kvvec := new Collection(Vector);
    count := ParseKeyValueList(kvvec, raw, strict);
    QueryRoundTrip(pairs, strict);
    KeepsAll(pairs, strict);
    EncodePairsAt(Keep(pairs, strict));
    assert kvvec.list == EncodePairs(Keep(pairs, strict));
    got := DecodePairs(kvvec.list, Keep(pairs, strict));
  }
}
