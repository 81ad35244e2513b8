/** Percent coding in 3rd_party/EdUrlParser.cpp. A `char` stands for an octet. */
module UrlCodec {
  import opened Bytes
  import opened Walks
  const NUL: char := '\0'

  predicate Ascii(s: string) {
    forall i | 0 <= i < |s| :: s[i] as int < 128
  }

  /** Characters that stand for themselves. */
  predicate Plain(c: char) {
    'a' <= c <= 'z' || 'A' <= c <= 'Z' || '0' <= c <= '9' || c == '_' || c == '-' || c == '*' || c == '.'
  }

  const HEX_TABLE: string := "0123456789ABCDEF"

  function ToHex(c: char): (r: string)
    requires c as int < 128
    ensures |r| == 2
  {
    [HEX_TABLE[c as int / 16], HEX_TABLE[c as int % 16]]
  }

  function Nibble(c: char): (r: int)
    ensures -1 <= r < 16
  {
    if '0' <= c <= '9' then c as int - '0' as int
    else if 'A' <= c <= 'F' then c as int - 'A' as int + 10
    else if 'a' <= c <= 'f' then c as int - 'a' as int + 10
    else -1
  }

  /** The octet that two hexadecimal digits stand for, or -1. */
  function ToChar(hi: char, lo: char): (r: int)
    ensures -1 <= r < 256
  {
    if Nibble(hi) < 0 || Nibble(lo) < 0 then -1 else Nibble(hi) * 16 + Nibble(lo)
  }

  lemma NibbleOfDigit(d: nat)
    requires d < 16
    ensures Nibble(HEX_TABLE[d]) == d && Plain(HEX_TABLE[d])
  {
  }

  lemma HexRoundTrip(c: char)
    requires c as int < 128
    ensures ToChar(ToHex(c)[0], ToHex(c)[1]) == c as int
    ensures Plain(ToHex(c)[0]) && Plain(ToHex(c)[1])
  {
    NibbleOfDigit(c as int / 16);
    NibbleOfDigit(c as int % 16);
  }

  function EncodeChar(c: char): (r: string)
    requires c as int < 128
    ensures r != ""
  {
    if Plain(c) then [c] else if c == ' ' then "+" else "%" + ToHex(c)
  }

  function Encode(s: string): string
    requires Ascii(s)
  {
    if s == "" then "" else EncodeChar(s[0]) + Encode(s[1..])
  }

  datatype Decoded = Ok(text: string) | Error(errno: int)

  function Front(text: string, d: Decoded): Decoded {
    match d
    case Ok(rest) => Ok(text + rest)
    case Error(_) => d
  }

  function Decode(s: string): Decoded {
    if s == "" then Ok("")
    else if s[0] == '%' then
      if |s| < 3 then Error(100)
      else if ToChar(s[1], s[2]) < 0 then Error(200)
      else Front([ToChar(s[1], s[2]) as char], Decode(s[3..]))
    else if s[0] == '+' then Front(" ", Decode(s[1..]))
    else Front([s[0]], Decode(s[1..]))
  }

  /** What the caller gets: an error shows as the empty string. */
  function Text(d: Decoded): string {
    match d
    case Ok(text) => text
    case Error(_) => ""
  }

  /** Decoding inverts encoding on every string of octets below 128. */
  lemma {:induction false} PercentRoundTrip(s: string)
    requires Ascii(s)
    ensures Decode(Encode(s)) == Ok(s)
  {
    hide ToChar, ToHex;
    if s != "" {
      var c, rest := s[0], Encode(s[1..]);
      PercentRoundTrip(s[1..]);
      assert s == [c] + s[1..] && Encode(s) == EncodeChar(c) + rest;
      if !Plain(c) && c != ' ' {
        HexRoundTrip(c);
        assert Encode(s)[3..] == rest;
      } else {
        assert Encode(s)[1..] == rest;
      }
    }
  }

  /** The hexadecimal digit of value `d`, in either case. */
  predicate IsDigit(c: char, d: nat) {
    || (d < 10 && c as int == '0' as int + d)
    || (10 <= d < 16 && (c as int == 'A' as int + d - 10 || c as int == 'a' as int + d - 10))
  }

  lemma NibbleIsDigit(c: char)
    ensures Nibble(c) >= 0 ==> IsDigit(c, Nibble(c))
    ensures forall d | IsDigit(c, d) :: Nibble(c) == d
  {
  }

  /** An escape stands for the octet with these digits, in either case; with
      anything else behind the percent sign, or with too little, decoding fails. */
  lemma EscapeRead(hi: char, lo: char, a: nat, b: nat, rest: string)
    ensures IsDigit(hi, a) && IsDigit(lo, b)
            ==> Decode(['%', hi, lo] + rest) == Front([(a * 16 + b) as char], Decode(rest))
    ensures (forall d :: !IsDigit(hi, d)) || (forall d :: !IsDigit(lo, d)) ==> Decode(['%', hi, lo] + rest).Error?
    ensures Decode("%").Error? && Decode(['%', hi]).Error?
  {
    NibbleIsDigit(hi);
    NibbleIsDigit(lo);
    hide IsDigit, Nibble;
    var s := ['%', hi, lo] + rest;
    assert s[1] == hi && s[2] == lo && s[3..] == rest;
  }

  /** Characters that encoded text is made of. */
  predicate Coded(c: char) {
    Plain(c) || c == '%' || c == '+'
  }

  lemma CharCoded(c: char)
    requires c as int < 128
    ensures forall d | d in EncodeChar(c) :: Coded(d)
  {
    HexRoundTrip(c);
  }

  lemma {:induction false} EncodedChars(s: string)
    requires Ascii(s)
    ensures forall c | c in Encode(s) :: Coded(c)
    ensures '=' !in Encode(s) && '&' !in Encode(s) && ' ' !in Encode(s) && NUL !in Encode(s)
    ensures s == "" <==> Encode(s) == ""
  {
    if s != "" {
      EncodedChars(s[1..]);
      CharCoded(s[0]);
      assert Encode(s) == EncodeChar(s[0]) + Encode(s[1..]);
      assert !Coded('=') && !Coded('&') && !Coded(' ') && !Coded(NUL);
    }
  }

  /** Octets that a query may not hold unless they are escaped: those that section
      2.2 of RFC 3986 reserves, apart from '*' and the '+' that stands for a space. */
  const RESERVED := ":/?#[]@!$&'(),;="

  lemma CodedIsFree(c: char)
    requires Coded(c)
    ensures c !in RESERVED
  {
  }

  lemma {:induction false} EncodedIsFree(s: string)
    requires Ascii(s)
    ensures Free(Encode(s), RESERVED)
  {
    EncodedChars(s);
    hide Encode, Coded;
    forall i | 0 <= i < |Encode(s)| ensures Encode(s)[i] !in RESERVED {
      CodedIsFree(Encode(s)[i]);
    }
  }

  /** Text is left as it is exactly when it has nothing but letters, digits and
      the four marks. */
  lemma {:induction false} LeftAsItIs(s: string)
    requires Ascii(s)
    ensures |Encode(s)| >= |s|
    ensures Encode(s) == s <==> forall i | 0 <= i < |s| ::
              'a' <= s[i] <= 'z' || 'A' <= s[i] <= 'Z' || '0' <= s[i] <= '9' || s[i] in "_-*."
  {
    hide ToHex;
    if s != "" {
      LeftAsItIs(s[1..]);
      var code := EncodeChar(s[0]);
      assert Encode(s) == code + Encode(s[1..]) && s == [s[0]] + s[1..];
      assert |code| == 1 ==> (code + Encode(s[1..]))[1..] == Encode(s[1..]);
    }
  }

  method UrlEncode(s: string) returns (enc: string)
    requires Ascii(s)
    ensures enc == Encode(s)
  {
    hide Plain, ToHex;
    enc := "";
    var i := 0;
    while i < |s|
      invariant 0 <= i <= |s| && enc + Encode(s[i..]) == Encode(s)
    {
      var c := s[i];
      assert s[i..][0] == c && s[i..][1..] == s[i + 1..];
      Cut(enc, EncodeChar(c), Encode(s[i + 1..]));
      if Plain(c) {
        enc := enc + [c];
      } else if c == ' ' {
        enc := enc + "+";
      } else {
        enc := enc + ("%" + ToHex(c));
      }
      i := i + 1;
    }
  }

  /** Where the text ends for a reader of C strings. */
  function CLength(s: string): (z: nat)
    ensures z <= |s| && NUL !in s[..z] && (z < |s| ==> s[z] == NUL)
  {
    Until(s, [NUL])
  }

  /** The result for any text, and whether an exception leaves the decoder.
      Pieces are appended from a C string, so that those behind a NUL come to
      nothing, and one that begins behind it throws; the escape, if any, that
      follows the piece with the NUL is still decoded. */
  function Outcome(str: string): (string, bool) {
    var z := CLength(str);
    match Decode(str[..z])
    case Error(_) => ("", false)
    case Ok(text) =>
      var q := z + Until(str[z..], "%+");
      if q == |str| then (text, false)
      else if str[q] == '+' then ("", true)
      else if |str| - q < 3 || ToChar(str[q + 1], str[q + 2]) < 0 then ("", false)
      else if |str| - q == 3 then (text + [ToChar(str[q + 1], str[q + 2]) as char], false)
      else ("", true)
  }

  lemma OutcomeWithoutNul(str: string)
    requires NUL !in str
    ensures Outcome(str) == (Text(Decode(str)), false)
  {
    assert CLength(str) == |str| && str[..|str|] == str && str[|str|..] == "";
  }

  lemma UntilAt(a: string, c: char, b: string, stops: string)
    requires Free(a, stops) && c in stops
    ensures Until(a + [c] + b, stops) == |a|
  {
    UntilEnd(a, [c] + b, stops);
    assert a + [c] + b == a + ([c] + b);
  }

  lemma NulBetween(text: string, lost: string, tail: string)
    requires NUL !in text && Free(lost, "%+") && (tail != "" ==> tail[0] in "%+")
    ensures var str, z := text + "\0" + lost + tail, |text|;
            var q := z + 1 + |lost|;
            && CLength(str) == z && str[..z] == text && z + Until(str[z..], "%+") == q && |str| == q + |tail|
            && (tail != "" ==> str[q] == tail[0])
            && (|tail| >= 3 ==> str[q + 1] == tail[1] && str[q + 2] == tail[2])
  {
    var str, z, front := text + "\0" + lost + tail, |text|, [NUL] + lost;
    UntilAt(text, NUL, lost + tail, [NUL]);
    assert str == text + [NUL] + (lost + tail);
    hide Until;
    assert str[..z] == text && str[z..] == front + tail;
    assert Free(front, "%+") by {
      assert forall i | 0 < i < |front| :: front[i] == lost[i - 1];
      assert front[0] == NUL;
    }
    UntilEnd(front, tail, "%+");
  }

  lemma OutcomeBehind(text: string, lost: string, tail: string)
    requires NUL !in text && Decode(text).Ok? && Free(lost, "%+") && (tail != "" ==> tail[0] in "%+")
    ensures Outcome(text + "\0" + lost + tail) ==
              if tail == "" then (Decode(text).text, false)
              else if tail[0] == '+' then ("", true)
              else if |tail| < 3 || ToChar(tail[1], tail[2]) < 0 then ("", false)
              else if |tail| == 3 then (Decode(text).text + [ToChar(tail[1], tail[2]) as char], false)
              else ("", true)
  {
    hide ToChar, Decode, Free, CLength, Until;
    NulBetween(text, lost, tail);
  }

  /** With a NUL behind text that decodes: what stands between it and the next plus
      sign or escape is lost; a plus sign throws; so does an escape, unless it ends
      the text, and then it is still decoded. */
  lemma BehindNul(text: string, lost: string, rest: string, hi: char, lo: char)
    requires NUL !in text && Decode(text).Ok? && Free(lost, "%+")
    ensures Outcome(text + "\0" + lost) == (Decode(text).text, false)
    ensures Outcome(text + "\0" + lost + "+" + rest) == ("", true)
    ensures ToChar(hi, lo) >= 0 ==>
              && Outcome(text + "\0" + lost + ['%', hi, lo]) == (Decode(text).text + [ToChar(hi, lo) as char], false)
              && (rest != "" ==> Outcome(text + "\0" + lost + ['%', hi, lo] + rest) == ("", true))
    ensures ToChar(hi, lo) < 0 ==> Outcome(text + "\0" + lost + ['%', hi, lo] + rest) == ("", false)
  {
    hide ToChar, Decode, Outcome, Free;
    var front := text + "\0" + lost;
    OutcomeBehind(text, lost, "");
    OutcomeBehind(text, lost, "+" + rest);
    OutcomeBehind(text, lost, ['%', hi, lo]);
    OutcomeBehind(text, lost, ['%', hi, lo] + rest);
    assert front + "" == front && front + ("+" + rest) == front + "+" + rest;
    assert front + (['%', hi, lo] + rest) == front + ['%', hi, lo] + rest;
  }

  lemma FrontNothing(d: Decoded)
    ensures Front("", d) == d
  {
    assert d.Ok? ==> "" + d.text == d.text;
  }

  lemma FrontFront(a: string, b: string, d: Decoded)
    ensures Front(a, Front(b, d)) == Front(a + b, d)
  {
    assert d.Ok? ==> a + (b + d.text) == a + b + d.text;
  }

  lemma {:induction false} DecodeRun(run: string, rest: string)
    requires '%' !in run && '+' !in run
    ensures Decode(run + rest) == Front(run, Decode(rest))
  {
    if run == "" {
      assert run + rest == rest;
      FrontNothing(Decode(rest));
    } else {
      DecodeRun(run[1..], rest);
      assert (run + rest)[1..] == run[1..] + rest;
      FrontFront([run[0]], run[1..], Decode(rest));
      assert run == [run[0]] + run[1..];
    }
  }

  /** A loop over `str` has produced `text` for the part before `pos`. */
  ghost predicate Decoding(str: string, text: string, pos: nat) {
    pos <= |str| && Front(text, Decode(str[pos..])) == Decode(str)
  }

  lemma DecodingStart(str: string)
    ensures Decoding(str, "", 0)
  {
    assert str[0..] == str;
    FrontNothing(Decode(str));
  }

  lemma DecodingRun(str: string, text: string, per: nat, pos: nat)
    requires Decoding(str, text, per) && per <= pos <= |str|
    requires '%' !in str[per..pos] && '+' !in str[per..pos]
    ensures Decoding(str, text + str[per..pos], pos)
  {
    assert str[per..] == str[per..pos] + str[pos..];
    DecodeRun(str[per..pos], str[pos..]);
    FrontFront(text, str[per..pos], Decode(str[pos..]));
  }

  /** An escape or a plus sign, or the errors that they can give. */
  lemma DecodingNext(str: string, text: string, pos: nat)
    requires Decoding(str, text, pos) && pos < |str| && (str[pos] == '%' || str[pos] == '+')
    ensures if str[pos] == '+' then Decoding(str, text + " ", pos + 1)
            else if |str| - pos < 3 then Decode(str).Error?
            else
              var c := ToChar(str[pos + 1], str[pos + 2]);
              if c < 0 then Decode(str).Error? else Decoding(str, text + [c as char], pos + 3)
  {
    hide ToChar;
    var rest := str[pos..];
    if str[pos] == '+' {
      assert rest[1..] == str[pos + 1..];
      FrontFront(text, " ", Decode(str[pos + 1..]));
    } else if |str| - pos >= 3 {
      var c := ToChar(str[pos + 1], str[pos + 2]);
      if c >= 0 {
        assert rest[3..] == str[pos + 3..];
        FrontFront(text, [c as char], Decode(str[pos + 3..]));
      }
    }
  }

  lemma DecodingEnd(str: string, text: string)
    requires Decoding(str, text, |str|)
    ensures Decode(str) == Ok(text)
  {
    assert text + "" == text;
  }

  /** The decoder is at an escape or a plus sign at `q`, before any NUL. */
  lemma BeforeNul(str: string, text: string, q: nat)
    requires var z := CLength(str); q < z && Decoding(str[..z], text, q) && (str[q] == '%' || str[q] == '+')
    ensures var buf := str[..CLength(str)];
            if str[q] == '+' then q + 1 <= |buf| && Decoding(buf, text + " ", q + 1)
            else if |str| - q < 3 || ToChar(str[q + 1], str[q + 2]) < 0 then Outcome(str) == ("", false)
            else q + 3 <= |buf| && Decoding(buf, text + [ToChar(str[q + 1], str[q + 2]) as char], q + 3)
  {
    hide Decode, Decoding;
    var buf := str[..CLength(str)];
    DecodingNext(buf, text, q);
    if str[q] == '%' && |str| - q >= 3 {
      assert str[q + 1] == NUL || str[q + 2] == NUL ==> ToChar(str[q + 1], str[q + 2]) < 0;
      assert |buf| - q < 3 ==> |buf| == q + 1 || |buf| == q + 2;
    }
  }

  /** The piece that ends at `q` holds the NUL, or the end of the text. */
  lemma AtNul(str: string, text: string, per: nat, q: nat)
    requires var z := CLength(str); per <= z <= q <= |str| && Decoding(str[..z], text, per)
    requires Free(str[per..q], "%+") && (q < |str| ==> str[q] in "%+")
    ensures var z := CLength(str);
            Decode(str[..z]) == Ok(text + str[per..z]) && q == z + Until(str[z..], "%+")
  {
    hide Decode, Decoding;
    var z := CLength(str);
    var buf := str[..z];
    assert buf[per..z] == str[per..z] && forall i | per <= i < z :: str[i] == str[per..q][i - per];
    DecodingRun(buf, text, per, z);
    DecodingEnd(buf, text + str[per..z]);
    assert str[z..] == str[z..q] + str[q..] && forall i | z <= i < q :: str[i] == str[per..q][i - per];
    UntilEnd(str[z..q], str[q..], "%+");
  }

  lemma AtTheEnd(str: string, text: string)
    requires CLength(str) == |str| && Decoding(str[..|str|], text, |str|)
    ensures Outcome(str) == (text, false)
  {
    DecodingEnd(str[..|str|], text);
  }

  lemma RunBeforeNul(str: string, z: nat, per: nat, pos: nat)
    requires per <= pos <= z <= |str|
    ensures str[..z][per..pos] == str[per..pos]
    ensures Free(str[per..pos], "%+") ==> '%' !in str[per..pos] && '+' !in str[per..pos]
  {
    assert '%' in "%+" && '+' in "%+";
  }

  method UrlDecode(str: string) returns (decstr: string, thrown: bool)
    ensures (decstr, thrown) == Outcome(str)
    ensures '\0' !in str ==> !thrown && decstr == Text(Decode(str))
  {
    hide ToChar, CLength, Decode, Decoding, Until;
    if NUL !in str { OutcomeWithoutNul(str); }
    decstr, thrown := "", false;
    var pos: nat, per: nat := 0, 0;
    var buf := str[..CLength(str)];
    DecodingStart(buf);
    while true
      invariant per == pos <= |str| && !thrown
      invariant if pos <= |buf| then Decoding(buf, decstr, pos) else Outcome(str) == ("", true)
      decreases |str| - pos, pos < |str|
    {
      pos := WalkUntil(str, pos, "%+");
      if per > |buf| { return "", true; }
      ghost var text := decstr;
      decstr := decstr + buf[per..if pos < |buf| then pos else |buf|];
      if pos < |buf| {
        RunBeforeNul(str, |buf|, per, pos);
        DecodingRun(buf, text, per, pos);
        BeforeNul(str, decstr, pos);
      } else {
        RunBeforeNul(str, |buf|, per, |buf|);
        AtNul(str, text, per, pos);
      }
      if pos >= |str| { break; }
      if str[pos] == '%' {
        if |str| - pos < 3 { return "", false; }
        var c := ToChar(str[pos + 1], str[pos + 2]);
        if c < 0 { return "", false; }
        decstr := decstr + [c as char];
        pos := pos + 3;
        per := pos;
        if pos >= |str| {
          if pos == |buf| { AtTheEnd(str, decstr); }
          break;
        }
      } else {
        decstr := decstr + " ";
        pos := pos + 1;
        per := pos;
      }
    }
  }
}
