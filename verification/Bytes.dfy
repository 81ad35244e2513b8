/** Octets, C-style bit operations on them, and big-endian numbers. Octets are
    kept as integers, so that `x >> n` is `x / 2^n` and `x & (2^n - 1)` is
    `x % 2^n`; exclusive or is computed digit by digit. */
module Bytes {
  type byte = x: int | 0 <= x < 256

  type bytes = seq<byte>

  datatype Option<+T> = None | Some(value: T)

  function Flatten<T>(pieces: seq<seq<T>>): seq<T> {
    if pieces == [] then [] else pieces[0] + Flatten(pieces[1..])
  }

  lemma {:induction false} FlattenAppend<T>(pieces: seq<seq<T>>, last: seq<T>)
    ensures Flatten(pieces + [last]) == Flatten(pieces) + last
  {
    if pieces == [] {
      assert [] + [last] == [last] && [last][1..] == [];
    } else {
      FlattenAppend(pieces[1..], last);
      assert (pieces + [last])[1..] == pieces[1..] + [last];
    }
  }

  lemma Cut<T>(a: seq<T>, b: seq<T>, c: seq<T>)
    ensures (a + b + c)[..|a|] == a && (a + b + c)[|a|..|a| + |b|] == b && (a + b + c)[|a| + |b|..] == c
    ensures (a + b + c)[|a|..] == b + c && a + b + c == a + (b + c)
  {
  }

  lemma {:induction false} FlattenConcat<T>(a: seq<seq<T>>, b: seq<seq<T>>)
    ensures Flatten(a + b) == Flatten(a) + Flatten(b)
  {
    if a == [] {
      assert a + b == b;
    } else {
      FlattenConcat(a[1..], b);
      assert (a + b)[1..] == a[1..] + b && (a + b)[0] == a[0];
      Cut(a[0], Flatten(a[1..]), Flatten(b));
    }
  }

  lemma Halves<T>(a: seq<T>, b: seq<T>)
    ensures (a + b)[..|a|] == a && (a + b)[|a|..] == b
  {
  }

  /** The parts of what stands at an offset. */
  lemma CutAt<T>(s: seq<T>, off: nat, a: seq<T>, b: seq<T>, c: seq<T>)
    requires off <= |s| && s[off..] == a + b + c
    ensures off + |a| + |b| <= |s| && s[off..off + |a|] == a && s[off + |a|..off + |a| + |b|] == b
    ensures s[off + |a| + |b|..] == c
  {
    var t := s[off..];
    Cut(a, b, c);
    assert s[off..off + |a|] == t[..|a|];
    assert s[off + |a|..off + |a| + |b|] == t[|a|..|a| + |b|];
    assert s[off + |a| + |b|..] == t[|a| + |b|..];
  }

  lemma Within<T>(s: seq<T>, t: seq<T>, a: nat, b: nat)
    requires a <= b <= |s|
    ensures (s + t)[a..b] == s[a..b]
  {
  }

  /** The exclusive or of the low `n` binary digits of two numbers. */
  function XorDigits(a: nat, b: nat, n: nat): nat {
    if n == 0 then 0
    else (if a % 2 == b % 2 then 0 else 1) + 2 * XorDigits(a / 2, b / 2, n - 1)
  }

  function Pow2(n: nat): (r: nat)
    ensures r > 0
  {
    if n == 0 then 1 else 2 * Pow2(n - 1)
  }

  lemma {:induction false} XorDigitsBound(a: nat, b: nat, n: nat)
    ensures XorDigits(a, b, n) < Pow2(n)
  {
    if n > 0 {
      XorDigitsBound(a / 2, b / 2, n - 1);
    }
  }

  lemma LowDigit(digit: nat, rest: nat)
    requires digit < 2
    ensures (digit + 2 * rest) % 2 == digit && (digit + 2 * rest) / 2 == rest
  {
  }

  lemma {:induction false} XorDigitsTwice(a: nat, b: nat, n: nat)
    requires a < Pow2(n)
    ensures XorDigits(XorDigits(a, b, n), b, n) == a
  {
    if n > 0 {
      XorDigitsTwice(a / 2, b / 2, n - 1);
      var digit, rest := if a % 2 == b % 2 then 0 else 1, XorDigits(a / 2, b / 2, n - 1);
      LowDigit(digit, rest);
      assert XorDigits(digit + 2 * rest, b, n) == (if digit == b % 2 then 0 else 1) + 2 * XorDigits(rest, b / 2, n - 1);
    }
  }

  /** The inclusive or of the low `n` binary digits of two numbers. */
  function OrDigits(a: nat, b: nat, n: nat): nat {
    if n == 0 then 0
    else (if a % 2 == 1 || b % 2 == 1 then 1 else 0) + 2 * OrDigits(a / 2, b / 2, n - 1)
  }

  lemma {:induction false} OrDigitsBound(a: nat, b: nat, n: nat)
    ensures OrDigits(a, b, n) < Pow2(n)
  {
    if n > 0 {
      OrDigitsBound(a / 2, b / 2, n - 1);
    }
  }

  lemma {:induction false} OrZero(a: nat, n: nat)
    requires a < Pow2(n)
    ensures OrDigits(a, 0, n) == a
  {
    if n > 0 {
      OrZero(a / 2, n - 1);
    }
  }

  /** `a ^ b` on octets. */
  function Xor(a: byte, b: byte): byte {
    XorDigitsBound(a, b, 8);
    assert Pow2(8) == 256 by { assert Pow2(4) == 16; }
    XorDigits(a, b, 8)
  }

  lemma XorTwice(a: byte, b: byte)
    ensures Xor(Xor(a, b), b) == a
  {
    assert Pow2(8) == 256 by { assert Pow2(4) == 16; }
    XorDigitsTwice(a, b, 8);
  }

  /** The binary digit of weight 2^k. */
  function Bit(a: nat, k: nat): (r: nat)
    ensures r < 2
  {
    if k == 0 then a % 2 else Bit(a / 2, k - 1)
  }

  lemma {:induction false} XorDigitsBit(a: nat, b: nat, n: nat, k: nat)
    requires k < n
    ensures Bit(XorDigits(a, b, n), k) == (Bit(a, k) + Bit(b, k)) % 2
  {
    var digit, rest := if a % 2 == b % 2 then 0 else 1, XorDigits(a / 2, b / 2, n - 1);
    LowDigit(digit, rest);
    if k > 0 {
      XorDigitsBit(a / 2, b / 2, n - 1, k - 1);
    }
  }

  /** Each digit of an exclusive or is the sum of the two, without carry. */
  lemma XorBit(a: byte, b: byte, k: nat)
    requires k < 8
    ensures Bit(Xor(a, b), k) == (Bit(a, k) + Bit(b, k)) % 2
  {
    XorDigitsBit(a, b, 8, k);
  }

  lemma {:induction false} OrDigitsBit(a: nat, b: nat, n: nat, k: nat)
    requires k < n
    ensures Bit(OrDigits(a, b, n), k) == if Bit(a, k) == 0 && Bit(b, k) == 0 then 0 else 1
  {
    var digit, rest := if a % 2 == 1 || b % 2 == 1 then 1 else 0, OrDigits(a / 2, b / 2, n - 1);
    LowDigit(digit, rest);
    if k > 0 {
      OrDigitsBit(a / 2, b / 2, n - 1, k - 1);
    }
  }

  /** What `memset` to 0 leaves. */
  function ZeroBytes(n: nat): (r: bytes)
    ensures |r| == n && forall k | 0 <= k < n :: r[k] == 0
  {
    seq(n, _ => 0)
  }

  /** A 16-bit number in network byte order. */
  function Be16(n: nat): (r: bytes)
    requires n < 0x1_0000
    ensures |r| == 2
  {
    [n / 256, n % 256]
  }

  function FromBe16(hi: byte, lo: byte): (r: nat)
    ensures r < 0x1_0000
  {
    hi * 256 + lo
  }

  lemma Be16RoundTrip(n: nat)
    requires n < 0x1_0000
    ensures FromBe16(Be16(n)[0], Be16(n)[1]) == n
  {
  }

  /** A 32-bit number in network byte order. */
  function Be32(n: nat): (r: bytes)
    requires n < 0x1_0000_0000
    ensures |r| == 4
  {
    Be16(n / 0x1_0000) + Be16(n % 0x1_0000)
  }

  function FromBe32(b: bytes): (r: nat)
    requires |b| == 4
    ensures r < 0x1_0000_0000
  {
    FromBe16(b[0], b[1]) * 0x1_0000 + FromBe16(b[2], b[3])
  }

  /** The number that octets spell in network byte order. */
  function Number(b: bytes): nat {
    if b == [] then 0 else Number(b[..|b| - 1]) * 256 + b[|b| - 1]
  }

  lemma NumberOfNone()
    ensures Number([]) == 0
  {
  }

  lemma NumberOfTwo(n: nat)
    requires n < 0x1_0000
    ensures Number(Be16(n)) == n
  {
    var b := Be16(n);
    assert b[..1][..0] == [] && Number(b[..1]) == b[0];
  }

  lemma {:induction false} NumberJoined(a: bytes, b: bytes)
    requires |b| == 2
    ensures Number(a + b) == Number(a) * 0x1_0000 + Number(b)
  {
    assert (a + b)[..|a| + 1] == a + b[..1] && (a + b[..1])[..|a|] == a;
    assert b[..1][..0] == [] && Number(b[..1]) == b[0];
  }

  lemma NumberOfFour(a: bytes, n: nat)
    requires n < 0x1_0000_0000
    ensures Number(a + Be32(n)) == Number(a) * 0x1_0000_0000 + n
  {
    var high, low := Be16(n / 0x1_0000), Be16(n % 0x1_0000);
    assert a + (high + low) == a + high + low;
    NumberJoined(a + high, low);
    NumberJoined(a, high);
    NumberOfTwo(n / 0x1_0000);
    NumberOfTwo(n % 0x1_0000);
  }

  lemma NumberOfEight(n: nat)
    requires n < 0x1_0000_0000_0000_0000
    ensures Number(Be32(n / 0x1_0000_0000) + Be32(n % 0x1_0000_0000)) == n
  {
    hide Be32;
    var high, low := Be32(n / 0x1_0000_0000), Be32(n % 0x1_0000_0000);
    NumberOfFour([], n / 0x1_0000_0000);
    NumberOfFour(high, n % 0x1_0000_0000);
    assert [] + high == high;
  }
}
