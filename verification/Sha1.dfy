/** The streaming part of SHA-1 (FIPS 180-4) in 3rd_party/mongoose.c. The
    compression function is a parameter: nothing here depends on its rounds. */
module Sha1 {
  import opened Bytes
  import opened Mbufs
  const W32 := 0x1_0000_0000

  type word = x: int | 0 <= x < 0x1_0000_0000

  type Hash = h: seq<word> | |h| == 5 witness [0, 0, 0, 0, 0]

  type Transform = (Hash, bytes) -> Hash

  const IV: Hash := [0x67452301, 0xEFCDAB89, 0x98BADCFE, 0x10325476, 0xC3D2E1F0]

  /** The compression function folded over the 64-octet blocks of `s`. */
  function Fold(t: Transform, h: Hash, s: bytes): Hash
    requires |s| % 64 == 0
    decreases |s|
  {
    if s == [] then h else Fold(t, t(h, s[..64]), s[64..])
  }

  lemma {:induction false} FoldAppend(t: Transform, h: Hash, a: bytes, b: bytes)
    requires |a| % 64 == 0 && |b| % 64 == 0
    ensures Fold(t, h, a + b) == Fold(t, Fold(t, h, a), b)
    decreases |a|
  {
    if a == [] {
      assert a + b == b;
    } else {
      FoldAppend(t, t(h, a[..64]), a[64..], b);
      assert (a + b)[..64] == a[..64] && (a + b)[64..] == a[64..] + b;
    }
  }

  lemma FoldOne(t: Transform, h: Hash, b: bytes)
    requires |b| == 64
    ensures Fold(t, h, b) == t(h, b)
  {
    assert b[..64] == b && b[64..] == [];
  }

  /** The part of a message that makes up whole blocks. */
  function Blocks(m: bytes): (r: bytes)
    ensures |r| % 64 == 0
  {
    m[..|m| - |m| % 64]
  }

  function Tail(m: bytes): (r: bytes)
    ensures |r| == |m| % 64
  {
    m[|m| - |m| % 64..]
  }

  /** Section 5.1.1: a one bit, the fewest zero bits that leave 64 bits of the
      last block, and the length in bits. */
  function Zeros(len: nat): (k: nat)
    ensures k < 64 && (len + 1 + k) % 64 == 56
  {
    (119 - len % 64) % 64
  }

  function BitLength(len: nat): (r: bytes)
    ensures |r| == 8
  {
    Be32(8 * len / W32 % W32) + Be32(8 * len % W32)
  }

  function Pad(m: bytes): (r: bytes)
    ensures |r| % 64 == 0
  {
    var n := |m| + 1 + Zeros(|m|);
    assert n % 64 == 56 && (n + 8) % 64 == 0;
    var body: bytes := m + [0x80] + ZeroBytes(Zeros(|m|));
    assert |body| == n;
    body + BitLength(|m|)
  }

  function DigestOf(h: Hash): (r: bytes)
    ensures |r| == 20
  {
    Be32(h[0]) + Be32(h[1]) + Be32(h[2]) + Be32(h[3]) + Be32(h[4])
  }

  function Digest(t: Transform, m: bytes): bytes {
    DigestOf(Fold(t, IV, Pad(m)))
  }

  /** The initial state of section 5.3.1, octet by octet: they count up, then down. */
  lemma InitialOctets()
    ensures Be32(IV[0]) == [0x67, 0x45, 0x23, 0x01] && Be32(IV[1]) == [0xEF, 0xCD, 0xAB, 0x89]
    ensures Be32(IV[2]) == [0x98, 0xBA, 0xDC, 0xFE] && Be32(IV[3]) == [0x10, 0x32, 0x54, 0x76]
    ensures Be32(IV[4]) == [0xC3, 0xD2, 0xE1, 0xF0]
  {
  }

  lemma BitLengthNumber(len: nat)
    ensures Number(BitLength(len)) == 8 * len % 0x1_0000_0000_0000_0000
  {
    var n := 8 * len % 0x1_0000_0000_0000_0000;
    assert n / W32 == 8 * len / W32 % W32 && n % W32 == 8 * len % W32;
    hide Be32;
    NumberOfEight(n);
  }

  /** A padded message: the message, a one bit, fewer than 64 octets of zeros, and
      the number of bits modulo 2^64 in network byte order, in whole blocks. */
  lemma Padding(m: bytes)
    ensures var p, k := Pad(m), |Pad(m)| - |m| - 9;
            && |p| % 64 == 0 && 0 <= k < 64
            && p[..|m|] == m && p[|m|] == 128 && (forall i | |m| < i < |m| + 1 + k :: p[i] == 0)
            && Number(p[|m| + 1 + k..]) == 8 * |m| % 0x1_0000_0000_0000_0000
  {
    var zeros := ZeroBytes(Zeros(|m|));
    BitLengthNumber(|m|);
    hide Zeros, BitLength, Number, ZeroBytes;
    var p := m + [0x80] + zeros + BitLength(|m|);
    assert p[|m| + 1 + |zeros|..] == BitLength(|m|) && p[|m| + 1..|m| + 1 + |zeros|] == zeros;
    forall i | |m| < i < |m| + 1 + |zeros| ensures p[i] == 0 {
      assert p[i] == zeros[i - |m| - 1];
    }
  }

  /** The digest is the five words of the state in network byte order. */
  lemma DigestWords(h: Hash, i: nat)
    requires i < 5
    ensures Number(DigestOf(h)[4 * i..4 * i + 4]) == h[i]
  {
    hide Be32;
    assert DigestOf(h)[4 * i..4 * i + 4] == Be32(h[i]);
    assert [] + Be32(h[i]) == Be32(h[i]);
    NumberOfNone();
    NumberOfFour([], h[i]);
  }

  lemma BlocksAndTail(a: bytes, b: bytes)
    requires |a| % 64 == 0 && |b| < 64
    ensures Blocks(a + b) == a && Tail(a + b) == b
  {
    assert (|a| + |b|) % 64 == |b|;
  }

  lemma BlocksTailJoin(m: bytes)
    ensures Blocks(m) + Tail(m) == m
  {
  }

  /** `count` is the number of bits absorbed, modulo 2^64, in two words. */
  ghost predicate Counts(hi: word, lo: word, len: nat) {
    hi == 8 * len / W32 % W32 && lo == 8 * len % W32
  }

  /** `x >> 8 * (3 - k) & 255`, for 0 <= k < 4. */
  function ByteOf(w: word, k: nat): byte
    requires k < 4
  {
    if k == 0 then w / 0x100_0000 else if k == 1 then w / 0x1_0000 % 256 else if k == 2 then w / 256 % 256 else w % 256
  }

  lemma DivDiv(w: word)
    ensures w / 0x1_0000 / 256 == w / 0x100_0000
  {
  }

  lemma ModDiv(w: word)
    ensures w % 0x1_0000 / 256 == w / 256 % 256 && w % 0x1_0000 % 256 == w % 256
  {
    var q, r := w / 0x1_0000, w % 0x1_0000;
    assert w == 256 * (256 * q + r / 256) + r % 256;
  }

  lemma ByteOfBe32(w: word, k: nat)
    requires k < 4
    ensures Be32(w)[k] == ByteOf(w, k)
  {
    DivDiv(w);
    ModDiv(w);
  }

  lemma Carry(lo: word, d: word)
    ensures var c := if lo + d >= W32 then 1 else 0;
            (lo + d) % W32 == lo + d - c * W32 && ((lo + d) % W32 < lo <==> c == 1)
  {
  }

  lemma Quotient(x: nat, q: nat, r: nat)
    requires x == W32 * q + r && r < W32
    ensures x / W32 == q && x % W32 == r
  {
  }

  lemma SumDigits(a: nat, b: nat)
    ensures var s := a % W32 + b % W32;
            var c := if s >= W32 then 1 else 0;
            (a + b) / W32 == a / W32 + b / W32 + c && (a + b) % W32 == s - c * W32
  {
    assert a == W32 * (a / W32) + a % W32 && b == W32 * (b / W32) + b % W32;
    var s := a % W32 + b % W32;
    var c := if s >= W32 then 1 else 0;
    Quotient(a + b, a / W32 + b / W32 + c, s - c * W32);
  }

  lemma WrapSum(x: nat, c: nat, y: nat)
    ensures ((x % W32 + c) % W32 + y) % W32 == (x + c + y) % W32
  {
  }

  /** Adding to the low word carries into the high one exactly when it wraps. */
  lemma CountsAdd(hi: word, lo: word, len: nat, n: nat)
    requires Counts(hi, lo, len) && n < W32
    ensures var lo' := (lo + n * 8 % W32) % W32;
            var carried := if lo' < lo then (hi + 1) % W32 else hi;
            Counts((carried + n / 0x2000_0000) % W32, lo', len + n)
  {
    var a, b := 8 * len, 8 * n;
    var c := if a % W32 + b % W32 >= W32 then 1 else 0;
    assert b == n * 8 && b / W32 == n / 0x2000_0000;
    SumDigits(a, b);
    Carry(lo, b % W32);
    var carried := if c == 1 then (hi + 1) % W32 else hi;
    assert carried == (a / W32 % W32 + c) % W32;
    WrapSum(a / W32, c, b / W32);
    assert 8 * (len + n) == a + b;
  }

  /** Below 2^61 octets the two words are the length in bits, which is what
      section 5.1.1 of FIPS 180-4 appends. */
  lemma CountsExact(hi: word, lo: word, len: nat)
    requires Counts(hi, lo, len) && len < 0x2000_0000_0000_0000
    ensures hi * W32 + lo == 8 * len
    ensures BitLength(len) == Be32(hi) + Be32(lo)
  {
    assert 8 * len / W32 < W32;
  }

  lemma CountsOffset(hi: word, lo: word, len: nat)
    requires Counts(hi, lo, len)
    ensures lo / 8 % 64 == len % 64
  {
    var q := 8 * len / W32;
    assert lo == 8 * (len - 0x2000_0000 * q);
    assert lo / 8 == len - 64 * (0x80_0000 * q);
  }

  lemma NothingAbsorbed(t: Transform)
    ensures Fold(t, IV, Blocks([])) == IV && Tail([]) == [] && Counts(0, 0, 0)
  {
    assert Blocks([]) == [];
  }

  lemma FewestZeros(len: nat, k: nat)
    requires k <= Zeros(len)
    ensures (len + 1 + k) % 64 == 56 <==> k == Zeros(len)
  {
  }

  lemma DigestAt(h: Hash, i: nat)
    requires i < 20
    ensures DigestOf(h)[i] == ByteOf(h[i / 4], i % 4)
  {
    ByteOfBe32(h[i / 4], i % 4);
  }

  lemma Absorbed(m: bytes, data: bytes, j: nat, i: nat)
    requires i <= |data| < i + 64
    requires if i == 0 then j == |m| % 64 && j + |data| < 64 else j == 0 && (|m| + i) % 64 == 0
    ensures Blocks(m + data) == if i == 0 then Blocks(m) else m + data[..i]
    ensures Tail(m + data) == (if i == 0 then Tail(m) else []) + data[i..]
  {
    if i == 0 {
      BlocksAndTail(Blocks(m), Tail(m) + data);
      assert Blocks(m) + (Tail(m) + data) == m + data;
    } else {
      BlocksAndTail(m + data[..i], data[i..]);
      assert m + data[..i] + data[i..] == m + data;
    }
  }

  lemma AbsorbBlock(t: Transform, a: bytes, block: bytes)
    requires |a| % 64 == 0 && |block| == 64
    ensures |a + block| % 64 == 0 && Fold(t, IV, a + block) == t(Fold(t, IV, a), block)
  {
    FoldAppend(t, IV, a, block);
    FoldOne(t, Fold(t, IV, a), block);
  }

  lemma AbsorbFirst(t: Transform, m: bytes, data: bytes)
    requires |m| % 64 + |data| == 64
    ensures |m + data| % 64 == 0
    ensures Fold(t, IV, m + data) == t(Fold(t, IV, Blocks(m)), Tail(m) + data)
  {
    hide Fold;
    var a, b := Blocks(m), Tail(m);
    AbsorbBlock(t, a, b + data);
    assert a + (b + data) == m + data by {
      BlocksTailJoin(m);
      Cut(a, b, data);
    }
  }

  class Context {
    const transform: Transform
    var state: Hash
    var count0: word
    var count1: word
    const buffer: array<byte>
    ghost var message: bytes

    /** The context has absorbed `message`. */
    ghost predicate Valid()
      reads this, buffer
    {
      && buffer.Length == 64
      && state == Fold(transform, IV, Blocks(message))
      && buffer[..|message| % 64] == Tail(message)
      && Counts(count1, count0, |message|)
    }

    constructor (transform: Transform)
      ensures Valid() && message == [] && this.transform == transform && fresh(buffer)
      ensures state == [0x67452301, 0xEFCDAB89, 0x98BADCFE, 0x10325476, 0xC3D2E1F0]
    {
      this.transform := transform;
      buffer := new byte[64];
      state, count0, count1 := IV, 0, 0;
      message := [];
      new;
      hide Fold, Counts, Blocks, Tail;
      NothingAbsorbed(transform);
    }

    /** The last step of an update: `data` goes into the buffer at `j`. */
    method Store(j: nat, data: bytes)
      requires j + |data| <= 64 == buffer.Length
      modifies buffer
      ensures buffer[..j + |data|] == old(buffer[..j]) + data
    {
      Memcpy(buffer, j, data);
    }

    lemma FullBuffer()
      requires buffer.Length == 64
      ensures buffer[..] == buffer[..64]
    {
    }

    /** The count part of an update. */
    method AddCount(len: nat)
      requires len < W32 && Counts(count1, count0, |message|)
      modifies this`count0, this`count1
      ensures Counts(count1, count0, |message| + len)
    {
      hide Counts;
      CountsAdd(count1, count0, |message|, len);
      var j := count0;
      count0 := (count0 + len * 8 % W32) % W32;
      if count0 < j {
        count1 := (count1 + 1) % W32;
      }
      count1 := (count1 + len / 0x2000_0000) % W32;
    }

    /** The loop over the blocks that are compressed straight from `data`. */
    method TransformBlocks(data: bytes, start: nat) returns (i: nat)
      requires start <= |data| && (|message| + start) % 64 == 0
      requires state == Fold(transform, IV, message + data[..start])
      modifies this`state
      ensures start <= i <= |data| < i + 64 && (|message| + i) % 64 == 0
      ensures state == Fold(transform, IV, message + data[..i])
    {
      hide Fold;
      i := start;
      while i + 63 < |data|
        invariant start <= i <= |data| && (|message| + i) % 64 == 0
        invariant state == Fold(transform, IV, message + data[..i])
      {
        AbsorbBlock(transform, message + data[..i], data[i..i + 64]);
        assert message + data[..i] + data[i..i + 64] == message + data[..i + 64];
        state := transform(state, data[i..i + 64]);
        i := i + 64;
      }
    }

    method Update(data: bytes)
      requires Valid() && |message| % 64 + |data| < W32
      modifies this, buffer
      ensures Valid() && message == old(message) + data
    {
      hide Fold, Counts, Blocks, Tail;
      var j, i, len := count0, 0, |data|;
      CountsOffset(count1, count0, |message|);
      AddCount(len);
      j := j / 8 % 64;
      if (j + len) % W32 > 63 {
        i := 64 - j;
        AbsorbFirst(transform, message, data[..i]);
        Store(j, data[..i]);
        FullBuffer();
        state := transform(state, buffer[..]);
        i := TransformBlocks(data, i);
        j := 0;
      }
      Absorbed(message, data, j, i);
      Store(j, data[i..]);
      message := message + data;
    }

    /** The padding loop: one octet at a time, until the length fits. */
    method AppendPadding()
      requires Valid()
      modifies this, buffer
      ensures Valid() && message == old(message) + [0x80] + ZeroBytes(Zeros(|old(message)|))
    {
      hide Fold, Counts, Blocks, Tail, Zeros;
      ghost var m, zeros: bytes := message, [];
      Update([0x80]);
      CountsOffset(count1, count0, |message|);
      while count0 / 8 % 64 != 56
        invariant Valid() && message == m + [0x80] + zeros && zeros == ZeroBytes(|zeros|)
        invariant |zeros| <= Zeros(|m|) && count0 / 8 % 64 == |message| % 64
        decreases Zeros(|m|) - |zeros|
      {
        FewestZeros(|m|, |zeros|);
        Update([0]);
        assert m + [0x80] + zeros + [0] == m + [0x80] + (zeros + [0]);
        zeros := zeros + [0];
        assert zeros == ZeroBytes(|zeros|);
        CountsOffset(count1, count0, |message|);
      }
      FewestZeros(|m|, |zeros|);
    }

    /** The number of bits as it stands when the padding begins. */
    method FinalCount() returns (finalcount: bytes)
      requires Valid()
      ensures finalcount == BitLength(|message|)
    {
      finalcount := [];
      var i := 0;
      while i < 8
        invariant 0 <= i <= 8 && finalcount == (Be32(count1) + Be32(count0))[..i]
      {
        ByteOfBe32(count1, i % 4);
        ByteOfBe32(count0, i % 4);
        finalcount := finalcount + [ByteOf(if i >= 4 then count0 else count1, i % 4)];
        i := i + 1;
      }
    }

    static method DigestBytes(h: Hash) returns (digest: bytes)
      ensures digest == DigestOf(h)
    {
      digest := [];
      var i := 0;
      while i < 20
        invariant 0 <= i <= 20 && digest == DigestOf(h)[..i]
      {
        DigestAt(h, i);
        digest := digest + [ByteOf(h[i / 4], i % 4)];
        i := i + 1;
      }
    }

    /** The digest; the context is wiped. */
    method Final() returns (digest: bytes)
      requires Valid()
      modifies this, buffer
      ensures digest == Digest(transform, old(message))
      ensures state == [0, 0, 0, 0, 0] && count0 == count1 == 0 && buffer[..] == ZeroBytes(64)
    {
      hide Fold, Counts, Blocks, Tail, Zeros, BitLength;
      var finalcount := FinalCount();
      AppendPadding();
      Update(finalcount);
      assert message == Pad(old(message));
      BlocksAndTail(message, []);
      assert message + [] == message && state == Fold(transform, IV, Pad(old(message)));
      digest := DigestBytes(state);
      state, count0, count1 := [0, 0, 0, 0, 0], 0, 0;
      Clear(buffer, 0, 64);
      Cut([], ZeroBytes(64), []);
    }
  }

  /** Section 5.1 and 6.1 of FIPS 180-4: whatever the message is cut into, the
      digest is that of the whole message. */
  method Hashed(transform: Transform, updates: seq<bytes>) returns (digest: bytes)
    requires forall u | u in updates :: |u| <= W32 - 64
    ensures digest == Digest(transform, Flatten(updates))
  {
    hide Digest;
    var c := new Context(transform);
    var i := 0;
    while i < |updates|
      invariant 0 <= i <= |updates| && c.Valid() && c.transform == transform && fresh(c) && fresh(c.buffer)
      invariant c.message == Flatten(updates[..i])
    {
      c.Update(updates[i]);
      assert updates[..i + 1] == updates[..i] + [updates[i]];
      FlattenAppend(updates[..i], updates[i]);
      i := i + 1;
    }
    assert updates[..i] == updates;
    digest := c.Final();
  }
}
