/** The growing byte buffer of 3rd_party/mongoose.c. `buf` is the allocation,
    of `size` octets, and the first `len` of them are in use. */
module Mbufs {
  import opened Bytes

  /** `memmove(a + dst, b + src, n)`; the two arrays may be the same one. */
  method Memmove(a: array<byte>, dst: nat, b: array<byte>, src: nat, n: nat)
    requires dst + n <= a.Length && src + n <= b.Length
    modifies a
    ensures a[..] == old(a[..dst] + b[src..src + n] + a[dst + n..])
  {
    forall k | 0 <= k < n {
      a[dst + k] := b[src + k];
    }
  }

  /** `memset(a + dst, 0, n)` */
  method Clear(a: array<byte>, dst: nat, n: nat)
    requires dst + n <= a.Length
    modifies a
    ensures a[..] == old(a[..dst]) + ZeroBytes(n) + old(a[dst + n..])
  {
    forall k | 0 <= k < n {
      a[dst + k] := 0;
    }
  }

  /** `memcpy` from memory outside the buffer. */
  method Memcpy(a: array<byte>, dst: nat, data: bytes)
    requires dst + |data| <= a.Length
    modifies a
    ensures a[..] == old(a[..dst]) + data + old(a[dst + |data|..])
  {
    forall k | 0 <= k < |data| {
      a[dst + k] := data[k];
    }
  }

  /** A sequence after `memmove` within it. */
  function Moved(s: bytes, dst: nat, src: nat, n: nat): (r: bytes)
    requires dst <= src && src + n <= |s|
    ensures |r| == |s|
  {
    s[..dst] + s[src..src + n] + s[dst + n..]
  }

  lemma MovedParts(s: bytes, dst: nat, src: nat, n: nat, k: nat)
    requires dst <= src && src + n <= k <= |s|
    ensures Moved(s, dst, src, n)[..dst + n] == s[..dst] + s[src..src + n]
    ensures Moved(s, dst, src, n)[k..] == s[k..]
  {
    Cut(s[..dst], s[src..src + n], s[dst + n..]);
  }

  /** A change within the front part of a sequence. */
  lemma Inside(front: bytes, back: bytes, from: nat, to: nat, part: bytes)
    requires from <= to <= |front| && |part| == to - from
    ensures var all := front + back;
            (all[..from] + part + all[to..])[..|front|] == front[..from] + part + front[to..]
  {
  }

  class Mbuf {
    var buf: array<byte>
    var len: nat
    var size: nat

    ghost predicate Valid()
      reads this
    {
      buf.Length == size && len <= size
    }

    /** What the buffer holds. */
    function Contents(): (s: bytes)
      requires Valid()
      reads this, buf
      ensures |s| == len
    {
      buf[..len]
    }

    constructor (initialSize: nat)
      ensures Valid() && Contents() == [] && size == initialSize && fresh(buf)
    {
      buf := new byte[initialSize];
      len, size := 0, initialSize;
    }

    method Free()
      requires Valid()
      modifies this
      ensures Valid() && Contents() == [] && size == 0 && fresh(buf)
    {
      buf := new byte[0];
      len, size := 0, 0;
    }

    /** Reallocation happens exactly when the new size differs and the octets
        in use still fit. */
    method Resize(newSize: nat)
      requires Valid()
      modifies this
      ensures Valid() && Contents() == old(Contents())
      ensures size == if old(len) <= newSize then newSize else old(size)
      ensures buf == old(buf) || fresh(buf)
    {
      if newSize > size || (newSize < size && newSize >= len) {
        var grown := new byte[newSize];
        Memmove(grown, 0, buf, 0, len);
        assert grown[..len] == buf[..len];
        buf, size := grown, newSize;
      }
    }

    method Trim()
      requires Valid()
      modifies this
      ensures Valid() && Contents() == old(Contents()) && size == len
      ensures buf == old(buf) || fresh(buf)
    {
      Resize(len);
    }

    /** The reallocation step of an insertion: room for `n` more octets, with
        half as much again when the memory has to move. */
    method Grow(n: nat)
      requires Valid()
      modifies this
      ensures Valid() && len == old(len) && len + n <= size
      ensures Contents() == old(Contents())
      ensures size == if old(len) + n <= old(size) then old(size) else (old(len) + n) * 3 / 2
      ensures buf == old(buf) || fresh(buf)
    {
      if len + n > size {
        var newSize := (len + n) * 3 / 2;
        var grown := new byte[newSize];
        Memmove(grown, 0, buf, 0, len);
        assert grown[..len] == buf[..len];
        buf, size := grown, newSize;
      }
    }

    /** Opens a gap of `n` octets at `off`; the gap's own octets are whatever
        the memory held. This is `mbuf_insert` with a null `buf`. */
    method InsertGap(off: nat, n: nat)
      requires Valid() && off <= len
      modifies this, buf
      ensures Valid() && len == old(len) + n
      ensures Contents()[..off] == old(Contents())[..off]
      ensures Contents()[off + n..] == old(Contents())[off..]
      ensures buf == old(buf) || fresh(buf)
    {
      Grow(n);
      Memmove(buf, off + n, buf, off, len - off);
      len := len + n;
    }

    method Insert(off: nat, data: bytes)
      requires Valid() && off <= len
      modifies this, buf
      ensures Valid()
      ensures Contents() == old(Contents())[..off] + data + old(Contents())[off..]
      ensures buf == old(buf) || fresh(buf)
    {
      InsertGap(off, |data|);
      ghost var held, beyond := Contents(), buf[len..];
      assert buf[..] == held + beyond;
      Memcpy(buf, off, data);
      Inside(held, beyond, off, off + |data|, data);
      assert Contents() == buf[..][..len];
    }

    method Append(data: bytes)
      requires Valid()
      modifies this, buf
      ensures Valid() && Contents() == old(Contents()) + data
      ensures buf == old(buf) || fresh(buf)
    {
      Insert(len, data);
    }

    /** Drops the first `n` octets, or nothing at all when fewer are held. */
    method Remove(n: nat)
      requires Valid()
      modifies this, buf
      ensures Valid() && buf == old(buf) && size == old(size)
      ensures Contents() == if n <= old(len) then old(Contents())[n..] else old(Contents())
    {
      if n > 0 && n <= len {
        ghost var held := buf[..];
        Memmove(buf, 0, buf, n, len - n);
        assert buf[..] == held[n..len] + held[len - n..];
        len := len - n;
      }
    }

    /** `len = n` */
    method Shorten(n: nat)
      requires Valid() && n <= len
      modifies this`len
      ensures Valid() && len == n && Contents() == old(Contents())[..n]
    {
      len := n;
    }

    /** `memset` to 0 within the octets in use. */
    method ClearPart(dst: nat, n: nat)
      requires Valid() && dst + n <= len
      modifies buf
      ensures Valid()
      ensures Contents() == old(Contents())[..dst] + ZeroBytes(n) + old(Contents())[dst + n..]
    {
      ghost var was, beyond := Contents(), buf[len..];
      assert buf[..] == was + beyond;
      Clear(buf, dst, n);
      Inside(was, beyond, dst, dst + n, ZeroBytes(n));
      assert Contents() == buf[..][..len];
    }

    /** `memmove` towards the front, within the octets in use. */
    method MoveDown(dst: nat, src: nat, n: nat)
      requires Valid() && dst <= src && src + n <= len
      modifies buf
      ensures Valid()
      ensures Contents() == Moved(old(Contents()), dst, src, n)
    {
      ghost var was, beyond := Contents(), buf[len..];
      assert buf[..] == was + beyond && buf[src..src + n] == was[src..src + n];
      Memmove(buf, dst, buf, src, n);
      Inside(was, beyond, dst, dst + n, was[src..src + n]);
      assert Contents() == buf[..][..len];
    }
  }
}
