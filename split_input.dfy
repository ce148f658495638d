/**
 * The input side of `SplittableGZipCodec`: `SplittableGzipInputStream` remembers,
 * for `getPos`, the position the decompressing stream had just before the most
 * recent read call.
 */
module SplitInput {
  import opened ByteStream

  /**
   * Stand-in for `GZipInputStreamRandomAccess`, the decompressing reader: it yields
   * `content`, the bytes decompressed from the file, and reports its position as
   * `base` plus the number of bytes delivered so far.
   */
  class GZipInputStreamRandomAccess {
    const base: nat
    const content: seq<byte>
    var consumed: nat

    ghost predicate Valid()
      reads this
    {
      consumed <= |content|
    }

    /** The position `getPos()` reports. */
    function Position(): (q: int)
      reads this
    {
      base + consumed
    }

    constructor (base: nat, content: seq<byte>)
      ensures Valid() && this.base == base && this.content == content && consumed == 0
    {
      this.base := base;
      this.content := content;
      consumed := 0;
    }

    method GetPos() returns (p: int)
      ensures p == Position()
    {
      p := base + consumed;
    }

    /** `read()`: the next byte, or -1 when all of `content` has been delivered. */
    method ReadByte() returns (b: int)
      requires Valid()
      modifies this
      ensures Valid()
      ensures old(consumed) < |content| ==> b == content[old(consumed)] as int && consumed == old(consumed) + 1
      ensures old(consumed) == |content| ==> b == -1 && consumed == old(consumed)
    {
      if consumed == |content| {
        b := -1;
      } else {
        b := content[consumed] as int;
        consumed := consumed + 1;
      }
    }

    /** `read(buf, off, len)`: up to `len` bytes of `content` into `buf[off..]`; 0 when `len` is 0, -1 at the end. */
    method Read(buf: array<byte>, off: nat, len: nat) returns (n: int)
      requires Valid()
      requires off + len <= buf.Length
      modifies this, buf
      ensures Valid()
      ensures len == 0 ==> n == 0
      ensures len > 0 && old(consumed) == |content| ==> n == -1
      ensures len > 0 && old(consumed) < |content| ==> n == Min(len, |content| - old(consumed))
      ensures n <= 0 ==> consumed == old(consumed) && buf[..] == old(buf[..])
      ensures n > 0 ==> consumed == old(consumed) + n
      ensures n > 0 ==> buf[..] == old(buf[..off]) + content[old(consumed)..old(consumed) + n] + old(buf[off + n..])
    {
      if len == 0 {
        return 0;
      }
      if consumed == |content| {
        return -1;
      }
      n := Min(len, |content| - consumed);
      forall k | 0 <= k < n {
        buf[off + k] := content[consumed + k];
      }
      assert buf[..] == old(buf[..off]) + content[consumed..consumed + n] + old(buf[off + n..]);
      consumed := consumed + n;
    }

    /** `reset()`: modelled as returning to where the stream was opened. */
    method Reset()
      modifies this
      ensures Valid() && consumed == 0
    {
      consumed := 0;
    }
  }

  class SplittableGzipInputStream {
    const inner: GZipInputStreamRandomAccess
    /** The split's aligned start and end, as handed to `setStart` and `setEnd`. */
    const start: int
    const end: int
    /** `lastRead`: the inner position sampled by the latest read call, -1 before any. */
    var lastRead: int
    /** The inner positions sampled by the read calls so far, oldest first. */
    ghost var sampled: seq<int>

    ghost predicate Valid()
      reads this, inner
    {
      inner.Valid() &&
      lastRead == (if sampled == [] then -1 else sampled[|sampled| - 1])
    }

    constructor (inner: GZipInputStreamRandomAccess, start: int, end: int)
      requires inner.Valid()
      ensures Valid() && sampled == []
      ensures this.inner == inner && this.start == start && this.end == end
    {
      this.inner := inner;
      this.start := start;
      this.end := end;
      lastRead := -1;
      sampled := [];
    }

    /** `resetState()` resets the whole inner stream, not only its decompressor. */
    method ResetState()
      requires Valid()
      modifies inner
      ensures Valid() && inner.consumed == 0
    {
      inner.Reset();
    }

    /** `getPos()`: -1 before any read, else the inner position sampled just before the latest read. */
    method GetPos() returns (p: int)
      requires Valid()
      ensures p == (if sampled == [] then -1 else sampled[|sampled| - 1])
    {
      p := lastRead;
    }

    /** `read(buf, off, len)`: sample the inner position, then delegate. */
    method Read(buf: array<byte>, off: nat, len: nat) returns (n: int)
      requires Valid()
      requires off + len <= buf.Length
      modifies this, inner, buf
      ensures Valid()
      ensures sampled == old(sampled) + [old(inner.Position())]
      ensures len == 0 ==> n == 0
      ensures len > 0 && old(inner.consumed) == |inner.content| ==> n == -1
      ensures len > 0 && old(inner.consumed) < |inner.content| ==> n == Min(len, |inner.content| - old(inner.consumed))
      ensures n <= 0 ==> inner.consumed == old(inner.consumed) && buf[..] == old(buf[..])
      ensures n > 0 ==> inner.consumed == old(inner.consumed) + n
      ensures n > 0 ==> buf[..] == old(buf[..off]) + inner.content[old(inner.consumed)..old(inner.consumed) + n] + old(buf[off + n..])
    {
      lastRead := inner.GetPos();
      sampled := sampled + [lastRead];
      n := inner.Read(buf, off, len);
    }

    /** `read()`: sample the inner position, then delegate. */
    method ReadByte() returns (b: int)
      requires Valid()
      modifies this, inner
      ensures Valid()
      ensures sampled == old(sampled) + [old(inner.Position())]
      ensures old(inner.consumed) < |inner.content| ==> b == inner.content[old(inner.consumed)] as int && inner.consumed == old(inner.consumed) + 1
      ensures old(inner.consumed) == |inner.content| ==> b == -1 && inner.consumed == old(inner.consumed)
    {
      lastRead := inner.GetPos();
      sampled := sampled + [lastRead];
      b := inner.ReadByte();
    }
  }
}
