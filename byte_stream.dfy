/**
 * The compressed file as the split locator sees it: a seekable stream of bytes.
 * `SeekableGZipDataInputStream` stands for the wrapper of the same name around
 * Hadoop's `FSDataInputStream`; only its `seek` and `read(byte[], int, int)` are used.
 */
module ByteStream {

  newtype byte = x: int | 0 <= x < 256

  type Positive = n: nat | n >= 1 witness 1

  function Min(a: int, b: int): (m: int) {
    if a <= b then a else b
  }

  class SeekableGZipDataInputStream {
    /** The bytes of the file. */
    const data: seq<byte>
    /**
     * The most bytes the medium hands over in one `read` call. A read may stop
     * short of what was asked; nothing that calls `Read` relies on this bound.
     */
    const maxTransfer: Positive
    /** The offset of the next byte `Read` delivers. */
    var pos: nat

    constructor (data: seq<byte>, maxTransfer: Positive)
      ensures this.data == data && this.maxTransfer == maxTransfer && pos == 0
    {
      this.data := data;
      this.maxTransfer := maxTransfer;
      pos := 0;
    }

    /** Moves to an absolute offset; an offset at or past the end makes every later read report end of stream. */
    method Seek(p: nat)
      modifies this`pos
      ensures pos == p
    {
      pos := p;
    }

    /**
     * `read(buf, off, len)` with `InputStream`'s contract: 0 when `len` is 0,
     * -1 at end of stream, otherwise between 1 and `len` bytes copied into
     * `buf[off..]`, taken from the current offset, which moves past them.
     */
    method Read(buf: array<byte>, off: nat, len: nat) returns (n: int)
      requires off + len <= buf.Length
      modifies this`pos, buf
      ensures len == 0 ==> n == 0
      ensures len > 0 && old(pos) >= |data| ==> n == -1
      ensures len > 0 && old(pos) < |data| ==> 1 <= n <= len && old(pos) + n <= |data|
      ensures n <= 0 ==> pos == old(pos) && buf[..] == old(buf[..])
      ensures n > 0 ==> pos == old(pos) + n
      ensures n > 0 ==> buf[..] == old(buf[..off]) + data[old(pos)..old(pos) + n] + old(buf[off + n..])
    {
      if len == 0 {
        return 0;
      }
      if pos >= |data| {
        return -1;
      }
      n := Min(Min(len, |data| - pos), maxTransfer);
      forall k | 0 <= k < n {
        buf[off + k] := data[pos + k];
      }
      assert buf[..] == old(buf[..off]) + data[pos..pos + n] + old(buf[off + n..]);
      pos := pos + n;
    }
  }
}
