/**
 * The split-boundary locator of `SplittableGZipCodec`: `getHeader` scans the file
 * in 32 KiB windows for the next gzip member header at or after an offset.
 *
 * `Probe` is one pass of `getHeader`'s outer loop as a function of the file and the
 * window start; `FillBuffer` is its inner loop; `GetHeader` is the loop as written;
 * `GetHeaderOrEnd` is the same loop stopping at the end of the file.
 */
module Locator {
  import opened ByteStream
  import opened HeaderScan

  /** `buf_length`: the size of one scan window. */
  const BufLength: nat := 32 * 1024

  /** How many bytes the inner loop gathers from offset `p`: min(buf_length, bytes left). */
  function FillLength(data: seq<byte>, p: nat): (n: nat) {
    if p >= |data| then 0 else Min(BufLength, |data| - p)
  }

  function Zeros(n: nat): (z: seq<byte>)
    ensures |z| == n && forall k :: 0 <= k < n ==> z[k] == 0
  {
    seq(n, _ => 0)
  }

  /** The scan buffer after the inner loop: the window's bytes, then the zeros of the freshly allocated array. */
  function ProbeBuffer(data: seq<byte>, p: nat): (buf: seq<byte>) {
    (if p >= |data| then [] else data[p..p + FillLength(data, p)]) + Zeros(BufLength - FillLength(data, p))
  }

  /** What one pass of the outer loop decides: return `offset`, or rescan from `position`. */
  datatype Step = Returns(offset: int) | Rescan(position: int)

  /**
   * One pass of `getHeader`'s outer loop with the window at `p`: nothing read means
   * return `p`; a signature in the window means return its offset; otherwise rescan
   * from `headerbytes.length` bytes before the end of what was read.
   */
  function Probe(data: seq<byte>, p: nat): (r: Step)
    ensures r.Returns? ==> p <= r.offset
    ensures r.Rescan? ==> p < |data| && r.position < p + BufLength
    ensures r.Rescan? ==> p + 1 - |HeaderBytes| <= r.position
  {
    var totalLen := FillLength(data, p);
    if totalLen == 0 then Returns(p)
    else
      var headerIndex := FirstIndexOf(ProbeBuffer(data, p), HeaderBytes, 0, totalLen - 1);
      if headerIndex == -1 then Rescan(p + (totalLen - |HeaderBytes|))
      else Returns(p + headerIndex)
  }

  lemma ProbeBufferAt(data: seq<byte>, p: nat, k: int)
    requires 0 <= k < BufLength
    ensures |ProbeBuffer(data, p)| == BufLength
    ensures k < FillLength(data, p) ==> ProbeBuffer(data, p)[k] == data[p + k]
    ensures k >= FillLength(data, p) ==> ProbeBuffer(data, p)[k] == 0
  {
  }

  /**
   * A signature found at window index `i` is a real member header of the file:
   * the zero padding cannot complete one, because the signature's last byte is not 0.
   */
  lemma BufferMatchIsHeader(data: seq<byte>, p: nat, i: int)
    requires 0 <= i < FillLength(data, p)
    ensures Matches(ProbeBuffer(data, p), HeaderBytes, i)
        <==> HeaderAt(data, p + i) && i + |HeaderBytes| <= BufLength
  {
    var buf := ProbeBuffer(data, p);
    var h := |HeaderBytes|;
    ProbeBufferAt(data, p, 0);
    if Matches(buf, HeaderBytes, i) {
      assert buf[i + h - 1] == HeaderBytes[h - 1] != 0;
      ProbeBufferAt(data, p, i + h - 1);
      forall k | 0 <= k < h ensures data[p + i + k] == HeaderBytes[k] {
        assert buf[i + k] == HeaderBytes[k];
        ProbeBufferAt(data, p, i + k);
      }
      assert data[p + i..p + i + h] == HeaderBytes;
    }
    if HeaderAt(data, p + i) && i + h <= BufLength {
      forall k | 0 <= k < h ensures buf[i + k] == HeaderBytes[k] {
        assert data[p + i + k] == HeaderBytes[k];
        ProbeBufferAt(data, p, i + k);
      }
      assert buf[i..i + h] == HeaderBytes;
    }
  }

  /** When a pass returns, it returns the first member start at or after its window. */
  lemma {:induction false} ProbeReturnsNextHeader(data: seq<byte>, p: nat)
    requires Probe(data, p).Returns?
    ensures Probe(data, p).offset == NextHeader(data, p)
  {
    var totalLen := FillLength(data, p);
    if totalLen > 0 {
      var buf := ProbeBuffer(data, p);
      var idx := FirstIndexOf(buf, HeaderBytes, 0, totalLen - 1);
      BufferMatchIsHeader(data, p, idx);
      forall j | p <= j < p + idx ensures !HeaderAt(data, j) {
        BufferMatchIsHeader(data, p, j - p);
      }
      NextHeaderIs(data, p, p + idx);
    }
  }

  /**
   * A pass over a full window that finds nothing moves the window forward by
   * `buf_length - headerbytes.length` bytes, past no member start: the next window
   * overlaps this one by `headerbytes.length` bytes, so a straddling signature is seen.
   */
  lemma {:induction false} ProbeRescanFullWindow(data: seq<byte>, p: nat)
    requires p + BufLength <= |data|
    requires Probe(data, p).Rescan?
    ensures Probe(data, p).position == p + BufLength - |HeaderBytes| > p
    ensures NextHeader(data, Probe(data, p).position) == NextHeader(data, p)
  {
    var q := p + BufLength - |HeaderBytes|;
    forall j | p <= j < q ensures !HeaderAt(data, j) {
      BufferMatchIsHeader(data, p, j - p);
    }
    NextHeaderSkip(data, p, q);
  }

  /** A pass over a short final window that finds nothing means no header starts at or after `p`. */
  lemma {:induction false} ProbeRescanShortWindow(data: seq<byte>, p: nat)
    requires p < |data| < p + BufLength
    requires Probe(data, p).Rescan?
    ensures Probe(data, p).position == |data| - |HeaderBytes|
    ensures NextHeader(data, p) == |data|
  {
    forall j | p <= j < |data| ensures !HeaderAt(data, j) {
      BufferMatchIsHeader(data, p, j - p);
    }
    NextHeaderIs(data, p, |data|);
  }

  /**
   * As written, one pass from an offset inside a short final window with no header
   * after it rescans from `|data| - headerbytes.length`; `HeaderlessTailIsFixedPoint`
   * shows that the loop then stays there when the tail leaves room for a signature.
   */
  lemma {:induction false} ProbeStallsOnHeaderlessTail(data: seq<byte>, p: nat)
    requires p < |data| < p + BufLength
    requires NextHeader(data, p) == |data|
    ensures Probe(data, p) == Rescan(|data| - |HeaderBytes|)
  {
    var totalLen := FillLength(data, p);
    var idx := FirstIndexOf(ProbeBuffer(data, p), HeaderBytes, 0, totalLen - 1);
    if idx != -1 {
      BufferMatchIsHeader(data, p, idx);
      assert false;
    }
  }

  /**
   * As written, `getHeader` cannot get out of a header-less tail of at least
   * `headerbytes.length` bytes: from an offset that leaves room for a signature, the
   * first pass rescans from `|data| - headerbytes.length`, and every pass from there
   * rescans from that same offset again.
   */
  lemma HeaderlessTailIsFixedPoint(data: seq<byte>, p: nat)
    requires |HeaderBytes| <= |data| && p <= |data| - |HeaderBytes| && |data| < p + BufLength
    requires NextHeader(data, p) == |data|
    ensures Probe(data, p) == Rescan(|data| - |HeaderBytes|)
    ensures Probe(data, |data| - |HeaderBytes|) == Rescan(|data| - |HeaderBytes|)
  {
    ProbeStallsOnHeaderlessTail(data, p);
    NextHeaderSkip(data, p, |data| - |HeaderBytes|);
    ProbeStallsOnHeaderlessTail(data, |data| - |HeaderBytes|);
  }

  /**
   * As written, `getHeader` can return an offset before the one it was asked for:
   * from an offset among the last `headerbytes.length - 1` bytes, the window backs up
   * to `|data| - headerbytes.length`, and a header there is returned.
   */
  lemma ProbeBacktracksBeforeLoc(data: seq<byte>, p: nat)
    requires |data| - |HeaderBytes| < p < |data|
    requires HeaderAt(data, |data| - |HeaderBytes|)
    ensures Probe(data, p) == Rescan(|data| - |HeaderBytes|)
    ensures Probe(data, |data| - |HeaderBytes|) == Returns(|data| - |HeaderBytes|)
    ensures |data| - |HeaderBytes| < p
  {
    var s := |data| - |HeaderBytes|;
    ProbeStallsOnHeaderlessTail(data, p);
    var buf := ProbeBuffer(data, s);
    BufferMatchIsHeader(data, s, 0);
    assert FirstIndexOf(buf, HeaderBytes, 0, FillLength(data, s) - 1) == 0;
  }

  /** The two cases above on the smallest files: three zero bytes, and a lone signature. */
  lemma AsWrittenCounterexamples()
    ensures Probe([0, 0, 0], 0) == Rescan(0)
    ensures Probe(HeaderBytes, 1) == Rescan(0) && Probe(HeaderBytes, 0) == Returns(0)
  {
    var zeros: seq<byte> := [0, 0, 0];
    assert zeros[0..3][0] != HeaderBytes[0];
    NextHeaderIs(zeros, 0, 3);
    ProbeStallsOnHeaderlessTail(zeros, 0);
    ProbeBacktracksBeforeLoc(HeaderBytes, 1);
  }

  /**
   * The inner loop of `getHeader`: read into `buf` until it is full or the stream
   * ends, each read asking for the rest of the buffer. `lastIndex` tracks `totalLen`
   * and neither ever exceeds `buf_length`.
   */
  method FillBuffer(src: SeekableGZipDataInputStream, buf: array<byte>) returns (totalLen: int)
    requires buf.Length == BufLength
    requires forall k :: 0 <= k < buf.Length ==> buf[k] == 0
    modifies src`pos, buf
    ensures totalLen == FillLength(src.data, old(src.pos))
    ensures buf[..] == ProbeBuffer(src.data, old(src.pos))
    ensures src.pos == old(src.pos) + totalLen
  {
    ghost var p := src.pos;
    var lastIndex := 0;
    totalLen := 0;
    while true
      invariant 0 <= lastIndex == totalLen < BufLength
      invariant src.pos == p + totalLen
      invariant totalLen == 0 || p + totalLen <= |src.data|
      invariant forall k :: 0 <= k < totalLen ==> buf[k] == src.data[p + k]
      invariant forall k :: totalLen <= k < BufLength ==> buf[k] == 0
      decreases BufLength - totalLen
    {
      var len := src.Read(buf, lastIndex, BufLength - lastIndex);
      if len == -1 {
        break;
      }
      totalLen := totalLen + len;
      if totalLen != BufLength {
        lastIndex := totalLen;
      } else {
        break;
      }
    }
    forall k | 0 <= k < BufLength ensures buf[k] == ProbeBuffer(src.data, p)[k] {
      ProbeBufferAt(src.data, p, k);
    }
    ProbeBufferAt(src.data, p, 0);
  }

  /**
   * `getHeader` as written. It terminates only when a member header starts at or
   * after `loc`, or `loc` is at or past the end; it then returns the first member
   * start at or after `loc` (or `loc` itself at the end).
   */
  method GetHeader(src: SeekableGZipDataInputStream, loc: nat) returns (r: int)
    requires loc >= |src.data| || exists j :: loc <= j && HeaderAt(src.data, j)
    modifies src
    ensures r == NextHeader(src.data, loc)
    ensures loc >= |src.data| ==> src.pos == loc
    ensures loc < |src.data| ==> r < src.pos <= |src.data|
  {
    ghost var target := NextHeader(src.data, loc);
    if loc < |src.data| {
      var j :| loc <= j && HeaderAt(src.data, j);
      NextHeaderBeforeEnd(src.data, loc, j);
    }
    var position := loc;
    var newPos := -1;
    while true
      invariant loc <= position
      invariant NextHeader(src.data, position) == target
      invariant loc >= |src.data| ==> position == loc
      invariant loc < |src.data| ==> target < |src.data|
      decreases |src.data| - position
    {
      var buf := new byte[BufLength](_ => 0);
      src.Seek(position);
      var totalLen := FillBuffer(src, buf);
      if totalLen == 0 {
        return position;
      }
      var headerIndex := FirstIndexOf(buf[..], HeaderBytes, 0, totalLen - 1);
      if headerIndex == -1 {
        if position + BufLength <= |src.data| {
          ProbeRescanFullWindow(src.data, position);
        } else {
          ProbeRescanShortWindow(src.data, position);
        }
        position := position + (totalLen - |HeaderBytes|);
      } else {
        ProbeReturnsNextHeader(src.data, position);
        newPos := position + headerIndex;
        break;
      }
    }
    return newPos;
  }

  /**
   * `getHeader` stopping at the end of the file: a pass over a short final window
   * that finds no signature returns the end of the file instead of rescanning.
   * It terminates on every input and returns the first member start at or after
   * `loc`, or the end of the file when there is none.
   */
  method GetHeaderOrEnd(src: SeekableGZipDataInputStream, loc: nat) returns (r: int)
    modifies src
    ensures r == NextHeader(src.data, loc)
    ensures loc >= |src.data| ==> r == loc && src.pos == loc
    ensures loc < |src.data| ==> r <= src.pos <= |src.data|
    ensures loc <= r && (HeaderAt(src.data, r) || r == |src.data| || r == loc)
  {
    ghost var target := NextHeader(src.data, loc);
    var position := loc;
    while true
      invariant loc <= position
      invariant NextHeader(src.data, position) == target
      invariant loc >= |src.data| ==> position == loc
      invariant loc < |src.data| ==> position < |src.data|
      decreases |src.data| - position
    {
      var buf := new byte[BufLength](_ => 0);
      src.Seek(position);
      var totalLen := FillBuffer(src, buf);
      if totalLen == 0 {
        return position;
      }
      var headerIndex := FirstIndexOf(buf[..], HeaderBytes, 0, totalLen - 1);
      if headerIndex == -1 {
        if totalLen < BufLength {
          ProbeRescanShortWindow(src.data, position);
          return position + totalLen;
        }
        ProbeRescanFullWindow(src.data, position);
        position := position + (totalLen - |HeaderBytes|);
      } else {
        ProbeReturnsNextHeader(src.data, position);
        return position + headerIndex;
      }
    }
  }
}
