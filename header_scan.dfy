/**
 * The gzip member-header signature and where it occurs in a byte sequence.
 * `FirstIndexOf` stands for `InputStreamConverter.firstIndexOf`, whose source is
 * not part of this model; `NextHeader` is the byte-by-byte reference definition
 * of "the nearest member start at or after an offset" that the chunked scan of
 * the split locator is proved against.
 */
module HeaderScan {
  import opened ByteStream

  /** The signature of a gzip member: ID1, ID2 and CM = deflate (section 2.3.1 of RFC 1952). */
  const HeaderBytes: seq<byte> := [0x1F, 0x8B, 0x08]

  /** `pattern` occurs in `buf` starting at `i`, entirely inside `buf`. */
  predicate Matches(buf: seq<byte>, pattern: seq<byte>, i: int) {
    0 <= i && i + |pattern| <= |buf| && buf[i..i + |pattern|] == pattern
  }

  /**
   * The least start index in `[from, to]` at which `pattern` occurs entirely inside
   * `buf`, or -1 when there is none.
   */
  function FirstIndexOf(buf: seq<byte>, pattern: seq<byte>, from: int, to: int): (r: int)
    decreases to - from
    ensures r == -1 || (from <= r <= to && Matches(buf, pattern, r))
    ensures forall i :: (from <= i <= to && (r == -1 || i < r)) ==> !Matches(buf, pattern, i)
  {
    if from > to then -1
    else if Matches(buf, pattern, from) then from
    else FirstIndexOf(buf, pattern, from + 1, to)
  }

  /** A gzip member header starts at offset `i` of the file. */
  predicate HeaderAt(data: seq<byte>, i: int) {
    Matches(data, HeaderBytes, i)
  }

  /**
   * The first member-header offset at or after `loc`; `|data|` when no header
   * starts in `[loc, |data|)`, and `loc` itself when `loc` is at or past the end.
   */
  function NextHeader(data: seq<byte>, loc: nat): (r: nat)
    ensures loc <= r
    ensures r < |data| ==> HeaderAt(data, r)
    ensures loc < |data| ==> r <= |data|
    ensures loc >= |data| ==> r == loc
    ensures forall i :: loc <= i < r ==> !HeaderAt(data, i)
    decreases |data| - loc
  {
    if loc >= |data| || HeaderAt(data, loc) then loc else NextHeader(data, loc + 1)
  }

  /** The properties in `NextHeader`'s contract determine it. */
  lemma NextHeaderIs(data: seq<byte>, loc: nat, r: nat)
    requires loc <= r
    requires HeaderAt(data, r) || r == (if loc < |data| then |data| else loc)
    requires forall i :: loc <= i < r ==> !HeaderAt(data, i)
    ensures NextHeader(data, loc) == r
  {
  }

  /** Skipping a stretch that holds no header start does not change the answer. */
  lemma NextHeaderSkip(data: seq<byte>, p: nat, q: nat)
    requires p <= q <= |data|
    requires forall i :: p <= i < q ==> !HeaderAt(data, i)
    ensures NextHeader(data, p) == NextHeader(data, q)
  {
    var n := NextHeader(data, q);
    NextHeaderIs(data, p, n);
  }

  /** A later offset never snaps to an earlier member start. */
  lemma NextHeaderMonotone(data: seq<byte>, a: nat, b: nat)
    requires a <= b
    ensures NextHeader(data, a) <= NextHeader(data, b)
  {
  }

  /** A header can start only where all of its bytes fit. */
  lemma NextHeaderBeforeEnd(data: seq<byte>, loc: nat, j: int)
    requires loc <= j && HeaderAt(data, j)
    ensures NextHeader(data, loc) <= j <= |data| - |HeaderBytes|
  {
  }
}
