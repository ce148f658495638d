/**
 * `SplittableGZipCodec`'s own operations: opening a split (align both ends to
 * member starts, seek to the aligned start, wrap a reader) and reading the
 * bytes-in-split setting of the output side.
 */
module Codec {
  import opened Wrappers
  import opened JavaLong
  import opened ByteStream
  import opened HeaderScan
  import opened Locator
  import opened SplitInput

  /**
   * `createInputStream(in, decompressor, start, end, mode)`. `decoded` stands for
   * what the decompressing reader yields from the aligned start on.
   */
  method CreateInputStream(src: SeekableGZipDataInputStream, start: nat, end: nat, decoded: seq<byte>)
      returns (s: SplittableGzipInputStream)
    modifies src
    ensures fresh(s) && fresh(s.inner)
    ensures s.start == NextHeader(src.data, start) && s.end == NextHeader(src.data, end)
    ensures start <= end ==> s.start <= s.end
    ensures src.pos == s.start
    ensures s.Valid() && s.sampled == []
    ensures s.inner.Position() == s.start && s.inner.content == decoded
  {
    var newStart := GetHeaderOrEnd(src, start);
    var newEnd := GetHeaderOrEnd(src, end);
    if start <= end {
      NextHeaderMonotone(src.data, start, end);
    }
    src.Seek(newStart);
    var gzin := new GZipInputStreamRandomAccess(newStart, decoded);
    s := new SplittableGzipInputStream(gzin, newStart, newEnd);
  }

  /**
   * `createInputStream` with the locator as written. It needs, at each end, a
   * member start at or after the requested offset, or the offset at or past the
   * end of the file; otherwise `getHeader` does not terminate or backs up.
   */
  method CreateInputStreamAsWritten(src: SeekableGZipDataInputStream, start: nat, end: nat, decoded: seq<byte>)
      returns (s: SplittableGzipInputStream)
    requires start >= |src.data| || exists j :: start <= j && HeaderAt(src.data, j)
    requires end >= |src.data| || exists j :: end <= j && HeaderAt(src.data, j)
    modifies src
    ensures fresh(s) && fresh(s.inner)
    ensures s.start == NextHeader(src.data, start) && s.end == NextHeader(src.data, end)
    ensures start <= end ==> s.start <= s.end
    ensures src.pos == s.start
    ensures s.Valid() && s.sampled == []
    ensures s.inner.Position() == s.start && s.inner.content == decoded
  {
    var newStart := GetHeader(src, start);
    var newEnd := GetHeader(src, end);
    if start <= end {
      NextHeaderMonotone(src.data, start, end);
    }
    src.Seek(newStart);
    var gzin := new GZipInputStreamRandomAccess(newStart, decoded);
    s := new SplittableGzipInputStream(gzin, newStart, newEnd);
  }

  /** `NUM_OUTPUT_BYTES_IN_SPLIT`, the configuration key. */
  const NumOutputBytesInSplit: string := "io.gzinga.hadoop.output.bytes-in-split"

  /** `NUM_OUTPUT_BYTES_IN_SPLIT_DEFAULT`, the value used when the key is not set. */
  const NumOutputBytesInSplitDefault: string := "39452672"

  /**
   * The `autoOffsetBytes` that `createOutputStream` computes:
   * `Long.valueOf(conf.get(NUM_OUTPUT_BYTES_IN_SPLIT, NUM_OUTPUT_BYTES_IN_SPLIT_DEFAULT))`,
   * where `conf` holds the configured settings by key; `None` as a result is a
   * `NumberFormatException`.
   */
  function AutoOffsetBytes(conf: map<string, string>): (r: Option<int>)
    ensures NumOutputBytesInSplit in conf ==> r == ParseLong(conf[NumOutputBytesInSplit])
    ensures NumOutputBytesInSplit !in conf ==> r == ParseLong(NumOutputBytesInSplitDefault)
  {
    var setting := if NumOutputBytesInSplit in conf then conf[NumOutputBytesInSplit]
                   else NumOutputBytesInSplitDefault;
    ParseLong(setting)
  }

  lemma DecimalText394()
    ensures DecimalString(394) == "394"
  {
    assert DecimalString(3) == "3";
    assert DecimalString(39) == "39";
  }

  lemma DecimalText394526()
    ensures DecimalString(394526) == "394526"
  {
    DecimalText394();
    assert DecimalString(3945) == "3945";
    assert DecimalString(39452) == "39452";
  }

  /** The default setting is the decimal text of 39452672. */
  lemma DefaultIsDecimalText()
    ensures LongToString(39452672) == NumOutputBytesInSplitDefault
  {
    DecimalText394526();
    assert DecimalString(3945267) == "3945267";
  }

  /**
   * Without a configured value a split holds 39452672 bytes, which is not the
   * 32 MiB (33554432 bytes) that the constant's comment names.
   */
  lemma DefaultBytesInSplitIsNot32MiB(conf: map<string, string>)
    requires NumOutputBytesInSplit !in conf
    ensures AutoOffsetBytes(conf) == Some(39452672)
    ensures 39452672 != 32 * 1024 * 1024
  {
    DefaultIsDecimalText();
    ParseLongToString(39452672);
  }
}
