# Splittable gzip: split-boundary locator, split reader position and reset key

A model in Dafny of `SplittableGZipCodec`, the Hadoop codec of GZinga. GZinga writes a
gzip file as many concatenated, independently decompressible members. The codec lets
Hadoop cut such a file into splits. Decompression can only start at a member header,
so each requested split boundary is moved forward to the next gzip member-header
signature.

The model covers the codec's own logic:

- **`getHeader`, the boundary locator** (module `Locator`). It scans the file in 32 KiB
  windows from a requested offset. When nothing is found, the next window starts
  `headerbytes.length` bytes before the end of the current one, so a signature that
  straddles two windows is still seen. The file is a `SeekableGZipDataInputStream` over a
  `seq<byte>` (module `ByteStream`), and a read may return fewer bytes than asked.
  `FillBuffer` is the inner fill loop. `Probe` is one pass of the outer loop, written as a
  function. `GetHeader` is the loop as written. It is proved to return `NextHeader`: a
  byte-by-byte reference definition of "the first member start at or after `loc`"
  (module `HeaderScan`).
- **`createInputStream`** (module `Codec`). It aligns both ends of a split, seeks to the
  aligned start and wraps a reader. Alignment is monotone.
- **`SplittableGzipInputStream`** (module `SplitInput`). It is a class whose field
  `lastRead` holds the inner reader's position, sampled just before each read. `getPos`
  reports that field.
- **The key from `SplittableGzipOutputStream.resetState`** (module `ResetKey`). This is
  `long` arithmetic on the clock's `(epochSecond, nano)`. Java's wrap-around and its
  truncating `%` are written out in module `JavaLong`.
- **The bytes-in-split default** parsed by `Long.valueOf` (module `Codec`).

Assumptions about code that is not part of this model:

- `InputStreamConverter` is not part of this model. `headerbytes` is taken to be the
  signature of section 2.3.1 of RFC 1952: ID1 = 0x1f, ID2 = 0x8b, CM = 8.
  `firstIndexOf(buf, pattern, from, to)` is taken to return the least `i` in
  `[from, to]` at which `pattern` lies entirely inside `buf`, or -1 if there is none.
- The buffer is a fresh, zero-filled array on every pass. The signature's last byte is
  not 0, so the zero padding after a short read can never complete a match
  (`Locator.BufferMatchIsHeader`).

Where the code and the intended behaviour disagree, the model follows the code. A split
boundary with no member start after it should be the end of the file, because a split
reader can only start at a member header. As
written, `getHeader` instead loops forever, or returns an offset before the one requested
(see Findings). `GetHeader` models the code as written, under the precondition that makes
it terminate. `CreateInputStream` uses the corrected `GetHeaderOrEnd`. Both return
`NextHeader(data, loc)` whenever `GetHeader`'s precondition holds. So on every input where
the source terminates with a result at or after `loc`, `CreateInputStream` behaves as the
source does.

## Model

| member | source | states |
|---|---|---|
| `HeaderScan.FirstIndexOf` | hadoop/src/main/java/io/gzinga/hadoop/SplittableGZipCodec.java:68 | The result is -1 or an index in `[from, to]` where the pattern lies entirely inside the buffer. No index in `[from, to]` before the result (or none at all, when the result is -1) has a match. |
| `HeaderScan.NextHeader` | hadoop/src/main/java/io/gzinga/hadoop/SplittableGZipCodec.java:43-77 | Reference definition of the boundary. The result is at least `loc`. It is `loc` when `loc` is at or past the end, and otherwise at most the file length. A result inside the file is a member header. No header starts in `[loc, result)`. |
| `HeaderScan.NextHeaderIs` | hadoop/src/main/java/io/gzinga/hadoop/SplittableGZipCodec.java:43-77 | Those properties determine the boundary uniquely. |
| `HeaderScan.NextHeaderSkip` | hadoop/src/main/java/io/gzinga/hadoop/SplittableGZipCodec.java:69-70 | Skipping a stretch with no header start does not change the boundary. |
| `HeaderScan.NextHeaderMonotone` | hadoop/src/main/java/io/gzinga/hadoop/SplittableGZipCodec.java:84-85 | A later requested offset never aligns to an earlier boundary. |
| `HeaderScan.NextHeaderBeforeEnd` | hadoop/src/main/java/io/gzinga/hadoop/SplittableGZipCodec.java:65-73 | If a header starts at `j >= loc`, the boundary is at most `j`, and `j` leaves room for the whole signature. |
| `Locator.BufferMatchIsHeader` | hadoop/src/main/java/io/gzinga/hadoop/SplittableGZipCodec.java:47-68 | A match at window index `i` (below `totalLen`) holds exactly when a real member header starts at file offset `position + i` and fits in the window. |
| `Locator.ProbeReturnsNextHeader` | hadoop/src/main/java/io/gzinga/hadoop/SplittableGZipCodec.java:65-73 | When a pass returns, it returns the first member start at or after the window start, or the window start itself when nothing could be read. |
| `Locator.ProbeRescanFullWindow` | hadoop/src/main/java/io/gzinga/hadoop/SplittableGZipCodec.java:69-70 | A miss over a full window moves forward by exactly `buf_length - headerbytes.length` bytes. It skips no member start. |
| `Locator.ProbeRescanShortWindow` | hadoop/src/main/java/io/gzinga/hadoop/SplittableGZipCodec.java:69-70 | A miss over a short final window rescans from `headerbytes.length` bytes before the end. No header starts at or after the window. |
| `Locator.Probe` | hadoop/src/main/java/io/gzinga/hadoop/SplittableGZipCodec.java:47-74 | One pass of the outer loop as written. A pass that returns never returns less than its window start. A pass that rescans read at least one byte. It rescans from before the end of its window, at most `headerbytes.length - 1` bytes before its start. What a pass returns and where it rescans from are stated by `ProbeReturnsNextHeader`, `ProbeRescanFullWindow` and `ProbeRescanShortWindow`. |
| `Locator.ProbeStallsOnHeaderlessTail` | hadoop/src/main/java/io/gzinga/hadoop/SplittableGZipCodec.java:46-75 | As written, one pass from an offset inside a short final window with no header after it rescans from `\|data\| - headerbytes.length`. |
| `Locator.HeaderlessTailIsFixedPoint` | hadoop/src/main/java/io/gzinga/hadoop/SplittableGZipCodec.java:46-75 | As written, if the file has at least `headerbytes.length` bytes, the offset leaves room for a signature, and no header follows it inside a short final window, the first pass rescans from `\|data\| - headerbytes.length`, and a pass from there rescans from that same offset. So the loop never ends. From an offset among the last `headerbytes.length - 1` bytes the scan can instead back up to a header (`ProbeBacktracksBeforeLoc`). |
| `Locator.ProbeBacktracksBeforeLoc` | hadoop/src/main/java/io/gzinga/hadoop/SplittableGZipCodec.java:65-73 | As written, from an offset among the last `headerbytes.length - 1` bytes, when a header starts at `\|data\| - headerbytes.length`, the scan backs up and returns that header, which starts before the requested offset. |
| `Locator.AsWrittenCounterexamples` | hadoop/src/main/java/io/gzinga/hadoop/SplittableGZipCodec.java:65-73 | On the three bytes `00 00 00` from offset 0 the pass rescans from 0 again. On the bytes `1f 8b 08` from offset 1 it rescans from 0 and then returns 0. |
| `Locator.FillBuffer` | hadoop/src/main/java/io/gzinga/hadoop/SplittableGZipCodec.java:50-63 | After the fill loop, `totalLen = min(buf_length, bytes remaining from the position)`. The buffer holds those bytes and then zeros. The stream has moved forward by `totalLen`. The loop keeps `lastIndex == totalLen < buf_length`. |
| `Locator.GetHeader` | hadoop/src/main/java/io/gzinga/hadoop/SplittableGZipCodec.java:43-77 | Requires that a header starts at or after `loc`, or that `loc` is at or past the end. It then terminates (`decreases \|data\| - position`) and returns `NextHeader(data, loc)`. That result is at least `loc`, is `loc` at the end, is otherwise a header start, and no header starts in `[loc, result)`. |
| `Locator.GetHeaderOrEnd` | hadoop/src/main/java/io/gzinga/hadoop/SplittableGZipCodec.java:43-77 | Corrected locator with no precondition. It terminates on every file and offset and returns `NextHeader(data, loc)`. That is a header start, or the end of the file when none follows, or `loc` when `loc` is at or past the end. |
| `Codec.CreateInputStream` | hadoop/src/main/java/io/gzinga/hadoop/SplittableGZipCodec.java:80-89 | Both split ends are aligned with the locator. `start <= end` implies aligned start `<=` aligned end. The file is positioned at the aligned start. The new split stream reports -1 from `getPos` and wraps a reader that starts at the aligned start. |
| `Codec.CreateInputStreamAsWritten` | hadoop/src/main/java/io/gzinga/hadoop/SplittableGZipCodec.java:80-89 | The same, with `getHeader` as written at both ends. Requires at each end a header at or after the requested offset, or the offset at or past the end. The ends are then aligned to `NextHeader`, alignment is monotone, and the file is positioned at the aligned start. |
| `Codec.AutoOffsetBytes` | hadoop/src/main/java/io/gzinga/hadoop/SplittableGZipCodec.java:92-93 | The value configured under `NUM_OUTPUT_BYTES_IN_SPLIT` is parsed as `Long.valueOf` parses it. Without one, the default text is parsed. |
| `Codec.DefaultBytesInSplitIsNot32MiB` | hadoop/src/main/java/io/gzinga/hadoop/SplittableGZipCodec.java:41 | With no value configured under the key, the setting is 39452672 bytes. That is not the 32 MiB = 33554432 the comment names. |
| `JavaLong.ParseLong` | hadoop/src/main/java/io/gzinga/hadoop/SplittableGZipCodec.java:93 | `Long.valueOf`: a parsed value is a `long`. Success needs a digit, or a sign followed by at least one more character. A negative value needs a leading `-`. |
| `JavaLong.ParseLongRejectsNonDigit` | hadoop/src/main/java/io/gzinga/hadoop/SplittableGZipCodec.java:93 | A character after the first that is not a digit makes `Long.valueOf` throw `NumberFormatException`. |
| `JavaLong.ParseLongRejectsFirstChar` | hadoop/src/main/java/io/gzinga/hadoop/SplittableGZipCodec.java:93 | A first character that is neither a digit nor a sign makes it throw. |
| `JavaLong.ParseLongUnsigned` | hadoop/src/main/java/io/gzinga/hadoop/SplittableGZipCodec.java:93 | Unsigned digits, leading zeros included, give their decimal value, and the call throws when that value exceeds `Long.MAX_VALUE`. |
| `JavaLong.ParseLongSigned` | hadoop/src/main/java/io/gzinga/hadoop/SplittableGZipCodec.java:93 | A `+` followed by digits gives their value, at most `Long.MAX_VALUE`. A `-` followed by digits gives the negated value, at least `Long.MIN_VALUE`. Otherwise the call throws. |
| `JavaLong.ParseLongToString` | hadoop/src/main/java/io/gzinga/hadoop/SplittableGZipCodec.java:93 | Parsing the decimal text of any `long` gives it back. |
| `JavaLong.DigitsValueOfDecimalString` | hadoop/src/main/java/io/gzinga/hadoop/SplittableGZipCodec.java:93 | The digits of `n`'s decimal text have the value `n`. |
| `JavaLong.Wrap64` | hadoop/src/main/java/io/gzinga/hadoop/SplittableGZipCodec.java:143-144 | Two's-complement wrap: the result is a `long`, congruent to the exact value modulo 2^64, and equal to it when the exact value is a `long`. |
| `JavaLong.TruncRem` | hadoop/src/main/java/io/gzinga/hadoop/SplittableGZipCodec.java:143 | Java's `%` with a positive divisor: `a == q*b + r` for the quotient `q` rounded toward zero, so the remainder lies in `[0, b)` for a non-negative dividend and in `(-b, 0]` for a negative one. |
| `ResetKey.KeyWithModulus` | hadoop/src/main/java/io/gzinga/hadoop/SplittableGZipCodec.java:142-144 | The key expression, with every operation a `long` one, for a given modulus. The result is a `long`. |
| `ResetKey.ResetStateKey` | hadoop/src/main/java/io/gzinga/hadoop/SplittableGZipCodec.java:142-144 | The key as written, with modulus `Long.MAX_VALUE/1000000`. The result is a `long`. |
| `ResetKey.ResetStateKeyIsNanos` | hadoop/src/main/java/io/gzinga/hadoop/SplittableGZipCodec.java:142-144 | For `epochSecond >= 0` and `epochSecond*10^9 + nano <= Long.MAX_VALUE`, the key is exactly `epochSecond*10^9 + nano`. |
| `ResetKey.ResetStateKeyIncreasing` | hadoop/src/main/java/io/gzinga/hadoop/SplittableGZipCodec.java:142-144 | In that range the key is strictly increasing in `(epochSecond, nano)`, ordered lexicographically. |
| `ResetKey.ResetStateKeyOverflows` | hadoop/src/main/java/io/gzinga/hadoop/SplittableGZipCodec.java:143 | The key reaches `Long.MAX_VALUE` at (9223372036, 854775807) and is `Long.MIN_VALUE` one nanosecond later. It is still negative at (9223372037, 0). The modulus is larger than that second, so it never takes effect first. |
| `ResetKey.WrappedResetStateKey` | hadoop/src/main/java/io/gzinga/hadoop/SplittableGZipCodec.java:143 | The key with the modulus `Long.MAX_VALUE/1000000000`. The result is a `long`. |
| `ResetKey.WrappedKeyNeverOverflows` | hadoop/src/main/java/io/gzinga/hadoop/SplittableGZipCodec.java:143 | With that modulus no operation wraps, for any `long` second and any nano in `[0, 10^9)`. The key is the exact remainder in nanoseconds, and it is non-negative after the epoch. |
| `ResetKey.WrappedKeyAgreesBeforeOverflow` | hadoop/src/main/java/io/gzinga/hadoop/SplittableGZipCodec.java:142-144 | For seconds in `[0, Long.MAX_VALUE/10^9)` the corrected key equals the key as written. |
| `ResetKey.WrappedKeyPeriodic` | hadoop/src/main/java/io/gzinga/hadoop/SplittableGZipCodec.java:143 | For `epochSecond >= 0`, the corrected key repeats every `Long.MAX_VALUE/10^9` seconds, about 292 years. |
| `ByteStream.SeekableGZipDataInputStream.Seek` | hadoop/src/main/java/io/gzinga/hadoop/SplittableGZipCodec.java:48 | The position becomes the given offset. |
| `ByteStream.SeekableGZipDataInputStream.Read` | hadoop/src/main/java/io/gzinga/hadoop/SplittableGZipCodec.java:53 | Returns 0 when asked for 0 bytes, and -1 at or past the end. Otherwise it returns between 1 and `len` bytes, never past the end. Those bytes are copied from the current position into `buf[off..]`, the rest of `buf` is unchanged, and the position moves past them. |
| `SplitInput.SplittableGzipInputStream.constructor` | hadoop/src/main/java/io/gzinga/hadoop/SplittableGZipCodec.java:150-157 | `lastRead` starts at -1 with no reads sampled. The aligned start and end are stored. |
| `SplitInput.SplittableGzipInputStream.GetPos` | hadoop/src/main/java/io/gzinga/hadoop/SplittableGZipCodec.java:165-167 | Returns -1 before any read, and otherwise the inner position sampled by the latest read. It changes no state. |
| `SplitInput.SplittableGzipInputStream.Read` | hadoop/src/main/java/io/gzinga/hadoop/SplittableGZipCodec.java:170-173 | The sampled positions gain the inner position from before the call. The result and the buffer are exactly those of the inner `read(buf, off, len)`. |
| `SplitInput.SplittableGzipInputStream.ReadByte` | hadoop/src/main/java/io/gzinga/hadoop/SplittableGZipCodec.java:176-179 | The sampled positions gain the inner position from before the call. The result is the inner `read()`: the next byte, or -1 at the end. |
| `SplitInput.SplittableGzipInputStream.ResetState` | hadoop/src/main/java/io/gzinga/hadoop/SplittableGZipCodec.java:160-162 | Resets the whole inner stream, as written. `lastRead` is left as it was. |

## Left out

- The random-access writer and reader (`GZipOutputStreamRandomAccess`,
  `GZipInputStreamRandomAccess`), their offset map, its serialisation and `jumpToIndex`
  are not part of this model. The reader appears only as
  `SplitInput.GZipInputStreamRandomAccess`: an abstract stand-in that delivers given
  decompressed bytes and reports its position as a base offset plus the bytes delivered.
  The real reader's position is not shown.
- SplitInput.GZipInputStreamRandomAccess.Reset: `reset()` of the real reader is not
  shown. It is modelled as returning to where the reader was opened, and is kept as the
  call the source makes, not replaced by a decompressor-only reset.
- `SeekableGZipDataInputStream` and `InputStreamConverter` are not part of this model. The
  file is a byte sequence with seek and read, `firstIndexOf` is a function, and
  `headerbytes` is the 3-byte RFC 1952 signature.
- Locator.GetHeader: its precondition (a header at or after `loc`, or `loc` at or past
  the end) is needed for termination. Without it the loop as written does not end, or
  ends before `loc` (see Findings and `Locator.HeaderlessTailIsFixedPoint`).
- Codec.CreateInputStream: uses the corrected locator `GetHeaderOrEnd`, not `getHeader`
  as written. Where the source terminates with a result at or after the requested offset,
  the two agree (`Codec.CreateInputStreamAsWritten`). They differ elsewhere. On a
  header-less tail the source never returns, and the model aligns to the end of the file.
  On the file `1f 8b 08` with `start = 1`, the source backs up and aligns to 0, and the
  model aligns to 3.
- Codec.CreateInputStreamAsWritten: requires at each end a header at or after the
  requested offset, or the offset at or past the end. It leaves out two cases the source
  accepts. With no header after a split end, the source never returns. From an offset
  among the last `headerbytes.length - 1` bytes with a header just before it, the source
  aligns before the requested offset. On `1f 8b 08` with `start = 1`, it aligns to 0.
- `ByteStream.SeekableGZipDataInputStream.Read` never returns 0 for a non-zero request. A
  read returning 0 would make the fill loop spin; that is assumed not to happen.
- I/O exceptions, seeking to a negative offset, and the behaviour of the real stream on a
  seek past the end. In the model, a seek past the end makes reads report end of stream.
- Deflate compression and decompression, gzip CRCs and trailers: foreign library code.
- Hadoop plumbing: inheriting from `GzipCodec`; `createCompressor` and `getCompressorType`
  returning null; `createOutputStream(out, compressor)` ignoring its compressor;
  `getConf()` (its settings are the map passed to `Codec.AutoOffsetBytes`); the casts; the
  ignored `Decompressor` and `READ_MODE` arguments; what the superclass does with
  `setStart`/`setEnd`. The output stream's `write` and `finish` pass straight through to
  the writer and are not modelled. `addOffset`, which receives the reset key, is the
  writer's and is not modelled either.
- `Instant.now()`: the clock's `(epochSecond, nano)` are parameters of the key functions.
- JavaLong.ParseLong: accepts only ASCII digits. `Long.valueOf` also accepts other
  Unicode decimal digits.
- `buf_length` is a mutable static in the source. It is the constant 32 KiB here,
  because nothing assigns it.
- Concurrency: the source has none in this class.

## Findings

| source | as written | input that shows it | evidently intended | confidence | as-written member | corrected member |
|---|---|---|---|---|---|---|
| hadoop/src/main/java/io/gzinga/hadoop/SplittableGZipCodec.java:143 | The seconds are reduced modulo `Long.MAX_VALUE/1000000`, about 292 thousand years, before being multiplied by 10^9. The product overflows. | epochSecond 9223372036, nano 854775808 (2262-04-11T23:47:16.854775808Z) gives `Long.MIN_VALUE`, one nanosecond after the key was `Long.MAX_VALUE`. | The modulus `Long.MAX_VALUE/1000000000`. Then the key wraps every 292 years without overflow, as the comment says. | medium; not executed | `ResetKey.ResetStateKeyOverflows` | `ResetKey.WrappedKeyNeverOverflows` |
| hadoop/src/main/java/io/gzinga/hadoop/SplittableGZipCodec.java:65-73 | A miss in a short final window moves the window back to `headerbytes.length` bytes before the end, and the scan rescans from there. | A file of bytes `00 00 00` from offset 0: the loop never ends. A file of bytes `1f 8b 08` from offset 1: the result is 0, before the requested offset. | With no signature after the offset, return the end of the file. | medium; not executed | `Locator.HeaderlessTailIsFixedPoint` | `Locator.GetHeaderOrEnd` |
