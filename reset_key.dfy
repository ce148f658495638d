/**
 * The key `SplittableGzipOutputStream.resetState` hands to `addOffset` when the
 * framework asks for a compressor reset: the current time in nanoseconds since the
 * epoch, in Java `long` arithmetic, from the clock's `(epochSecond, nano)` reading.
 */
module ResetKey {
  import opened JavaLong

  const NanosPerSecond: int := 1_000_000_000

  /** The modulus as written: `Long.MAX_VALUE / 1000000` seconds, about 292 thousand years. */
  const WrittenModulus: int := LongMax / 1_000_000

  /** The modulus that wraps every 292 years: `Long.MAX_VALUE / 1000000000` seconds. */
  const WrappingModulus: int := LongMax / NanosPerSecond

  /** The last second before the year 2262 overflow: Long.MAX_VALUE = 9223372036 s + 854775807 ns. */
  const LastSecond: int := 9_223_372_036

  predicate IsInstant(epochSecond: int, nano: int) {
    IsLong(epochSecond) && 0 <= nano < NanosPerSecond
  }

  /** Instants ordered by second, then nanosecond. */
  predicate Before(s1: int, n1: int, s2: int, n2: int) {
    s1 < s2 || (s1 == s2 && n1 < n2)
  }

  /** The keyed instant is representable in nanoseconds as a `long`. */
  predicate Representable(epochSecond: int, nano: int) {
    0 <= epochSecond && epochSecond * NanosPerSecond + nano <= LongMax
  }

  /** `now.getNano() + (now.getEpochSecond() % m) * 1000000000L`, every operation a `long` one. */
  function KeyWithModulus(m: int, epochSecond: int, nano: int): (key: int)
    requires m > 0 && IsInstant(epochSecond, nano)
    ensures IsLong(key)
  {
    Wrap64(nano + Wrap64(TruncRem(epochSecond, m) * NanosPerSecond))
  }

  /** The key as `resetState` computes it. */
  function ResetStateKey(epochSecond: int, nano: int): (key: int)
    requires IsInstant(epochSecond, nano)
    ensures IsLong(key)
  {
    KeyWithModulus(WrittenModulus, epochSecond, nano)
  }

  /** The key with the modulus the comment describes. */
  function WrappedResetStateKey(epochSecond: int, nano: int): (key: int)
    requires IsInstant(epochSecond, nano)
    ensures IsLong(key)
  {
    KeyWithModulus(WrappingModulus, epochSecond, nano)
  }

  /** Up to the overflow, the key is exactly the instant in nanoseconds since the epoch. */
  lemma ResetStateKeyIsNanos(epochSecond: int, nano: int)
    requires IsInstant(epochSecond, nano) && Representable(epochSecond, nano)
    ensures ResetStateKey(epochSecond, nano) == epochSecond * NanosPerSecond + nano
  {
    var x := epochSecond * 1_000_000_000;
    assert x <= LongMax < (LastSecond + 1) * 1_000_000_000;
    assert epochSecond <= LastSecond;
    assert WrittenModulus == 9_223_372_036_854;
    assert TruncRem(epochSecond, WrittenModulus) == epochSecond;
    assert 0 <= x <= LongMax;
    assert Wrap64(x) == x;
    assert Wrap64(nano + x) == nano + x;
  }

  /** Up to the overflow, a later instant gets a larger key. */
  lemma ResetStateKeyIncreasing(s1: int, n1: int, s2: int, n2: int)
    requires IsInstant(s1, n1) && Representable(s1, n1)
    requires IsInstant(s2, n2) && Representable(s2, n2)
    requires Before(s1, n1, s2, n2)
    ensures ResetStateKey(s1, n1) < ResetStateKey(s2, n2)
  {
    ResetStateKeyIsNanos(s1, n1);
    ResetStateKeyIsNanos(s2, n2);
    if s1 < s2 {
      assert s1 * NanosPerSecond + n1 < (s1 + 1) * NanosPerSecond <= s2 * NanosPerSecond;
    }
  }

  /**
   * The written modulus does not prevent the overflow: one nanosecond after the key
   * reaches Long.MAX_VALUE (2262-04-11T23:47:16.854775807Z) it wraps to Long.MIN_VALUE,
   * and it is still negative at the start of the next second.
   */
  lemma ResetStateKeyOverflows()
    ensures ResetStateKey(LastSecond, 854_775_807) == LongMax
    ensures ResetStateKey(LastSecond, 854_775_808) == LongMin
    ensures ResetStateKey(LastSecond + 1, 0) < 0
    ensures WrittenModulus > LastSecond + 1
  {
    assert WrittenModulus == 9_223_372_036_854;
    assert TruncRem(LastSecond, WrittenModulus) == LastSecond;
    assert TruncRem(LastSecond + 1, WrittenModulus) == LastSecond + 1;
    var last := LastSecond * NanosPerSecond;
    assert last == 9_223_372_036_000_000_000 && Wrap64(last) == last;
    assert last + 854_775_807 == LongMax;
    assert last + 854_775_808 - LongMin == TwoTo64;
    var next := (LastSecond + 1) * NanosPerSecond;
    assert next - LongMin == TwoTo64 + 145_224_192;
    assert Wrap64(next) == next - TwoTo64 < 0;
  }

  /** With the wrapping modulus no `long` operation overflows, for every instant a `long` can hold. */
  lemma WrappedKeyNeverOverflows(epochSecond: int, nano: int)
    requires IsInstant(epochSecond, nano)
    ensures IsLong(TruncRem(epochSecond, WrappingModulus) * NanosPerSecond + nano)
    ensures WrappedResetStateKey(epochSecond, nano) == TruncRem(epochSecond, WrappingModulus) * NanosPerSecond + nano
    ensures epochSecond >= 0 ==> WrappedResetStateKey(epochSecond, nano) >= 0
  {
    var r := TruncRem(epochSecond, WrappingModulus);
    assert -WrappingModulus < r < WrappingModulus;
    assert IsLong(r * NanosPerSecond);
  }

  /** Before the year 2262 the wrapping key is the key `resetState` computes. */
  lemma WrappedKeyAgreesBeforeOverflow(epochSecond: int, nano: int)
    requires IsInstant(epochSecond, nano) && 0 <= epochSecond < WrappingModulus
    ensures Representable(epochSecond, nano)
    ensures WrappedResetStateKey(epochSecond, nano) == ResetStateKey(epochSecond, nano)
  {
    assert WrappingModulus == 9_223_372_036;
    assert epochSecond % 9_223_372_036 == epochSecond;
    assert epochSecond * NanosPerSecond + nano < LongMax;
    ResetStateKeyIsNanos(epochSecond, nano);
    WrappedKeyNeverOverflows(epochSecond, nano);
  }

  lemma AddWrappingModulus(x: int)
    ensures (x + WrappingModulus) % WrappingModulus == x % WrappingModulus
  {
    assert WrappingModulus == 9_223_372_036;
    assert (x + 9_223_372_036) % 9_223_372_036 == x % 9_223_372_036;
  }

  /** The wrapping key repeats every `Long.MAX_VALUE / 1000000000` seconds (about 292 years). */
  lemma WrappedKeyPeriodic(epochSecond: int, nano: int)
    requires IsInstant(epochSecond, nano) && epochSecond >= 0
    requires IsLong(epochSecond + WrappingModulus)
    ensures WrappedResetStateKey(epochSecond + WrappingModulus, nano) == WrappedResetStateKey(epochSecond, nano)
  {
    WrappedKeyNeverOverflows(epochSecond, nano);
    WrappedKeyNeverOverflows(epochSecond + WrappingModulus, nano);
    AddWrappingModulus(epochSecond);
  }
}
