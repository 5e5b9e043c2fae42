/**
 * TimeUtil and TimeNanosUtil, the millisecond/nanosecond splitting that
 * OrderBase's `time` and `timeNanos` use. The helpers are not part of this
 * model; they are stated here as floor division and floor modulo, which is
 * what Dafny's `/` and `%` are for a positive divisor.
 */
module TimeUtil {
  import opened LongBits

  const Second: int := 1000
  const NanosPerMilli: int := 1_000_000

  /** getSecondsFromTime: the whole seconds of a millisecond time, rounded down. */
  function SecondsFromTime(timeMillis: Int64): (r: Int64)
    ensures r * Second <= timeMillis < r * Second + Second
  {
    timeMillis / Second
  }

  /** getMillisFromTime: the milliseconds within that second. */
  function MillisFromTime(timeMillis: Int64): (r: int)
    ensures 0 <= r < Second
    ensures SecondsFromTime(timeMillis) * Second + r == timeMillis
  {
    timeMillis % Second
  }

  /** getMillisFromNanos: the whole milliseconds of a nanosecond time, rounded down. */
  function MillisFromNanos(timeNanos: Int64): (r: Int64)
    ensures r * NanosPerMilli <= timeNanos < r * NanosPerMilli + NanosPerMilli
  {
    timeNanos / NanosPerMilli
  }

  /** getNanoPartFromNanos: the nanoseconds within that millisecond. */
  function NanoPartFromNanos(timeNanos: Int64): (r: int)
    ensures 0 <= r < NanosPerMilli
    ensures MillisFromNanos(timeNanos) * NanosPerMilli + r == timeNanos
  {
    timeNanos % NanosPerMilli
  }

  /** getNanosFromMillisAndNanoPart: the inverse of the two functions above. */
  function NanosFromMillisAndNanoPart(timeMillis: int, timeNanoPart: int): (r: int)
    ensures 0 <= timeNanoPart < NanosPerMilli ==>
      r / NanosPerMilli == timeMillis && r % NanosPerMilli == timeNanoPart
  {
    timeMillis * NanosPerMilli + timeNanoPart
  }
}
