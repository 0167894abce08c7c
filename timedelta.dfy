/**
  Python's `datetime.timedelta` as far as the durations of this program need
  it: a whole number of seconds, and the `OverflowError` its constructor
  raises for a duration of more than 999999999 days either way.
*/
module Timedelta {
  import opened Wrappers

  /** `timedelta.max.days`: no timedelta holds more days than this, either way. */
  const MaxDays: int := 999999999

  /** The first whole second past `timedelta.max`. */
  const SecondsEnd: int := (MaxDays + 1) * 86400

  /** Stands for the `OverflowError` the constructor raises; its text is not modelled. */
  const OverflowMessage := "OverflowError"

  /**
    `timedelta(seconds=n)` for whole seconds `n`: the constructor normalises
    to days `n // 86400` and raises `OverflowError` when they pass `MaxDays`
    in magnitude.
  */
  function FromSeconds(seconds: int): Result<int> {
    if -MaxDays <= seconds / 86400 <= MaxDays then Ok(seconds) else Err(OverflowMessage)
  }

  /**
    A timedelta holds exactly the durations from `-MaxDays` days up to the
    last second of day `MaxDays`, unchanged; any other duration overflows.
  */
  lemma FromSecondsRange(seconds: int)
    ensures FromSeconds(seconds).Ok? <==> -MaxDays * 86400 <= seconds < SecondsEnd
    ensures FromSeconds(seconds).Ok? ==> FromSeconds(seconds).value == seconds
    ensures FromSeconds(seconds).Err? ==> FromSeconds(seconds).message == OverflowMessage
  {
    var q, r := seconds / 86400, seconds % 86400;
    assert seconds == q * 86400 + r && 0 <= r < 86400;
  }

  /** A non-negative duration is held exactly when it is below `SecondsEnd`. */
  lemma FromSecondsNat(seconds: nat)
    ensures FromSeconds(seconds) == if seconds < SecondsEnd then Ok(seconds) else Err(OverflowMessage)
  {
    FromSecondsRange(seconds);
  }
}
