/**
  The `hh:mm` duration field of `core/fields.py`: the widget shows a
  duration as zero-padded hours and minutes, and the form field reads such
  text back. A duration is a whole number of seconds.
*/
module Duration {
  import opened Text
  import opened Wrappers
  import opened Timedelta

  /** The values Django hands the widget and the form field. */
  datatype Value =
    | Missing               // None
    | Str(text: string)     // a string, as typed or posted
    | Delta(seconds: int)   // a `timedelta` of whole seconds, within its range
    | Other(shown: string)  // any other object, with its `str()`

  /** The message of the `ValidationError` for text that is not `hh:mm`. */
  const FormatError := "Inserisci la durata nel formato hh:mm (es. 02:30 o 25:00)"

  // ------------------------------------------------------------ formatting

  /** Hours and the minutes of the last started hour, as `hours // 3600` and `(t % 3600) // 60` give them. */
  function FormatHHMM(seconds: int): string {
    Pad2(seconds / 3600) + ":" + Pad2((seconds % 3600) / 60)
  }

  lemma MulAtLeast(d: int, b: int)
    requires d >= 1 && b > 0
    ensures d * b >= b
  {
  }

  /** Euclidean division is unique. */
  lemma DivUnique(a: int, b: int, q: int, r: int)
    requires b > 0 && a == q * b + r && 0 <= r < b
    ensures a / b == q && a % b == r
  {
    var q0, r0 := a / b, a % b;
    var d := q0 - q;
    assert d * b == r - r0;
    if d >= 1 {
      MulAtLeast(d, b);
    } else if d <= -1 {
      MulAtLeast(-d, b);
    }
  }

  /** The hours and minutes shown make up the duration less its seconds past the minute. */
  lemma MinuteFloor(seconds: int)
    ensures (seconds / 3600) * 3600 + ((seconds % 3600) / 60) * 60 == seconds - seconds % 60
  {
    var h, r := seconds / 3600, seconds % 3600;
    DivUnique(seconds, 60, h * 60 + r / 60, r % 60);
  }

  /** A non-negative duration shows non-negative hours and a minute between 0 and 59. */
  lemma MinuteOfHour(seconds: nat)
    ensures seconds / 3600 >= 0 && 0 <= (seconds % 3600) / 60 < 60
  {
  }

  /**
    The text shows `h` hours and `m` minutes exactly when the duration lies
    in minute `m`, between 0 and 59, of hour `h`.
  */
  lemma FormatHHMMSplits(seconds: int, h: int, m: int)
    requires 0 <= m < 60 && h * 3600 + m * 60 <= seconds < h * 3600 + m * 60 + 60
    ensures FormatHHMM(seconds) == Pad2(h) + ":" + Pad2(m)
  {
    var r := seconds - h * 3600;
    DivUnique(seconds, 3600, h, r);
    DivUnique(r, 60, m, r - m * 60);
  }

  /** `DurationHHMMWidget.format_value`. */
  function FormatValue(value: Value): (r: Value)
    ensures value == Missing || value == Str("") ==> r == Str("")
    ensures value.Str? || value.Other? ==> r == value
    ensures value.Delta? ==> r.Str? && r.text == FormatHHMM(value.seconds)
  {
    match value
    case Missing => Str("")
    case Str(_) => value
    case Delta(seconds) => Str(FormatHHMM(seconds))
    case Other(_) => value
  }

  /** `DurationHHMMFormField.prepare_value`: durations as `format_value` shows them, anything else unchanged. */
  function PrepareValue(value: Value): (r: Value)
    ensures value.Delta? ==> r == FormatValue(value)
    ensures !value.Delta? ==> r == value
  {
    if value.Delta? then Str(FormatHHMM(value.seconds)) else value
  }

  // ------------------------------------------------------------ parsing

  /** The minutes group `[0-5]?\d` over the whole of `t`. */
  predicate MinutesText(t: string) {
    (|t| == 1 && IsDigit(t[0])) || (|t| == 2 && '0' <= t[0] <= '5' && IsDigit(t[1]))
  }

  /** `s` is `\d+:[0-5]?\d` from start to end, with its colon at `k`. */
  predicate HHMMAt(s: string, k: nat) {
    0 < k < |s| && s[k] == ':' && AllDigits(s[..k]) && MinutesText(s[k + 1..])
  }

  /** The value in seconds of `hh:mm` text whose colon is at `k`. */
  function HHMMSeconds(s: string, k: nat): int
    requires HHMMAt(s, k)
  {
    DecimalValue(s[..k]) * 3600 + DecimalValue(s[k + 1..]) * 60
  }

  /**
    `re.match(r'^(\d+):([0-5]?\d)$', s)` and the seconds of its two groups:
    the greedy `\d+` stops at the first non-digit, which must be the colon.
    The text is already stripped, so `$` can only match at its end.
  */
  function ParseHHMM(s: string): (r: Option<int>)
  {
    var k := LeadingDigits(s);
    if HHMMAt(s, k) then Some(HHMMSeconds(s, k)) else None
  }

  /** `ParseHHMM` accepts exactly the `hh:mm` texts, and gives `hours * 3600 + minutes * 60` seconds. */
  lemma ParseHHMMExactly(s: string)
    ensures ParseHHMM(s).Some? <==> exists k :: HHMMAt(s, k)
    ensures forall k :: HHMMAt(s, k) ==> ParseHHMM(s) == Some(HHMMSeconds(s, k))
  {
    var n := LeadingDigits(s);
    forall k | HHMMAt(s, k)
      ensures k == n
    {
    }
  }

  /**
    `DurationHHMMFormField.to_python`: no duration, a duration, the validation
    error, or the `OverflowError` of `timedelta` for too many hours.
  */
  function ToPython(value: Value): (r: Result<Option<int>>)
    ensures value == Missing || value == Str("") ==> r == Ok(None)
    ensures value.Delta? ==> r == Ok(Some(value.seconds))
    ensures r.Err? ==> r.message == FormatError || r.message == OverflowMessage
  {
    match value
    case Missing => Ok(None)
    case Delta(seconds) => Ok(Some(seconds))
    case Str(text) => if text == "" then Ok(None) else Parsed(text)
    case Other(shown) => Parsed(shown)
  }

  /** `str(value).strip()` matched against the pattern, then `timedelta(hours=..., minutes=...)`. */
  function Parsed(text: string): (r: Result<Option<int>>)
    ensures r.Ok? ==> r.value.Some?
  {
    match ParseHHMM(Strip(text))
    case Some(seconds) =>
      (match FromSeconds(seconds)
       case Ok(d) => Ok(Some(d))
       case Err(e) => Err(e))
    case None => Err(FormatError)
  }

  /**
    Typed text is read as its trimmed `hh:mm` form when that fits a
    timedelta, overflows when it does not, and is refused when it has none.
  */
  lemma ToPythonText(text: string)
    requires text != ""
    ensures ToPython(Str(text)).Ok? <==> exists k :: HHMMAt(Strip(text), k) && HHMMSeconds(Strip(text), k) < SecondsEnd
    ensures forall k :: HHMMAt(Strip(text), k) ==>
      ToPython(Str(text)) == if HHMMSeconds(Strip(text), k) < SecondsEnd then Ok(Some(HHMMSeconds(Strip(text), k)))
                              else Err(OverflowMessage)
    ensures (forall k :: !HHMMAt(Strip(text), k)) ==> ToPython(Str(text)) == Err(FormatError)
  {
    var s := Strip(text);
    ParseHHMMExactly(s);
    if ParseHHMM(s).Some? {
      FromSecondsNat(ParseHHMM(s).value);
    }
  }

  // ------------------------------------------------------------ round trip

  lemma ParsedOf(text: string, seconds: nat)
    requires Strip(text) == text && ParseHHMM(text) == Some(seconds) && seconds < SecondsEnd
    ensures Parsed(text) == Ok(Some(seconds))
  {
    FromSecondsNat(seconds);
  }

  /** Text shown for `h` hours and `m` minutes reads back as that many seconds. */
  lemma ParseParts(h: nat, m: nat, seconds: int)
    requires m < 60 && seconds == h * 3600 + m * 60
    ensures ParseHHMM(Pad2(h) + ":" + Pad2(m)) == Some(seconds)
  {
    Pad2Reads(h);
    Pad2Reads(m);
    Pad2Below60(m);
    ParseJoined(Pad2(h), Pad2(m), Pad2(h) + ":" + Pad2(m));
  }

  /** Hour digits, a colon and minute text read back as their two values. */
  lemma ParseJoined(hs: string, ms: string, s: string)
    requires hs != [] && AllDigits(hs) && MinutesText(ms) && s == hs + ":" + ms
    ensures ParseHHMM(s) == Some(DecimalValue(hs) * 3600 + DecimalValue(ms) * 60)
  {
    var k := |hs|;
    assert s[..k] == hs;
    assert s[k + 1..] == ms;
    assert HHMMAt(s, k);
    ParseHHMMExactly(s);
  }

  /** Text shown for `h` hours and `m` minutes is its own `strip()`. */
  lemma PartsTrimmed(h: nat, m: nat)
    requires m < 60
    ensures Pad2(h) + ":" + Pad2(m) != "" && Strip(Pad2(h) + ":" + Pad2(m)) == Pad2(h) + ":" + Pad2(m)
  {
    var s := Pad2(h) + ":" + Pad2(m);
    Pad2Reads(h);
    Pad2Below60(m);
    assert s[0] == Pad2(h)[0] && s[|s| - 1] == Pad2(m)[1];
    StripTrimmed(s);
  }

  /** The form field reads the text shown for `h` hours and `m` minutes as that many seconds. */
  lemma ToPythonParts(h: nat, m: nat, seconds: int)
    requires m < 60 && seconds == h * 3600 + m * 60 && seconds < SecondsEnd
    ensures ToPython(Str(Pad2(h) + ":" + Pad2(m))) == Ok(Some(seconds))
  {
    PartsTrimmed(h, m);
    ParseParts(h, m, seconds);
    ParsedOf(Pad2(h) + ":" + Pad2(m), seconds);
  }

  /**
    A non-negative duration, formatted and read back, loses only its
    seconds past the minute: a whole number of minutes comes back unchanged.
  */
  lemma FormatThenParse(seconds: nat) returns (whole: int)
    requires seconds < SecondsEnd
    ensures whole == seconds - seconds % 60 && ToPython(FormatValue(Delta(seconds))) == Ok(Some(whole))
  {
    MinuteFloor(seconds);
    MinuteOfHour(seconds);
    whole := seconds - seconds % 60;
    FormatReadBack(seconds, seconds / 3600, (seconds % 3600) / 60, whole);
  }

  /** The widget text of a duration shown as `h` hours and `m` minutes reads back as those. */
  lemma FormatReadBack(seconds: nat, h: nat, m: nat, whole: int)
    requires h == seconds / 3600 && m == (seconds % 3600) / 60 && m < 60 && whole == h * 3600 + m * 60
    requires whole < SecondsEnd
    ensures ToPython(FormatValue(Delta(seconds))) == Ok(Some(whole))
  {
    ToPythonParts(h, m, whole);
  }

  /** A negative duration is shown with a sign, which the field then refuses. */
  lemma FormatNegativeRefused(seconds: int)
    requires seconds < 0
    ensures ToPython(FormatValue(Delta(seconds))).Err?
  {
    var s := FormatHHMM(seconds);
    assert s[0] == '-';
    assert LeadingSpaces(s) == 0;
    assert Strip(s)[0] == '-';
  }
}
