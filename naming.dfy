/**
  The name of the cleaned output: "clean_sample_" followed by the local time
  formatted as %Y%m%d_%H%M%S, followed by ".csv". The clock reading is a
  parameter.
 */
module Naming {

  /** A clock reading, with the field ranges of a Python datetime. */
  datatype Timestamp = Timestamp(year: int, month: int, day: int, hour: int, minute: int, second: int)

  predicate IsLeapYear(y: int)
  {
    y % 4 == 0 && (y % 100 != 0 || y % 400 == 0)
  }

  function DaysInMonth(y: int, m: int): int
    requires 1 <= m <= 12
  {
    if m == 2 then (if IsLeapYear(y) then 29 else 28)
    else if m == 4 || m == 6 || m == 9 || m == 11 then 30
    else 31
  }

  predicate ValidTimestamp(t: Timestamp)
  {
    && 1 <= t.year <= 9999
    && 1 <= t.month <= 12
    && 1 <= t.day <= DaysInMonth(t.year, t.month)
    && 0 <= t.hour < 24
    && 0 <= t.minute < 60
    && 0 <= t.second < 60
  }

  function Pow10(k: nat): (r: nat)
    ensures r >= 1
  {
    if k == 0 then 1 else 10 * Pow10(k - 1)
  }

  predicate IsDigit(c: char)
  {
    '0' <= c <= '9'
  }

  predicate AllDigits(s: string)
  {
    forall i :: 0 <= i < |s| ==> IsDigit(s[i])
  }

  /** The decimal number a string of digits denotes (most significant digit first). */
  function DigitsValue(s: string): int
  {
    if s == [] then 0
    else 10 * DigitsValue(s[..|s| - 1]) + ((s[|s| - 1] as int) - ('0' as int))
  }

  /** `n` written in decimal, zero-padded on the left to exactly `width` digits. */
  function Pad(n: nat, width: nat): (s: string)
    requires n < Pow10(width)
    ensures |s| == width
    ensures AllDigits(s)
    ensures DigitsValue(s) == n
  {
    if width == 0 then ""
    else
      var s := Pad(n / 10, width - 1) + [((n % 10) + ('0' as int)) as char];
      assert s[..|s| - 1] == Pad(n / 10, width - 1);
      s
  }

  /** strftime("%Y%m%d_%H%M%S"): every field zero-padded, the year to four digits. */
  function Strftime(t: Timestamp): (s: string)
    requires ValidTimestamp(t)
    ensures |s| == 15
    ensures AllDigits(s[..8]) && s[8] == '_' && AllDigits(s[9..])
    ensures ParseStamp(s) == t
  {
    var date := Pad(t.year, 4) + Pad(t.month, 2) + Pad(t.day, 2);
    var time := Pad(t.hour, 2) + Pad(t.minute, 2) + Pad(t.second, 2);
    var s := date + "_" + time;
    assert s[..8] == date && s[9..] == time;
    assert date[..4] == Pad(t.year, 4) && date[4..6] == Pad(t.month, 2) && date[6..] == Pad(t.day, 2);
    assert time[..2] == Pad(t.hour, 2) && time[2..4] == Pad(t.minute, 2) && time[4..] == Pad(t.second, 2);
    assert s[0..4] == date[..4] && s[4..6] == date[4..6] && s[6..8] == date[6..];
    assert s[9..11] == time[..2] && s[11..13] == time[2..4] && s[13..15] == time[4..];
    s
  }

  /** Reads the clock fields back from a formatted stamp. */
  function ParseStamp(s: string): Timestamp
    requires |s| == 15
  {
    Timestamp(DigitsValue(s[0..4]), DigitsValue(s[4..6]), DigitsValue(s[6..8]),
              DigitsValue(s[9..11]), DigitsValue(s[11..13]), DigitsValue(s[13..15]))
  }

  const Prefix: string := "clean_sample_"
  const Suffix: string := ".csv"

  /** The name used both for the local CSV file and for the registered artifact. */
  function OutputFilename(t: Timestamp): (name: string)
    requires ValidTimestamp(t)
    ensures |name| == 32
    ensures name[..13] == Prefix && name[28..] == Suffix
    ensures AllDigits(name[13..21]) && name[21] == '_' && AllDigits(name[22..28])
  {
    var stamp := Strftime(t);
    var name := Prefix + stamp + Suffix;
    assert name[13..28] == stamp;
    assert name[13..21] == stamp[..8] && name[22..28] == stamp[9..];
    name
  }

  /** Reads the clock fields back from an output name. */
  function ParseFilename(name: string): Timestamp
    requires |name| == 32
  {
    ParseStamp(name[13..28])
  }

  /** The timestamp can be read back from the name it produced. */
  lemma FilenameRoundTrip(t: Timestamp)
    requires ValidTimestamp(t)
    ensures ParseFilename(OutputFilename(t)) == t
  {
    assert OutputFilename(t)[13..28] == Strftime(t);
  }

  /** Two runs get the same output name exactly when they read the clock in the same second. */
  lemma FilenameCollidesIffSameSecond(t1: Timestamp, t2: Timestamp)
    requires ValidTimestamp(t1) && ValidTimestamp(t2)
    ensures OutputFilename(t1) == OutputFilename(t2) <==> t1 == t2
  {
    FilenameRoundTrip(t1);
    FilenameRoundTrip(t2);
  }
}
