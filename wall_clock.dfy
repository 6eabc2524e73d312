/**
 * The strings the clock adapter hands to the attendance rules: a wall-clock
 * time `HH:mm:ss` (24-hour) and a calendar date `YYYY-MM-DD`, both already
 * resolved to the organisation's civil time zone, and the parse of a time
 * string back to minutes since midnight.
 */
module WallClock {
  import opened Wrappers

  /** A time of day in the civil time zone. */
  datatype Clock = Clock(hour: nat, minute: nat, second: nat)

  predicate ValidClock(c: Clock) {
    c.hour < 24 && c.minute < 60 && c.second < 60
  }

  predicate IsDigit(ch: char) {
    '0' <= ch <= '9'
  }

  function DigitChar(n: nat): (ch: char)
    requires n < 10
    ensures IsDigit(ch)
  {
    (48 + n) as char
  }

  function DigitValue(ch: char): (n: nat)
    requires IsDigit(ch)
    ensures n < 10
  {
    ch as int - 48
  }

  /** `n` zero-padded to two decimal digits. */
  function TwoDigits(n: nat): (s: string)
    requires n < 100
    ensures |s| == 2 && IsDigit(s[0]) && IsDigit(s[1])
    ensures DigitValue(s[0]) * 10 + DigitValue(s[1]) == n
  {
    [DigitChar(n / 10), DigitChar(n % 10)]
  }

  /** `n` zero-padded to four decimal digits. */
  function FourDigits(n: nat): (s: string)
    requires n < 10000
    ensures |s| == 4
  {
    TwoDigits(n / 100) + TwoDigits(n % 100)
  }

  /** Distinct numbers below 10000 have distinct four-digit renderings. */
  lemma FourDigitsInjective(a: nat, b: nat)
    requires a < 10000 && b < 10000 && FourDigits(a) == FourDigits(b)
    ensures a == b
  {
    var sa, sb := FourDigits(a), FourDigits(b);
    assert sa[..2] == TwoDigits(a / 100) && sb[..2] == TwoDigits(b / 100);
    assert sa[2..] == TwoDigits(a % 100) && sb[2..] == TwoDigits(b % 100);
    assert a / 100 == b / 100 by {
      assert TwoDigits(a / 100)[0] == sa[0] == sb[0] == TwoDigits(b / 100)[0];
      assert TwoDigits(a / 100)[1] == sa[1] == sb[1] == TwoDigits(b / 100)[1];
    }
    assert a % 100 == b % 100 by {
      assert TwoDigits(a % 100)[0] == sa[2] == sb[2] == TwoDigits(b % 100)[0];
      assert TwoDigits(a % 100)[1] == sa[3] == sb[3] == TwoDigits(b % 100)[1];
    }
  }

  /** The en-GB 24-hour rendering `HH:mm:ss` of a wall-clock time. */
  function FormatTime(c: Clock): (s: string)
    requires ValidClock(c)
    ensures |s| == 8 && s[2] == ':' && s[5] == ':'
  {
    TwoDigits(c.hour) + ":" + TwoDigits(c.minute) + ":" + TwoDigits(c.second)
  }

  /** The en-CA rendering `YYYY-MM-DD` of a calendar date. */
  function FormatDate(year: nat, month: nat, day: nat): (s: string)
    requires year < 10000 && 1 <= month <= 12 && 1 <= day <= 31
    ensures |s| == 10 && s[4] == '-' && s[7] == '-'
  {
    FourDigits(year) + "-" + TwoDigits(month) + "-" + TwoDigits(day)
  }

  predicate WellFormedTime(time: string) {
    && |time| == 8 && time[2] == ':' && time[5] == ':'
    && IsDigit(time[0]) && IsDigit(time[1]) && IsDigit(time[3]) && IsDigit(time[4])
    && IsDigit(time[6]) && IsDigit(time[7])
  }

  /**
   * Minutes since midnight of an `HH:mm:ss` string: hours times 60 plus
   * minutes. The seconds field is parsed by the controller but never used.
   */
  function MinutesOf(time: string): (r: Option<nat>)
    ensures r.Some? <==> WellFormedTime(time)
  {
    if WellFormedTime(time) then
      Some((DigitValue(time[0]) * 10 + DigitValue(time[1])) * 60
           + DigitValue(time[3]) * 10 + DigitValue(time[4]))
    else
      None
  }

  /** Parsing a formatted clock recovers its hour and minute and drops its seconds. */
  lemma MinutesOfFormatTime(c: Clock)
    requires ValidClock(c)
    ensures MinutesOf(FormatTime(c)) == Some(c.hour * 60 + c.minute)
  {
    var s := FormatTime(c);
    assert s[0..2] == TwoDigits(c.hour);
    assert s[3..5] == TwoDigits(c.minute);
    assert s[6..8] == TwoDigits(c.second);
  }

  /** Two clocks that differ only in their seconds parse to the same minute. */
  lemma SecondsIgnored(c: Clock, c': Clock)
    requires ValidClock(c) && ValidClock(c')
    requires c.hour == c'.hour && c.minute == c'.minute
    ensures MinutesOf(FormatTime(c)) == MinutesOf(FormatTime(c'))
  {
    MinutesOfFormatTime(c);
    MinutesOfFormatTime(c');
  }
}
