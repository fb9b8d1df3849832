/**
 * The wall-clock reading `datetime.datetime.now()` gives the line editor,
 * and its rendering with `strftime("%Y%m%d%H%M%S")`.
 */
module Timestamp {
  import opened Text

  datatype DateTime = DateTime(year: int, month: int, day: int, hour: int, minute: int, second: int)

  /** The range of a `datetime` with a four-digit year. */
  predicate Valid(t: DateTime) {
    && 1000 <= t.year <= 9999
    && 1 <= t.month <= 12
    && 1 <= t.day <= 31
    && 0 <= t.hour <= 23
    && 0 <= t.minute <= 59
    && 0 <= t.second <= 59
  }

  function Pow10(k: nat): nat {
    if k == 0 then 1 else 10 * Pow10(k - 1)
  }

  /** `n` written in exactly `width` decimal digits, zero-padded on the left. */
  function Padded(n: nat, width: nat): (s: string)
    requires n < Pow10(width)
    ensures |s| == width && AllDigits(s)
    ensures DigitsValue(s) == n
  {
    if width == 0 then ""
    else
      assert n / 10 < Pow10(width - 1);
      var prefix := Padded(n / 10, width - 1);
      var s := prefix + [DigitChar(n % 10)];
      assert s[..|s| - 1] == prefix;
      s
  }

  /** `t.strftime("%Y%m%d%H%M%S")`: always fourteen digits. */
  function Stamp(t: DateTime): (s: string)
    requires Valid(t)
    ensures |s| == 14 && AllDigits(s)
  {
    assert Pow10(2) == 100 && Pow10(4) == 10000;
    Padded(t.year, 4) + Padded(t.month, 2) + Padded(t.day, 2)
      + Padded(t.hour, 2) + Padded(t.minute, 2) + Padded(t.second, 2)
  }

  /** Reads a fourteen-digit stamp back into its fields. */
  function ParseStamp(s: string): DateTime
    requires |s| == 14 && AllDigits(s)
  {
    DateTime(DigitsValue(s[0..4]), DigitsValue(s[4..6]), DigitsValue(s[6..8]),
             DigitsValue(s[8..10]), DigitsValue(s[10..12]), DigitsValue(s[12..14]))
  }

  /** The stamp records every field of the clock reading. */
  lemma StampRoundTrip(t: DateTime)
    requires Valid(t)
    ensures ParseStamp(Stamp(t)) == t
  {
    assert Pow10(2) == 100 && Pow10(4) == 10000;
    var s := Stamp(t);
    assert s[0..4] == Padded(t.year, 4);
    assert s[4..6] == Padded(t.month, 2);
    assert s[6..8] == Padded(t.day, 2);
    assert s[8..10] == Padded(t.hour, 2);
    assert s[10..12] == Padded(t.minute, 2);
    assert s[12..14] == Padded(t.second, 2);
  }

  /** Two different clock readings never give the same stamp. */
  lemma StampInjective(t1: DateTime, t2: DateTime)
    requires Valid(t1) && Valid(t2)
    requires Stamp(t1) == Stamp(t2)
    ensures t1 == t2
  {
    StampRoundTrip(t1);
    StampRoundTrip(t2);
  }
}
