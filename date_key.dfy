/**
 * The attendance date key: `formatDate` renders a calendar date as
 * `<year>-<MM>-<DD>`, the key under which a day's attendance is saved and
 * fetched. The date arrives as the three numbers a JavaScript `Date` reports
 * in local time: the full year, the month index (0 for January) and the day
 * of the month.
 */
module DateKey {
  import opened Wrappers
  import Text

  /** The character of a decimal digit. */
  function DigitChar(d: nat): (c: char)
    requires d < 10
    ensures '0' <= c <= '9' && DigitValue(c) == d
  {
    (('0' as int) + d) as char
  }

  /** The value of a digit character. */
  function DigitValue(c: char): int {
    (c as int) - ('0' as int)
  }

  /** `String(n)` for a non-negative integer: its decimal digits, no leading zero. */
  function NatToString(n: nat): (r: string)
    ensures |r| >= 1
    ensures n < 10 <==> |r| == 1
    ensures forall k :: 0 <= k < |r| ==> '0' <= r[k] <= '9'
    ensures r[0] == '0' <==> n == 0
  {
    if n < 10 then [DigitChar(n)] else NatToString(n / 10) + [DigitChar(n % 10)]
  }

  /** `String(i)` for any integer: a minus sign before the digits of a negative one. */
  function IntToString(i: int): (r: string)
    ensures |r| >= 1
    ensures r[0] == '-' <==> i < 0
    ensures forall k :: (if i < 0 then 1 else 0) <= k < |r| ==> '0' <= r[k] <= '9'
  {
    if i < 0 then "-" + NatToString(-i) else NatToString(i)
  }

  /**
   * `formatDate(d)`: the year as `String` renders it, a dash, the month
   * number (month index plus one) left-padded with `0` to two characters, a
   * dash, and the day left-padded with `0` to two characters.
   */
  function FormatDate(year: int, monthIndex: int, day: int): (key: string)
    ensures var y := IntToString(year);
      && |key| >= |y| + 6
      && key[..|y|] == y
      && key[|y|] == '-'
  {
    IntToString(year)
      + ("-" + Text.PadStart(IntToString(monthIndex + 1), 2, '0')
         + "-" + Text.PadStart(IntToString(day), 2, '0'))
  }

  /** The ranges a JavaScript `Date` reports month index and day in. */
  predicate IsCalendarDate(monthIndex: int, day: int) {
    0 <= monthIndex < 12 && 1 <= day <= 31
  }

  /** The two digits of a number from 1 to 99, the tens digit first. */
  function TwoDigits(v: int): (r: string)
    requires 1 <= v < 100
    ensures |r| == 2
  {
    [DigitChar(v / 10), DigitChar(v % 10)]
  }

  /** A number from 1 to 99 is rendered and padded as exactly its two digits. */
  lemma TwoDigitField(v: int)
    requires 1 <= v < 100
    ensures Text.PadStart(IntToString(v), 2, '0') == TwoDigits(v)
  {
    if v >= 10 {
      assert NatToString(v) == NatToString(v / 10) + [DigitChar(v % 10)];
    }
  }

  /**
   * For a calendar date, the key is the year followed by exactly six
   * characters: a dash, the two month digits, a dash, the two day digits.
   */
  lemma FormatDateLayout(year: int, monthIndex: int, day: int)
    requires IsCalendarDate(monthIndex, day)
    ensures FormatDate(year, monthIndex, day)
         == IntToString(year) + "-" + TwoDigits(monthIndex + 1) + "-" + TwoDigits(day)
  {
    TwoDigitField(monthIndex + 1);
    TwoDigitField(day);
    Regroup(IntToString(year), TwoDigits(monthIndex + 1), TwoDigits(day));
  }

  lemma Regroup(y: string, a: string, b: string)
    ensures y + ("-" + a + "-" + b) == y + "-" + a + "-" + b
  {
  }

  /** The value of a string of decimal digits (the reading `formatDate`'s output is meant for). */
  function ParseNat(s: string): int {
    if s == [] then 0 else ParseNat(s[..|s| - 1]) * 10 + DigitValue(s[|s| - 1])
  }

  /** The value of an optionally signed string of decimal digits. */
  function ParseInt(s: string): int {
    if s != [] && s[0] == '-' then -ParseNat(s[1..]) else ParseNat(s)
  }

  datatype Date = Date(year: int, monthIndex: int, day: int)

  /**
   * Reads a key back: the last six characters must be `-MM-DD`, and what
   * precedes them is the year. This is the inverse the key format relies on.
   */
  function ParseDateKey(key: string): Option<Date> {
    var n := |key|;
    if n < 7 || key[n - 6] != '-' || key[n - 3] != '-' then None
    else Some(Date(ParseInt(key[..n - 6]), ParseNat(key[n - 5..n - 3]) - 1, ParseNat(key[n - 2..])))
  }

  lemma {:induction false} ParseNatInverse(n: nat)
    ensures ParseNat(NatToString(n)) == n
    decreases n
  {
    if n >= 10 {
      var r := NatToString(n);
      assert r[..|r| - 1] == NatToString(n / 10);
      ParseNatInverse(n / 10);
    }
  }

  /** `String` and reading back are inverse on all integers. */
  lemma ParseIntInverse(i: int)
    ensures ParseInt(IntToString(i)) == i
  {
    var s := IntToString(i);
    if i < 0 {
      assert s[0] == '-' && s[1..] == NatToString(-i);
      ParseNatInverse(-i);
    } else {
      assert s == NatToString(i);
      ParseNatInverse(i);
    }
  }

  /** Reading two digits back gives the number they were made from. */
  lemma ParseTwoDigits(v: int)
    requires 1 <= v < 100
    ensures ParseNat(TwoDigits(v)) == v
  {
    var s := TwoDigits(v);
    assert ParseNat([DigitChar(v / 10)]) == v / 10 by {
      assert [DigitChar(v / 10)][..0] == [];
    }
    assert s[..1] == [DigitChar(v / 10)];
  }

  /** A key made of a year text and two two-character fields reads back field by field. */
  lemma ParseKeyOfLayout(y: string, x: string, z: string)
    requires y != [] && |x| == 2 && |z| == 2
    ensures ParseDateKey(y + "-" + x + "-" + z) == Some(Date(ParseInt(y), ParseNat(x) - 1, ParseNat(z)))
  {
    var key := y + "-" + x + "-" + z;
    var n := |key|;
    assert n >= 7 && key[n - 6] == '-' && key[n - 3] == '-';
    assert key[..n - 6] == y;
    assert key[n - 5..n - 3] == x;
    assert key[n - 2..] == z;
  }

  /** Reading back a calendar date's key gives that date. */
  lemma ParseFormatDate(year: int, monthIndex: int, day: int)
    requires IsCalendarDate(monthIndex, day)
    ensures ParseDateKey(FormatDate(year, monthIndex, day)) == Some(Date(year, monthIndex, day))
  {
    FormatDateLayout(year, monthIndex, day);
    ParseKeyOfLayout(IntToString(year), TwoDigits(monthIndex + 1), TwoDigits(day));
    ParseTwoDigits(monthIndex + 1);
    ParseTwoDigits(day);
    ParseIntInverse(year);
  }

  /**
   * Distinct calendar dates get distinct keys, so a save and a later fetch
   * for the same day meet under one key and no two days share one.
   */
  lemma FormatDateInjective(y1: int, m1: int, d1: int, y2: int, m2: int, d2: int)
    requires IsCalendarDate(m1, d1) && IsCalendarDate(m2, d2)
    requires FormatDate(y1, m1, d1) == FormatDate(y2, m2, d2)
    ensures y1 == y2 && m1 == m2 && d1 == d2
  {
    ParseFormatDate(y1, m1, d1);
    ParseFormatDate(y2, m2, d2);
  }
}
