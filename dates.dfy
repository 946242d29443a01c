/** The two `strftime` formats the core uses on the parsed Date header:
    `%Y-%m-%d` for file names and `%Y-%m-%d, %H:%M` for the header table. */
module Dates {
  import opened Strings

  type Year = y: int | 1 <= y <= 9999 witness 1
  type Month = m: int | 1 <= m <= 12 witness 1
  type Day = d: int | 1 <= d <= 31 witness 1
  type Hour = h: int | 0 <= h < 24
  type Minute = m: int | 0 <= m < 60

  /** The fields of a `datetime.datetime` the formats read. */
  datatype DateTime = DateTime(year: Year, month: Month, day: Day, hour: Hour, minute: Minute)

  /** A zero-padded two-digit field (`%m`, `%d`, `%H`, `%M`). */
  function Pad2(n: nat): (r: string)
    requires n < 100
    ensures |r| == 2 && IsDigit(r[0]) && IsDigit(r[1])
  {
    [DigitChar(n / 10), DigitChar(n % 10)]
  }

  lemma Pad2Value(n: nat)
    requires n < 100
    ensures ParseDecimal(Pad2(n)) == n
  {
    var r := Pad2(n);
    assert r[..|r| - 1] == [r[0]] && [r[0]][..0] == [];
    assert DigitValue(r[0]) == n / 10 && DigitValue(r[1]) == n % 10;
    assert ParseDecimal([r[0]]) == n / 10;
  }

  /** `%Y-%m-%d`. `%Y` is the year without padding, as glibc prints it. */
  function FormatYmd(d: DateTime): string {
    Decimal(d.year) + "-" + Pad2(d.month) + "-" + Pad2(d.day)
  }

  /** `%Y-%m-%d, %H:%M`. */
  function FormatStamp(d: DateTime): string {
    FormatYmd(d) + ", " + Pad2(d.hour) + ":" + Pad2(d.minute)
  }

  /** The date stamp gives back the year, the month and the day it was built
      from: the year is everything before the last six characters. */
  lemma YmdFields(d: DateTime)
    ensures var r := FormatYmd(d);
      |r| >= 7 && r[|r| - 6] == '-' && r[|r| - 3] == '-' &&
      (forall i | 0 <= i < |r| - 6 :: IsDigit(r[i])) &&
      ParseDecimal(r[..|r| - 6]) == d.year &&
      ParseDecimal(r[|r| - 5..|r| - 3]) == d.month &&
      ParseDecimal(r[|r| - 2..]) == d.day
  {
    var y := Decimal(d.year);
    var r := FormatYmd(d);
    assert r == y + "-" + Pad2(d.month) + "-" + Pad2(d.day);
    assert r[..|r| - 6] == y;
    assert r[|r| - 5..|r| - 3] == Pad2(d.month);
    assert r[|r| - 2..] == Pad2(d.day);
    ParseDecimalInverse(d.year);
    Pad2Value(d.month);
    Pad2Value(d.day);
  }

  /** Different dates give different stamps. */
  lemma YmdInjective(d1: DateTime, d2: DateTime)
    requires FormatYmd(d1) == FormatYmd(d2)
    ensures d1.year == d2.year && d1.month == d2.month && d1.day == d2.day
  {
    YmdFields(d1);
    YmdFields(d2);
  }

  /** From year 1000 on the stamp has the fixed `YYYY-MM-DD` shape. */
  lemma YmdShape(d: DateTime)
    requires d.year >= 1000
    ensures var r := FormatYmd(d);
      |r| == 10 && r[4] == '-' && r[7] == '-' &&
      forall i | 0 <= i < 10 && i != 4 && i != 7 :: IsDigit(r[i])
  {
    DecimalFourDigits(d.year);
    var r := FormatYmd(d);
    assert r == Decimal(d.year) + "-" + Pad2(d.month) + "-" + Pad2(d.day);
  }
}
