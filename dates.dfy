/** Date labels (`formatar_data`): an attendance column header such as
    "05/03" written out as "5 de março de 2025". */
module Dates {
  import opened Text
  import opened Numbers

  /** Portuguese month names, 1 to 12. */
  function MonthName(m: int): string
    requires 1 <= m <= 12
  {
    ["janeiro", "fevereiro", "março", "abril", "maio", "junho", "julho",
     "agosto", "setembro", "outubro", "novembro", "dezembro"][m - 1]
  }

  /** `formatar_data`: the text before the first '/' is the day and the text
      between the first and the second '/' the month, both read by int();
      any failure (no '/', a part that is not an integer, a month outside
      1..12) gives the input back unchanged. The year is always 2025. */
  function FormatDate(s: string): (r: string)
    ensures r != s ==> '/' in s && |r| > |YearSuffix| && r[|r| - |YearSuffix|..] == YearSuffix
  {
    var parts := Split(s, '/');
    if |parts| < 2 then s
    else
      match (ParseInt(parts[0]), ParseInt(parts[1]))
      case (Some(d), Some(m)) =>
        if 1 <= m <= 12 then
          var head := IntToString(d) + " de " + MonthName(m);
          assert (head + YearSuffix)[|head|..] == YearSuffix;
          head + YearSuffix
        else s
      case _ => s
  }

  /** The end of every written-out date: the year is fixed. */
  const YearSuffix := " de 2025"

  /** A label with a '/' whose day or month part int() rejects is returned
      unchanged. */
  lemma FormatDateNotInteger(s: string)
    requires '/' in s
    requires var parts := Split(s, '/'); |parts| >= 2 && (ParseInt(parts[0]).None? || ParseInt(parts[1]).None?)
    ensures FormatDate(s) == s
  {
  }

  /** A label whose day part holds no digit at all is returned unchanged. */
  lemma FormatDateNoDigitDay(day: string, rest: string)
    requires '/' !in day
    requires forall k :: 0 <= k < |day| ==> !IsDigit(day[k])
    ensures FormatDate(day + "/" + rest) == day + "/" + rest
  {
    SplitFirst(day, rest, '/');
    ParseIntNeedsDigit(day);
    assert day + "/" + rest == day + ['/'] + rest;
  }

  lemma NoSlashInNumber(i: int)
    ensures '/' !in IntToString(i)
  {
  }

  /** A day and a month written as integers and separated by '/' come out
      as the day, the month's name and the year 2025. */
  lemma FormatDateOfNumbers(d: int, m: int)
    requires 1 <= m <= 12
    ensures FormatDate(IntToString(d) + "/" + IntToString(m))
      == IntToString(d) + " de " + MonthName(m) + " de 2025"
  {
    NoSlashInNumber(d);
    NoSlashInNumber(m);
    SplitTwo(IntToString(d), IntToString(m), '/');
    ParseIntToString(d);
    ParseIntToString(m);
  }

  /** A label without '/' is not a date and is returned unchanged. */
  lemma FormatDateNoSlash(s: string)
    requires '/' !in s
    ensures FormatDate(s) == s
  {
  }

  /** A month number outside 1..12 leaves the label unchanged. */
  lemma FormatDateBadMonth(d: int, m: int)
    requires m < 1 || m > 12
    ensures var s := IntToString(d) + "/" + IntToString(m); FormatDate(s) == s
  {
    NoSlashInNumber(d);
    NoSlashInNumber(m);
    SplitTwo(IntToString(d), IntToString(m), '/');
    ParseIntToString(m);
  }

  /** Any day and month text that int() accepts, separated by '/'. */
  lemma FormatDateOfParts(a: string, b: string, d: int, m: int)
    requires '/' !in a && '/' !in b
    requires ParseInt(a) == Some(d) && ParseInt(b) == Some(m) && 1 <= m <= 12
    ensures FormatDate(a + "/" + b) == IntToString(d) + " de " + MonthName(m) + " de 2025"
  {
    SplitTwo(a, b, '/');
  }

  /** Two digits, the first a zero, are read as the second digit. */
  lemma ParseLeadingZero(s: string)
    requires |s| == 2 && s[0] == '0' && IsDigit(s[1])
    ensures ParseInt(s) == Some(DigitValue(s[1])) && '/' !in s
  {
    LeadingZeroValue(s);
    ParseIntOfDigits(s);
  }

  lemma LeadingZeroValue(s: string)
    requires |s| == 2 && s[0] == '0' && IsDigit(s[1])
    ensures DigitGroups(s) && DigitsValue(s) == DigitValue(s[1]) && '/' !in s
  {
    assert s[..1][..0] == [];
    assert DigitsValue(s[..1]) == 0;
  }

  /** A day-and-month label with leading zeros, as the attendance sheets
      have them ("05/03"): the zeros are dropped from the day. */
  lemma FormatDateLeadingZeros(day: string, month: string)
    requires |day| == 2 && day[0] == '0' && IsDigit(day[1])
    requires |month| == 2 && month[0] == '0' && '1' <= month[1] <= '9'
    ensures FormatDate(day + "/" + month)
      == IntToString(DigitValue(day[1])) + " de " + MonthName(DigitValue(month[1])) + " de 2025"
  {
    ParseLeadingZero(day);
    ParseLeadingZero(month);
    FormatDateOfParts(day, month, DigitValue(day[1]), DigitValue(month[1]));
  }
}
