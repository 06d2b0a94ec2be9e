/**
 * format_date: text that splits on '/' into exactly three pieces, whose first piece int() reads
 * as a month 1..12 and whose second int() reads as a day, becomes "Mon day, third piece" (the
 * day as str() prints it, the third piece as written, unchecked); any other text comes back
 * unchanged.
 */
module Dates {
  import opened Text

  /** The three-letter month names, January first. */
  const Months: seq<string> := ["Jan", "Feb", "Mar", "Apr", "May", "Jun",
                                "Jul", "Aug", "Sep", "Oct", "Nov", "Dec"]

  /**
   * format_date. The text is split on '/'; with exactly three pieces, the first must read as a
   * month number 1..12 and the second as an integer day. The year is the third piece as it is;
   * the day is printed back without leading zeros. Every other input is returned unchanged.
   */
  function FormatDate(date: string): string
  {
    var parts := Split(date, '/');
    if |parts| != 3 then date
    else
      match (ParseInt(parts[0]), ParseInt(parts[1]))
      case (Some(month), Some(day)) =>
        if 0 <= month - 1 < 12 then Formatted(month, day, parts[2]) else date
      case _ => date
  }

  /** The rewritten form: the month's name, the day as str() prints it, a comma and the year. */
  function Formatted(month: int, day: int, year: string): string
    requires 1 <= month <= 12
  {
    Months[month - 1] + " " + IntToString(day) + ", " + year
  }

  /** The inputs format_date rewrites: three pieces, a month 1..12 and an integer day. */
  predicate Reformattable(date: string)
  {
    var parts := Split(date, '/');
    |parts| == 3 && ParseInt(parts[0]).Some? && 1 <= ParseInt(parts[0]).value <= 12
    && ParseInt(parts[1]).Some?
  }

  lemma FormattedHasNoSlash(month: int, day: int, year: string)
    requires 1 <= month <= 12 && '/' !in year
    ensures '/' !in Formatted(month, day, year)
  {
    assert forall k :: 0 <= k < 12 ==> '/' !in Months[k];
    assert '/' !in IntToString(day);
  }

  lemma ThreePiecesHaveSlash(date: string)
    requires |Split(date, '/')| == 3
    ensures '/' in date
  {
    var parts := Split(date, '/');
    JoinSplit(date, '/');
    assert Join(parts[2..], '/') == parts[2];
    assert Join(parts[1..], '/') == parts[1] + ['/'] + parts[2];
    assert date == parts[0] + ['/'] + (parts[1] + ['/'] + parts[2]);
    assert date[|parts[0]|] == '/';
  }

  /**
   * format_date changes its input exactly when the input is reformattable; in particular a text
   * that does not split into three pieces ("2024", "") comes back unchanged.
   */
  lemma FormatDateChangesIff(date: string)
    ensures FormatDate(date) != date <==> Reformattable(date)
  {
    var parts := Split(date, '/');
    if Reformattable(date) {
      var m := ParseInt(parts[0]).value;
      var d := ParseInt(parts[1]).value;
      assert FormatDate(date) == Formatted(m, d, parts[2]);
      FormattedHasNoSlash(m, d, parts[2]);
      ThreePiecesHaveSlash(date);
    }
  }

  /** A text with no '/' in it ("2024", "") is returned unchanged. */
  lemma FormatDateNoSlash(date: string)
    requires '/' !in date
    ensures FormatDate(date) == date
  {
    SplitJoin([date], '/');
  }

  /**
   * The success case for any spelling of the month and day that int() accepts (zero padding,
   * a sign, surrounding blanks): the month name, the day as printed by str(), and the year as
   * written.
   */
  lemma FormatDateOf(monthText: string, dayText: string, year: string)
    requires '/' !in monthText && '/' !in dayText && '/' !in year
    requires ParseInt(monthText).Some? && 1 <= ParseInt(monthText).value <= 12
    requires ParseInt(dayText).Some?
    ensures FormatDate(monthText + "/" + dayText + "/" + year)
            == Formatted(ParseInt(monthText).value, ParseInt(dayText).value, year)
  {
    SplitThree(monthText, dayText, year, '/');
  }

  /** Reformatting a date written with the month and day in plain decimal. */
  lemma FormatDateRoundTrip(month: int, day: int, year: string)
    requires 1 <= month <= 12 && '/' !in year && WithinDigitLimit(day)
    ensures FormatDate(IntToString(month) + "/" + IntToString(day) + "/" + year)
            == Months[month - 1] + " " + IntToString(day) + ", " + year
  {
    NatToStringShort(month);
    ParseIntOfIntToString(month);
    ParseIntOfIntToString(day);
    assert '/' !in IntToString(month) && '/' !in IntToString(day);
    FormatDateOf(IntToString(month), IntToString(day), year);
  }

  /** A month outside 1..12 leaves the text as it is. */
  lemma FormatDateBadMonth(monthText: string, dayText: string, year: string)
    requires '/' !in monthText && '/' !in dayText && '/' !in year
    requires ParseInt(monthText).Some? && !(1 <= ParseInt(monthText).value <= 12)
    ensures FormatDate(monthText + "/" + dayText + "/" + year) == monthText + "/" + dayText + "/" + year
  {
    SplitThree(monthText, dayText, year, '/');
  }

  /** A day that is not an integer leaves the text as it is, whatever the month. */
  lemma FormatDateBadDay(monthText: string, dayText: string, year: string)
    requires '/' !in monthText && '/' !in dayText && '/' !in year
    requires ParseInt(dayText).None?
    ensures FormatDate(monthText + "/" + dayText + "/" + year) == monthText + "/" + dayText + "/" + year
  {
    SplitThree(monthText, dayText, year, '/');
  }

  /** A day of more digits than int() converts raises ValueError, and the text is returned as it is. */
  lemma FormatDateOverlongDay(monthText: string, dayText: string, year: string)
    requires '/' !in monthText && '/' !in dayText && '/' !in year
    requires AllDigits(dayText) && |dayText| > MaxStrDigits
    ensures FormatDate(monthText + "/" + dayText + "/" + year) == monthText + "/" + dayText + "/" + year
  {
    ParseIntOverlong(dayText);
    FormatDateBadDay(monthText, dayText, year);
  }

  /** Zero-padded month and day read as their values; the day is printed back without padding. */
  lemma FormatDateZeroPadded(month: nat, day: nat, year: string)
    requires 1 <= month <= 12 && '/' !in year && |NatToString(day)| < MaxStrDigits
    ensures FormatDate(("0" + NatToString(month)) + "/" + ("0" + NatToString(day)) + "/" + year)
            == Formatted(month, day, year)
  {
    var m, d := "0" + NatToString(month), "0" + NatToString(day);
    NatToStringShort(month);
    ParseIntZeroPadded(m, month);
    ParseIntZeroPadded(d, day);
    assert '/' !in m && '/' !in d;
    FormatDateOf(m, d, year);
  }

  lemma PaddedExampleText(date: string)
    requires date == "03/04/2024"
    ensures date == ("0" + NatToString(3)) + "/" + ("0" + NatToString(4)) + "/" + "2024"
  {
    assert NatToString(3) == "3" && NatToString(4) == "4";
  }

  lemma MarchFourth(year: string)
    requires year == "2024"
    ensures Formatted(3, 4, year) == "Mar 4, 2024"
  {
    assert IntToString(4) == "4";
  }

  /** "03/04/2024" becomes "Mar 4, 2024": the zero padding of the day is dropped. */
  lemma FormatDatePadded(date: string)
    requires date == "03/04/2024"
    ensures FormatDate(date) == "Mar 4, 2024"
  {
    PaddedExampleText(date);
    NatToStringShort(4);
    FormatDateZeroPadded(3, 4, "2024");
    MarchFourth("2024");
  }
}
