/** `Month`, its checked conversion from `u8`, and the `YYYY-MM` date filter (src/lib.rs:54-77, 95-142). */
module Dates {
  import opened Wrappers
  import opened Errors
  import opened Ascii

  /** Rust's `u8`. */
  type U8 = x: int | 0 <= x < 256

  /** One more than the largest `u32`. */
  const U32_LIMIT: nat := 0x1_0000_0000

  /** Rust's `u32`. */
  type U32 = x: int | 0 <= x < 0x1_0000_0000

  /** The twelve months; the Rust enum gives them the discriminants 1..=12. */
  datatype Month =
    | January | February | March | April | May | June
    | July | August | September | October | November | December

  /** The discriminant of a month, `month as u8`. */
  function MonthNumber(m: Month): (v: nat)
    ensures 1 <= v <= 12
  {
    match m
    case January => 1
    case February => 2
    case March => 3
    case April => 4
    case May => 5
    case June => 6
    case July => 7
    case August => 8
    case September => 9
    case October => 10
    case November => 11
    case December => 12
  }

  /** `Month::try_from(value)`: the month whose discriminant is `value`, or an error. */
  function MonthTryFrom(value: U8): (r: Result<Month, Error>)
    ensures r.Ok? <==> 1 <= value <= 12
    ensures r.Ok? ==> MonthNumber(r.value) == value
    ensures r.Err? ==> r.error == InvalidMonth(value)
  {
    match value
    case 1 => Ok(January)
    case 2 => Ok(February)
    case 3 => Ok(March)
    case 4 => Ok(April)
    case 5 => Ok(May)
    case 6 => Ok(June)
    case 7 => Ok(July)
    case 8 => Ok(August)
    case 9 => Ok(September)
    case 10 => Ok(October)
    case 11 => Ok(November)
    case 12 => Ok(December)
    case _ => Err(InvalidMonth(value))
  }

  /** Converting a month to its number and back gives the same month. */
  lemma MonthTryFromNumber(m: Month)
    ensures MonthTryFrom(MonthNumber(m)) == Ok(m)
  {
    match m
    case January =>
    case February =>
    case March =>
    case April =>
    case May =>
    case June =>
    case July =>
    case August =>
    case September =>
    case October =>
    case November =>
    case December =>
  }

  /** A year (`u32`) and a month. */
  datatype DateFilter = DateFilter(year: U32, month: Month)

  /** The regular expression `^(\d{4})-(\d{2})$` (src/lib.rs:123), as character classes. */
  predicate DateShaped(s: string)
  {
    |s| == 7 && AllDigits(s[..4]) && s[4] == '-' && AllDigits(s[5..])
  }

  /**
   * `DateFilter::from_str`. A string of the wrong shape is `InvalidDate`;
   * the two `parse` errors cannot occur once the shape matched (four
   * digits fit a `u32`, two fit a `u8`); a month number outside 1..=12 is
   * the `InvalidMonth` error of `Month::try_from`.
   */
  function ParseDateFilter(s: string): (r: Result<DateFilter, Error>)
    requires IsAscii(s)
    ensures !DateShaped(s) ==> r == Err(InvalidDate(s))
    ensures DateShaped(s) && !(1 <= Decimal(s[5..]) <= 12) ==> r == Err(InvalidMonth(Decimal(s[5..])))
    ensures DateShaped(s) && 1 <= Decimal(s[5..]) <= 12 ==>
              r.Ok? && r.value.year == Decimal(s[..4]) && MonthNumber(r.value.month) == Decimal(s[5..])
  {
    if !DateShaped(s) then Err(InvalidDate(s))
    else
      var yearDigits, monthDigits := s[..4], s[5..];
      match ParseUnsigned(yearDigits, U32_LIMIT)
      case None => Err(InvalidYear(yearDigits))
      case Some(year) =>
        match ParseUnsigned(monthDigits, 256)
        case None => Err(InvalidMonthDigits(monthDigits))
        case Some(monthNumber) =>
          match MonthTryFrom(monthNumber)
          case Err(e) => Err(e)
          case Ok(month) => Ok(DateFilter(year, month))
  }

  /** Every four-digit year and month, written `YYYY-MM`, parses back to itself. */
  lemma DateFilterRoundTrip(df: DateFilter)
    requires df.year < 10000
    ensures var s := Pad(df.year, 4) + "-" + Pad(MonthNumber(df.month), 2);
            IsAscii(s) && ParseDateFilter(s) == Ok(df)
  {
    var s := Pad(df.year, 4) + "-" + Pad(MonthNumber(df.month), 2);
    assert s[..4] == Pad(df.year, 4);
    assert s[5..] == Pad(MonthNumber(df.month), 2);
    MonthTryFromNumber(df.month);
  }

  /** `DateFilter::from_str("2023-07")` is July 2023. */
  lemma ExampleJuly2023()
    ensures ParseDateFilter("2023-07") == Ok(DateFilter(2023, July))
  {
    var s := "2023-07";
    assert s[..4] == "2023" && s[5..] == "07";
    assert "2023"[..3] == "202";
    assert "202"[..2] == "20";
    assert "20"[..1] == "2";
    assert "2"[..0] == "";
    assert Decimal("2023") == 2023;
    assert "07"[..1] == "0" && "0"[..0] == "";
    assert Decimal("07") == 7;
  }

  /** A well-shaped string with month 13 is the month-range error. */
  lemma ExampleMonth13()
    ensures ParseDateFilter("2023-13") == Err(InvalidMonth(13))
  {
    assert "2023-13"[5..] == "13";
    assert "13"[..1] == "1" && "1"[..0] == "";
    assert Decimal("13") == 13;
  }

  /** A two-digit year is the malformed-date error. */
  lemma ExampleShortYear()
    ensures ParseDateFilter("23-07") == Err(InvalidDate("23-07"))
  {
  }
}
