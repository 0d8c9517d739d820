/** TOML local dates: parseLocalDate of decode.go, the full-date rule of
    section 5.6 of RFC 3339 (YYYY-MM-DD). */
module Dates {
  import opened Ascii
  import opened Wrappers
  import opened Digits
  import opened Calendar

  datatype LocalDate = LocalDate(year: int, month: int, day: int)

  /** The three outcomes of parseLocalDate as written: a date, a decode error,
      or a runtime panic when daysIn indexes outside daysBefore. */
  datatype DateOutcome = Parsed(date: LocalDate) | Rejected | Panics

  /** The format guard: ten bytes with '-' at positions 4 and 7. */
  predicate DateShape(b: seq<byte>) {
    |b| == 10 && b[4] == Minus && b[7] == Minus
  }

  /** The scanner only produces date tokens with digits in the numeric
      positions; parseDecimalDigits relies on it. */
  predicate DateDigits(b: seq<byte>) {
    DateShape(b) ==> AllDigits(b[0..4]) && AllDigits(b[5..7]) && AllDigits(b[8..10])
  }

  /** parseLocalDate as written: no bound on the month before daysIn looks it
      up, and no lower bound on the day. */
  function ParseLocalDateAsWritten(b: seq<byte>): (r: DateOutcome)
    requires DateDigits(b)
    ensures r.Panics? <==> DateShape(b) && !IsMonth(DecimalValue(b[5..7]))
    ensures r.Parsed? ==> DateShape(b) && 0 <= r.date.year < 10000 && 0 <= r.date.day < 100
    ensures r.Parsed? ==> IsMonth(r.date.month) && IsValidDateAsWritten(r.date.year, r.date.month, r.date.day)
  {
    if !DateShape(b) then Rejected
    else
      var year, month, day := DecimalValue(b[0..4]), DecimalValue(b[5..7]), DecimalValue(b[8..10]);
      assert Pow(10, 4) == 10000 && Pow(10, 2) == 100;
      if !IsMonth(month) then Panics
      else if !IsValidDateAsWritten(year, month, day) then Rejected
      else Parsed(LocalDate(year, month, day))
  }

  /** parseLocalDate with the month and the day both checked, so it rejects
      every date that does not exist instead of panicking or accepting day 0. */
  function ParseLocalDate(b: seq<byte>): (r: Result<LocalDate>)
    requires DateDigits(b)
    ensures r.Ok? ==> DateShape(b)
    ensures r.Ok? ==> IsValidDate(r.value.year, r.value.month, r.value.day)
    ensures r.Ok? ==> 0 <= r.value.year < 10000
  {
    if !DateShape(b) then Err
    else
      var year, month, day := DecimalValue(b[0..4]), DecimalValue(b[5..7]), DecimalValue(b[8..10]);
      assert Pow(10, 4) == 10000;
      if !IsValidDate(year, month, day) then Err
      else Ok(LocalDate(year, month, day))
  }

  /** The text of a date with zero-padded fields. */
  function DateText(year: nat, month: nat, day: nat): (s: seq<byte>)
    requires year < 10000 && month < 100 && day < 100
    ensures DateShape(s) && DateDigits(s)
  {
    var s := FourDigitText(year) + [Minus] + TwoDigitText(month) + [Minus] + TwoDigitText(day);
    assert s[0..4] == FourDigitText(year);
    assert s[5..7] == TwoDigitText(month);
    assert s[8..10] == TwoDigitText(day);
    s
  }

  /** The fields of a date text read back as the numbers written. */
  lemma DateTextFields(year: nat, month: nat, day: nat)
    requires year < 10000 && month < 100 && day < 100
    ensures var s := DateText(year, month, day);
      DecimalValue(s[0..4]) == year && DecimalValue(s[5..7]) == month && DecimalValue(s[8..10]) == day
  {
    var s := DateText(year, month, day);
    assert s[0..4] == FourDigitText(year);
    assert s[5..7] == TwoDigitText(month);
    assert s[8..10] == TwoDigitText(day);
  }

  /** Every well-formed date text is accepted exactly when the date exists,
      and then with the fields written. */
  lemma DateRoundTrip(year: nat, month: nat, day: nat)
    requires year < 10000 && month < 100 && day < 100
    ensures ParseLocalDate(DateText(year, month, day)) ==
      if IsValidDate(year, month, day) then Ok(LocalDate(year, month, day)) else Err
  {
    DateTextFields(year, month, day);
  }

  /** The corrected parser accepts exactly the dates that the parser as
      written accepts with a day of at least 1. */
  lemma DateVersions(b: seq<byte>)
    requires DateDigits(b)
    ensures ParseLocalDate(b).Ok? <==>
      ParseLocalDateAsWritten(b).Parsed? && ParseLocalDateAsWritten(b).date.day >= 1
    ensures ParseLocalDate(b).Ok? ==> ParseLocalDateAsWritten(b) == Parsed(ParseLocalDate(b).value)
  {
    if DateShape(b) {
      var year, month, day := DecimalValue(b[0..4]), DecimalValue(b[5..7]), DecimalValue(b[8..10]);
      if IsMonth(month) {
        ValidDateForms(year, month, day);
      }
    }
  }

  /** Month 13 passes the format guard, and daysIn then reads daysBefore[13]
      outside the table. */
  lemma MonthThirteenPanics()
    ensures DateDigits(DateText(2021, 13, 1))
    ensures ParseLocalDateAsWritten(DateText(2021, 13, 1)) == Panics
    ensures ParseLocalDate(DateText(2021, 13, 1)) == Err
  {
    DateTextFields(2021, 13, 1);
  }

  /** Month 00 passes the format guard too, and daysIn reads daysBefore[-1]. */
  lemma MonthZeroPanics()
    ensures DateDigits(DateText(2021, 0, 1))
    ensures ParseLocalDateAsWritten(DateText(2021, 0, 1)) == Panics
    ensures ParseLocalDate(DateText(2021, 0, 1)) == Err
  {
    DateTextFields(2021, 0, 1);
  }

  /** Day 00 is accepted as written, and rejected by the corrected parser. */
  lemma DayZeroAccepted()
    ensures DateDigits(DateText(2021, 1, 0))
    ensures ParseLocalDateAsWritten(DateText(2021, 1, 0)) == Parsed(LocalDate(2021, 1, 0))
    ensures ParseLocalDate(DateText(2021, 1, 0)) == Err
  {
    DateTextFields(2021, 1, 0);
  }

  /** February 29 exists exactly in leap years. */
  lemma LeapDay(year: nat)
    requires year < 10000
    ensures ParseLocalDate(DateText(year, 2, 29)).Ok? <==> IsLeap(year)
  {
    DateRoundTrip(year, 2, 29);
  }
}
