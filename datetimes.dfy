/** TOML local and offset date-times: parseLocalDateTime and the offset part
    of parseDateTime in decode.go, the date-time rule of section 5.6 of
    RFC 3339. */
module DateTimes {
  import opened Ascii
  import opened Wrappers
  import opened Digits
  import opened Calendar
  import opened Dates
  import opened Times

  datatype LocalDateTime = LocalDateTime(date: LocalDate, time: LocalTime)

  /** The zone of an offset date-time: UTC for 'Z', otherwise a fixed offset
      in seconds east of UTC. */
  datatype Zone = UTC | Fixed(offset: int)

  datatype DateTime = DateTime(local: LocalDateTime, zone: Zone)

  /** localDateTimeByteMinLen: a date, a separator and at least one byte. */
  const LocalDateTimeMinLen: nat := 11

  /** dateTimeByteLen: a numeric offset is "+HH:MM" or "-HH:MM". */
  const OffsetLen: nat := 6

  /** The largest offset two-digit fields can spell: 99 hours and 99 minutes. */
  const MaxOffset: int := 99 * 3600 + 99 * 60

  predicate IsSeparator(c: byte) {
    c == 'T' as byte || c == 't' as byte || c == ' ' as byte
  }

  predicate IsZulu(c: byte) {
    c == 'Z' as byte || c == 'z' as byte
  }

  /** The scanner guarantees digits in the numeric positions of the date and
      the time. */
  predicate DateTimeDigits(b: seq<byte>) {
    |b| >= LocalDateTimeMinLen ==> DateDigits(b[..10]) && TimeDigits(b[11..])
  }

  /** parseLocalDateTime: a date in the first ten bytes, a separator, then a
      time; the bytes the time did not use are handed back. */
  function ParseLocalDateTime(b: seq<byte>): (r: Result<(LocalDateTime, seq<byte>)>)
    requires DateTimeDigits(b)
    ensures r.Ok? ==> |b| >= LocalDateTimeMinLen && IsSeparator(b[10])
    ensures r.Ok? ==> var d := r.value.0.date; IsValidDate(d.year, d.month, d.day)
    ensures r.Ok? ==> ValidTime(r.value.0.time)
    ensures r.Ok? ==> |r.value.1| <= |b| - 19 && r.value.1 == b[|b| - |r.value.1|..]
  {
    if |b| < LocalDateTimeMinLen then Err
    else match ParseLocalDate(b[..10])
      case Err => Err
      case Ok(date) =>
        if !IsSeparator(b[10]) then Err
        else match LocalTimeCorrected(b[11..])
          case Err => Err
          case Ok((time, rest)) =>
            LocalTimeRest(b[11..]);
            assert b[|b| - |rest|..] == b[11..][|b[11..]| - |rest|..];
            Ok((LocalDateTime(date, time), rest))
  }

  /** The bytes a time hands back are a suffix of its input, after at least
      the eight bytes of HH:MM:SS. */
  lemma LocalTimeRest(b: seq<byte>)
    requires TimeDigits(b) && LocalTimeCorrected(b).Ok?
    ensures var rest := LocalTimeCorrected(b).value.1;
      |rest| <= |b| - 8 && rest == b[|b| - |rest|..]
  {
  }

  /** The outcomes of parseLocalDateTime as written: a date-time and the
      bytes after it, a decode error, or the panic of the date parser. */
  datatype LocalDateTimeOutcome = LocalParsed(value: LocalDateTime, rest: seq<byte>) | LocalRejected | LocalPanics

  /** parseLocalDateTime over parseLocalDate and parseLocalTime as written:
      a month outside 01..12 panics, day 00 and a time that ends at a bare
      '.' are accepted. */
  function ParseLocalDateTimeAsWritten(b: seq<byte>): (r: LocalDateTimeOutcome)
    requires DateTimeDigits(b)
    ensures r.LocalPanics? <==>
      |b| >= LocalDateTimeMinLen && DateShape(b[..10]) && !IsMonth(DecimalValue(b[..10][5..7]))
    ensures r.LocalParsed? ==> |b| >= LocalDateTimeMinLen && IsSeparator(b[10]) && ValidTime(r.value.time)
    ensures r.LocalParsed? ==>
      var d := r.value.date; IsMonth(d.month) && IsValidDateAsWritten(d.year, d.month, d.day)
    ensures r.LocalParsed? ==> |r.rest| <= |b| - 19 && r.rest == b[|b| - |r.rest|..]
  {
    if |b| < LocalDateTimeMinLen then LocalRejected
    else match ParseLocalDateAsWritten(b[..10])
      case Panics => LocalPanics
      case Rejected => LocalRejected
      case Parsed(date) =>
        if !IsSeparator(b[10]) then LocalRejected
        else match LocalTimeAsWritten(b[11..])
          case Err => LocalRejected
          case Ok((time, rest)) =>
            LocalTimeRestAsWritten(b[11..]);
            assert b[|b| - |rest|..] == b[11..][|b[11..]| - |rest|..];
            LocalParsed(LocalDateTime(date, time), rest)
  }

  /** The bytes the time as written hands back are a suffix of its input,
      after at least the eight bytes of HH:MM:SS. */
  lemma LocalTimeRestAsWritten(b: seq<byte>)
    requires TimeDigits(b) && LocalTimeAsWritten(b).Ok?
    ensures var rest := LocalTimeAsWritten(b).value.1;
      |rest| <= |b| - 8 && rest == b[|b| - |rest|..]
  {
  }

  /** The corrected composition accepts exactly what the composition as
      written accepts, less day 00 and a time that ends at a bare '.' (a
      twenty-byte input ending in '.'), and gives the same date-time and
      rest; where the one as written panics, the corrected one rejects. */
  lemma LocalDateTimeVersions(b: seq<byte>)
    requires DateTimeDigits(b)
    ensures ParseLocalDateTime(b).Ok? <==>
      (ParseLocalDateTimeAsWritten(b).LocalParsed? && ParseLocalDateTimeAsWritten(b).value.date.day >= 1 &&
       !(|b| == 20 && b[19] == Dot))
    ensures ParseLocalDateTime(b).Ok? ==>
      ParseLocalDateTimeAsWritten(b) == LocalParsed(ParseLocalDateTime(b).value.0, ParseLocalDateTime(b).value.1)
    ensures ParseLocalDateTimeAsWritten(b).LocalPanics? ==> ParseLocalDateTime(b).Err?
  {
    if |b| >= LocalDateTimeMinLen {
      DateVersions(b[..10]);
      TimeVersions(b[11..]);
      if |b| == 20 {
        assert b[11..][8] == b[19];
      }
    }
  }

  /** The scanner guarantees digits in the numeric positions of an offset. */
  predicate ZoneDigits(z: seq<byte>) {
    |z| == OffsetLen && !IsZulu(z[0]) ==> AllDigits(z[1..3]) && AllDigits(z[4..6])
  }

  /** The zone part of parseDateTime: 'Z' or 'z' alone is UTC; otherwise
      exactly six bytes, the sign from the first (anything but '-' counts as
      positive), hours and minutes from positions 1-2 and 4-5. */
  function ParseZone(z: seq<byte>): (r: Result<Zone>)
    requires |z| > 0 && ZoneDigits(z)
    ensures r == Ok(UTC) <==> |z| == 1 && IsZulu(z[0])
    ensures r.Ok? && r.value.Fixed? ==> |z| == OffsetLen && !IsZulu(z[0])
    ensures r.Ok? && r.value.Fixed? ==> -MaxOffset <= r.value.offset <= MaxOffset
    ensures r.Ok? && r.value.Fixed? ==>
      (r.value.offset < 0 ==> z[0] == Minus) && (z[0] == Minus ==> r.value.offset <= 0)
  {
    if IsZulu(z[0]) then
      if |z[1..]| > 0 then Err else Ok(UTC)
    else if |z| != OffsetLen then Err
    else
      var direction := if z[0] == Minus then -1 else 1;
      var hours, minutes := DecimalValue(z[1..3]), DecimalValue(z[4..6]);
      assert Pow(10, 2) == 100;
      Ok(Fixed(direction * (hours * 3600 + minutes * 60)))
  }

  /** A numeric offset reads as plus or minus its hours and minutes in
      seconds; the byte between them is not looked at. */
  lemma OffsetRoundTrip(sign: byte, hours: nat, sep: byte, minutes: nat)
    requires !IsZulu(sign) && hours < 100 && minutes < 100
    ensures var z := [sign] + TwoDigitText(hours) + [sep] + TwoDigitText(minutes);
      ZoneDigits(z) &&
      ParseZone(z) == Ok(Fixed((if sign == Minus then -1 else 1) * (hours * 3600 + minutes * 60)))
  {
    var z := [sign] + TwoDigitText(hours) + [sep] + TwoDigitText(minutes);
    assert z[1..3] == TwoDigitText(hours);
    assert z[4..6] == TwoDigitText(minutes);
  }

  /** Bytes after a 'Z' are an error. */
  lemma ZuluTrailing(z: seq<byte>)
    requires |z| > 1 && IsZulu(z[0])
    ensures ZoneDigits(z) && ParseZone(z) == Err
  {
  }

  /** parseDateTime: a local date-time followed by a zone. The parser never
      hands over a date-time without a zone; parseDateTime panics on one. */
  function ParseDateTime(b: seq<byte>): (r: Result<DateTime>)
    requires DateTimeDigits(b)
    requires ParseLocalDateTime(b).Ok? ==>
      |ParseLocalDateTime(b).value.1| > 0 && ZoneDigits(ParseLocalDateTime(b).value.1)
    ensures r.Ok? ==> ParseLocalDateTime(b).Ok? && r.value.local == ParseLocalDateTime(b).value.0
    ensures r.Ok? ==> ParseZone(ParseLocalDateTime(b).value.1) == Ok(r.value.zone)
    ensures r.Ok? <==> ParseLocalDateTime(b).Ok? && ParseZone(ParseLocalDateTime(b).value.1).Ok?
  {
    match ParseLocalDateTime(b)
    case Err => Err
    case Ok((local, rest)) =>
      match ParseZone(rest)
      case Err => Err
      case Ok(zone) => Ok(DateTime(local, zone))
  }

  /** The outcomes of parseDateTime as written. */
  datatype DateTimeOutcome = OffsetParsed(value: DateTime) | OffsetRejected | OffsetPanics

  /** parseDateTime over parseLocalDateTime as written: it panics where the
      date parser does, and on a date-time with no bytes left for the zone. */
  function ParseDateTimeAsWritten(b: seq<byte>): (r: DateTimeOutcome)
    requires DateTimeDigits(b)
    requires ParseLocalDateTimeAsWritten(b).LocalParsed? && |ParseLocalDateTimeAsWritten(b).rest| > 0 ==>
      ZoneDigits(ParseLocalDateTimeAsWritten(b).rest)
    ensures r.OffsetPanics? <==>
      ParseLocalDateTimeAsWritten(b).LocalPanics? ||
      (ParseLocalDateTimeAsWritten(b).LocalParsed? && ParseLocalDateTimeAsWritten(b).rest == [])
    ensures r.OffsetParsed? ==>
      ParseLocalDateTimeAsWritten(b).LocalParsed? && ParseLocalDateTimeAsWritten(b).value == r.value.local &&
      |ParseLocalDateTimeAsWritten(b).rest| > 0 && ParseZone(ParseLocalDateTimeAsWritten(b).rest) == Ok(r.value.zone)
  {
    match ParseLocalDateTimeAsWritten(b)
    case LocalPanics => OffsetPanics
    case LocalRejected => OffsetRejected
    case LocalParsed(local, rest) =>
      if rest == [] then OffsetPanics
      else match ParseZone(rest)
        case Err => OffsetRejected
        case Ok(zone) => OffsetParsed(DateTime(local, zone))
  }

  /** For offset date-times the two versions differ in what they accept only
      on day 00: a bare '.' leaves no zone, so it panics as written. Where
      both accept they agree. */
  lemma DateTimeVersions(b: seq<byte>)
    requires DateTimeDigits(b)
    requires ParseLocalDateTime(b).Ok? ==>
      |ParseLocalDateTime(b).value.1| > 0 && ZoneDigits(ParseLocalDateTime(b).value.1)
    requires ParseLocalDateTimeAsWritten(b).LocalParsed? && |ParseLocalDateTimeAsWritten(b).rest| > 0 ==>
      ZoneDigits(ParseLocalDateTimeAsWritten(b).rest)
    ensures ParseDateTime(b).Ok? <==>
      ParseDateTimeAsWritten(b).OffsetParsed? && ParseDateTimeAsWritten(b).value.local.date.day >= 1
    ensures ParseDateTime(b).Ok? ==> ParseDateTimeAsWritten(b) == OffsetParsed(ParseDateTime(b).value)
  {
    LocalDateTimeVersions(b);
    if ParseLocalDateTimeAsWritten(b).LocalParsed? && |b| == 20 && b[19] == Dot {
      DanglingRest(b);
    }
  }

  /** A time that ends at a bare '.' leaves nothing for the zone. */
  lemma DanglingRest(b: seq<byte>)
    requires DateTimeDigits(b) && |b| == 20 && b[19] == Dot
    requires ParseLocalDateTimeAsWritten(b).LocalParsed?
    ensures ParseLocalDateTimeAsWritten(b).rest == []
  {
    var t := b[11..];
    assert |t| == 9 && t[8] == Dot && t[9..] == [];
  }

  /** The pieces of `date + [sep] + time + rest` for a ten-byte date and an
      eight-byte time. */
  lemma SplitDateTime(date: seq<byte>, sep: byte, time: seq<byte>, rest: seq<byte>)
    requires |date| == 10 && |time| == 8
    ensures var b := date + [sep] + time + rest;
      |b| >= LocalDateTimeMinLen && b[..10] == date && b[10] == sep && b[11..] == time + rest
  {
    var b := date + [sep] + time + rest;
    assert b[..10] == date;
    assert b[11..] == time + rest;
  }

  /** A date text, a separator and a time text without fraction read back as
      that date and time when both exist, and the remaining bytes are handed
      back for the zone. */
  lemma LocalDateTimeRoundTrip(year: nat, month: nat, day: nat, sep: byte,
                               hour: nat, minute: nat, second: nat, rest: seq<byte>)
    requires year < 10000 && month < 100 && day < 100
    requires IsSeparator(sep)
    requires hour < 100 && minute < 100 && second < 100
    requires rest == [] || rest[0] != Dot
    ensures var b := DateText(year, month, day) + [sep] + TimeText(hour, minute, second) + rest;
      DateTimeDigits(b) &&
      ParseLocalDateTime(b) ==
        if IsValidDate(year, month, day) && hour <= 23 && minute <= 59 && second <= 59
        then Ok((LocalDateTime(LocalDate(year, month, day), LocalTime(hour, minute, second, 0, 0)), rest))
        else Err
  {
    var date, time := DateText(year, month, day), TimeText(hour, minute, second);
    SplitDateTime(date, sep, time, rest);
    TimeTextFields(hour, minute, second, rest);
    DateRoundTrip(year, month, day);
    TimeRoundTrip(hour, minute, second, rest);
  }

  /** The same round trip as written: a month outside 01..12 panics;
      otherwise the text is accepted exactly when the day is at most the
      length of the month (day 00 included) and the time is in range. */
  lemma LocalDateTimeAsWrittenRoundTrip(year: nat, month: nat, day: nat, sep: byte,
                                        hour: nat, minute: nat, second: nat, rest: seq<byte>)
    requires year < 10000 && month < 100 && day < 100
    requires IsSeparator(sep)
    requires hour < 100 && minute < 100 && second < 100
    requires rest == [] || rest[0] != Dot
    ensures var b := DateText(year, month, day) + [sep] + TimeText(hour, minute, second) + rest;
      DateTimeDigits(b) &&
      ParseLocalDateTimeAsWritten(b) ==
        if !IsMonth(month) then LocalPanics
        else if IsValidDateAsWritten(year, month, day) && hour <= 23 && minute <= 59 && second <= 59
        then LocalParsed(LocalDateTime(LocalDate(year, month, day), LocalTime(hour, minute, second, 0, 0)), rest)
        else LocalRejected
  {
    var date, time := DateText(year, month, day), TimeText(hour, minute, second);
    SplitDateTime(date, sep, time, rest);
    TimeTextFields(hour, minute, second, rest);
    DateTextFields(year, month, day);
    TimeRoundTrip(hour, minute, second, rest);
    if rest != [] {
      assert (time + rest)[8] == rest[0];
    }
    TimeVersions(time + rest);
  }

  /** "2021-01-00T00:00:00" is a date-time as written, and rejected by the
      corrected composition. */
  lemma DayZeroDateTime()
    ensures var b := DateText(2021, 1, 0) + ['T' as byte] + TimeText(0, 0, 0);
      DateTimeDigits(b) &&
      ParseLocalDateTimeAsWritten(b) == LocalParsed(LocalDateTime(LocalDate(2021, 1, 0), LocalTime(0, 0, 0, 0, 0)), []) &&
      ParseLocalDateTime(b) == Err
  {
    var b := DateText(2021, 1, 0) + ['T' as byte] + TimeText(0, 0, 0);
    assert b == DateText(2021, 1, 0) + ['T' as byte] + TimeText(0, 0, 0) + [];
    LocalDateTimeRoundTrip(2021, 1, 0, 'T' as byte, 0, 0, 0, []);
    LocalDateTimeAsWrittenRoundTrip(2021, 1, 0, 'T' as byte, 0, 0, 0, []);
  }

  /** "2021-01-01T12:30:45." is a date-time as written, with no fraction
      and nothing left, and rejected by the corrected composition. */
  lemma DanglingPointDateTime()
    ensures var b := DateText(2021, 1, 1) + ['T' as byte] + TimeText(12, 30, 45) + [Dot];
      DateTimeDigits(b) &&
      ParseLocalDateTimeAsWritten(b) == LocalParsed(LocalDateTime(LocalDate(2021, 1, 1), LocalTime(12, 30, 45, 0, 0)), []) &&
      ParseLocalDateTime(b) == Err
  {
    var date, time := DateText(2021, 1, 1), TimeText(12, 30, 45);
    SplitDateTime(date, 'T' as byte, time, [Dot]);
    DanglingFractionPoint();
    DateRoundTrip(2021, 1, 1);
    DateVersions(date);
  }

  /** A full offset date-time ending in 'Z' is decoded in UTC. */
  lemma UtcDateTime(year: nat, month: nat, day: nat, hour: nat, minute: nat, second: nat)
    requires year < 10000 && IsValidDate(year, month, day)
    requires hour <= 23 && minute <= 59 && second <= 59
    ensures var b := DateText(year, month, day) + ['T' as byte] + TimeText(hour, minute, second) + ['Z' as byte];
      DateTimeDigits(b) &&
      ParseDateTime(b) ==
        Ok(DateTime(LocalDateTime(LocalDate(year, month, day), LocalTime(hour, minute, second, 0, 0)), UTC))
  {
    LocalDateTimeRoundTrip(year, month, day, 'T' as byte, hour, minute, second, ['Z' as byte]);
  }
}
