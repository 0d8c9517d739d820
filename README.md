# go-toml v2 decoder core, modelled in Dafny

This project models the decoding core of the go-toml v2 library, which is
vendored into the repository under `vendor/github.com/pelletier/go-toml/v2`.
It covers two files.

`decode.go` turns the bytes of a TOML scalar literal into a value:

- integers in decimal, hexadecimal (`0x`), octal (`0o`) and binary (`0b`), with
  `_` digit separators;
- the syntax of floats, up to the text handed to the float conversion;
- local dates, local times, local date-times and offset date-times, after the
  grammar of section 5.6 of RFC 3339;
- the Gregorian calendar helpers `isLeap`, `daysBefore`, `daysIn` and `isValidDate`.

`unmarshaler.go` stores decoded values into Go targets. The model covers the
parts of it that do not depend on reflection:

- the range check that decides whether an integer fits its Go target;
- the `arrayIndex` counters for array-tables decoded into fixed-size Go arrays;
- the one-slot expression stash (`nextExpr`/`stashExpr`);
- the `handleKeyValues` loop, which stops at the first expression that is not a
  key-value;
- the `skipUntilTable` flag, which makes the decoder ignore the key-values of a
  table whose key the target does not have;
- the way `structField` resolves a TOML key to a struct field (tags, embedded
  structs, the case-insensitive second lookup);
- how `unmarshalArray` fills a Go slice or a fixed-size Go array.

Bytes are `Ascii.byte` (0..255). A decode error is `Err` of the `Result`
datatype in `wrappers.dfy`; error messages are not modelled.

Modules, one per file:

| module | file | models |
|---|---|---|
| `Wrappers` | wrappers.dfy | `Option` and `Result` |
| `Ascii` | ascii.dfy | bytes and the character classes the parsers use |
| `Digits` | digits.dfy | `parseDecimalDigits`; `strconv.ParseInt` as base-N conversion with an int64 range check |
| `Underscores` | underscores.dfy | `checkAndRemoveUnderscoresIntegers`, `checkAndRemoveUnderscoresFloats` |
| `Integers` | integers.dfy | `parseInteger`, `parseIntDec/Hex/Oct/Bin` |
| `Floats` | floats.dfy | the validation part of `parseFloat` |
| `Calendar` | calendar.dfy | `isLeap`, `daysBefore`, `daysIn`, `isValidDate` |
| `Dates` | dates.dfy | `parseLocalDate` |
| `Times` | times.dfy | `parseLocalTime` |
| `DateTimes` | datetimes.dfy | `parseLocalDateTime`, the zone part of `parseDateTime` |
| `Targets` | targets.dfy | the range checks of `unmarshalInteger` |
| `Decoding` | decoding.dfy | the `decoder` fields `stashedExpr`, `skipUntilTable`, `arrayIndexes`; `nextExpr`, `stashExpr`, `arrayIndex`, `fromParser`, `handleRootExpression`, `handleKeyValues`, `handleKeyValue` |
| `Fields` | fields.dfy | `structField` |
| `Arrays` | arrays.dfy | the filling loop of `unmarshalArray` |

The loops of the source are methods. Each method is proved against a
specification function:

- the two separator scanners produce exactly `Unscored(b)` and accept exactly
  the inputs that satisfy the separator rules;
- `ParseDecimalDigits` computes `DecimalValue`;
- `ParseLocalTime` and its fraction loop `ParseFraction` compute
  `LocalTimeAsWritten` and `FractionAsWritten`;
- `ParseFloat` and its dot loop `CheckDots` compute `FloatAsWritten` and
  `DotsValid`;
- `FieldWalker.Walk` fills the map that `FieldPaths` describes;
- `FillSlice` and `FillArray` are specified element by element.

The decoder is a class. Its fields are the ones the source mutates, plus the
parser's position in an abstract expression sequence. Each handler is proved to
leave the decoder where a one-expression-at-a-time reference run (`Run`) is after
the expressions it consumed. So `FromParser` handles every expression exactly
once, in order, and fails exactly when the reference run fails.

Where the source panics or misbehaves on inputs the scanner lets through, the
model keeps an "as written" version next to a corrected one, and connects the
two with lemmas (see "## Findings").

## Model


| member | source | states |
|---|---|---|
| Digits.DigitValue | vendor/github.com/pelletier/go-toml/v2/decode.go:267-335 | the digit value `strconv.ParseInt` gives a byte is below 36, and below 10 exactly for the decimal digits |
| Digits.DecimalValue | vendor/github.com/pelletier/go-toml/v2/decode.go:53-62 | the value of a digit string is below 10 to the power of its length |
| Digits.ParseDecimalDigits | vendor/github.com/pelletier/go-toml/v2/decode.go:53-62 | the accumulating loop returns exactly the decimal value of its digits, which is below 10^len |
| Digits.TwoDigits | vendor/github.com/pelletier/go-toml/v2/decode.go:53-62 | a two-byte field such as "09" has the value 10 × first digit + second digit |
| Digits.DecimalConcat | vendor/github.com/pelletier/go-toml/v2/decode.go:53-62 | the value of `a + b` is the value of `a` shifted by `len(b)` decimal places, plus the value of `b` |
| Digits.ParseInt | vendor/github.com/pelletier/go-toml/v2/decode.go:267-335 | base-N conversion with an optional sign: it accepts exactly an optional sign followed by at least one digit of the base whose signed value fits int64, and returns that value (the digits' positional value, negated after a '-') |
| Digits.ParseIntUnsigned | vendor/github.com/pelletier/go-toml/v2/decode.go:267-335 | an unsigned digit string is accepted exactly when its value is at most MaxInt64, and then yields that value |
| Digits.RenderValue | vendor/github.com/pelletier/go-toml/v2/decode.go:313-335 | reading back the canonical base-N rendering of a number gives the number; this is the partner used for the integer round trips |
| Underscores.CheckAndRemoveUnderscoresIntegers | vendor/github.com/pelletier/go-toml/v2/decode.go:337-375 | succeeds exactly when no underscore is first, none is last and no two are adjacent; the result is the input with every underscore removed |
| Underscores.CheckAndRemoveUnderscoresFloats | vendor/github.com/pelletier/go-toml/v2/decode.go:377-430 | succeeds exactly when the integer rules hold and no underscore follows 'e', 'E' or '.' or precedes '.'; the result is the input with every underscore removed |
| Underscores.UnscoredClean | vendor/github.com/pelletier/go-toml/v2/decode.go:357-372 | the cleaned text contains no underscore |
| Underscores.UnscoredIdentity | vendor/github.com/pelletier/go-toml/v2/decode.go:346-355 | input without underscores is returned unchanged (the fast path) |
| Underscores.UnscoredCounts | vendor/github.com/pelletier/go-toml/v2/decode.go:357-372 | every byte other than '_' keeps its number of occurrences |
| Underscores.UnscoredConcat | vendor/github.com/pelletier/go-toml/v2/decode.go:357-372 | removal distributes over concatenation |
| Underscores.UnscoredHead | vendor/github.com/pelletier/go-toml/v2/decode.go:377-430 | a first byte that is not '_' stays the first byte of the cleaned text |
| Integers.ParseIntPrefixed | vendor/github.com/pelletier/go-toml/v2/decode.go:267-307 | parseIntHex/Oct/Bin accept exactly when the text after the two-byte prefix satisfies the separator rules and, without its separators, is an optional sign and at least one digit of the base whose value fits int64; the result is that value |
| Integers.ParseIntDec | vendor/github.com/pelletier/go-toml/v2/decode.go:313-335 | parseIntDec accepts exactly when the separator rules hold and the cleaned text is an optional sign and decimal digits, with no leading zero after the sign, whose value fits int64; the result is that value |
| Integers.ParseInteger | vendor/github.com/pelletier/go-toml/v2/decode.go:10-25 | a literal is accepted exactly when it is a TOML integer of the base its prefix selects (separators between digits, an optional sign, no decimal leading zero, an int64 value), and decodes to the value of its digits in that base with its sign applied |
| Integers.PrefixedLiteral | vendor/github.com/pelletier/go-toml/v2/decode.go:10-25 | `0x`, `0o` or `0b` followed by digits of base 16, 8 or 2 selects that base: accepted exactly when the digits' value fits int64, and then with that value |
| Integers.DecimalLeadingZeroRejected | vendor/github.com/pelletier/go-toml/v2/decode.go:319-326 | in decimal, a '0' followed by more digits is rejected with or without a sign |
| Integers.ZeroForms | vendor/github.com/pelletier/go-toml/v2/decode.go:319-326 | `0`, `+0` and `-0` are all accepted as zero |
| Integers.NoUnderscores | vendor/github.com/pelletier/go-toml/v2/decode.go:346-355 | text without underscores satisfies the integer separator rules and is its own cleaned form |
| Integers.DecimalRoundTrip | vendor/github.com/pelletier/go-toml/v2/decode.go:10-25 | every int64 value decodes back from its canonical decimal text |
| Integers.NegativeRoundTrip | vendor/github.com/pelletier/go-toml/v2/decode.go:313-335 | the canonical text "-digits" of every negative int64 decodes to that value, MinInt64 included |
| Integers.NonNegativeRoundTrip | vendor/github.com/pelletier/go-toml/v2/decode.go:313-335 | the canonical digits of every non-negative int64 decode to that value |
| Integers.SeparatedDecimal | vendor/github.com/pelletier/go-toml/v2/decode.go:313-335 | "1_000" decodes to 1000 |
| Integers.SeparatedHex | vendor/github.com/pelletier/go-toml/v2/decode.go:269-281 | "0xa_f" decodes to 175 |
| Integers.PlusSign | vendor/github.com/pelletier/go-toml/v2/decode.go:313-335 | "+5" decodes to 5 |
| Floats.FloatAsWritten | vendor/github.com/pelletier/go-toml/v2/decode.go:217-265 | the NaN result comes from a signed "nan" and nothing else; a number passed the separator rules, its text is the input without underscores and obeys the decimal-point rules, and the raw bytes have no leading zero |
| Floats.FloatCorrected | vendor/github.com/pelletier/go-toml/v2/decode.go:217-265 | the same, with the leading-zero rule applied to the cleaned text |
| Floats.ParseFloat | vendor/github.com/pelletier/go-toml/v2/decode.go:217-265 | the method with its dot loop returns exactly `FloatAsWritten` |
| Floats.CheckDots | vendor/github.com/pelletier/go-toml/v2/decode.go:227-249 | the decimal-point checks succeed exactly when the text has at most one '.', and every '.' sits between two digits |
| Floats.DotsValidEnds | vendor/github.com/pelletier/go-toml/v2/decode.go:227-233 | a text that passes the decimal-point rules neither starts nor ends with '.' |
| Floats.RawLeadingZeroKept | vendor/github.com/pelletier/go-toml/v2/decode.go:251-257 | a leading zero visible in the raw bytes is still there after cleaning |
| Floats.CorrectedStricter | vendor/github.com/pelletier/go-toml/v2/decode.go:251-257 | everything the corrected parser accepts, the parser as written accepts with the same result |
| Floats.FloatVersions | vendor/github.com/pelletier/go-toml/v2/decode.go:217-265 | the two versions differ exactly on a literal that passes every test as written but whose cleaned text has a leading zero, which a separator after the '0' hid from the raw-byte test |
| Floats.HiddenLeadingZero | vendor/github.com/pelletier/go-toml/v2/decode.go:251-257 | "0_1.5" is accepted as written, as the text "01.5"; the corrected parser rejects it |
| Floats.HiddenLeadingZeroCleaned | vendor/github.com/pelletier/go-toml/v2/decode.go:377-430 | "0_1.5" passes the float separator rules and cleans to "01.5" |
| Floats.HiddenLeadingZeroDots | vendor/github.com/pelletier/go-toml/v2/decode.go:235-249 | "01.5" passes the decimal-point rules |
| Floats.SeparatorFreeAgree | vendor/github.com/pelletier/go-toml/v2/decode.go:217-265 | a literal without separators and without a leading zero is accepted by both versions with its own bytes as the text |
| Calendar.DaysIn | vendor/github.com/pelletier/go-toml/v2/decode.go:455-460 | every month 1..12 has between 28 and 31 days |
| Calendar.IsLeap | vendor/github.com/pelletier/go-toml/v2/decode.go:462-464 | every leap year is a multiple of 4, every multiple of 400 is a leap year, and the other multiples of 100 are not |
| Calendar.IsValidDateAsWritten | vendor/github.com/pelletier/go-toml/v2/decode.go:432-434 | isValidDate as written accepts every day up to 28 in any month, day 0 and below included, and never a day past 31 |
| Calendar.DaysInIsMonthLength | vendor/github.com/pelletier/go-toml/v2/decode.go:439-460 | the daysBefore table gives the Gregorian month lengths, written out independently |
| Calendar.FebruaryLeap | vendor/github.com/pelletier/go-toml/v2/decode.go:455-464 | February has 29 days exactly in leap years, and no other month depends on the year |
| Calendar.DaysBeforeYear | vendor/github.com/pelletier/go-toml/v2/decode.go:439-453 | the table has 13 entries and the last one is 365 |
| Calendar.DaysBeforeMonthTable | vendor/github.com/pelletier/go-toml/v2/decode.go:439-460 | adding up daysIn over the first m months gives daysBefore[m], plus one from March on in a leap year |
| Calendar.YearLength | vendor/github.com/pelletier/go-toml/v2/decode.go:439-464 | a year has 366 days if it is a leap year and 365 otherwise |
| Calendar.LeapCycle | vendor/github.com/pelletier/go-toml/v2/decode.go:462-464 | the leap rule repeats every 400 years |
| Calendar.ValidDateForms | vendor/github.com/pelletier/go-toml/v2/decode.go:432-437 | the corrected date check differs from isValidDate as written only on days below 1 |
| Dates.ParseLocalDate | vendor/github.com/pelletier/go-toml/v2/decode.go:27-51 | an accepted date is ten bytes with '-' at positions 4 and 7, and is a date that exists, with a four-digit year |
| Dates.ParseLocalDateAsWritten | vendor/github.com/pelletier/go-toml/v2/decode.go:27-51 | parseLocalDate as written panics exactly on a well-shaped text whose month is outside 1..12; a date it accepts is well-shaped, has a four-digit year, a month 1..12 and a day of at most the month's length, with no lower bound |
| Dates.DateTextFields | vendor/github.com/pelletier/go-toml/v2/decode.go:38-44 | year, month and day are the decimal values of bytes 0-3, 5-6 and 8-9 |
| Dates.DateRoundTrip | vendor/github.com/pelletier/go-toml/v2/decode.go:27-51 | a well-formed YYYY-MM-DD text is accepted exactly when its date exists, and yields the fields written |
| Dates.DateVersions | vendor/github.com/pelletier/go-toml/v2/decode.go:27-51 | the corrected parser accepts exactly what the parser as written accepts with a day of at least 1, and with the same result |
| Dates.LeapDay | vendor/github.com/pelletier/go-toml/v2/decode.go:27-51 | February 29 is accepted exactly in leap years |
| Dates.MonthThirteenPanics | vendor/github.com/pelletier/go-toml/v2/decode.go:455-460 | "2021-13-01" passes the format guard, and daysIn then reads past the end of daysBefore |
| Dates.MonthZeroPanics | vendor/github.com/pelletier/go-toml/v2/decode.go:455-460 | "2021-00-01" passes the format guard, and daysIn then reads before the start of daysBefore |
| Dates.DayZeroAccepted | vendor/github.com/pelletier/go-toml/v2/decode.go:432-437 | "2021-01-00" is accepted as written, as day 0; the corrected parser rejects it |
| Times.NsPow | vendor/github.com/pelletier/go-toml/v2/decode.go:152 | nspow[k] is 10^(9-k) for a fraction of k digits, 1 <= k |
| Times.FractionBound | vendor/github.com/pelletier/go-toml/v2/decode.go:207 | a fraction of k digits, scaled by nspow[k], stays below one second |
| Times.TimeFields | vendor/github.com/pelletier/go-toml/v2/decode.go:158-181 | accepted fields have colons at positions 2 and 5, and the hour is at most 23, the minute and the second at most 59 |
| Times.FractionAsWritten | vendor/github.com/pelletier/go-toml/v2/decode.go:184-211 | an accepted fraction has at most 9 digits, which are the leading digits of the text, and stays below one second |
| Times.Fraction | vendor/github.com/pelletier/go-toml/v2/decode.go:184-211 | the fraction with at least one digit: 1 to 9 digits, nanoseconds = their value × 10^(9-digits) |
| Times.LocalTimeAsWritten | vendor/github.com/pelletier/go-toml/v2/decode.go:150-215 | every accepted time is in range |
| Times.LocalTimeCorrected | vendor/github.com/pelletier/go-toml/v2/decode.go:150-215 | every accepted time is in range (corrected version) |
| Times.ParseLocalTime | vendor/github.com/pelletier/go-toml/v2/decode.go:150-215 | the method with its fraction loop returns exactly `LocalTimeAsWritten` |
| Times.ParseFraction | vendor/github.com/pelletier/go-toml/v2/decode.go:184-211 | the digit loop returns exactly `FractionAsWritten` |
| Times.FractionVersions | vendor/github.com/pelletier/go-toml/v2/decode.go:188-201 | the two fraction rules differ only on an empty fraction |
| Times.TimeVersions | vendor/github.com/pelletier/go-toml/v2/decode.go:184-211 | the two versions of parseLocalTime differ exactly on a valid "HH:MM:SS." with nothing after the point |
| Times.TimeRoundTrip | vendor/github.com/pelletier/go-toml/v2/decode.go:150-215 | "HH:MM:SS" without a fraction is accepted exactly when the fields are in range, and the bytes after it (`b[8:]`) are handed back |
| Times.FractionRoundTrip | vendor/github.com/pelletier/go-toml/v2/decode.go:184-211 | a fraction of 1 to 9 digits gives nanoseconds = value × 10^(9-digits) and precision = digits, and `b[9+digits:]` is handed back |
| Times.FractionOf | vendor/github.com/pelletier/go-toml/v2/decode.go:184-211 | the fraction rule on 1 to 9 digits followed by a non-digit gives their scaled value and their count |
| Times.TenthDigitRejected | vendor/github.com/pelletier/go-toml/v2/decode.go:197-200 | a tenth fraction digit is an error in both versions |
| Times.DanglingFractionPoint | vendor/github.com/pelletier/go-toml/v2/decode.go:184-211 | "12:30:45." is accepted as written with no fraction digits; the corrected parser rejects it |
| DateTimes.ParseLocalDateTime | vendor/github.com/pelletier/go-toml/v2/decode.go:119-145 | parseLocalDateTime over the corrected date and time parsers: an accepted local date-time has at least 11 bytes and a 'T', 't' or ' ' at index 10, a date that exists and a time in range; the bytes handed back are a suffix that leaves at least 19 bytes |
| DateTimes.ParseLocalDateTimeAsWritten | vendor/github.com/pelletier/go-toml/v2/decode.go:119-145 | parseLocalDateTime over the date and time parsers as written: it panics exactly when the first ten bytes are a well-shaped date with a month outside 1..12; an accepted date-time has the separator, a month 1..12, a day of at most the month's length and a time in range, and hands back a suffix that leaves at least 19 bytes |
| DateTimes.LocalTimeRestAsWritten | vendor/github.com/pelletier/go-toml/v2/decode.go:207-213 | the bytes the time as written hands back are a suffix of its input that leaves at least 8 bytes |
| DateTimes.LocalDateTimeVersions | vendor/github.com/pelletier/go-toml/v2/decode.go:119-145 | the corrected composition accepts exactly what the one as written accepts, less day 00 and a twenty-byte text ending in a bare '.', with the same date-time and rest; where the one as written panics, the corrected one rejects |
| DateTimes.LocalTimeRest | vendor/github.com/pelletier/go-toml/v2/decode.go:207-213 | the bytes a time hands back are a suffix of its input that leaves at least 8 bytes |
| DateTimes.ParseZone | vendor/github.com/pelletier/go-toml/v2/decode.go:82-104 | the zone is UTC exactly for a lone 'Z' or 'z'; otherwise it is exactly six bytes; the offset is negative only when the first byte is '-', and at most 99h99m either way |
| DateTimes.OffsetRoundTrip | vendor/github.com/pelletier/go-toml/v2/decode.go:86-99 | "±HH?MM" gives ±(HH·3600 + MM·60) seconds, with anything but '-' counting as '+' |
| DateTimes.ZuluTrailing | vendor/github.com/pelletier/go-toml/v2/decode.go:82-104 | bytes after a 'Z' are an error |
| DateTimes.ParseDateTime | vendor/github.com/pelletier/go-toml/v2/decode.go:64-117 | an offset date-time is accepted exactly when the corrected local date-time is, and the bytes it leaves parse as a zone; the result is that date-time in that zone |
| DateTimes.ParseDateTimeAsWritten | vendor/github.com/pelletier/go-toml/v2/decode.go:64-117 | parseDateTime over the composition as written panics exactly where the date parser panics or no byte is left for the zone; an accepted one is the local date-time as written in a zone that parses on its own |
| DateTimes.DateTimeVersions | vendor/github.com/pelletier/go-toml/v2/decode.go:64-145 | for offset date-times the two versions differ in what they accept only on day 00, and agree where both accept |
| DateTimes.DanglingRest | vendor/github.com/pelletier/go-toml/v2/decode.go:184-213 | a time that ends at a bare '.' leaves no byte for the zone |
| DateTimes.LocalDateTimeRoundTrip | vendor/github.com/pelletier/go-toml/v2/decode.go:119-145 | for the corrected composition, a date text, a separator and a time text are accepted exactly when the date exists and the time is in range, and the rest is handed back |
| DateTimes.LocalDateTimeAsWrittenRoundTrip | vendor/github.com/pelletier/go-toml/v2/decode.go:119-145 | as written, the same text panics when the month is outside 1..12, and is otherwise accepted exactly when the day is at most the month's length (day 00 included) and the time is in range |
| DateTimes.DayZeroDateTime | vendor/github.com/pelletier/go-toml/v2/decode.go:432-437 | "2021-01-00T00:00:00" is accepted as written as day 0; the corrected composition rejects it |
| DateTimes.DanglingPointDateTime | vendor/github.com/pelletier/go-toml/v2/decode.go:184-211 | "2021-01-01T12:30:45." is accepted as written with no fraction and nothing left; the corrected composition rejects it |
| DateTimes.UtcDateTime | vendor/github.com/pelletier/go-toml/v2/decode.go:64-117 | a valid "YYYY-MM-DDTHH:MM:SSZ" decodes to its fields in UTC |
| Targets.StoreInteger | vendor/github.com/pelletier/go-toml/v2/unmarshaler.go:837-899 | a range check that passes stores the value unchanged |
| Targets.StoreIntegerInRange | vendor/github.com/pelletier/go-toml/v2/unmarshaler.go:825-909 | the literal bounds of unmarshalInteger are exactly the two's-complement ranges of the kind's width: accepted iff in range |
| Targets.StoreIntegerTotal | vendor/github.com/pelletier/go-toml/v2/unmarshaler.go:825-909 | int64, int and interface targets take every value; a non-integer kind takes none |
| Targets.UnsignedRejectsNegatives | vendor/github.com/pelletier/go-toml/v2/unmarshaler.go:866-895 | uint64 and uint targets reject exactly the negative values |
| Targets.Widening | vendor/github.com/pelletier/go-toml/v2/unmarshaler.go:825-909 | a value that fits a kind fits every wider kind of the same signedness, and an unsigned kind's values fit the wider signed kind |
| Targets.UnmarshalInteger | vendor/github.com/pelletier/go-toml/v2/unmarshaler.go:825-909 | a stored integer is the parsed value and lies in the target kind's range |
| Targets.DecimalIntoKind | vendor/github.com/pelletier/go-toml/v2/unmarshaler.go:825-909 | the decimal text of any int64 decodes into an integer kind exactly when it is in range, and then to itself |
| Targets.ByteOverflow | vendor/github.com/pelletier/go-toml/v2/unmarshaler.go:884-889 | 256 does not fit a uint8; 255 does |
| Decoding.ArrayIndexFirst | vendor/github.com/pelletier/go-toml/v2/unmarshaler.go:150-165 | the first call for an array records and returns 0, even when appending |
| Decoding.ArrayIndexLater | vendor/github.com/pelletier/go-toml/v2/unmarshaler.go:150-165 | later calls return the stored value + 1 and store it when appending, and return the stored value otherwise; other arrays' counters never change |
| Decoding.AppendCallsCount | vendor/github.com/pelletier/go-toml/v2/unmarshaler.go:150-165 | n appending calls for a new array hand out 0, 1, ..., n-1 and leave every other counter alone |
| Decoding.ArrayIndexStep | vendor/github.com/pelletier/go-toml/v2/unmarshaler.go:150-165 | arrayIndex leaves a counter for the array equal to the index it returns, changes no other array's counter, and changes nothing when the array is known and the call does not append |
| Decoding.WalkKeepsCounters | vendor/github.com/pelletier/go-toml/v2/unmarshaler.go:373-472 | a key-value or table key never touches an array counter: only the array-table handlers call arrayIndex |
| Decoding.WalkThroughArray | vendor/github.com/pelletier/go-toml/v2/unmarshaler.go:948-1053 | a key-value or table key that reaches a fixed-size array through resolved fields is an error ("unhandled kv part" for a key-value; handleKeyPart panics for a table) |
| Decoding.KeyValueIntoArray | vendor/github.com/pelletier/go-toml/v2/unmarshaler.go:1048-1049 | a root key-value whose key runs through a fixed-size array fails the decoding and records no counter |
| Decoding.Step | vendor/github.com/pelletier/go-toml/v2/unmarshaler.go:216-254 | the reference step: a failed run stays as it is, a failing step adds no disposition, and a step that does not fail adds exactly one and keeps the others |
| Decoding.Run | vendor/github.com/pelletier/go-toml/v2/unmarshaler.go:196-205 | a reference run that has not failed has given one disposition to each expression handled |
| Decoding.FixedArrayTables | vendor/github.com/pelletier/go-toml/v2/unmarshaler.go:311-318 | k array-tables into a fixed-size Go array of length L fill slots 0..k-1 while k <= L; the next one is an error instead of a write |
| Decoding.RunFailedPersists | vendor/github.com/pelletier/go-toml/v2/unmarshaler.go:196-205 | once an expression fails, the decoding stays failed |
| Decoding.StepAppends | vendor/github.com/pelletier/go-toml/v2/unmarshaler.go:216-254 | an expression that does not fail adds exactly one disposition and keeps the earlier ones |
| Decoding.RunLog | vendor/github.com/pelletier/go-toml/v2/unmarshaler.go:196-205 | until a failure, each expression gets one disposition, and those of earlier expressions never change |
| Decoding.SkippedKeyValue | vendor/github.com/pelletier/go-toml/v2/unmarshaler.go:220-230 | while the flag is set a root key-value is ignored whatever its seen-check would say, and the flag stays set |
| Decoding.HeaderClearsSkip | vendor/github.com/pelletier/go-toml/v2/unmarshaler.go:233-248 | a header clears the flag exactly when its key resolves in the target; otherwise the table is recorded as missing |
| Decoding.KeyValueClearsSkip | vendor/github.com/pelletier/go-toml/v2/unmarshaler.go:924-936 | after handleKeyValue the flag is always cleared |
| Decoding.SkipRun | vendor/github.com/pelletier/go-toml/v2/unmarshaler.go:216-254 | after a header whose key is missing, every key-value up to the next header is ignored |
| Decoding.Decoder.constructor | vendor/github.com/pelletier/go-toml/v2/unmarshaler.go:107-132 | a fresh decoder: nothing pulled, nothing stashed, at the start of the reference run |
| Decoding.Decoder.NextExpr | vendor/github.com/pelletier/go-toml/v2/unmarshaler.go:138-144 | after a stash, returns true without advancing and clears the flag; otherwise advances exactly when an expression is left |
| Decoding.Decoder.StashExpr | vendor/github.com/pelletier/go-toml/v2/unmarshaler.go:146-148 | sets the stash flag and changes nothing else |
| Decoding.Decoder.ArrayIndex | vendor/github.com/pelletier/go-toml/v2/unmarshaler.go:150-165 | updates the counters and returns the index as `ArrayIndexStep` does, and changes nothing else |
| Decoding.Decoder.WalkKey | vendor/github.com/pelletier/go-toml/v2/unmarshaler.go:263-472 | the key-part handlers: fail exactly when the walk does (a blocked part, an index past a fixed array's end in an array-table key, or a fixed array in any other key), and set the flag exactly at a missing field |
| Decoding.Decoder.HandleKeyValue | vendor/github.com/pelletier/go-toml/v2/unmarshaler.go:924-936 | after handleKeyValue the flag is cleared; it succeeds exactly when the reference step does, and leaves the decoder where the reference run is |
| Decoding.Decoder.HandleKeyValues | vendor/github.com/pelletier/go-toml/v2/unmarshaler.go:515-543 | consumes only key-values; stops at the first other expression with it stashed, or at the end; every consumed expression is handled as the reference run handles it |
| Decoding.Decoder.PullKeyValue | vendor/github.com/pelletier/go-toml/v2/unmarshaler.go:517-526 | hands out the next expression when it is a key-value; otherwise it stashes it, or reports the end, and hands out nothing |
| Decoding.Decoder.CheckKeyValue | vendor/github.com/pelletier/go-toml/v2/unmarshaler.go:528-536 | the seen-check followed by handleKeyValue keeps the decoder on the reference run |
| Decoding.Decoder.HandleHeader | vendor/github.com/pelletier/go-toml/v2/unmarshaler.go:489-511 | a header whose key resolves handles the key-values after it; a missing key sets the flag and consumes nothing more |
| Decoding.Decoder.HandleRootExpression | vendor/github.com/pelletier/go-toml/v2/unmarshaler.go:216-254 | each root expression leaves the decoder on the reference run after what it consumed, and an error means the reference run fails |
| Decoding.Decoder.HandleRootKeyValue | vendor/github.com/pelletier/go-toml/v2/unmarshaler.go:228-232 | a root key-value is ignored while skipping and handled otherwise, on the reference run |
| Decoding.Decoder.HandleRootHeader | vendor/github.com/pelletier/go-toml/v2/unmarshaler.go:233-248 | a header clears the flag, is handled, and is recorded as missing when its key is not found |
| Decoding.Decoder.FromParser | vendor/github.com/pelletier/go-toml/v2/unmarshaler.go:167-205 | succeeds exactly when the reference run does not fail and, in strict mode, records no missing key; every expression is then handled exactly once, in order |
| Arrays.DecodedPrefixElements | vendor/github.com/pelletier/go-toml/v2/unmarshaler.go:659-671 | appending decoded elements succeeds exactly when every element decodes, and then holds each element's own decoding |
| Arrays.FillSlice | vendor/github.com/pelletier/go-toml/v2/unmarshaler.go:617-671 | a slice, nil or not, ends up with exactly one decoded element per TOML element and none of its old contents; any element error is an error |
| Arrays.FillArray | vendor/github.com/pelletier/go-toml/v2/unmarshaler.go:672-683 | a fixed-size array gets its first min(len, count) positions decoded in order, keeps the rest, drops extra TOML elements undecoded, and on an error stops at the first failing element |
| Fields.Register | vendor/github.com/pelletier/go-toml/v2/unmarshaler.go:1116-1121 | registering keeps every name already in the map, and the lower-cased name of the last entry maps to that entry's path |
| Fields.Lookup | vendor/github.com/pelletier/go-toml/v2/unmarshaler.go:1133-1136 | the lookup finds something exactly when the name or its lower-cased form is in the map, always a path from the map, and the exact name when it is there |
| Fields.RegisterConcat | vendor/github.com/pelletier/go-toml/v2/unmarshaler.go:1116-1121 | registering two batches of names is registering their concatenation |
| Fields.RegisterSound | vendor/github.com/pelletier/go-toml/v2/unmarshaler.go:1116-1121 | every name in the map is an entry's name or its lower-cased form, with that entry's path |
| Fields.RegisterComplete | vendor/github.com/pelletier/go-toml/v2/unmarshaler.go:1116-1121 | every entry's name and its lower-cased form end up in the map |
| Fields.RegisteredSound | vendor/github.com/pelletier/go-toml/v2/unmarshaler.go:1100-1126 | every registration of the walk names an exported field under its tag or Go name, at the path it has |
| Fields.RegisteredComplete | vendor/github.com/pelletier/go-toml/v2/unmarshaler.go:1100-1126 | every exported field reachable through embedded structs is registered, at its path |
| Fields.FieldPathsSound | vendor/github.com/pelletier/go-toml/v2/unmarshaler.go:1093-1131 | every name in the field paths is a field's key or its lower-cased key, and leads to that field |
| Fields.FieldPathsComplete | vendor/github.com/pelletier/go-toml/v2/unmarshaler.go:1093-1131 | every exported field's key and its lower-cased key are in the field paths |
| Fields.StructFieldSound | vendor/github.com/pelletier/go-toml/v2/unmarshaler.go:1133-1142 | a lookup only finds a field whose key equals the name up to the case of ASCII letters |
| Fields.StructFieldComplete | vendor/github.com/pelletier/go-toml/v2/unmarshaler.go:1133-1142 | a lookup finds some field whenever a field's key equals the name up to case |
| Fields.StructFieldUnique | vendor/github.com/pelletier/go-toml/v2/unmarshaler.go:1133-1142 | when no two fields share a key up to case, a lookup finds exactly the field named like it |
| Fields.ExactBeforeFolded | vendor/github.com/pelletier/go-toml/v2/unmarshaler.go:1116-1136 | with fields "Foo" then "FOO", the exact name "Foo" finds the first, and every other spelling finds the second, which overwrote the lower-cased entry |
| Fields.SampleRegistered | vendor/github.com/pelletier/go-toml/v2/unmarshaler.go:1100-1126 | the walk of a struct with a tagged field, an unexported field and an embedded struct registers the tag and the embedded field, in order |
| Fields.SamplePaths | vendor/github.com/pelletier/go-toml/v2/unmarshaler.go:1100-1126 | the field paths of that struct: the tag and not the Go name, no unexported field, and the embedded field at its nested path |
| Fields.TagsAndEmbedding | vendor/github.com/pelletier/go-toml/v2/unmarshaler.go:1091-1143 | the Go name of a tagged field is not found; its tag is, in any case; an unexported field is not found; an embedded field is found at its nested path |
| Fields.FieldWalker.constructor | vendor/github.com/pelletier/go-toml/v2/unmarshaler.go:1096-1098 | the walk starts with an empty path buffer and an empty map |
| Fields.FieldWalker.Walk | vendor/github.com/pelletier/go-toml/v2/unmarshaler.go:1100-1126 | the walk restores its path buffer and adds exactly the registrations `Registered` describes, in order |
| Fields.StructField | vendor/github.com/pelletier/go-toml/v2/unmarshaler.go:1091-1143 | returns the two-step lookup in the walked field paths, and only ever a field whose key matches the name up to case |

## Left out

- Floats.ParseFloat: returns the cleaned text handed to `strconv.ParseFloat` (or NaN), not a float64. The conversion itself, including its failures, is floating-point library code and is not modelled.
- The NaN and infinity payloads, and the `math.MaxFloat32` bound of `unmarshalFloat`: floating point. `unmarshalFloat` is not part of this model.
- DateTimes.ParseDateTime: returns the fields and the offset in seconds instead of a `time.Time`. `time.Date`, `time.FixedZone` and `time.UTC` are library time-zone code.
- DateTimes.ParseDateTimeAsWritten: keeps day 00 as a field. `time.Date` would normalise it to the last day of the month before; that normalisation is library code and is not modelled.
- DateTimes.ParseDateTime: requires that a parsed local date-time leaves a non-empty zone. The source panics on an empty zone, and its comment says the parser never produces one.
- DateTimes.ParseZone: as in the source, the byte between the offset's hours and minutes is not checked.
- Integers.ParseInteger: requires `PrefixChecked`. The source panics on a literal of three or more bytes that starts with '0' and has no base prefix, and says the scanner rules this out.
- Digits.ParseDecimalDigits, Dates.ParseLocalDate, Times.LocalTimeAsWritten, DateTimes.ParseZone: require digits in the numeric positions (`DateDigits`, `TimeDigits`, `ZoneDigits`). The scanner guarantees this, and the digit loops compute garbage without it.
- Floats.FloatAsWritten: requires `FloatIndexable`, meaning `b[start+1]` exists after a leading '0'. The source would index out of range there, and the scanner never hands over such a float.
- `digitsToInt` and `isDigit` are not part of this model. They are taken to be the decimal value of ASCII digits and the test for '0'..'9'.
- Fields.Lower: `strings.ToLower` is modelled on ASCII letters only. Unicode case mapping is left out.
- Targets.StoreInteger: Go's `int` and `uint` are taken to be 64 bits wide. The value conversion (`reflect.Value.Convert`) and the storing itself are reflection and are left out.
- Reflection-driven value construction: `reflect.New`, `MakeMap`, `SetMapIndex`, `CanAddr`, and the pointer, map and interface dispatch in `handleKeyPart` and `handleKeyValuePart`. This is runtime machinery. The key walk abstracts each key part to `Part`: a struct field that is found or missing, a fixed-size array, or a part the target cannot hold.
- Decoding.Decoder.HandleKeyValue: storing the value is abstracted to the flag `valueOk` of the expression. `handleValue` and the `unmarshal*` functions it calls belong to the reflection layer.
- Decoding.Walk: slices and maps along a key are abstracted to parts that always resolve. Only struct fields can be missing, only fixed-size arrays have counters, and `Blocked` stands for every decode error of the key handlers, such as "cannot store a table in a slice".
- Decoding.Walk: a fixed-size array in a table key is a decoding failure. In the source, a table key that continues past the array panics in `handleKeyPart` (unmarshaler.go:467-468), and the model does not tell a panic from an error. A table key that ends at the array succeeds in the source, and only the key-values under it fail ("unhandled kv part"); the model fails at the header, so a header ending at an array with no key-values after it is the one input where the model fails and the source does not.
- The parser and `ast` nodes: the parser is an abstract sequence of expressions. Parser errors (`d.p.Error()`) are not modelled, and neither is the "expression kind at document root" panic, since `ExprKind` has only the three root kinds.
- `tracker.SeenTracker`: its verdict is a field `seenOk` of each expression, fixed in advance. The tracker's own state is not modelled.
- `strict`: only its verdict is modelled, namely that strict mode fails when some key or table was missing. The error text and the `EnterTable`/`ExitKeyValue` bookkeeping are left out.
- Error messages, `newDecodeError` highlighting and `wrapDecodeError`: every error is `Err`.
- `Decoder.Decode` and its `ioutil.ReadAll` (vendor/github.com/pelletier/go-toml/v2/unmarshaler.go:89-105): I/O.
- `FromParser`'s pointer checks on its argument (vendor/github.com/pelletier/go-toml/v2/unmarshaler.go:167-186): reflection.
- The `fieldPathsCache` and its `sync.RWMutex` (vendor/github.com/pelletier/go-toml/v2/unmarshaler.go:1065-1089): the cache only memoizes what the walk computes, and the lock is concurrency. `StructField` always walks.
- `FieldByIndex`: `structField` returns the path rather than the field it leads to.
- Fields.Field: every embedded field is a struct. In the source an embedded field of another kind, a pointer to a struct included, makes `walk` call `NumField` on a non-struct type, which panics (unmarshaler.go:1101-1103); the model has no such field, so the panic is not modelled. An embedded field is walked whether or not it is exported, as in the source.
- Fields.Key: the whole value of the `toml` tag is the name, as `f.Tag.Lookup` returns it; tag options are not split off, because the source does not split them either.
- `encoding.TextUnmarshaler` (vendor/github.com/pelletier/go-toml/v2/unmarshaler.go:562-579): foreign callbacks.
- The interface case of `unmarshalArray` (vendor/github.com/pelletier/go-toml/v2/unmarshaler.go:627-648): it replaces the value with a `[]interface{}` slice and recurses into the slice case, which `FillSlice` models.
- Arrays.FillArray, Arrays.FillSlice: a decode error is modelled as leaving the failing element untouched. What `handleValue` writes into an element before it fails is not modelled.
- Arrays.FillSlice: the old contents are modelled as discarded. The backing array that `SetLen(0)` keeps (element aliasing through the slice's capacity) is not modelled.

## Findings

| source | as written | input that shows it | evidently intended | confidence | as-written member | corrected member |
|---|---|---|---|---|---|---|
| vendor/github.com/pelletier/go-toml/v2/decode.go:27-51 | the month is never checked before `daysIn` reads `daysBefore[m]` and `daysBefore[m-1]` | "2021-13-01" or "2021-00-01": the index is out of range and the call panics | reject a month outside 01..12 as an impossible date | not executed | Dates.MonthThirteenPanics | Dates.ParseLocalDate |
| vendor/github.com/pelletier/go-toml/v2/decode.go:432-437 | `isValidDate` tests only `day <= daysIn(month, year)` | "2021-01-00" is accepted as January 0 | days count from 01, so reject day 00 | not executed | Dates.DayZeroAccepted | Dates.ParseLocalDate |
| vendor/github.com/pelletier/go-toml/v2/decode.go:251-257 | the leading-zero test reads the raw bytes `b`, not the cleaned text | "0_1.5": the byte after '0' is '_', so the test passes and "01.5" is converted | reject a leading zero in the integer part however it is separated | not executed | Floats.HiddenLeadingZero | Floats.FloatCorrected |
| vendor/github.com/pelletier/go-toml/v2/decode.go:184-211 | the fraction loop only reports "need at least one digit" when it sees a non-digit first | "12:30:45." with nothing after the point: the loop does not run, and the time is accepted with precision 0 | require at least one digit after the fraction point | not executed | Times.DanglingFractionPoint | Times.LocalTimeCorrected |

The parsers that the rest of the model builds on use the corrected versions:
`DateTimes.ParseLocalDateTime` uses `Dates.ParseLocalDate` and
`Times.LocalTimeCorrected`. The as-written twins `Dates.ParseLocalDateAsWritten`,
`Times.LocalTimeAsWritten`, `Floats.FloatAsWritten`,
`DateTimes.ParseLocalDateTimeAsWritten` and `DateTimes.ParseDateTimeAsWritten`
are kept beside them. `Dates.DateVersions`, `Times.TimeVersions`,
`Floats.FloatVersions`, `DateTimes.LocalDateTimeVersions` and
`DateTimes.DateTimeVersions` state exactly which inputs the version as written
accepts and the corrected one rejects; the corrected versions accept nothing
more, and where both accept they give the same result.
