/** TOML local times: parseLocalTime of decode.go, the partial-time rule of
    section 5.6 of RFC 3339 (HH:MM:SS with an optional fraction of up to
    nine digits). */
module Times {
  import opened Ascii
  import opened Wrappers
  import opened Digits

  const NanosPerSecond: nat := 1_000_000_000

  /** maxFracPrecision: the fraction stops at nanoseconds. */
  const MaxFracPrecision: nat := 9

  datatype LocalTime = LocalTime(hour: nat, minute: nat, second: nat, nanosecond: nat, precision: nat)

  /** The field ranges parseLocalTime enforces, and the bounds its fraction
      arithmetic guarantees. */
  predicate ValidTime(t: LocalTime) {
    t.hour <= 23 && t.minute <= 59 && t.second <= 59 &&
    t.nanosecond < NanosPerSecond && t.precision <= MaxFracPrecision
  }

  /** The scanner only produces time tokens with digits in the six numeric
      positions; parseDecimalDigits relies on it. */
  predicate TimeDigits(b: seq<byte>) {
    |b| >= 8 ==> AllDigits(b[0..2]) && AllDigits(b[3..5]) && AllDigits(b[6..8])
  }

  /** nspow[k]: the factor that turns a k-digit fraction into nanoseconds;
      the entry for no digits is 0. */
  function NsPow(k: nat): (p: nat)
    requires k <= MaxFracPrecision
    ensures k > 0 ==> p == Pow(10, MaxFracPrecision - k)
  {
    PowersOfTen();
    [0, 100_000_000, 10_000_000, 1_000_000, 100_000, 10_000, 1_000, 100, 10, 1][k]
  }

  lemma PowersOfTen()
    ensures Pow(10, 0) == 1 && Pow(10, 1) == 10 && Pow(10, 2) == 100 && Pow(10, 3) == 1_000
    ensures Pow(10, 4) == 10_000 && Pow(10, 5) == 100_000 && Pow(10, 6) == 1_000_000
    ensures Pow(10, 7) == 10_000_000 && Pow(10, 8) == 100_000_000 && Pow(10, 9) == NanosPerSecond
  {
    assert Pow(10, 1) == 10;
    assert Pow(10, 2) == 100;
    assert Pow(10, 3) == 1_000;
    assert Pow(10, 4) == 10_000;
    assert Pow(10, 5) == 100_000;
    assert Pow(10, 6) == 1_000_000;
    assert Pow(10, 7) == 10_000_000;
    assert Pow(10, 8) == 100_000_000;
  }

  /** The number of digits `f` starts with. */
  function LeadingDigits(f: seq<byte>): (k: nat)
    ensures k <= |f| && AllDigits(f[..k])
    ensures k < |f| ==> !IsDigit(f[k])
  {
    if f == [] || !IsDigit(f[0]) then 0
    else
      var k := 1 + LeadingDigits(f[1..]);
      assert f[..k] == [f[0]] + f[1..][..k - 1];
      k
  }

  /** A fraction of k digits scaled to nanoseconds stays below one second. */
  lemma FractionBound(frac: nat, k: nat)
    requires 0 < k <= MaxFracPrecision && frac < Pow(10, k)
    ensures frac * NsPow(k) < NanosPerSecond
  {
    var p := Pow(10, MaxFracPrecision - k);
    PowAdd(10, k, MaxFracPrecision - k);
    PowersOfTen();
    BelowProduct(frac, Pow(10, k), p);
  }

  /** The hour, minute and second checks, shared by both versions. */
  function TimeFields(b: seq<byte>): (r: Result<LocalTime>)
    requires |b| >= 8 && TimeDigits(b)
    ensures r.Ok? ==> b[2] == Colon && b[5] == Colon
    ensures r.Ok? ==> ValidTime(r.value) && r.value.nanosecond == 0 && r.value.precision == 0
  {
    var hour := DecimalValue(b[0..2]);
    var minute := DecimalValue(b[3..5]);
    var second := DecimalValue(b[6..8]);
    if hour > 23 || b[2] != Colon || minute > 59 || b[5] != Colon || second > 59 then Err
    else Ok(LocalTime(hour, minute, second, 0, 0))
  }

  /** The fraction after a '.' at position 8 as written: an empty fraction is
      let through with no digits. */
  function FractionAsWritten(f: seq<byte>): (r: Result<(nat, nat)>)
    ensures r.Ok? ==> r.value.1 <= MaxFracPrecision && r.value.1 == LeadingDigits(f)
    ensures r.Ok? ==> r.value.0 < NanosPerSecond
  {
    var k := LeadingDigits(f);
    if |f| > 0 && k == 0 then Err
    else if k > MaxFracPrecision then Err
    else
      var frac := DecimalValue(f[..k]);
      assert k > 0 ==> frac * NsPow(k) < NanosPerSecond by {
        if k > 0 { FractionBound(frac, k); }
      }
      Ok((frac * NsPow(k), k))
  }

  /** The fraction with at least one digit required. */
  function Fraction(f: seq<byte>): (r: Result<(nat, nat)>)
    ensures r.Ok? ==> 0 < r.value.1 <= MaxFracPrecision && r.value.1 == LeadingDigits(f)
    ensures r.Ok? ==> r.value.0 < NanosPerSecond
    ensures r.Ok? ==> r.value.0 == DecimalValue(f[..r.value.1]) * Pow(10, MaxFracPrecision - r.value.1)
  {
    var k := LeadingDigits(f);
    if k == 0 then Err
    else if k > MaxFracPrecision then Err
    else
      var frac := DecimalValue(f[..k]);
      FractionBound(frac, k);
      Ok((frac * NsPow(k), k))
  }

  /** parseLocalTime as written: the time and the bytes it did not use. */
  function LocalTimeAsWritten(b: seq<byte>): (r: Result<(LocalTime, seq<byte>)>)
    requires TimeDigits(b)
    ensures r.Ok? ==> ValidTime(r.value.0)
  {
    if |b| < 8 then Err
    else match TimeFields(b)
      case Err => Err
      case Ok(t) =>
        if |b| >= 9 && b[8] == Dot then
          match FractionAsWritten(b[9..])
          case Err => Err
          case Ok((ns, k)) => Ok((t.(nanosecond := ns, precision := k), b[9 + k..]))
        else Ok((t, b[8..]))
  }

  /** parseLocalTime with a digit required after the '.'. */
  function LocalTimeCorrected(b: seq<byte>): (r: Result<(LocalTime, seq<byte>)>)
    requires TimeDigits(b)
    ensures r.Ok? ==> ValidTime(r.value.0)
  {
    if |b| < 8 then Err
    else match TimeFields(b)
      case Err => Err
      case Ok(t) =>
        if |b| >= 9 && b[8] == Dot then
          match Fraction(b[9..])
          case Err => Err
          case Ok((ns, k)) => Ok((t.(nanosecond := ns, precision := k), b[9 + k..]))
        else Ok((t, b[8..]))
  }

  /** What the fraction loop knows after `i` bytes. */
  predicate FractionScanned(f: seq<byte>, i: nat, frac: nat, digits: nat) {
    i <= |f| && i <= MaxFracPrecision && digits == i && AllDigits(f[..i]) && frac == DecimalValue(f[..i])
  }

  lemma FractionStep(f: seq<byte>, i: nat, frac: nat, digits: nat)
    requires FractionScanned(f, i, frac, digits) && i < |f| && i < MaxFracPrecision && IsDigit(f[i])
    ensures FractionScanned(f, i + 1, frac * 10 + DigitOf(f[i]), digits + 1)
  {
    assert f[..i + 1][..i] == f[..i];
    DecimalSnoc(f[..i + 1]);
  }

  /** Where the loop stops, the digit run ends. */
  lemma {:induction false} LeadingDigitsAt(f: seq<byte>, i: nat)
    requires i <= |f| && AllDigits(f[..i])
    ensures LeadingDigits(f) >= i
    ensures i == |f| || !IsDigit(f[i]) ==> LeadingDigits(f) == i
  {
    if i > 0 {
      assert IsDigit(f[..i][0]);
      assert f[1..][..i - 1] == f[..i][1..];
      LeadingDigitsAt(f[1..], i - 1);
    }
  }

  /** parseLocalTime (decode.go): the length check, the three fields with their
      bounds and separators, then the fraction loop that accumulates `frac`
      and counts `digits`. */
  method ParseLocalTime(b: seq<byte>) returns (r: Result<(LocalTime, seq<byte>)>)
    requires TimeDigits(b)
    ensures r == LocalTimeAsWritten(b)
  {
    if |b| < 8 {
      return Err;
    }
    var hour := ParseDecimalDigits(b[0..2]);
    if hour > 23 {
      return Err;
    }
    if b[2] != Colon {
      return Err;
    }
    var minute := ParseDecimalDigits(b[3..5]);
    if minute > 59 {
      return Err;
    }
    if b[5] != Colon {
      return Err;
    }
    var second := ParseDecimalDigits(b[6..8]);
    if second > 59 {
      return Err;
    }
    var t := LocalTime(hour, minute, second, 0, 0);
    if |b| >= 9 && b[8] == Dot {
      var fraction := ParseFraction(b[9..]);
      if fraction.Err? {
        return Err;
      }
      var (ns, digits) := fraction.value;
      t := t.(nanosecond := ns, precision := digits);
      return Ok((t, b[9 + digits..]));
    }
    return Ok((t, b[8..]));
  }

  /** The fraction loop of parseLocalTime: digits are accumulated into
      `frac` and counted until a non-digit or the end; no digit at all, or a
      tenth digit, is an error. */
  method ParseFraction(f: seq<byte>) returns (r: Result<(nat, nat)>)
    ensures r == FractionAsWritten(f)
  {
    var frac: nat := 0;
    var digits: nat := 0;
    var i := 0;
    while i < |f|
      invariant FractionScanned(f, i, frac, digits)
    {
      var c := f[i];
      if !IsDigit(c) {
        if i == 0 {
          LeadingDigitsAt(f, 0);
          return Err;
        }
        break;
      }
      if i >= MaxFracPrecision {
        assert f[..i + 1][..i] == f[..i];
        LeadingDigitsAt(f, i + 1);
        return Err;
      }
      FractionStep(f, i, frac, digits);
      frac := frac * 10;
      frac := frac + DigitOf(c);
      digits := digits + 1;
      i := i + 1;
    }
    LeadingDigitsAt(f, i);
    return Ok((frac * NsPow(digits), digits));
  }

  /** The two fraction rules differ on the empty fraction only. */
  lemma FractionVersions(f: seq<byte>)
    ensures FractionAsWritten(f) != Fraction(f) <==> f == []
  {
  }

  /** The two versions of parseLocalTime differ exactly on a valid
      "HH:MM:SS." with nothing after the point. */
  lemma TimeVersions(b: seq<byte>)
    requires TimeDigits(b)
    ensures LocalTimeAsWritten(b) != LocalTimeCorrected(b) <==>
      |b| == 9 && b[8] == Dot && TimeFields(b).Ok?
  {
    if |b| >= 9 && b[8] == Dot {
      FractionVersions(b[9..]);
    }
  }

  /** A time of day with zero-padded fields. */
  function TimeText(hour: nat, minute: nat, second: nat): (s: seq<byte>)
    requires hour < 100 && minute < 100 && second < 100
    ensures |s| == 8 && TimeDigits(s)
  {
    var s := TwoDigitText(hour) + [Colon] + TwoDigitText(minute) + [Colon] + TwoDigitText(second);
    assert s[0..2] == TwoDigitText(hour);
    assert s[3..5] == TwoDigitText(minute);
    assert s[6..8] == TwoDigitText(second);
    s
  }

  /** The fields of a time text read back as the numbers written, with the
      following bytes left alone. */
  lemma TimeTextFields(hour: nat, minute: nat, second: nat, rest: seq<byte>)
    requires hour < 100 && minute < 100 && second < 100
    ensures var b := TimeText(hour, minute, second) + rest;
      && TimeDigits(b)
      && b[2] == Colon && b[5] == Colon
      && DecimalValue(b[0..2]) == hour && DecimalValue(b[3..5]) == minute && DecimalValue(b[6..8]) == second
      && b[8..] == rest
  {
    var t := TimeText(hour, minute, second);
    var b := t + rest;
    assert b[0..2] == TwoDigitText(hour);
    assert b[3..5] == TwoDigitText(minute);
    assert b[6..8] == TwoDigitText(second);
  }

  /** A time without a fraction is accepted exactly when its fields are in
      range, and the bytes after it are handed back. */
  lemma TimeRoundTrip(hour: nat, minute: nat, second: nat, rest: seq<byte>)
    requires hour < 100 && minute < 100 && second < 100
    requires rest == [] || rest[0] != Dot
    ensures LocalTimeCorrected(TimeText(hour, minute, second) + rest) ==
      if hour <= 23 && minute <= 59 && second <= 59
      then Ok((LocalTime(hour, minute, second, 0, 0), rest))
      else Err
  {
    TimeTextFields(hour, minute, second, rest);
  }

  /** The digit run of a fraction followed by a non-digit is the fraction. */
  lemma LeadingDigitsConcat(digits: seq<byte>, rest: seq<byte>)
    requires AllDigits(digits) && (rest == [] || !IsDigit(rest[0]))
    ensures LeadingDigits(digits + rest) == |digits|
    ensures (digits + rest)[..|digits|] == digits
  {
    assert (digits + rest)[..|digits|] == digits;
    LeadingDigitsAt(digits + rest, |digits|);
  }

  /** A fraction of one to nine digits gives its value scaled to
      nanoseconds, records how many digits it had, and hands back the bytes
      after it. */
  lemma FractionRoundTrip(hour: nat, minute: nat, second: nat, digits: seq<byte>, rest: seq<byte>)
    requires hour <= 23 && minute <= 59 && second <= 59
    requires 0 < |digits| <= MaxFracPrecision && AllDigits(digits)
    requires rest == [] || !IsDigit(rest[0])
    ensures var ns := DecimalValue(digits) * Pow(10, MaxFracPrecision - |digits|);
      LocalTimeCorrected(TimeText(hour, minute, second) + [Dot] + digits + rest) ==
      Ok((LocalTime(hour, minute, second, ns, |digits|), rest))
  {
    var t := TimeText(hour, minute, second);
    var b := t + [Dot] + digits + rest;
    SplitFraction(t, digits, rest);
    TimeTextFields(hour, minute, second, [Dot] + digits + rest);
    assert TimeFields(b) == Ok(LocalTime(hour, minute, second, 0, 0));
    FractionOf(digits, rest);
  }

  /** The pieces of `t + "." + digits + rest` for an eight-byte time `t`. */
  lemma SplitFraction(t: seq<byte>, digits: seq<byte>, rest: seq<byte>)
    requires |t| == 8
    ensures var b := t + [Dot] + digits + rest;
      && b == t + ([Dot] + digits + rest)
      && |b| >= 9 && b[8] == Dot && b[9..] == digits + rest && b[9 + |digits|..] == rest
  {
  }

  /** The fraction rule on one to nine digits followed by a non-digit. */
  lemma FractionOf(digits: seq<byte>, rest: seq<byte>)
    requires 0 < |digits| <= MaxFracPrecision && AllDigits(digits)
    requires rest == [] || !IsDigit(rest[0])
    ensures Fraction(digits + rest) ==
      Ok((DecimalValue(digits) * Pow(10, MaxFracPrecision - |digits|), |digits|))
  {
    LeadingDigitsConcat(digits, rest);
  }

  /** A tenth fraction digit is rejected, in both versions. */
  lemma TenthDigitRejected(b: seq<byte>)
    requires TimeDigits(b) && |b| >= 19 && b[8] == Dot && AllDigits(b[9..19])
    ensures LocalTimeAsWritten(b) == Err && LocalTimeCorrected(b) == Err
  {
    var f := b[9..];
    assert f[..10] == b[9..19];
    LeadingDigitsAt(f, 10);
  }

  /** "12:30:45." is accepted as written, with no fraction digits and nothing
      left over; the corrected parser rejects it. */
  lemma DanglingFractionPoint()
    ensures TimeDigits(TimeText(12, 30, 45) + [Dot])
    ensures LocalTimeAsWritten(TimeText(12, 30, 45) + [Dot]) == Ok((LocalTime(12, 30, 45, 0, 0), []))
    ensures LocalTimeCorrected(TimeText(12, 30, 45) + [Dot]) == Err
  {
    TimeTextFields(12, 30, 45, [Dot]);
    var b := TimeText(12, 30, 45) + [Dot];
    assert b[9..] == [];
  }
}
