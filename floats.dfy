/** TOML float literals: parseFloat of decode.go, up to the text it hands to
    strconv.ParseFloat. */
module Floats {
  import opened Ascii
  import opened Wrappers
  import opened Underscores

  /** What parseFloat produces: NaN for a signed "nan", otherwise the cleaned
      text that strconv.ParseFloat converts. */
  datatype FloatValue = NaN | Number(text: seq<byte>)

  /** "+nan" or "-nan". */
  predicate IsNaNToken(b: seq<byte>) {
    |b| == 4 && IsSign(b[0]) && b[1] == 'n' as byte && b[2] == 'a' as byte && b[3] == 'n' as byte
  }

  /** The number of decimal points in `c`. */
  function DotCount(c: seq<byte>): (n: nat)
    ensures n <= |c|
  {
    if c == [] then 0 else DotCount(c[..|c| - 1]) + (if c[|c| - 1] == Dot then 1 else 0)
  }

  /** A decimal point at `c[i]` has a digit on both sides. */
  predicate DotBetweenDigits(c: seq<byte>, i: nat)
    requires i < |c|
  {
    c[i] == Dot ==> 0 < i < |c| - 1 && IsDigit(c[i - 1]) && IsDigit(c[i + 1])
  }

  /** The decimal point rules: at most one, and only between two digits
      (so never first and never last). */
  predicate DotsValid(c: seq<byte>) {
    DotCount(c) <= 1 && forall i :: 0 <= i < |c| ==> DotBetweenDigits(c, i)
  }

  /** A valid literal neither starts nor ends with a decimal point. */
  lemma DotsValidEnds(c: seq<byte>)
    requires |c| > 0 && DotsValid(c)
    ensures c[0] != Dot && c[|c| - 1] != Dot
  {
    assert DotBetweenDigits(c, 0);
    assert DotBetweenDigits(c, |c| - 1);
  }

  /** Index of the first byte of the integer part: past an optional sign. */
  function IntStart(c: seq<byte>): (s: nat)
    requires |c| > 0
    ensures s <= 1
  {
    if IsSign(c[0]) then 1 else 0
  }

  /** parseFloat reads `b[start]`, and `b[start + 1]` after a '0'; the scanner
      never hands over a float where either is missing ("+", "0", "-0"). */
  predicate FloatIndexable(b: seq<byte>)
    requires |b| > 0
  {
    var start := IntStart(b);
    start < |b| && (b[start] == Zero ==> start + 1 < |b|)
  }

  /** The leading-zero test as written: on the raw bytes, separators included. */
  predicate RawLeadingZero(b: seq<byte>)
    requires |b| > 0 && FloatIndexable(b)
  {
    var start := IntStart(b);
    b[start] == Zero && IsDigit(b[start + 1])
  }

  /** The leading-zero rule of TOML: the integer part of the cleaned text does
      not start with '0' followed by another digit. */
  predicate CleanLeadingZero(c: seq<byte>)
    requires |c| > 0
  {
    var start := IntStart(c);
    start + 1 < |c| && c[start] == Zero && IsDigit(c[start + 1])
  }

  /** parseFloat as written. */
  function FloatAsWritten(b: seq<byte>): (r: Result<FloatValue>)
    requires |b| > 0 && FloatIndexable(b)
    ensures r == Ok(NaN) <==> IsNaNToken(b)
    ensures r.Ok? && r.value.Number? ==>
      FloatUnderscoresValid(b) && r.value.text == Unscored(b) && DotsValid(r.value.text) && !RawLeadingZero(b)
  {
    if IsNaNToken(b) then Ok(NaN)
    else if !FloatUnderscoresValid(b) then Err
    else
      var cleaned := Unscored(b);
      if !DotsValid(cleaned) || RawLeadingZero(b) then Err
      else Ok(Number(cleaned))
  }

  /** parseFloat with the leading-zero test applied to the cleaned text, so
      that a separator cannot hide a leading zero. */
  function FloatCorrected(b: seq<byte>): (r: Result<FloatValue>)
    requires |b| > 0
    ensures r == Ok(NaN) <==> IsNaNToken(b)
    ensures r.Ok? && r.value.Number? ==>
      && FloatUnderscoresValid(b)
      && r.value.text == Unscored(b)
      && |r.value.text| > 0
      && DotsValid(r.value.text)
      && !CleanLeadingZero(r.value.text)
  {
    if IsNaNToken(b) then Ok(NaN)
    else if !FloatUnderscoresValid(b) then Err
    else
      UnscoredHead(b);
      var cleaned := Unscored(b);
      if !DotsValid(cleaned) || CleanLeadingZero(cleaned) then Err
      else Ok(Number(cleaned))
  }

  /** What the dot loop knows after reading `c[..i]`. */
  predicate DotsScanned(c: seq<byte>, i: nat, seen: bool)
    requires i <= |c|
  {
    && DotCount(c[..i]) <= 1
    && (seen <==> DotCount(c[..i]) == 1)
    && forall j :: 0 <= j < i ==> DotBetweenDigits(c, j)
  }

  lemma DotCountSnoc(c: seq<byte>, i: nat)
    requires i < |c|
    ensures DotCount(c[..i + 1]) == DotCount(c[..i]) + (if c[i] == Dot then 1 else 0)
  {
    assert c[..i + 1][..i] == c[..i];
  }

  /** A prefix never holds more points than the whole. */
  lemma {:induction false} DotCountPrefix(c: seq<byte>, i: nat)
    requires i <= |c|
    ensures DotCount(c[..i]) <= DotCount(c)
    decreases |c| - i
  {
    if i < |c| {
      DotCountSnoc(c, i);
      DotCountPrefix(c, i + 1);
    } else {
      assert c[..i] == c;
    }
  }

  /** parseFloat (decode.go): the NaN token, the separator check, the dot
      checks with a loop that remembers whether a point was already seen, and
      the leading-zero test on the raw bytes. */
  method ParseFloat(b: seq<byte>) returns (r: Result<FloatValue>)
    requires |b| > 0 && FloatIndexable(b)
    ensures r == FloatAsWritten(b)
  {
    if IsNaNToken(b) {
      return Ok(NaN);
    }
    var res := CheckAndRemoveUnderscoresFloats(b);
    if res.Err? {
      return Err;
    }
    var cleaned := res.value;
    UnscoredHead(b);
    var dotsOk := CheckDots(cleaned);
    if !dotsOk {
      return Err;
    }
    var start := 0;
    if b[0] == Plus || b[0] == Minus {
      start := 1;
    }
    if b[start] == Zero && IsDigit(b[start + 1]) {
      return Err;
    }
    return Ok(Number(cleaned));
  }

  /** The decimal-point checks of parseFloat on the cleaned text: not first,
      not last, at most one, and only between two digits. */
  method CheckDots(cleaned: seq<byte>) returns (ok: bool)
    requires |cleaned| > 0
    ensures ok <==> DotsValid(cleaned)
  {
    if cleaned[0] == Dot {
      assert !DotBetweenDigits(cleaned, 0);
      return false;
    }
    if cleaned[|cleaned| - 1] == Dot {
      assert !DotBetweenDigits(cleaned, |cleaned| - 1);
      return false;
    }
    var seen := false;
    var i := 0;
    while i < |cleaned|
      invariant 0 <= i <= |cleaned|
      invariant DotsScanned(cleaned, i, seen)
    {
      var c := cleaned[i];
      DotCountSnoc(cleaned, i);
      if c == Dot {
        if seen {
          DotCountPrefix(cleaned, i + 1);
          return false;
        }
        if !IsDigit(cleaned[i - 1]) {
          assert !DotBetweenDigits(cleaned, i);
          return false;
        }
        if !IsDigit(cleaned[i + 1]) {
          assert !DotBetweenDigits(cleaned, i);
          return false;
        }
        seen := true;
      }
      i := i + 1;
    }
    assert cleaned[..i] == cleaned;
    return true;
  }

  /** The first `k` bytes, free of separators, survive cleaning unchanged. */
  lemma CleanPrefix(b: seq<byte>, k: nat)
    requires k <= |b| && Underscore !in b[..k]
    ensures |Unscored(b)| >= k && Unscored(b)[..k] == b[..k]
  {
    UnscoredIdentity(b[..k]);
    assert b == b[..k] + b[k..];
    UnscoredConcat(b[..k], b[k..]);
  }

  /** A leading zero seen in the raw bytes is still there after cleaning. */
  lemma RawLeadingZeroKept(b: seq<byte>)
    requires |b| > 0 && FloatIndexable(b) && b[0] != Underscore && RawLeadingZero(b)
    ensures |Unscored(b)| > 0 && CleanLeadingZero(Unscored(b))
  {
    var start := IntStart(b);
    var p := b[..start + 2];
    assert Underscore !in p by {
      forall j | 0 <= j < |p| ensures p[j] != Underscore {
        if j == start + 1 {
          assert IsDigit(b[start + 1]);
        } else if j == start {
          assert b[start] == Zero;
        }
      }
    }
    CleanPrefix(b, start + 2);
    var c := Unscored(b);
    assert c[..start + 2][start] == c[start];
    assert c[..start + 2][start + 1] == c[start + 1];
    assert c[0] == b[0];
  }

  /** Every literal the corrected parser accepts is accepted as written, with
      the same result. */
  lemma CorrectedStricter(b: seq<byte>)
    requires |b| > 0 && FloatIndexable(b)
    requires FloatCorrected(b).Ok?
    ensures FloatAsWritten(b) == FloatCorrected(b)
  {
    if !IsNaNToken(b) && RawLeadingZero(b) {
      RawLeadingZeroKept(b);
    }
  }

  /** The two versions differ exactly on a literal that passes every test as
      written but whose cleaned text has a leading zero: the separator right
      after the '0' hid it from the raw-byte test. */
  lemma FloatVersions(b: seq<byte>)
    requires |b| > 0 && FloatIndexable(b)
    ensures FloatAsWritten(b) != FloatCorrected(b) <==>
      (!IsNaNToken(b) && FloatUnderscoresValid(b) && DotsValid(Unscored(b)) && !RawLeadingZero(b) &&
       |Unscored(b)| > 0 && CleanLeadingZero(Unscored(b)))
  {
    if FloatCorrected(b).Ok? {
      CorrectedStricter(b);
    } else if !IsNaNToken(b) && FloatUnderscoresValid(b) {
      UnscoredHead(b);
    }
  }

  /** "0_1.5" passes the leading-zero test as written, because the byte after
      the '0' is the separator, and decodes as the text "01.5". The corrected
      parser rejects it. */
  lemma HiddenLeadingZero()
    ensures FloatIndexable(Bytes("0_1.5"))
    ensures FloatAsWritten(Bytes("0_1.5")) == Ok(Number(Bytes("01.5")))
    ensures FloatCorrected(Bytes("0_1.5")) == Err
  {
    HiddenLeadingZeroBytes();
    var b := [Zero, Underscore, '1' as byte, Dot, '5' as byte];
    var c := [Zero, '1' as byte, Dot, '5' as byte];
    HiddenLeadingZeroCleaned();
    HiddenLeadingZeroDots();
    assert !IsNaNToken(b);
    assert !RawLeadingZero(b);
    assert CleanLeadingZero(c);
  }

  lemma HiddenLeadingZeroBytes()
    ensures Bytes("0_1.5") == [Zero, Underscore, '1' as byte, Dot, '5' as byte]
    ensures Bytes("01.5") == [Zero, '1' as byte, Dot, '5' as byte]
  {
  }

  /** "0_1.5" satisfies the separator rules and cleans to "01.5". */
  lemma HiddenLeadingZeroCleaned()
    ensures var b := [Zero, Underscore, '1' as byte, Dot, '5' as byte];
      FloatUnderscoresValid(b) && Unscored(b) == [Zero, '1' as byte, Dot, '5' as byte]
  {
    HiddenLeadingZeroSeparators();
    var b := [Zero, Underscore, '1' as byte, Dot, '5' as byte];
    assert b == [Zero, Underscore] + b[2..];
    UnscoredConcat([Zero, Underscore], b[2..]);
    assert [Zero, Underscore] == [Zero] + [Underscore];
    UnscoredSnoc([Zero], Underscore);
    assert Unscored([Zero]) == [Zero] by { assert [Zero][..0] == []; }
    assert b[2..] == ['1' as byte, Dot, '5' as byte];
    UnscoredIdentity(b[2..]);
  }

  /** The one underscore of "0_1.5" sits between two digits. */
  lemma HiddenLeadingZeroSeparators()
    ensures FloatUnderscoresValid([Zero, Underscore, '1' as byte, Dot, '5' as byte])
  {
    var b := [Zero, Underscore, '1' as byte, Dot, '5' as byte];
    assert NotDoubleAt(b, 1) && NotDoubleAt(b, 2) && NotDoubleAt(b, 3) && NotDoubleAt(b, 4);
    assert MarkRuleAt(b, 0) && MarkRuleAt(b, 1) && MarkRuleAt(b, 2) && MarkRuleAt(b, 3) && MarkRuleAt(b, 4);
  }

  /** "01.5" has one decimal point, between two digits. */
  lemma HiddenLeadingZeroDots()
    ensures DotsValid([Zero, '1' as byte, Dot, '5' as byte])
  {
    var c := [Zero, '1' as byte, Dot, '5' as byte];
    assert c[..0] == [] && c[..4] == c;
    DotCountSnoc(c, 0);
    DotCountSnoc(c, 1);
    DotCountSnoc(c, 2);
    DotCountSnoc(c, 3);
    assert DotBetweenDigits(c, 0) && DotBetweenDigits(c, 1) && DotBetweenDigits(c, 2) && DotBetweenDigits(c, 3);
  }

  /** A literal without separators and without a leading zero decodes the
      same way in both versions, keeping its bytes as the text. */
  lemma SeparatorFreeAgree(b: seq<byte>)
    requires |b| > 0 && FloatIndexable(b) && Underscore !in b && !IsNaNToken(b)
    requires DotsValid(b) && !RawLeadingZero(b)
    ensures FloatAsWritten(b) == Ok(Number(b))
    ensures FloatCorrected(b) == Ok(Number(b))
  {
    UnscoredIdentity(b);
    assert b[0] in b && b[|b| - 1] in b;
    forall j | 0 < j < |b| ensures NotDoubleAt(b, j) {
      assert b[j] in b;
    }
    forall j | 0 <= j < |b| ensures MarkRuleAt(b, j) {
      if j + 1 < |b| { assert b[j + 1] in b; }
      if 0 < j { assert b[j - 1] in b; }
    }
  }
}
