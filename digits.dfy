/** Positional digit strings: the digit loop of parseDecimalDigits and the
    base-N conversion with a signed 64-bit range check that strconv.ParseInt
    performs for the integer parsers of decode.go. */
module Digits {
  import opened Ascii
  import opened Wrappers

  const MinInt64: int := -0x8000_0000_0000_0000
  const MaxInt64: int := 0x7fff_ffff_ffff_ffff

  predicate InInt64(n: int) {
    MinInt64 <= n <= MaxInt64
  }

  function Pow(base: nat, e: nat): (p: nat)
    ensures base > 0 ==> p > 0
  {
    if e == 0 then 1 else Pow(base, e - 1) * base
  }

  /** Exponents add. */
  lemma {:induction false} PowAdd(base: nat, i: nat, j: nat)
    ensures Pow(base, i + j) == Pow(base, i) * Pow(base, j)
    decreases j
  {
    if j > 0 {
      PowAdd(base, i, j - 1);
      assert Pow(base, i + j) == Pow(base, i + j - 1) * base;
      assert Pow(base, j) == Pow(base, j - 1) * base;
      MulAssoc(Pow(base, i), Pow(base, j - 1), base);
    }
  }

  lemma MulAssoc(x: nat, y: nat, z: nat)
    ensures (x * y) * z == x * (y * z)
  {}

  /** The digit value strconv.ParseInt gives a byte: 0-9, then a-z and A-Z as 10-35. */
  function DigitValue(c: byte): (d: Option<nat>)
    ensures d.Some? ==> d.value < 36
    ensures IsDigit(c) <==> d.Some? && d.value < 10
  {
    if IsDigit(c) then Some(DigitOf(c))
    else if 'a' as byte <= c <= 'z' as byte then Some((c - 'a' as byte) as nat + 10)
    else if 'A' as byte <= c <= 'Z' as byte then Some((c - 'A' as byte) as nat + 10)
    else None
  }

  predicate IsBaseDigit(c: byte, base: nat) {
    DigitValue(c).Some? && DigitValue(c).value < base
  }

  predicate InBase(s: seq<byte>, base: nat) {
    forall i :: 0 <= i < |s| ==> IsBaseDigit(s[i], base)
  }

  /** The value of a digit string, most significant digit first. */
  function DigitsValue(s: seq<byte>, base: nat): (v: nat)
    requires InBase(s, base)
    ensures v < Pow(base, |s|)
  {
    if s == [] then 0
    else
      var init := s[..|s| - 1];
      assert InBase(init, base);
      var d := DigitValue(s[|s| - 1]).value;
      StepBound(DigitsValue(init, base), Pow(base, |s| - 1), d, base);
      DigitsValue(init, base) * base + d
  }

  /** Appending a digit below `base` to a value below `p` stays below `p * base`. */
  lemma StepBound(w: nat, p: nat, d: nat, base: nat)
    requires w < p && d < base
    ensures w * base + d < p * base
  {
    calc {
      w * base + d;
    <
      w * base + base;
    ==
      (w + 1) * base;
    <= { MulMono(w + 1, p, base); }
      p * base;
    }
  }

  lemma MulTen(x: nat, p: nat)
    ensures (x * p) * 10 == x * (p * 10)
  {}

  lemma BelowProduct(x: nat, n: nat, p: nat)
    requires x < n && p > 0
    ensures x * p < n * p
  {
    MulMono(x + 1, n, p);
  }

  lemma MulMono(a: nat, b: nat, c: nat)
    requires a <= b
    ensures a * c <= b * c
  {}

  /** The decimal value of a digit-only byte string, as parseDecimalDigits and
      digitsToInt compute it. */
  function DecimalValue(s: seq<byte>): (v: nat)
    requires AllDigits(s)
    ensures v < Pow(10, |s|)
  {
    assert InBase(s, 10);
    DigitsValue(s, 10)
  }

  /** parseDecimalDigits (decode.go): folds the digits into an int, left to right. */
  method ParseDecimalDigits(b: seq<byte>) returns (v: nat)
    requires AllDigits(b)
    ensures v == DecimalValue(b)
    ensures v < Pow(10, |b|)
  {
    v := 0;
    var i := 0;
    while i < |b|
      invariant 0 <= i <= |b|
      invariant AllDigits(b[..i])
      invariant v == DecimalValue(b[..i])
    {
      assert b[..i + 1][..i] == b[..i];
      v := v * 10;
      v := v + DigitOf(b[i]);
      i := i + 1;
    }
    assert b[..i] == b;
  }

  /** The value of a two-digit field such as "09". */
  lemma TwoDigits(s: seq<byte>)
    requires |s| == 2 && AllDigits(s)
    ensures DecimalValue(s) == 10 * DigitOf(s[0]) + DigitOf(s[1])
  {
    assert s[..1][..0] == [];
    assert DecimalValue(s[..1]) == DigitOf(s[0]);
  }

  /** The last digit is the lowest-order one. */
  lemma DecimalSnoc(s: seq<byte>)
    requires |s| > 0 && AllDigits(s)
    ensures AllDigits(s[..|s| - 1])
    ensures DecimalValue(s) == DecimalValue(s[..|s| - 1]) * 10 + DigitOf(s[|s| - 1])
  {
    assert InBase(s, 10);
  }

  /** The value of a concatenation: the left part shifted by the length of
      the right part. */
  lemma {:induction false} DecimalConcat(a: seq<byte>, b: seq<byte>)
    requires AllDigits(a) && AllDigits(b)
    ensures AllDigits(a + b)
    ensures DecimalValue(a + b) == DecimalValue(a) * Pow(10, |b|) + DecimalValue(b)
    decreases |b|
  {
    AllDigitsConcat(a, b);
    if b == [] {
      assert a + b == a;
    } else {
      var b' := b[..|b| - 1];
      assert (a + b)[..|a + b| - 1] == a + b';
      assert (a + b)[|a + b| - 1] == b[|b| - 1];
      DecimalSnoc(a + b);
      DecimalSnoc(b);
      DecimalConcat(a, b');
      ShiftDigit(DecimalValue(a), Pow(10, |b'|), DecimalValue(b'), DigitOf(b[|b| - 1]));
    }
  }

  lemma AllDigitsConcat(a: seq<byte>, b: seq<byte>)
    requires AllDigits(a) && AllDigits(b)
    ensures AllDigits(a + b)
  {
    forall i | 0 <= i < |a + b| ensures IsDigit((a + b)[i]) {
      if i >= |a| { assert (a + b)[i] == b[i - |a|]; }
    }
  }

  /** Appending a digit to the low part of `x * p + y`. */
  lemma ShiftDigit(x: nat, p: nat, y: nat, d: nat)
    ensures (x * p + y) * 10 + d == x * (p * 10) + (y * 10 + d)
  {
    assert (x * p + y) * 10 == (x * p) * 10 + y * 10;
    MulTen(x, p);
  }

  /** A zero-padded two-digit field such as "07". */
  function TwoDigitText(n: nat): (s: seq<byte>)
    requires n < 100
    ensures |s| == 2 && AllDigits(s) && DecimalValue(s) == n
  {
    var s := [(Zero as int + n / 10) as byte, (Zero as int + n % 10) as byte];
    TwoDigits(s);
    s
  }

  /** A zero-padded four-digit field such as "0042". */
  function FourDigitText(n: nat): (s: seq<byte>)
    requires n < 10000
    ensures |s| == 4 && AllDigits(s) && DecimalValue(s) == n
  {
    var hi, lo := TwoDigitText(n / 100), TwoDigitText(n % 100);
    DecimalConcat(hi, lo);
    assert Pow(10, 2) == 100;
    hi + lo
  }

  /** The digits of a numeral, after an optional sign. */
  function Body(s: seq<byte>): (d: seq<byte>)
    requires |s| > 0
    ensures |d| == |s| - (if IsSign(s[0]) then 1 else 0) && d == s[|s| - |d|..]
  {
    if IsSign(s[0]) then s[1..] else s
  }

  /** An optional sign followed by at least one digit of the base. */
  predicate IsSignedNumeral(s: seq<byte>, base: nat) {
    |s| > 0 && |Body(s)| > 0 && InBase(Body(s), base)
  }

  /** The value a signed numeral denotes: its digits, negated after a '-'. */
  function SignedValue(s: seq<byte>, base: nat): int
    requires IsSignedNumeral(s, base)
  {
    var v: int := DigitsValue(Body(s), base);
    if s[0] == Minus then -v else v
  }

  /** strconv.ParseInt(s, base, 64) for a base in 2..36: an optional sign, then
      at least one digit of the base (no prefix, no underscores), and a value
      in the signed 64-bit range. */
  function ParseInt(s: seq<byte>, base: nat): (r: Result<int>)
    requires 2 <= base <= 36
    ensures r.Ok? ==> InInt64(r.value)
    ensures r.Ok? ==> |s| > 0
    ensures r.Ok? && !IsSign(s[0]) ==> InBase(s, base) && r.value == DigitsValue(s, base)
    ensures r.Ok? && IsSign(s[0]) ==>
      |s| > 1 && InBase(s[1..], base) &&
      r.value == (if s[0] == Minus then -1 else 1) * DigitsValue(s[1..], base)
    ensures r.Ok? <==> IsSignedNumeral(s, base) && InInt64(SignedValue(s, base))
    ensures r.Ok? ==> r.value == SignedValue(s, base)
  {
    if s == [] then Err
    else
      var neg := s[0] == Minus;
      var body := if IsSign(s[0]) then s[1..] else s;
      if body == [] || !InBase(body, base) then Err
      else
        var v: int := DigitsValue(body, base);
        var n := if neg then -v else v;
        if InInt64(n) then Ok(n) else Err
  }

  /** A digit string in the base accepts exactly when its value fits int64. */
  lemma ParseIntUnsigned(s: seq<byte>, base: nat)
    requires 2 <= base <= 36
    requires |s| > 0 && InBase(s, base)
    ensures ParseInt(s, base).Ok? <==> DigitsValue(s, base) <= MaxInt64
    ensures ParseInt(s, base).Ok? ==> ParseInt(s, base).value == DigitsValue(s, base)
  {
    assert IsBaseDigit(s[0], base);
  }

  /** The lowest-order digit of a rendering: 0-9 then a-z. */
  function DigitByte(d: nat): (c: byte)
    requires d < 36
    ensures DigitValue(c) == Some(d)
  {
    if d < 10 then (Zero as int + d) as byte else ('a' as int + d - 10) as byte
  }

  /** The canonical rendering of a natural number in a base, without leading zeros. */
  function Render(n: nat, base: nat): (s: seq<byte>)
    requires 2 <= base <= 36
    ensures |s| > 0 && InBase(s, base)
    ensures n > 0 ==> s[0] != Zero
    ensures n == 0 ==> s == [Zero]
    decreases n
  {
    if n < base then [DigitByte(n)]
    else
      DivMod(n, base);
      Render(n / base, base) + [DigitByte(n % base)]
  }

  lemma DivMod(n: nat, base: nat)
    requires base >= 2
    ensures n == (n / base) * base + n % base
    ensures n >= base ==> 0 < n / base < n
  {
    var q := n / base;
    MulMono(2, base, q);
    assert 2 * q <= base * q;
  }

  /** Reading back a rendering gives the number. */
  lemma {:induction false} RenderValue(n: nat, base: nat)
    requires 2 <= base <= 36
    ensures DigitsValue(Render(n, base), base) == n
    decreases n
  {
    if n >= base {
      var s := Render(n, base);
      var q, m := n / base, n % base;
      DivMod(n, base);
      assert s == Render(q, base) + [DigitByte(m)];
      assert s[..|s| - 1] == Render(q, base);
      assert s[|s| - 1] == DigitByte(m);
      RenderValue(q, base);
      assert DigitsValue(s, base) == DigitsValue(s[..|s| - 1], base) * base + m;
      assert n == q * base + m;
    } else {
      var s := Render(n, base);
      assert s[..0] == [];
      assert DigitsValue(s, base) == DigitsValue([], base) * base + n;
    }
  }
}
