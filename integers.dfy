/** TOML integer literals: parseInteger and the four base parsers of decode.go. */
module Integers {
  import opened Ascii
  import opened Wrappers
  import opened Digits
  import opened Underscores

  /** The scanner only hands over a literal of three or more bytes starting
      with '0' when its second byte is a base prefix; parseInteger panics on
      anything else. */
  predicate PrefixChecked(b: seq<byte>) {
    |b| > 2 && b[0] == Zero ==> b[1] in {'x' as byte, 'b' as byte, 'o' as byte}
  }

  /** parseIntHex, parseIntOct and parseIntBin: drop the two-byte prefix,
      check and remove separators, then convert in the base. */
  function ParseIntPrefixed(b: seq<byte>, base: nat): (r: Result<int>)
    requires |b| > 2 && base in {2, 8, 16}
    ensures r.Ok? ==> InInt64(r.value)
    ensures r.Ok? ==> IntegerUnderscoresValid(b[2..])
    ensures r.Ok? <==> (IntegerUnderscoresValid(b[2..]) && IsSignedNumeral(Unscored(b[2..]), base) &&
      InInt64(SignedValue(Unscored(b[2..]), base)))
    ensures r.Ok? ==> r.value == SignedValue(Unscored(b[2..]), base)
  {
    var body := b[2..];
    if !IntegerUnderscoresValid(body) then Err
    else ParseInt(Unscored(body), base)
  }

  /** The decimal leading-zero rule on separator-free text: after an optional
      sign, a '0' may only stand alone. */
  predicate LeadingZero(c: seq<byte>)
    requires |c| > 0
  {
    var start := if IsSign(c[0]) then 1 else 0;
    |c| > start + 1 && c[start] == Zero
  }

  /** parseIntDec. */
  function ParseIntDec(b: seq<byte>): (r: Result<int>)
    requires |b| > 0
    ensures r.Ok? ==> InInt64(r.value)
    ensures r.Ok? ==> IntegerUnderscoresValid(b) && |Unscored(b)| > 0 && !LeadingZero(Unscored(b))
    ensures r.Ok? <==> (IntegerUnderscoresValid(b) && IsSignedNumeral(Unscored(b), 10) &&
      !LeadingZero(Unscored(b)) && InInt64(SignedValue(Unscored(b), 10)))
    ensures r.Ok? ==> r.value == SignedValue(Unscored(b), 10)
  {
    if !IntegerUnderscoresValid(b) then Err
    else
      UnscoredHead(b);
      var cleaned := Unscored(b);
      if LeadingZero(cleaned) then Err
      else ParseInt(cleaned, 10)
  }

  /** The base a literal's prefix selects: `0x`, `0b` and `0o` give 16, 2
      and 8 (`PrefixChecked` leaves no other prefix), and a literal without
      a prefix is decimal. */
  function LiteralBase(b: seq<byte>): (base: nat)
    ensures base in {2, 8, 10, 16}
  {
    if |b| > 2 && b[0] == Zero then
      if b[1] == 'x' as byte then 16 else if b[1] == 'b' as byte then 2 else 8
    else 10
  }

  /** The text after the prefix, with its separators. */
  function LiteralText(b: seq<byte>): seq<byte>
    requires |b| > 0
  {
    if LiteralBase(b) == 10 then b else b[2..]
  }

  /** A TOML integer: legal separators, an optional sign and at least one
      digit of its base, no leading zero in decimal, and a value that fits
      a signed 64-bit integer. */
  predicate IsIntegerLiteral(b: seq<byte>)
    requires |b| > 0
  {
    var text := LiteralText(b);
    var base := LiteralBase(b);
    |text| > 0 && IntegerUnderscoresValid(text) && IsSignedNumeral(Unscored(text), base) &&
    (base == 10 ==> !LeadingZero(Unscored(text))) &&
    InInt64(SignedValue(Unscored(text), base))
  }

  /** parseInteger: a base prefix selects hexadecimal, binary or octal,
      anything else is decimal. A literal is accepted exactly when it is a
      TOML integer, and its value is that of its digits in its base. */
  function ParseInteger(b: seq<byte>): (r: Result<int>)
    requires |b| > 0 && PrefixChecked(b)
    ensures r.Ok? ==> InInt64(r.value)
    ensures r.Ok? <==> IsIntegerLiteral(b)
    ensures r.Ok? ==> r.value == SignedValue(Unscored(LiteralText(b)), LiteralBase(b))
  {
    if |b| > 2 && b[0] == Zero then
      if b[1] == 'x' as byte then ParseIntPrefixed(b, 16)
      else if b[1] == 'b' as byte then ParseIntPrefixed(b, 2)
      else ParseIntPrefixed(b, 8)
    else ParseIntDec(b)
  }

  /** A prefixed literal `0x`, `0o` or `0b` followed by separator-free digits
      of its base has their value, and is rejected exactly when that value
      does not fit a signed 64-bit integer. */
  lemma PrefixedLiteral(prefix: byte, base: nat, digits: seq<byte>)
    requires (prefix, base) in {('x' as byte, 16), ('o' as byte, 8), ('b' as byte, 2)}
    requires |digits| > 0 && InBase(digits, base)
    ensures var b := [Zero, prefix] + digits;
      PrefixChecked(b) &&
      (ParseInteger(b).Ok? <==> DigitsValue(digits, base) <= MaxInt64) &&
      (ParseInteger(b).Ok? ==> ParseInteger(b).value == DigitsValue(digits, base))
  {
    var b := [Zero, prefix] + digits;
    assert b[2..] == digits;
    assert Underscore !in digits by {
      forall i | 0 <= i < |digits| ensures digits[i] != Underscore {
        assert IsBaseDigit(digits[i], base);
      }
    }
    NoUnderscores(digits);
    assert ParseIntPrefixed(b, base) == ParseInt(digits, base);
    assert ParseInteger(b) == ParseIntPrefixed(b, base);
    ParseIntUnsigned(digits, base);
  }

  /** In decimal a '0' followed by more digits is rejected, with or without a sign. */
  lemma {:induction false} DecimalLeadingZeroRejected(sign: seq<byte>, digits: seq<byte>)
    requires sign in {[], [Plus], [Minus]}
    requires |digits| > 1 && digits[0] == Zero && AllDigits(digits)
    ensures ParseIntDec(sign + digits) == Err
  {
    var b := sign + digits;
    if IntegerUnderscoresValid(b) {
      assert Underscore !in b by {
        forall i | 0 <= i < |b| ensures b[i] != Underscore {
          if i >= |sign| { assert b[i] == digits[i - |sign|]; }
        }
      }
      UnscoredIdentity(b);
      assert b[|sign|] == Zero;
    }
  }

  /** Text without underscores satisfies the separator rules and is its own cleaned form. */
  lemma NoUnderscores(b: seq<byte>)
    requires |b| > 0 && Underscore !in b
    ensures IntegerUnderscoresValid(b) && Unscored(b) == b
  {
    UnscoredIdentity(b);
    assert b[0] in b && b[|b| - 1] in b;
    forall j | 0 < j < |b| ensures NotDoubleAt(b, j) {
      assert b[j] in b;
    }
  }

  /** `0`, `+0` and `-0` are accepted, and all three are zero. */
  lemma ZeroForms(sign: seq<byte>)
    requires sign in {[], [Plus], [Minus]}
    ensures PrefixChecked(sign + [Zero]) && ParseInteger(sign + [Zero]) == Ok(0)
  {
    if sign == [] {
      assert sign + [Zero] == [Zero];
      UnsignedZero();
    } else {
      assert sign == [sign[0]] && IsSign(sign[0]);
      SignedZero(sign[0]);
      assert sign + [Zero] == [sign[0], Zero];
    }
  }

  lemma UnsignedZero()
    ensures ParseIntDec([Zero]) == Ok(0)
  {
    NoUnderscores([Zero]);
    assert [Zero][..0] == [];
    assert DigitsValue([Zero], 10) == 0;
  }

  lemma SignedZero(sign: byte)
    requires IsSign(sign)
    ensures ParseIntDec([sign, Zero]) == Ok(0)
  {
    var b := [sign, Zero];
    assert Underscore !in b;
    NoUnderscores(b);
    assert !LeadingZero(b);
    assert b[1..] == [Zero] && [Zero][..0] == [];
    assert DigitsValue([Zero], 10) == 0;
  }

  /** The canonical decimal text of an integer: a '-' for negatives, then the
      digits without leading zeros. */
  function DecimalText(n: int): (s: seq<byte>)
    ensures |s| > 0
  {
    (if n < 0 then [Minus] else []) + Render(if n < 0 then -n else n, 10)
  }

  /** Rendered digits contain no separator and no sign. */
  lemma RenderedDigits(m: nat)
    ensures var d := Render(m, 10); Underscore !in d && !IsSign(d[0])
  {
    var d := Render(m, 10);
    forall i | 0 <= i < |d| ensures d[i] != Underscore {
      assert IsBaseDigit(d[i], 10);
    }
    assert IsBaseDigit(d[0], 10);
  }

  /** Every int64 value round-trips through its canonical decimal text. */
  lemma DecimalRoundTrip(n: int)
    requires InInt64(n)
    ensures PrefixChecked(DecimalText(n))
    ensures ParseInteger(DecimalText(n)) == Ok(n)
  {
    if n < 0 {
      NegativeRoundTrip(n);
    } else {
      NonNegativeRoundTrip(n);
    }
  }

  lemma NegativeRoundTrip(n: int)
    requires InInt64(n) && n < 0
    ensures PrefixChecked(DecimalText(n))
    ensures ParseIntDec(DecimalText(n)) == Ok(n)
  {
    var digits := Render(-n, 10);
    var b := DecimalText(n);
    assert b == [Minus] + digits;
    RenderedDigits(-n);
    assert Underscore !in b;
    NoUnderscores(b);
    RenderValue(-n, 10);
    assert b[1..] == digits;
    assert !LeadingZero(b);
  }

  lemma NonNegativeRoundTrip(n: int)
    requires InInt64(n) && n >= 0
    ensures PrefixChecked(DecimalText(n))
    ensures ParseIntDec(DecimalText(n)) == Ok(n)
  {
    var b := DecimalText(n);
    assert b == Render(n, 10);
    RenderedDigits(n);
    NoUnderscores(b);
    RenderValue(n, 10);
    assert !LeadingZero(b);
  }

  /** `1_000` is one thousand: separators between digits are dropped. */
  lemma SeparatedDecimal()
    ensures PrefixChecked(Bytes("1_000")) && ParseInteger(Bytes("1_000")) == Ok(1000)
  {
    var one, zeros := ['1' as byte], [Zero, Zero, Zero];
    SeparatedDecimalBytes();
    assert Bytes("1_000") == (one + [Underscore]) + zeros;
    UnscoredConcat(one + [Underscore], zeros);
    UnscoredSnoc(one, Underscore);
    UnscoredIdentity(one);
    UnscoredIdentity(zeros);
    var b := Bytes("1_000");
    assert Unscored(b) == one + zeros;
    OneThousand();
    assert IntegerUnderscoresValid(b) by {
      forall j | 0 < j < |b| ensures NotDoubleAt(b, j) {
      }
    }
    assert !LeadingZero(one + zeros);
    assert one + zeros == ['1' as byte, Zero, Zero, Zero];
    assert Body(one + zeros) == one + zeros;
    assert SignedValue(one + zeros, 10) == 1000;
    assert ParseIntDec(b) == Ok(1000);
    assert ParseInteger(b) == ParseIntDec(b);
  }

  lemma SeparatedDecimalBytes()
    ensures Bytes("1_000") == ['1' as byte, Underscore, Zero, Zero, Zero]
  {
  }

  lemma OneThousand()
    ensures InBase(['1' as byte, Zero, Zero, Zero], 10)
    ensures DigitsValue(['1' as byte, Zero, Zero, Zero], 10) == 1000
  {
    var d1, d2, d3, d4 := ['1' as byte], ['1' as byte, Zero], ['1' as byte, Zero, Zero], ['1' as byte, Zero, Zero, Zero];
    assert d4[..3] == d3 && d3[..2] == d2 && d2[..1] == d1 && d1[..0] == [];
    assert DigitsValue(d1, 10) == 1;
    assert DigitsValue(d2, 10) == 10;
    assert DigitsValue(d3, 10) == 100;
  }

  /** `0xa_f` is 175: the prefix selects base 16 and the separator is dropped. */
  lemma SeparatedHex()
    ensures PrefixChecked(Bytes("0xa_f")) && ParseInteger(Bytes("0xa_f")) == Ok(175)
  {
    var b := Bytes("0xa_f");
    SeparatedHexBytes();
    HexBody();
    assert b[2..] == ['a' as byte, Underscore, 'f' as byte];
    assert ParseInteger(b) == ParseIntPrefixed(b, 16);
  }

  lemma SeparatedHexBytes()
    ensures Bytes("0xa_f") == [Zero, 'x' as byte, 'a' as byte, Underscore, 'f' as byte]
  {
  }

  lemma HexBody()
    ensures ParseIntPrefixed([Zero, 'x' as byte, 'a' as byte, Underscore, 'f' as byte], 16) == Ok(175)
  {
    var a, f := 'a' as byte, 'f' as byte;
    var b := [Zero, 'x' as byte, a, Underscore, f];
    assert b[2..] == ([a] + [Underscore]) + [f];
    UnscoredConcat([a] + [Underscore], [f]);
    UnscoredSnoc([a], Underscore);
    UnscoredIdentity([a]);
    UnscoredIdentity([f]);
    assert Unscored(b[2..]) == [a, f];
    assert [a, f][..1] == [a] && [a][..0] == [];
    assert DigitsValue([a], 16) == 10;
    assert DigitsValue([a, f], 16) == 175;
    assert IntegerUnderscoresValid(b[2..]) by {
      assert NotDoubleAt(b[2..], 1) && NotDoubleAt(b[2..], 2);
    }
  }

  /** `+5` is five: a leading '+' is accepted and changes nothing. */
  lemma PlusSign()
    ensures PrefixChecked([Plus, '5' as byte]) && ParseInteger([Plus, '5' as byte]) == Ok(5)
  {
    var b := [Plus, '5' as byte];
    NoUnderscores(b);
    assert Body(b) == ['5' as byte] && ['5' as byte][..0] == [];
  }
}
