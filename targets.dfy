/** unmarshalInteger in unmarshaler.go: a TOML integer, already parsed into
    a 64-bit value, is stored into a Go target of some integer kind when it
    fits that kind's range, and rejected otherwise. A Go `int` and `uint` are
    taken to be 64 bits wide. */
module Targets {
  import opened Ascii
  import opened Wrappers
  import opened Digits
  import opened Integers

  /** The kind of the Go value an integer is decoded into. `Other` stands
      for every kind that cannot hold an integer. */
  datatype Kind =
    | Int | Int8 | Int16 | Int32 | Int64
    | Uint | Uint8 | Uint16 | Uint32 | Uint64
    | Interface | Other

  /** The range checks of unmarshalInteger, with the constants of Go's math
      package. A value that passes is stored unchanged. */
  function StoreInteger(i: int, kind: Kind): (r: Result<int>)
    requires InInt64(i)
    ensures r.Ok? ==> r.value == i
  {
    match kind
    case Int64 => Ok(i)
    case Int32 => if i < -0x8000_0000 || i > 0x7fff_ffff then Err else Ok(i)
    case Int16 => if i < -0x8000 || i > 0x7fff then Err else Ok(i)
    case Int8 => if i < -0x80 || i > 0x7f then Err else Ok(i)
    case Int => if i < MinInt64 || i > MaxInt64 then Err else Ok(i)
    case Uint64 => if i < 0 then Err else Ok(i)
    case Uint32 => if i < 0 || i > 0xffff_ffff then Err else Ok(i)
    case Uint16 => if i < 0 || i > 0xffff then Err else Ok(i)
    case Uint8 => if i < 0 || i > 0xff then Err else Ok(i)
    case Uint => if i < 0 then Err else Ok(i)
    case Interface => Ok(i)
    case Other => Err
  }

  /** The integer kinds, with their width in bits and their signedness. */
  predicate IsIntegerKind(kind: Kind) {
    kind != Interface && kind != Other
  }

  function Width(kind: Kind): (w: nat)
    requires IsIntegerKind(kind)
    ensures 8 <= w <= 64
  {
    match kind
    case Int8 | Uint8 => 8
    case Int16 | Uint16 => 16
    case Int32 | Uint32 => 32
    case Int | Int64 | Uint | Uint64 => 64
  }

  predicate IsSigned(kind: Kind) {
    kind in {Int, Int8, Int16, Int32, Int64}
  }

  /** The two's-complement range of a kind, from its width alone: signed
      kinds hold -2^(w-1) .. 2^(w-1) - 1, unsigned ones 0 .. 2^w - 1. */
  predicate InRange(i: int, kind: Kind)
    requires IsIntegerKind(kind)
  {
    if IsSigned(kind) then -(Pow(2, Width(kind) - 1) as int) <= i < Pow(2, Width(kind) - 1)
    else 0 <= i < Pow(2, Width(kind))
  }

  /** The powers of two the widths need. */
  lemma PowersOfTwo()
    ensures Pow(2, 7) == 0x80 && Pow(2, 8) == 0x100
    ensures Pow(2, 15) == 0x8000 && Pow(2, 16) == 0x1_0000
    ensures Pow(2, 31) == 0x8000_0000 && Pow(2, 32) == 0x1_0000_0000
    ensures Pow(2, 63) == 0x8000_0000_0000_0000 && Pow(2, 64) == 0x1_0000_0000_0000_0000
  {
    assert Pow(2, 8) == 0x100;
    PowAdd(2, 8, 7);
    PowAdd(2, 8, 8);
    PowAdd(2, 16, 15);
    PowAdd(2, 16, 16);
    PowAdd(2, 32, 31);
    PowAdd(2, 32, 32);
  }

  /** The constants of unmarshalInteger are exactly the width-based ranges:
      an integer kind accepts a 64-bit value iff it is in the kind's range. */
  lemma StoreIntegerInRange(i: int, kind: Kind)
    requires InInt64(i) && IsIntegerKind(kind)
    ensures StoreInteger(i, kind).Ok? <==> InRange(i, kind)
  {
    PowersOfTwo();
  }

  /** An interface target and an int64 target take every value; a kind that
      is not an integer kind takes none. */
  lemma StoreIntegerTotal(i: int)
    requires InInt64(i)
    ensures StoreInteger(i, Int64) == Ok(i) && StoreInteger(i, Interface) == Ok(i)
    ensures StoreInteger(i, Int) == Ok(i)
    ensures StoreInteger(i, Other) == Err
  {
  }

  /** A 64-bit unsigned target rejects exactly the negative values. */
  lemma UnsignedRejectsNegatives(i: int)
    requires InInt64(i)
    ensures StoreInteger(i, Uint64).Ok? <==> i >= 0
    ensures StoreInteger(i, Uint).Ok? <==> i >= 0
  {
  }

  /** A value that fits a kind fits every wider kind of the same signedness,
      and an unsigned value fits the signed kind of twice its width. */
  lemma Widening(i: int, narrow: Kind, wide: Kind)
    requires InInt64(i) && IsIntegerKind(narrow) && IsIntegerKind(wide)
    requires Width(narrow) < Width(wide)
    requires IsSigned(narrow) == IsSigned(wide) || (!IsSigned(narrow) && IsSigned(wide))
    requires StoreInteger(i, narrow).Ok?
    ensures StoreInteger(i, wide) == Ok(i)
  {
    StoreIntegerInRange(i, narrow);
    StoreIntegerInRange(i, wide);
  }

  /** unmarshalInteger for one target: parse, then store. */
  function UnmarshalInteger(b: seq<byte>, kind: Kind): (r: Result<int>)
    requires |b| > 0 && PrefixChecked(b)
    ensures r.Ok? ==> ParseInteger(b) == r
    ensures r.Ok? && IsIntegerKind(kind) ==> InRange(r.value, kind)
  {
    match ParseInteger(b)
    case Err => Err
    case Ok(i) =>
      if IsIntegerKind(kind) then
        StoreIntegerInRange(i, kind);
        StoreInteger(i, kind)
      else StoreInteger(i, kind)
  }

  /** The decimal text of any 64-bit value decodes into an integer kind
      exactly when the value is in the kind's range, and then to that value. */
  lemma DecimalIntoKind(n: int, kind: Kind)
    requires InInt64(n) && IsIntegerKind(kind)
    ensures PrefixChecked(DecimalText(n))
    ensures UnmarshalInteger(DecimalText(n), kind) == if InRange(n, kind) then Ok(n) else Err
  {
    DecimalRoundTrip(n);
    StoreIntegerInRange(n, kind);
  }

  /** 256 is one past the range of a uint8; 255 is the last value in it. */
  lemma ByteOverflow()
    ensures PrefixChecked(DecimalText(256)) && UnmarshalInteger(DecimalText(256), Uint8) == Err
    ensures PrefixChecked(DecimalText(255)) && UnmarshalInteger(DecimalText(255), Uint8) == Ok(255)
  {
    DecimalIntoKind(256, Uint8);
    DecimalIntoKind(255, Uint8);
    PowersOfTwo();
  }
}
