/** Bytes and the ASCII characters the TOML decoder compares them with. */
module Ascii {

  newtype byte = x: int | 0 <= x < 256

  const Underscore: byte := '_' as byte
  const Dot: byte := '.' as byte
  const Plus: byte := '+' as byte
  const Minus: byte := '-' as byte
  const Colon: byte := ':' as byte
  const Zero: byte := '0' as byte
  const Nine: byte := '9' as byte

  predicate IsDigit(c: byte) {
    Zero <= c <= Nine
  }

  predicate IsSign(c: byte) {
    c == Plus || c == Minus
  }

  /** The value of a decimal digit byte. */
  function DigitOf(c: byte): (d: nat)
    requires IsDigit(c)
    ensures d < 10
  {
    (c - Zero) as nat
  }

  /** Every byte of `b` is a decimal digit. */
  predicate AllDigits(b: seq<byte>) {
    forall i :: 0 <= i < |b| ==> IsDigit(b[i])
  }

  /** The bytes of an ASCII string literal, for writing concrete inputs. */
  function Bytes(s: string): (r: seq<byte>)
    requires forall i :: 0 <= i < |s| ==> s[i] as int < 256
    ensures |r| == |s|
    ensures forall i :: 0 <= i < |s| ==> r[i] as int == s[i] as int
  {
    if s == [] then [] else [s[0] as byte] + Bytes(s[1..])
  }
}
