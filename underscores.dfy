/** Digit separators in TOML numbers: checkAndRemoveUnderscoresIntegers and
    checkAndRemoveUnderscoresFloats of decode.go. */
module Underscores {
  import opened Ascii
  import opened Wrappers

  /** `b` with every underscore removed, the other bytes kept in order. */
  function Unscored(b: seq<byte>): (r: seq<byte>)
    ensures |r| <= |b|
  {
    if b == [] then []
    else Unscored(b[..|b| - 1]) + (if b[|b| - 1] == Underscore then [] else [b[|b| - 1]])
  }

  /** No underscore is left. */
  lemma {:induction false} UnscoredClean(b: seq<byte>)
    ensures Underscore !in Unscored(b)
  {
    if b != [] {
      UnscoredClean(b[..|b| - 1]);
    }
  }

  /** Appending one byte appends it to the result unless it is an underscore. */
  lemma UnscoredSnoc(s: seq<byte>, c: byte)
    ensures Unscored(s + [c]) == Unscored(s) + (if c == Underscore then [] else [c])
  {
    assert (s + [c])[..|s|] == s;
  }

  /** Removal distributes over concatenation. */
  lemma {:induction false} UnscoredConcat(a: seq<byte>, b: seq<byte>)
    ensures Unscored(a + b) == Unscored(a) + Unscored(b)
    decreases |b|
  {
    if b != [] {
      var b' := b[..|b| - 1];
      assert (a + b)[..|a + b| - 1] == a + b';
      UnscoredConcat(a, b');
    } else {
      assert a + b == a;
    }
  }

  /** Input without underscores comes back unchanged. */
  lemma {:induction false} UnscoredIdentity(b: seq<byte>)
    requires Underscore !in b
    ensures Unscored(b) == b
  {
    if b != [] {
      var init := b[..|b| - 1];
      assert Underscore !in init by {
        forall i | 0 <= i < |init| ensures init[i] != Underscore {
          assert init[i] == b[i];
        }
      }
      UnscoredIdentity(init);
      assert init + [b[|b| - 1]] == b;
    }
  }

  /** Every byte other than the underscore keeps its number of occurrences. */
  lemma {:induction false} UnscoredCounts(b: seq<byte>, c: byte)
    requires c != Underscore
    ensures multiset(Unscored(b))[c] == multiset(b)[c]
  {
    if b != [] {
      var init := b[..|b| - 1];
      assert b == init + [b[|b| - 1]];
      UnscoredCounts(init, c);
    }
  }

  /** A first byte that is not an underscore survives as the first byte. */
  lemma UnscoredHead(b: seq<byte>)
    requires |b| > 0 && b[0] != Underscore
    ensures |Unscored(b)| > 0 && Unscored(b)[0] == b[0]
  {
    UnscoredConcat([b[0]], b[1..]);
    assert [b[0]] + b[1..] == b;
    assert Unscored([b[0]]) == [b[0]] by {
      assert [b[0]][..0] == [];
    }
  }

  /** `b[j]` and the byte before it are not both underscores. */
  predicate NotDoubleAt(b: seq<byte>, j: nat)
    requires 0 < j < |b|
  {
    !(b[j - 1] == Underscore && b[j] == Underscore)
  }

  /** The separator rules for integers: no underscore first, none last, and
      never two in a row, so every underscore sits between two other bytes. */
  predicate IntegerUnderscoresValid(b: seq<byte>)
    requires |b| > 0
  {
    && b[0] != Underscore
    && b[|b| - 1] != Underscore
    && forall j :: 0 < j < |b| ==> NotDoubleAt(b, j)
  }

  predicate IsExponentOrDot(c: byte) {
    c == 'e' as byte || c == 'E' as byte || c == Dot
  }

  /** At `b[j]`: an exponent mark or a decimal point is not followed by an
      underscore, and a decimal point is not preceded by one. */
  predicate MarkRuleAt(b: seq<byte>, j: nat)
    requires j < |b|
  {
    && (j + 1 < |b| && IsExponentOrDot(b[j]) ==> b[j + 1] != Underscore)
    && (0 < j && b[j] == Dot ==> b[j - 1] != Underscore)
  }

  /** The separator rules for floats: those of integers, and in addition no
      underscore right after an exponent mark or a decimal point, and none
      right before a decimal point. */
  predicate FloatUnderscoresValid(b: seq<byte>)
    requires |b| > 0
  {
    && IntegerUnderscoresValid(b)
    && forall j :: 0 <= j < |b| ==> MarkRuleAt(b, j)
  }

  /** What the integer loop knows after reading `b[..i]`, past the first underscore. */
  predicate IntegerScanned(b: seq<byte>, i: nat, cleaned: seq<byte>, before: bool)
    requires 0 < i <= |b|
  {
    && cleaned == Unscored(b[..i])
    && (before <==> b[i - 1] != Underscore)
    && forall j :: 0 < j < i ==> NotDoubleAt(b, j)
  }

  lemma IntegerScanStep(b: seq<byte>, i: nat, cleaned: seq<byte>, before: bool)
    requires 0 < i < |b| && IntegerScanned(b, i, cleaned, before)
    requires b[i] == Underscore ==> before
    ensures IntegerScanned(b, i + 1, if b[i] == Underscore then cleaned else cleaned + [b[i]], b[i] != Underscore)
  {
    assert b[..i + 1] == b[..i] + [b[i]];
    UnscoredSnoc(b[..i], b[i]);
    assert NotDoubleAt(b, i);
  }

  /** checkAndRemoveUnderscoresIntegers: a fast scan for the first underscore,
      then a copy that drops underscores and tracks whether the previous byte
      was a digit. */
  method CheckAndRemoveUnderscoresIntegers(b: seq<byte>) returns (r: Result<seq<byte>>)
    requires |b| > 0
    ensures r.Ok? <==> IntegerUnderscoresValid(b)
    ensures r.Ok? ==> r.value == Unscored(b)
  {
    if b[0] == Underscore {
      return Err;
    }
    if b[|b| - 1] == Underscore {
      return Err;
    }
    var i := 0;
    while i < |b| && b[i] != Underscore
      invariant 0 <= i <= |b|
      invariant Underscore !in b[..i]
    {
      i := i + 1;
    }
    if i == |b| {
      assert b[..i] == b;
      UnscoredIdentity(b);
      return Ok(b);
    }
    var before := false;
    var cleaned := b[..i];
    FirstUnderscore(b, i);
    i := i + 1;
    while i < |b|
      invariant 1 < i <= |b|
      invariant IntegerScanned(b, i, cleaned, before)
    {
      var c := b[i];
      if c == Underscore && !before {
        assert !NotDoubleAt(b, i);
        return Err;
      }
      IntegerScanStep(b, i, cleaned, before);
      if c == Underscore {
        before := false;
      } else {
        before := true;
        cleaned := cleaned + [c];
      }
      i := i + 1;
    }
    assert b[..i] == b;
    return Ok(cleaned);
  }

  /** The state of the integer loop just past the first underscore, at `b[i]`. */
  lemma FirstUnderscore(b: seq<byte>, i: nat)
    requires 0 < i < |b| && b[i] == Underscore && Underscore !in b[..i]
    ensures IntegerScanned(b, i + 1, b[..i], false)
  {
    UnscoredIdentity(b[..i]);
    assert b[..i + 1] == b[..i] + [b[i]];
    UnscoredSnoc(b[..i], b[i]);
    forall j | 0 < j <= i ensures NotDoubleAt(b, j) {
      assert b[j - 1] == b[..i][j - 1];
    }
  }

  /** What the float loop knows after reading `b[..i]`. */
  predicate FloatScanned(b: seq<byte>, i: nat, cleaned: seq<byte>, before: bool)
    requires i <= |b|
  {
    && cleaned == Unscored(b[..i])
    && (i > 0 && b[i - 1] == Underscore ==> !before)
    && (i > 0 && b[i - 1] != Underscore && !IsExponentOrDot(b[i - 1]) ==> before)
    && (forall j :: 0 < j < i ==> NotDoubleAt(b, j))
    && (forall j :: 0 <= j < i ==> MarkRuleAt(b, j))
  }

  /** One step of the float loop that does not fail. */
  lemma FloatScanStep(b: seq<byte>, i: nat, cleaned: seq<byte>, before: bool, before': bool)
    requires i < |b| && b[0] != Underscore && FloatScanned(b, i, cleaned, before)
    requires b[i] == Underscore ==> before && !before'
    requires MarkRuleAt(b, i)
    requires b[i] != Underscore && !IsExponentOrDot(b[i]) ==> before'
    ensures FloatScanned(b, i + 1, if b[i] == Underscore then cleaned else cleaned + [b[i]], before')
  {
    assert b[..i + 1] == b[..i] + [b[i]];
    UnscoredSnoc(b[..i], b[i]);
    if i > 0 {
      assert MarkRuleAt(b, i - 1);
      assert NotDoubleAt(b, i);
    }
  }

  /** A failing step of the float loop: an underscore met while `before` is false. */
  lemma FloatScanFails(b: seq<byte>, i: nat, cleaned: seq<byte>, before: bool)
    requires i < |b| && b[0] != Underscore && FloatScanned(b, i, cleaned, before)
    requires b[i] == Underscore && !before
    ensures !FloatUnderscoresValid(b)
  {
    assert MarkRuleAt(b, i - 1);
    assert !NotDoubleAt(b, i);
  }

  /** checkAndRemoveUnderscoresFloats: the same scan, then one pass over the
      whole input that also looks at the neighbours of 'e', 'E' and '.'. */
  method CheckAndRemoveUnderscoresFloats(b: seq<byte>) returns (r: Result<seq<byte>>)
    requires |b| > 0
    ensures r.Ok? <==> FloatUnderscoresValid(b)
    ensures r.Ok? ==> r.value == Unscored(b)
  {
    if b[0] == Underscore {
      return Err;
    }
    if b[|b| - 1] == Underscore {
      return Err;
    }
    var i := 0;
    while i < |b| && b[i] != Underscore
      invariant 0 <= i <= |b|
      invariant Underscore !in b[..i]
    {
      i := i + 1;
    }
    if i == |b| {
      assert b[..i] == b;
      UnscoredIdentity(b);
      return Ok(b);
    }
    var before := false;
    var cleaned := [];
    i := 0;
    while i < |b|
      invariant 0 <= i <= |b|
      invariant FloatScanned(b, i, cleaned, before)
    {
      var c := b[i];
      if c == Underscore {
        if !before {
          FloatScanFails(b, i, cleaned, before);
          return Err;
        }
        FloatScanStep(b, i, cleaned, before, false);
        before := false;
      } else if c == 'e' as byte || c == 'E' as byte {
        if i < |b| - 1 && b[i + 1] == Underscore {
          assert !MarkRuleAt(b, i);
          return Err;
        }
        FloatScanStep(b, i, cleaned, before, before);
        cleaned := cleaned + [c];
      } else if c == Dot {
        if i < |b| - 1 && b[i + 1] == Underscore {
          assert !MarkRuleAt(b, i);
          return Err;
        }
        if i > 0 && b[i - 1] == Underscore {
          assert !MarkRuleAt(b, i);
          return Err;
        }
        FloatScanStep(b, i, cleaned, before, before);
        cleaned := cleaned + [c];
      } else {
        FloatScanStep(b, i, cleaned, before, true);
        before := true;
        cleaned := cleaned + [c];
      }
      i := i + 1;
    }
    assert b[..i] == b;
    return Ok(cleaned);
  }
}
