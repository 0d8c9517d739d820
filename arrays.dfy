/** The filling rule of unmarshalArray in unmarshaler.go: how the elements
    of a TOML array are stored into a Go slice or a fixed-size Go array.
    `decode(target, node)` stands for handleValue decoding one element node
    into a target value, which yields the new value or an error. */
module Arrays {
  import opened Wrappers

  /** The first `n` elements decoded into fresh zero values, in order,
      stopping at the first error. */
  function DecodedPrefix<N, V>(nodes: seq<N>, decode: (V, N) -> Result<V>, zero: V, n: nat): (r: Result<seq<V>>)
    requires n <= |nodes|
    ensures r.Ok? ==> |r.value| == n
    decreases n
  {
    if n == 0 then Ok([])
    else match DecodedPrefix(nodes, decode, zero, n - 1)
      case Err => Err
      case Ok(s) =>
        match decode(zero, nodes[n - 1])
        case Err => Err
        case Ok(v) => Ok(s + [v])
  }

  /** The prefix succeeds exactly when every element decodes, and then it
      holds each element's own decoding. */
  lemma {:induction false} DecodedPrefixElements<N, V>(nodes: seq<N>, decode: (V, N) -> Result<V>, zero: V, n: nat)
    requires n <= |nodes|
    ensures DecodedPrefix(nodes, decode, zero, n).Ok? <==> forall i :: 0 <= i < n ==> decode(zero, nodes[i]).Ok?
    ensures DecodedPrefix(nodes, decode, zero, n).Ok? ==>
      forall i :: 0 <= i < n ==> DecodedPrefix(nodes, decode, zero, n).value[i] == decode(zero, nodes[i]).value
    decreases n
  {
    if n > 0 {
      DecodedPrefixElements(nodes, decode, zero, n - 1);
    }
  }

  /** The slice case: a nil slice is made empty, an existing one has its
      length set to 0, and then every element is decoded into a fresh zero
      value and appended. The old contents play no part in the result. */
  method FillSlice<N, V>(existing: Option<seq<V>>, nodes: seq<N>, decode: (V, N) -> Result<V>, zero: V)
    returns (r: Result<seq<V>>)
    ensures r.Ok? <==> forall i :: 0 <= i < |nodes| ==> decode(zero, nodes[i]).Ok?
    ensures r.Ok? ==> |r.value| == |nodes|
    ensures r.Ok? ==> forall i :: 0 <= i < |nodes| ==> r.value[i] == decode(zero, nodes[i]).value
  {
    var v: seq<V>;
    if existing.None? {
      v := [];
    } else {
      v := existing.value[..0];
    }
    var idx := 0;
    while idx < |nodes|
      invariant idx <= |nodes| && DecodedPrefix(nodes, decode, zero, idx) == Ok(v)
    {
      var elem := decode(zero, nodes[idx]);
      if elem.Err? {
        DecodedPrefixElements(nodes, decode, zero, idx + 1);
        return Err;
      }
      v := v + [elem.value];
      idx := idx + 1;
    }
    DecodedPrefixElements(nodes, decode, zero, |nodes|);
    return Ok(v);
  }

  /** The number of positions of a fixed-size array that a TOML array of
      `count` elements reaches. */
  function Reached(length: nat, count: nat): (k: nat)
    ensures k <= length && k <= count && (k == length || k == count)
  {
    if length < count then length else count
  }

  /** The fixed-size array case: elements are decoded in order into the
      array's own positions; elements past the array's length are dropped
      without being decoded, positions past the TOML array's length keep
      their values, and an error stops the filling at the first element that
      fails. */
  method FillArray<N, V>(a: array<V>, nodes: seq<N>, decode: (V, N) -> Result<V>) returns (r: Result<()>)
    modifies a
    ensures var k := Reached(a.Length, |nodes|);
      r.Ok? <==> forall i :: 0 <= i < k ==> decode(old(a[i]), nodes[i]).Ok?
    ensures r.Ok? ==> var k := Reached(a.Length, |nodes|);
      (forall i :: 0 <= i < k ==> a[i] == decode(old(a[i]), nodes[i]).value) &&
      (forall i :: k <= i < a.Length ==> a[i] == old(a[i]))
    ensures r.Err? ==> exists j ::
      0 <= j < Reached(a.Length, |nodes|) && decode(old(a[j]), nodes[j]).Err? &&
      (forall i :: 0 <= i < j ==> decode(old(a[i]), nodes[i]).Ok? && a[i] == decode(old(a[i]), nodes[i]).value) &&
      (forall i :: j <= i < a.Length ==> a[i] == old(a[i]))
  {
    var idx := 0;
    while idx < |nodes|
      invariant idx <= |nodes| && idx <= a.Length
      invariant forall i :: 0 <= i < idx ==> decode(old(a[i]), nodes[i]).Ok? && a[i] == decode(old(a[i]), nodes[i]).value
      invariant forall i :: idx <= i < a.Length ==> a[i] == old(a[i])
    {
      if idx >= a.Length {
        return Ok(());
      }
      var elem := decode(a[idx], nodes[idx]);
      if elem.Err? {
        return Err;
      }
      a[idx] := elem.value;
      idx := idx + 1;
    }
    return Ok(());
  }
}
