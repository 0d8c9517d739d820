/** The expression loop of the decoder in unmarshaler.go: the one-slot
    expression stash, the skipUntilTable flag, the arrayIndexes counters and
    the dispatch of root expressions to the key-value and table handlers.

    The parser is an abstract sequence of expressions. The reflection-driven
    part of each handler is abstracted to what the loop observes: the result
    of the seen-check, the parts of the key as the Go target resolves them,
    and whether the value could be stored. */
module Decoding {
  import opened Wrappers

  datatype ExprKind = KeyValue | Table | ArrayTable

  /** One part of a key, as the target resolves it: a struct field that may
      be missing, a fixed-size Go array (identified by `id`) that an
      array-table indexes into, or a value that cannot hold the part (a
      decode error). */
  datatype Part = Field(found: bool) | Elem(id: nat, length: nat) | Blocked

  /** A root expression. `seenOk` is the outcome of the seen-check, `valueOk`
      whether the value of a key-value could be stored in its target. */
  datatype Expr = Expr(kind: ExprKind, seenOk: bool, path: seq<Part>, valueOk: bool)

  /** How the decoder disposed of an expression: decoded, missing in the
      target (what strict mode records), or ignored while skipping. */
  datatype Disposition = Decoded | Missing | Ignored

  /** arrayIndex: the counters after the call, and the index returned. */
  function ArrayIndexStep(m: map<nat, int>, shouldAppend: bool, v: nat): (r: (map<nat, int>, int))
    ensures r.0.Keys == m.Keys + {v} && r.0[v] == r.1
    ensures forall u :: u in m && u != v ==> r.0[u] == m[u]
    ensures v in m && !shouldAppend ==> r.0 == m
  {
    if v !in m then (m[v := 0], 0)
    else if shouldAppend then (m[v := m[v] + 1], m[v] + 1)
    else (m, m[v])
  }

  /** The first call for an array records and returns 0, whether or not it
      appends; no other counter changes. */
  lemma ArrayIndexFirst(m: map<nat, int>, shouldAppend: bool, v: nat)
    requires v !in m
    ensures ArrayIndexStep(m, shouldAppend, v).1 == 0
    ensures ArrayIndexStep(m, shouldAppend, v).0 == m[v := 0]
  {
  }

  /** Later calls move to the next slot when appending and stay otherwise;
      the returned index is the one recorded, and no other counter changes. */
  lemma ArrayIndexLater(m: map<nat, int>, shouldAppend: bool, v: nat)
    requires v in m
    ensures var (m', idx) := ArrayIndexStep(m, shouldAppend, v);
      idx == (if shouldAppend then m[v] + 1 else m[v]) &&
      m'.Keys == m.Keys && m'[v] == idx &&
      forall u :: u in m && u != v ==> m'[u] == m[u]
  {
  }

  /** `n` appending calls for one array: the counters after them. */
  function AppendCalls(m: map<nat, int>, v: nat, n: nat): map<nat, int>
    decreases n
  {
    if n == 0 then m else ArrayIndexStep(AppendCalls(m, v, n - 1), true, v).0
  }

  /** Appending calls for a new array hand out 0, 1, 2, ... in turn and leave
      every other counter alone. */
  lemma {:induction false} AppendCallsCount(m: map<nat, int>, v: nat, n: nat)
    requires v !in m
    ensures n > 0 ==> v in AppendCalls(m, v, n) && AppendCalls(m, v, n)[v] == n - 1
    ensures n > 0 ==> ArrayIndexStep(AppendCalls(m, v, n - 1), true, v).1 == n - 1
    ensures forall u :: u != v ==> (u in AppendCalls(m, v, n) <==> u in m)
    ensures forall u :: u in m && u != v ==> AppendCalls(m, v, n)[u] == m[u]
    decreases n
  {
    if n > 0 {
      AppendCallsCount(m, v, n - 1);
    }
  }

  /** The walk over the parts of the key of an expression of `kind`: it
      stops with `true` at a missing field (the caller skips), fails at a
      blocked part, and indexes a fixed-size array only in an array-table key,
      where an index past the end fails and the last part appends. A
      key-value key that runs through an array fails ("unhandled kv part"),
      and so does a table key (the source panics in handleKeyPart). */
  function Walk(m: map<nat, int>, path: seq<Part>, kind: ExprKind): Result<(map<nat, int>, bool)>
    decreases |path|
  {
    if path == [] then Ok((m, false))
    else match path[0]
      case Field(found) => if !found then Ok((m, true)) else Walk(m, path[1..], kind)
      case Blocked => Err
      case Elem(a, length) =>
        if kind != ArrayTable then Err
        else
          var (m', idx) := ArrayIndexStep(m, |path| == 1, a);
          if idx >= length then Err else Walk(m', path[1..], kind)
  }

  /** Outside an array-table key, no array counter is touched. */
  lemma {:induction false} WalkKeepsCounters(m: map<nat, int>, path: seq<Part>, kind: ExprKind)
    requires kind != ArrayTable && Walk(m, path, kind).Ok?
    ensures Walk(m, path, kind).value.0 == m
    decreases |path|
  {
    if path != [] && path[0].Field? && path[0].found {
      WalkKeepsCounters(m, path[1..], kind);
    }
  }

  /** Outside an array-table key, a key that reaches a fixed-size array
      through fields that all resolve is an error. */
  lemma {:induction false} WalkThroughArray(m: map<nat, int>, path: seq<Part>, kind: ExprKind, i: nat)
    requires kind != ArrayTable && i < |path| && path[i].Elem?
    requires forall j :: 0 <= j < i ==> path[j] == Field(true)
    ensures Walk(m, path, kind) == Err
    decreases i
  {
    if i > 0 {
      assert path[0] == Field(true);
      WalkThroughArray(m, path[1..], kind, i - 1);
    }
  }

  /** The decoder state that matters across expressions, in a flat run. */
  datatype RunState = RunState(skip: bool, indexes: map<nat, int>, log: seq<Disposition>, failed: bool)

  const Start: RunState := RunState(false, map[], [], false)

  /** A key-value handled while not skipping: its key is walked; a missing
      field is recorded and the flag cleared again; otherwise the value is
      stored or the decoding fails. */
  function KeyValueStep(s: RunState, e: Expr): RunState {
    match Walk(s.indexes, e.path, KeyValue)
    case Err => s.(failed := true)
    case Ok((m, missing)) =>
      if missing then s.(indexes := m, skip := false, log := s.log + [Missing])
      else if !e.valueOk then s.(indexes := m, failed := true)
      else s.(indexes := m, skip := false, log := s.log + [Decoded])
  }

  /** A table or array-table header: the flag is cleared, then its key is
      walked; a missing field sets the flag so that its key-values are
      skipped. */
  function HeaderStep(s: RunState, e: Expr): RunState {
    var s1 := s.(skip := false);
    match Walk(s1.indexes, e.path, e.kind)
    case Err => s1.(failed := true)
    case Ok((m, missing)) =>
      if missing then s1.(indexes := m, skip := true, log := s.log + [Missing])
      else s1.(indexes := m, log := s.log + [Decoded])
  }

  /** The reference semantics: every expression in order, one at a time, with
      no stash and no nesting of handlers. */
  function Step(s: RunState, e: Expr): (r: RunState)
    ensures s.failed ==> r == s
    ensures r.failed ==> r.log == s.log
    ensures !r.failed ==> |r.log| == |s.log| + 1 && r.log[..|s.log|] == s.log
  {
    if s.failed then s
    else if e.kind == KeyValue && s.skip then s.(log := s.log + [Ignored])
    else if !e.seenOk then s.(failed := true)
    else if e.kind == KeyValue then KeyValueStep(s, e)
    else HeaderStep(s, e)
  }

  function Run(exprs: seq<Expr>, n: nat): (r: RunState)
    requires n <= |exprs|
    ensures !r.failed ==> |r.log| == n
  {
    if n == 0 then Start else Step(Run(exprs, n - 1), exprs[n - 1])
  }

  /** A failure is final. */
  lemma {:induction false} RunFailedPersists(exprs: seq<Expr>, n: nat, m: nat)
    requires n <= m <= |exprs| && Run(exprs, n).failed
    ensures Run(exprs, m).failed
    decreases m - n
  {
    if n < m {
      RunFailedPersists(exprs, n + 1, m);
    }
  }

  /** A step that does not fail adds one disposition and keeps the others. */
  lemma StepAppends(s: RunState, e: Expr)
    requires !Step(s, e).failed
    ensures !s.failed
    ensures |Step(s, e).log| == |s.log| + 1 && Step(s, e).log[..|s.log|] == s.log
  {
  }

  /** Until a failure, every expression adds exactly one disposition, and the
      dispositions of earlier expressions are never rewritten. */
  lemma {:induction false} RunLog(exprs: seq<Expr>, n: nat, m: nat)
    requires n <= m <= |exprs| && !Run(exprs, m).failed
    ensures !Run(exprs, n).failed
    ensures |Run(exprs, m).log| == m
    ensures |Run(exprs, n).log| == n && Run(exprs, m).log[..n] == Run(exprs, n).log
    decreases m
  {
    if m > 0 {
      var prev := Run(exprs, m - 1);
      StepAppends(prev, exprs[m - 1]);
      if n < m {
        RunLog(exprs, n, m - 1);
        assert Run(exprs, m).log[..n] == Run(exprs, m).log[..m - 1][..n];
      } else {
        RunLog(exprs, n - 1, m - 1);
      }
    }
  }

  /** While skipping, a key-value is ignored without the seen-check: its
      outcome does not depend on it, and the flag stays set. */
  lemma SkippedKeyValue(s: RunState, e: Expr, seenOk: bool)
    requires !s.failed && s.skip && e.kind == KeyValue
    ensures Step(s, e) == Step(s, e.(seenOk := seenOk))
    ensures Step(s, e).skip && Step(s, e).log == s.log + [Ignored]
  {
  }

  /** A header that does not fail clears the flag exactly when its own key
      resolves. */
  lemma HeaderClearsSkip(s: RunState, e: Expr)
    requires !s.failed && e.kind != KeyValue && !Step(s, e).failed
    ensures !Step(s, e).skip <==> Step(s, e).log[|s.log|] == Decoded
  {
  }

  /** A key-value processed while not skipping leaves the flag cleared. */
  lemma KeyValueClearsSkip(s: RunState, e: Expr)
    requires !s.failed && !s.skip && e.kind == KeyValue
    ensures !Step(s, e).skip
  {
  }

  /** Once a header's key is missing, the key-values after it are ignored
      one by one, whatever their seen-check would say, until the next header. */
  lemma {:induction false} SkipRun(exprs: seq<Expr>, i: nat, j: nat)
    requires i < j <= |exprs| && !Run(exprs, i + 1).failed && Run(exprs, i + 1).skip
    requires forall k :: i < k < j ==> exprs[k].kind == KeyValue
    ensures !Run(exprs, j).failed && Run(exprs, j).skip
    ensures Run(exprs, j).log == Run(exprs, i + 1).log + seq(j - i - 1, _ => Ignored)
    decreases j
  {
    if j > i + 1 {
      SkipRun(exprs, i, j - 1);
      assert exprs[j - 1].kind == KeyValue;
    }
  }

  /** Array-tables appending into one fixed-size Go array of `length`
      elements: the k-th fills slot k - 1, and the one after the last slot is
      an error instead of a write. */
  lemma {:induction false} FixedArrayTables(exprs: seq<Expr>, id: nat, length: nat, k: nat)
    requires forall i :: 0 <= i < |exprs| ==> exprs[i] == Expr(ArrayTable, true, [Elem(id, length)], true)
    requires k <= |exprs|
    ensures !Run(exprs, k).failed <==> k <= length
    ensures 0 < k <= length ==> Run(exprs, k).indexes == map[id := k - 1]
    ensures k <= length ==> Run(exprs, k).log == seq(k, _ => Decoded)
    decreases k
  {
    if k > 0 {
      FixedArrayTables(exprs, id, length, k - 1);
      var prev := Run(exprs, k - 1);
      var e := exprs[k - 1];
      if k - 1 <= length {
        assert prev.indexes == if k == 1 then map[] else map[id := k - 2];
        var (m', idx) := ArrayIndexStep(prev.indexes, true, id);
        assert idx == k - 1 && m' == map[id := k - 1];
        assert e.path[1..] == [];
        if k <= length {
          assert Walk(prev.indexes, e.path, ArrayTable) == Ok((m', false));
          assert seq(k, _ => Decoded) == seq(k - 1, _ => Decoded) + [Decoded];
        } else {
          assert Walk(prev.indexes, e.path, ArrayTable) == Err;
        }
      } else {
        RunFailedPersists(exprs, k - 1, k);
      }
    }
  }

  /** A key-value whose key runs through a fixed-size array fails the
      decoding, and no counter is recorded for the array. */
  lemma KeyValueIntoArray(exprs: seq<Expr>)
    requires exprs == [Expr(KeyValue, true, [Field(true), Elem(7, 3), Field(true)], true)]
    ensures Run(exprs, 1).failed && Run(exprs, 1).indexes == map[]
  {
    WalkThroughArray(map[], exprs[0].path, KeyValue, 1);
  }

  predicate KeyValuesOnly(s: seq<Expr>) {
    forall i :: 0 <= i < |s| ==> s[i].kind == KeyValue
  }

  lemma KeyValuesOnlySnoc(exprs: seq<Expr>, lo: nat, hi: nat)
    requires lo <= hi < |exprs| && KeyValuesOnly(exprs[lo..hi]) && exprs[hi].kind == KeyValue
    ensures KeyValuesOnly(exprs[lo..hi + 1])
  {
    assert exprs[lo..hi + 1] == exprs[lo..hi] + [exprs[hi]];
  }

  /** The decoder: the expressions the parser will produce, how many it has
      produced, and the decoder's own fields. `log` records the disposition
      of each expression handled. */
  class Decoder {
    const exprs: seq<Expr>
    var pulled: nat
    var stashedExpr: bool
    var skipUntilTable: bool
    var arrayIndexes: map<nat, int>
    var log: seq<Disposition>

    predicate Valid()
      reads this
    {
      pulled <= |exprs| && (stashedExpr ==> pulled > 0)
    }

    /** Expressions fully handled: those pulled, minus the stashed one. */
    function Done(): nat
      reads this
      requires Valid()
    {
      if stashedExpr then pulled - 1 else pulled
    }

    function State(): RunState
      reads this
    {
      RunState(skipUntilTable, arrayIndexes, log, false)
    }

    /** The decoder is where the reference run is after `n` expressions. */
    predicate Synced(n: nat)
      reads this
    {
      n <= |exprs| && State() == Run(exprs, n)
    }

    constructor (exprs: seq<Expr>)
      ensures this.exprs == exprs && Valid()
      ensures pulled == 0 && !stashedExpr && Synced(0)
    {
      this.exprs := exprs;
      pulled := 0;
      stashedExpr := false;
      skipUntilTable := false;
      arrayIndexes := map[];
      log := [];
    }

    /** nextExpr: a stashed expression is handed out again without advancing
      the parser; otherwise the parser moves to its next expression. */
    method NextExpr() returns (more: bool)
      requires Valid()
      modifies this
      ensures Valid() && !stashedExpr
      ensures old(stashedExpr) ==> more && pulled == old(pulled)
      ensures !old(stashedExpr) ==>
        (more <==> old(pulled) < |exprs|) && pulled == old(pulled) + (if more then 1 else 0)
      ensures skipUntilTable == old(skipUntilTable) && arrayIndexes == old(arrayIndexes) && log == old(log)
      ensures more ==> pulled - 1 == old(Done())
      ensures !more ==> pulled == old(Done()) == |exprs|
    {
      if stashedExpr {
        stashedExpr := false;
        return true;
      }
      if pulled < |exprs| {
        pulled := pulled + 1;
        return true;
      }
      return false;
    }

    /** stashExpr: the current expression will be handed out again. */
    method StashExpr()
      requires Valid() && pulled > 0
      modifies this
      ensures Valid() && stashedExpr
      ensures pulled == old(pulled) && skipUntilTable == old(skipUntilTable)
      ensures arrayIndexes == old(arrayIndexes) && log == old(log)
    {
      stashedExpr := true;
    }

    /** arrayIndex. */
    method ArrayIndex(shouldAppend: bool, v: nat) returns (idx: int)
      modifies this
      ensures (arrayIndexes, idx) == ArrayIndexStep(old(arrayIndexes), shouldAppend, v)
      ensures pulled == old(pulled) && stashedExpr == old(stashedExpr)
      ensures skipUntilTable == old(skipUntilTable) && log == old(log)
    {
      var found := v in arrayIndexes;
      if !found {
        idx := 0;
        arrayIndexes := arrayIndexes[v := 0];
      } else if shouldAppend {
        idx := arrayIndexes[v] + 1;
        arrayIndexes := arrayIndexes[v := idx];
      } else {
        idx := arrayIndexes[v];
      }
    }

    /** The key-part handlers (handleKeyPart, handleArrayTableCollection and
      handleArrayTableCollectionLast): one part at a time, a missing field
      sets skipUntilTable and stops, a fixed-size array in an array-table key
      is indexed through arrayIndex and an index past its end is an error,
      and an array in any other key is an error. */
    method WalkKey(path: seq<Part>, kind: ExprKind) returns (r: Result<()>)
      requires !skipUntilTable
      modifies this
      ensures var w := Walk(old(arrayIndexes), path, kind);
        (r.Err? <==> w.Err?) && (r.Ok? ==> arrayIndexes == w.value.0 && skipUntilTable == w.value.1)
      ensures r.Err? ==> !skipUntilTable
      ensures pulled == old(pulled) && stashedExpr == old(stashedExpr) && log == old(log)
      decreases |path|
    {
      if path == [] {
        return Ok(());
      }
      var part := path[0];
      if part.Blocked? {
        return Err;
      }
      if part.Field? {
        if !part.found {
          skipUntilTable := true;
          return Ok(());
        }
      } else {
        if kind != ArrayTable {
          return Err;
        }
        var idx := ArrayIndex(|path| == 1, part.id);
        if idx >= part.length {
          return Err;
        }
      }
      r := WalkKey(path[1..], kind);
    }

    /** A reference run that failed at expression `k` ends failed. */
    lemma FailedAt(k: nat)
      requires k < |exprs| && Run(exprs, k + 1).failed
      ensures Run(exprs, |exprs|).failed
    {
      RunFailedPersists(exprs, k + 1, |exprs|);
    }

    /** handleKeyValue for the current expression, after its seen-check: the
      key is walked and the value stored, and the flag is cleared again
      whatever happened. */
    method HandleKeyValue(e: Expr) returns (r: Result<()>)
      requires Valid() && pulled > 0 && !stashedExpr && Synced(pulled - 1)
      requires !Run(exprs, pulled - 1).failed && !skipUntilTable
      requires e == exprs[pulled - 1] && e.kind == KeyValue && e.seenOk
      modifies this
      ensures Valid() && !skipUntilTable && !stashedExpr && pulled == old(pulled)
      ensures r.Ok? <==> !Run(exprs, pulled).failed
      ensures r.Ok? ==> Synced(pulled)
    {
      r := WalkKey(e.path, KeyValue);
      if r.Err? {
        return Err;
      }
      if skipUntilTable {
        log := log + [Missing];
        skipUntilTable := false;
        return Ok(());
      }
      if !e.valueOk {
        return Err;
      }
      log := log + [Decoded];
      return Ok(());
    }

    /** handleKeyValues: pulls expressions while they are key-values and
      handles each; the first expression of another kind is stashed so that
      the root loop handles it next. */
    method HandleKeyValues() returns (r: Result<()>)
      requires Valid() && !stashedExpr && !skipUntilTable && Synced(pulled) && !Run(exprs, pulled).failed
      modifies this
      ensures Valid() && !skipUntilTable
      ensures r.Err? ==> Run(exprs, |exprs|).failed
      ensures r.Ok? ==> Done() >= old(pulled) && Synced(Done()) && !Run(exprs, Done()).failed
      ensures r.Ok? && stashedExpr ==> exprs[pulled - 1].kind != KeyValue
      ensures r.Ok? && !stashedExpr ==> pulled == |exprs|
      ensures r.Ok? ==> KeyValuesOnly(exprs[old(pulled)..Done()])
    {
      while true
        invariant Valid() && !stashedExpr && !skipUntilTable && pulled >= old(pulled)
        invariant Synced(pulled) && !Run(exprs, pulled).failed
        invariant KeyValuesOnly(exprs[old(pulled)..pulled])
        decreases |exprs| - pulled
      {
        var e := PullKeyValue();
        if e.None? {
          return Ok(());
        }
        KeyValuesOnlySnoc(exprs, old(pulled), pulled - 1);
        r := CheckKeyValue(e.value);
        if r.Err? {
          return Err;
        }
      }
    }

    /** The head of the handleKeyValues loop: the next expression, when it
      is a key-value; otherwise it is stashed (or the parser is done) and
      nothing is handed out. */
    method PullKeyValue() returns (e: Option<Expr>)
      requires Valid() && !stashedExpr
      modifies this
      ensures Valid() && State() == old(State())
      ensures e.Some? ==> !stashedExpr && pulled == old(pulled) + 1 && e.value == exprs[pulled - 1] && e.value.kind == KeyValue
      ensures e.None? ==> Done() == old(pulled)
      ensures e.None? && stashedExpr ==> exprs[pulled - 1].kind != KeyValue
      ensures e.None? && !stashedExpr ==> pulled == |exprs|
    {
      var more := NextExpr();
      if !more {
        return None;
      }
      var next := exprs[pulled - 1];
      if next.kind != KeyValue {
        StashExpr();
        return None;
      }
      return Some(next);
    }

    /** One key-value of handleKeyValues: the seen-check, then
      handleKeyValue. */
    method CheckKeyValue(e: Expr) returns (r: Result<()>)
      requires Valid() && pulled > 0 && !stashedExpr && Synced(pulled - 1)
      requires !Run(exprs, pulled - 1).failed && !skipUntilTable
      requires e == exprs[pulled - 1] && e.kind == KeyValue
      modifies this
      ensures Valid() && !skipUntilTable && !stashedExpr && pulled == old(pulled)
      ensures r.Err? ==> Run(exprs, |exprs|).failed
      ensures r.Ok? ==> Synced(pulled) && !Run(exprs, pulled).failed
    {
      if !e.seenOk {
        FailedAt(pulled - 1);
        return Err;
      }
      r := HandleKeyValue(e);
      if r.Err? {
        FailedAt(pulled - 1);
      }
    }

    /** handleTable and handleArrayTable: the header's key is walked (the last
      part of an array-table key appends) and, when it resolves, the
      key-values that follow are handled under it. */
    method HandleHeader(e: Expr) returns (r: Result<()>)
      requires Valid() && pulled > 0 && !stashedExpr && !Run(exprs, pulled - 1).failed
      requires State() == Run(exprs, pulled - 1).(skip := false)
      requires e == exprs[pulled - 1] && e.kind != KeyValue && e.seenOk
      modifies this
      ensures Valid()
      ensures r.Err? ==> Run(exprs, |exprs|).failed
      ensures r.Ok? ==> Done() >= old(pulled) && !Run(exprs, Done()).failed
      ensures r.Ok? && skipUntilTable ==>
        pulled == old(pulled) && !stashedExpr && RunState(true, arrayIndexes, log + [Missing], false) == Run(exprs, pulled)
      ensures r.Ok? && !skipUntilTable ==> Synced(Done())
    {
      r := WalkKey(e.path, e.kind);
      if r.Err? {
        FailedAt(pulled - 1);
        return Err;
      }
      if skipUntilTable {
        return Ok(());
      }
      log := log + [Decoded];
      r := HandleKeyValues();
    }

    /** handleRootExpression: the seen-check unless a key-value is being
      skipped, then the handler for the kind; a header clears the flag first,
      and a header whose key is missing is recorded as such. */
    method HandleRootExpression() returns (r: Result<()>)
      requires Valid() && pulled > 0 && !stashedExpr && Synced(pulled - 1) && !Run(exprs, pulled - 1).failed
      modifies this
      ensures Valid()
      ensures r.Err? ==> Run(exprs, |exprs|).failed
      ensures r.Ok? ==> Done() >= old(pulled) && Synced(Done()) && !Run(exprs, Done()).failed
    {
      var e := exprs[pulled - 1];
      if !(skipUntilTable && e.kind == KeyValue) {
        if !e.seenOk {
          FailedAt(pulled - 1);
          return Err;
        }
      }
      match e.kind {
      case KeyValue =>
        r := HandleRootKeyValue(e);
      case Table | ArrayTable =>
        r := HandleRootHeader(e);
      }
    }

    /** The key-value arm of handleRootExpression: ignored while skipping,
      handled otherwise. */
    method HandleRootKeyValue(e: Expr) returns (r: Result<()>)
      requires Valid() && pulled > 0 && !stashedExpr && Synced(pulled - 1) && !Run(exprs, pulled - 1).failed
      requires e == exprs[pulled - 1] && e.kind == KeyValue && (skipUntilTable || e.seenOk)
      modifies this
      ensures Valid()
      ensures r.Err? ==> Run(exprs, |exprs|).failed
      ensures r.Ok? ==> Done() >= old(pulled) && Synced(Done()) && !Run(exprs, Done()).failed
    {
      if skipUntilTable {
        log := log + [Ignored];
        return Ok(());
      }
      r := HandleKeyValue(e);
      if r.Err? {
        FailedAt(pulled - 1);
      }
    }

    /** The table and array-table arms of handleRootExpression: the flag is
      cleared, the header handled, and a header whose key is missing is
      recorded as such. */
    method HandleRootHeader(e: Expr) returns (r: Result<()>)
      requires Valid() && pulled > 0 && !stashedExpr && Synced(pulled - 1) && !Run(exprs, pulled - 1).failed
      requires e == exprs[pulled - 1] && e.kind != KeyValue && e.seenOk
      modifies this
      ensures Valid()
      ensures r.Err? ==> Run(exprs, |exprs|).failed
      ensures r.Ok? ==> Done() >= old(pulled) && Synced(Done()) && !Run(exprs, Done()).failed
    {
      skipUntilTable := false;
      r := HandleHeader(e);
      if r.Err? {
        return Err;
      }
      if skipUntilTable {
        log := log + [Missing];
      }
    }

    /** fromParser: the root loop. Every expression is handled exactly once,
      in order, with the disposition the reference run gives it; the
      decoding fails exactly when the reference run does. In strict mode a
      missing key is an error at the end. */
    method FromParser(strict: bool) returns (r: Result<()>)
      requires Valid() && pulled == 0 && !stashedExpr && Synced(0)
      modifies this
      ensures r.Ok? <==> !Run(exprs, |exprs|).failed && !(strict && Missing in Run(exprs, |exprs|).log)
      ensures r.Ok? ==> log == Run(exprs, |exprs|).log && |log| == |exprs|
    {
      var more := NextExpr();
      ghost var handled: nat := 0;
      while more
        invariant Valid() && !stashedExpr
        invariant handled <= |exprs| && Synced(handled) && !Run(exprs, handled).failed
        invariant more ==> pulled == handled + 1
        invariant !more ==> pulled == handled == |exprs|
        decreases |exprs| - handled, more
      {
        r := HandleRootExpression();
        if r.Err? {
          return Err;
        }
        handled := Done();
        more := NextExpr();
      }
      RunLog(exprs, |exprs|, |exprs|);
      if strict && Missing in log {
        return Err;
      }
      return Ok(());
    }
  }
}
