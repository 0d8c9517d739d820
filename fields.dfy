/** structField in unmarshaler.go: the names under which a TOML key finds a
    field of a Go struct. The struct type is a tree of fields; the walk
    flattens embedded structs, registers every exported field under its
    `toml` tag (or its Go name when it has none) and under the lower-cased
    form of that name, and a lookup tries the key as given before its
    lower-cased form. Paths are the index sequences FieldByIndex follows. */
module Fields {
  import opened Wrappers

  /** A field of a struct type: an embedded struct, whose fields are walked
      in place of it, or a named field. */
  datatype Field =
    | Embedded(inner: seq<Field>)
    | Named(name: string, tag: Option<string>, exported: bool)

  /** The name a named field is registered under: the whole value of its
      `toml` tag when the tag is present, its Go name otherwise. */
  function Key(f: Field): string
    requires f.Named?
  {
    if f.tag.Some? then f.tag.value else f.name
  }

  /** strings.ToLower on ASCII letters. */
  function LowerChar(c: char): (d: char)
    ensures 'A' <= c <= 'Z' ==> d as int == c as int + 32
    ensures !('A' <= c <= 'Z') ==> d == c
  {
    if 'A' <= c <= 'Z' then (c as int + 32) as char else c
  }

  function Lower(s: string): (t: string)
    ensures |t| == |s|
    ensures forall i :: 0 <= i < |s| ==> t[i] == LowerChar(s[i])
  {
    seq(|s|, i requires 0 <= i < |s| => LowerChar(s[i]))
  }

  /** Lower-casing twice is lower-casing once, and lower-cased text has no
      upper-case letter left. */
  lemma LowerIdempotent(s: string)
    ensures Lower(Lower(s)) == Lower(s)
    ensures forall i :: 0 <= i < |s| ==> !('A' <= Lower(s)[i] <= 'Z')
  {
  }

  /** `q` leads from the fields of a struct to an exported named field
      registered as `key`, through embedded structs only. */
  predicate FieldAt(fields: seq<Field>, q: seq<nat>, key: string)
    decreases fields
  {
    |q| > 0 && q[0] < |fields| &&
    match fields[q[0]]
    case Named(_, _, exported) => |q| == 1 && exported && Key(fields[q[0]]) == key
    case Embedded(inner) => FieldAt(inner, q[1..], key)
  }

  /** The registrations of the walk, in the order it makes them: each entry
      is a name and the path of the field it stands for. `Registered` covers
      the first `n` fields under `prefix`, `RegisteredOne` one field at path
      `p`. */
  function Registered(fields: seq<Field>, prefix: seq<nat>, n: nat): seq<(string, seq<nat>)>
    requires n <= |fields|
    decreases fields, n
  {
    if n == 0 then []
    else Registered(fields, prefix, n - 1) + RegisteredOne(fields[n - 1], prefix + [n - 1])
  }

  function RegisteredOne(f: Field, p: seq<nat>): seq<(string, seq<nat>)>
    decreases f
  {
    match f
    case Embedded(inner) => Registered(inner, p, |inner|)
    case Named(_, _, exported) => if exported then [(Key(f), p)] else []
  }

  /** The map updates of the walk: each registration writes its name and
      then its lower-cased name, later writes replacing earlier ones. */
  function Register(m: map<string, seq<nat>>, entries: seq<(string, seq<nat>)>): (r: map<string, seq<nat>>)
    ensures m.Keys <= r.Keys
    ensures entries != [] ==>
      Lower(entries[|entries| - 1].0) in r && r[Lower(entries[|entries| - 1].0)] == entries[|entries| - 1].1
    decreases |entries|
  {
    if entries == [] then m
    else
      var (name, p) := entries[|entries| - 1];
      Register(m, entries[..|entries| - 1])[name := p][Lower(name) := p]
  }

  /** The field paths of a struct type, as the walk leaves them. */
  function FieldPaths(fields: seq<Field>): map<string, seq<nat>> {
    Register(map[], Registered(fields, [], |fields|))
  }

  /** The two-step lookup: the name as given, then its lower-cased form. */
  function Lookup(paths: map<string, seq<nat>>, name: string): (r: Option<seq<nat>>)
    ensures r.Some? <==> name in paths || Lower(name) in paths
    ensures r.Some? ==> r.value in paths.Values
    ensures name in paths ==> r == Some(paths[name])
  {
    if name in paths then Some(paths[name])
    else if Lower(name) in paths then Some(paths[Lower(name)])
    else None
  }

  /** Registering two batches is registering their concatenation. */
  lemma {:induction false} RegisterConcat(m: map<string, seq<nat>>, a: seq<(string, seq<nat>)>, b: seq<(string, seq<nat>)>)
    ensures Register(m, a + b) == Register(Register(m, a), b)
    decreases |b|
  {
    if b == [] {
      assert a + b == a;
    } else {
      assert (a + b)[..|a + b| - 1] == a + b[..|b| - 1];
      assert (a + b)[|a + b| - 1] == b[|b| - 1];
      RegisterConcat(m, a, b[..|b| - 1]);
    }
  }

  /** Every name in the map comes from the initial map or from an entry,
      as that entry's name or its lower-cased name, with that entry's path;
      and every entry's names are in the map. */
  lemma {:induction false} RegisterSound(m: map<string, seq<nat>>, entries: seq<(string, seq<nat>)>, k: string)
    requires k in Register(m, entries)
    ensures (k in m && Register(m, entries)[k] == m[k]) ||
      exists i :: 0 <= i < |entries| && (k == entries[i].0 || k == Lower(entries[i].0)) &&
        Register(m, entries)[k] == entries[i].1
    decreases |entries|
  {
    if entries != [] {
      var last := |entries| - 1;
      var (name, p) := entries[last];
      if k != name && k != Lower(name) {
        RegisterSound(m, entries[..last], k);
        var r := Register(m, entries[..last]);
        if !(k in m && r[k] == m[k]) {
          var i :| 0 <= i < last && (k == entries[..last][i].0 || k == Lower(entries[..last][i].0)) &&
            r[k] == entries[..last][i].1;
          assert entries[i] == entries[..last][i];
        }
      } else {
        assert k == entries[last].0 || k == Lower(entries[last].0);
      }
    }
  }

  lemma {:induction false} RegisterComplete(m: map<string, seq<nat>>, entries: seq<(string, seq<nat>)>, i: nat)
    requires i < |entries|
    ensures entries[i].0 in Register(m, entries) && Lower(entries[i].0) in Register(m, entries)
    decreases |entries|
  {
    var last := |entries| - 1;
    if i < last {
      assert entries[..last][i] == entries[i];
      RegisterComplete(m, entries[..last], i);
    }
  }

  /** Every registration stands for an exported field whose path starts with
      the prefix, under the field's own name. */
  lemma {:induction false} RegisteredSound(fields: seq<Field>, prefix: seq<nat>, n: nat, i: nat)
    requires n <= |fields| && i < |Registered(fields, prefix, n)|
    ensures var (name, p) := Registered(fields, prefix, n)[i];
      |prefix| < |p| && p[..|prefix|] == prefix && FieldAt(fields, p[|prefix|..], name)
    decreases fields, n
  {
    var before := Registered(fields, prefix, n - 1);
    var f, fp := fields[n - 1], prefix + [n - 1];
    if i < |before| {
      assert Registered(fields, prefix, n)[i] == before[i];
      RegisteredSound(fields, prefix, n - 1, i);
    } else {
      assert Registered(fields, prefix, n)[i] == RegisteredOne(f, fp)[i - |before|];
      RegisteredOneSound(f, fp, i - |before|);
      var (name, p) := RegisteredOne(f, fp)[i - |before|];
      assert p[..|prefix|] == fp[..|prefix|];
      assert p[|prefix|..][0] == n - 1;
      if f.Embedded? {
        assert p[|prefix|..][1..] == p[|fp|..];
      }
    }
  }

  lemma {:induction false} RegisteredOneSound(f: Field, p: seq<nat>, i: nat)
    requires i < |RegisteredOne(f, p)|
    ensures var (name, q) := RegisteredOne(f, p)[i];
      |p| <= |q| && q[..|p|] == p &&
      (if f.Embedded? then FieldAt(f.inner, q[|p|..], name) else q == p && f.exported && name == Key(f))
    decreases f
  {
    if f.Embedded? {
      RegisteredSound(f.inner, p, |f.inner|, i);
    }
  }

  /** Every exported field reachable through embedded structs has a
      registration under its name and its path. */
  lemma {:induction false} RegisteredComplete(fields: seq<Field>, prefix: seq<nat>, n: nat, q: seq<nat>, key: string)
    requires n <= |fields| && FieldAt(fields, q, key) && q[0] < n
    ensures (key, prefix + q) in Registered(fields, prefix, n)
    decreases fields, n
  {
    var f, fp := fields[n - 1], prefix + [n - 1];
    if q[0] < n - 1 {
      RegisteredComplete(fields, prefix, n - 1, q, key);
    } else {
      match f
      case Named(_, _, _) =>
        assert q == [n - 1];
        assert RegisteredOne(f, fp) == [(key, prefix + q)];
      case Embedded(inner) =>
        RegisteredComplete(inner, fp, |inner|, q[1..], key);
        assert fp + q[1..] == prefix + q;
    }
  }

  /** What the walk registers, fresh from an empty map: a name is present
      exactly when it is the name or the lower-cased name of an exported
      field, and it leads to a field registered under that name or its
      lower-cased form. */
  lemma FieldPathsSound(fields: seq<Field>, k: string)
    requires k in FieldPaths(fields)
    ensures exists key :: FieldAt(fields, FieldPaths(fields)[k], key) && (k == key || k == Lower(key))
  {
    var entries := Registered(fields, [], |fields|);
    RegisterSound(map[], entries, k);
    var i :| 0 <= i < |entries| && (k == entries[i].0 || k == Lower(entries[i].0)) &&
      FieldPaths(fields)[k] == entries[i].1;
    RegisteredSound(fields, [], |fields|, i);
    assert entries[i].1[0..] == entries[i].1;
  }

  lemma FieldPathsComplete(fields: seq<Field>, q: seq<nat>, key: string)
    requires FieldAt(fields, q, key)
    ensures key in FieldPaths(fields) && Lower(key) in FieldPaths(fields)
  {
    var entries := Registered(fields, [], |fields|);
    RegisteredComplete(fields, [], |fields|, q, key);
    assert [] + q == q;
    var i :| 0 <= i < |entries| && entries[i] == (key, q);
    RegisterComplete(map[], entries, i);
  }

  /** A lookup only ever finds a field whose name matches the key up to the
      case of ASCII letters. */
  lemma StructFieldSound(fields: seq<Field>, name: string)
    requires Lookup(FieldPaths(fields), name).Some?
    ensures exists key :: FieldAt(fields, Lookup(FieldPaths(fields), name).value, key) && Lower(key) == Lower(name)
  {
    var paths := FieldPaths(fields);
    var k := if name in paths then name else Lower(name);
    FieldPathsSound(fields, k);
    var key :| FieldAt(fields, paths[k], key) && (k == key || k == Lower(key));
    LowerIdempotent(key);
    LowerIdempotent(name);
  }

  /** A key finds some field whenever an exported field is named like it up
      to the case of ASCII letters. */
  lemma StructFieldComplete(fields: seq<Field>, q: seq<nat>, key: string, name: string)
    requires FieldAt(fields, q, key) && Lower(key) == Lower(name)
    ensures Lookup(FieldPaths(fields), name).Some?
  {
    FieldPathsComplete(fields, q, key);
  }

  /** When no two exported fields share a name up to case, a key finds
      exactly the field named like it. */
  lemma StructFieldUnique(fields: seq<Field>, q: seq<nat>, key: string, name: string)
    requires forall q1, k1, q2, k2 :: FieldAt(fields, q1, k1) && FieldAt(fields, q2, k2) && Lower(k1) == Lower(k2) ==> q1 == q2
    requires FieldAt(fields, q, key) && Lower(key) == Lower(name)
    ensures Lookup(FieldPaths(fields), name) == Some(q)
  {
    StructFieldComplete(fields, q, key, name);
    StructFieldSound(fields, name);
  }

  /** A field named "Foo" followed by one named "FOO": the exact name "Foo"
      finds the first, while any other spelling finds the second, which
      overwrote the lower-cased entry "foo". */
  lemma ExactBeforeFolded()
    ensures var fields := [Named("Foo", None, true), Named("FOO", None, true)];
      Lookup(FieldPaths(fields), "Foo") == Some([0]) &&
      Lookup(FieldPaths(fields), "fOo") == Some([1]) &&
      Lookup(FieldPaths(fields), "FOO") == Some([1])
  {
    var fields := [Named("Foo", None, true), Named("FOO", None, true)];
    var root: seq<nat> := [];
    assert root + [0] == [0] && root + [1] == [1];
    assert Registered(fields, [], 1) == [("Foo", [0])];
    assert Registered(fields, [], 2) == [("Foo", [0]), ("FOO", [1])];
    RegisterConcat(map[], [("Foo", [0])], [("FOO", [1])]);
    assert Lower("Foo") == "foo" && Lower("fOo") == "foo" && Lower("FOO") == "foo";
  }

  /** A struct with a tagged field, an unexported field and an embedded
      struct. */
  const Sample: seq<Field> :=
    [Named("Port", Some("listen"), true), Named("secret", None, false), Embedded([Named("Host", None, true)])]

  /** Its field paths: the tag and not the Go name, nothing for the
      unexported field, and the embedded field at its nested path. */
  lemma SamplePaths()
    ensures FieldPaths(Sample) == map["listen" := [0], "Host" := [2, 0], "host" := [2, 0]]
  {
    SampleRegistered();
    var a, b := [("listen", [0])], [("Host", [2, 0])];
    RegisterConcat(map[], a, b);
    assert Lower("listen") == "listen" && Lower("Host") == "host";
    assert a[..0] == [] && b[..0] == [];
    assert |Sample| == 3 && a + b == Registered(Sample, [], 3);
    assert Register(map[], a) == map["listen" := [0]];
    assert Register(map["listen" := [0]], b) == map["listen" := [0], "Host" := [2, 0], "host" := [2, 0]];
  }

  lemma SampleRegistered()
    ensures Registered(Sample, [], 3) == [("listen", [0]), ("Host", [2, 0])]
  {
    var inner := [Named("Host", None, true)];
    var root: seq<nat> := [];
    assert root + [0] == [0] && root + [1] == [1] && root + [2] == [2];
    assert Registered(inner, [2], 0) == [];
    assert [2] + [0] == [2, 0];
    assert Registered(inner, [2], 1) == [("Host", [2, 0])];
    assert RegisteredOne(Sample[2], [2]) == [("Host", [2, 0])];
    assert Registered(Sample, [], 1) == [("listen", [0])];
    assert Registered(Sample, [], 2) == [("listen", [0])];
  }

  /** A tag replaces the Go name, an unexported field is not found, and the
      fields of an embedded struct are found at their nested paths. */
  lemma TagsAndEmbedding()
    ensures Lookup(FieldPaths(Sample), "Port") == None
    ensures Lookup(FieldPaths(Sample), "Listen") == Some([0])
    ensures Lookup(FieldPaths(Sample), "secret") == None
    ensures Lookup(FieldPaths(Sample), "host") == Some([2, 0])
  {
    SamplePaths();
    assert Lower("Port") == "port" && Lower("Listen") == "listen" && Lower("secret") == "secret";
  }

  /** The walk of structField: a path buffer that grows by one index per
      field visited and is cut back afterwards, and the map of field paths
      it fills. */
  class FieldWalker {
    var path: seq<nat>
    var fieldPaths: map<string, seq<nat>>

    constructor ()
      ensures path == [] && fieldPaths == map[]
    {
      path := [];
      fieldPaths := map[];
    }

    /** walk: every field in order; an embedded struct is walked at the
        extended path, an exported field registers a copy of the path under
        its name and its lower-cased name. */
    method Walk(fields: seq<Field>)
      modifies this
      ensures path == old(path)
      ensures fieldPaths == Register(old(fieldPaths), Registered(fields, old(path), |fields|))
      decreases fields
    {
      for i := 0 to |fields|
        invariant path == old(path)
        invariant fieldPaths == Register(old(fieldPaths), Registered(fields, old(path), i))
      {
        var l := |path|;
        path := path + [i];
        var f := fields[i];
        ghost var before := fieldPaths;
        ghost var added := RegisteredOne(f, path);
        assert Registered(fields, old(path), i + 1) == Registered(fields, old(path), i) + added;
        match f {
          case Embedded(inner) =>
            Walk(inner);
          case Named(name, tag, exported) =>
            if exported {
              var fieldName := if tag.Some? then tag.value else name;
              var pathCopy := path;
              fieldPaths := fieldPaths[fieldName := pathCopy];
              fieldPaths := fieldPaths[Lower(fieldName) := pathCopy];
              assert added == [(fieldName, pathCopy)];
              assert added[..0] == [];
            }
        }
        assert fieldPaths == Register(before, added);
        RegisterConcat(old(fieldPaths), Registered(fields, old(path), i), added);
        path := path[..l];
      }
    }
  }

  /** structField: build the field paths of the struct type, then look the
      key up as given and lower-cased. */
  method StructField(fields: seq<Field>, name: string) returns (r: Option<seq<nat>>)
    ensures r == Lookup(FieldPaths(fields), name)
    ensures r.Some? ==> exists key :: FieldAt(fields, r.value, key) && Lower(key) == Lower(name)
  {
    var walker := new FieldWalker();
    walker.Walk(fields);
    var fieldPaths := walker.fieldPaths;
    if name in fieldPaths {
      r := Some(fieldPaths[name]);
    } else if Lower(name) in fieldPaths {
      r := Some(fieldPaths[Lower(name)]);
    } else {
      r := None;
    }
    if r.Some? {
      StructFieldSound(fields, name);
    }
  }
}
