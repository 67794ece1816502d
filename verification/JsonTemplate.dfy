/**
 The JSON template of one row: writing values at nested paths, reading them back, flattening.

 An object is its fields in insertion order. `None` of `Extract` stands for the source's `None`.
 */
module JsonTemplate {
  import opened Wrappers
  import opened PropertyFold

  /** `Token(column, path)` is the string `${column.path}`; `Scalar` is any other non-object value. */
  datatype Json = Obj(fields: Fields) | Token(column: string, path: Path) | Scalar(text: string)

  datatype Fields = Empty | Field(key: string, value: Json, rest: Fields)

  // ----------------------------------------------------------------------- objects

  function Get(f: Fields, key: string): Option<Json> {
    match f
    case Empty => None
    case Field(k, v, rest) => if k == key then Some(v) else Get(rest, key)
  }

  /** `d[key] = value`: in place, or a new last entry. */
  function Put(f: Fields, key: string, value: Json): Fields {
    match f
    case Empty => Field(key, value, Empty)
    case Field(k, v, rest) => if k == key then Field(k, value, rest) else Field(k, v, Put(rest, key, value))
  }

  /** The object under a key, a fresh one if there is none. */
  function Child(f: Fields, key: string): Fields {
    var v := Get(f, key);
    if v.Some? && v.value.Obj? then v.value.fields else Empty
  }

  function SetNested(f: Fields, path: Path, value: Json): Fields
    decreases |path|
  {
    if path == [] then f
    else if |path| == 1 then Put(f, path[0], value)
    else Put(f, path[0], Obj(SetNested(Child(f, path[0]), path[1..], value)))
  }

  function Extract(doc: Json, path: Path): Option<Json>
    decreases |path|
  {
    if path == [] then Some(doc)
    else if doc.Obj? && Get(doc.fields, path[0]).Some? then Extract(Get(doc.fields, path[0]).value, path[1..])
    else None
  }

  /** The loop of `extract_json_path`. */
  method ExtractJsonPath(doc: Json, path: Path) returns (value: Option<Json>)
    ensures value == Extract(doc, path)
  {
    value := Some(doc);
    for i := 0 to |path|
      invariant Extract(doc, path) == if value.Some? then Extract(value.value, path[i..]) else None
    {
      if value.None? || !value.value.Obj? {
        return None;
      }
      assert path[i..][1..] == path[i + 1..] && path[i..][0] == path[i];
      value := Get(value.value.fields, path[i]);
    }
  }

  /** `(path, value)` of every leaf, in field order, paths under `prefix`. */
  function Flatten(f: Fields, prefix: Path): seq<(Path, Json)> {
    match f
    case Empty => []
    case Field(k, v, rest) =>
      (match v
       case Obj(inner) => Flatten(inner, prefix + [k])
       case _ => [(prefix + [k], v)])
      + Flatten(rest, prefix)
  }

  // -------------------------------------------------------- what a write changes

  predicate Comparable(p: Path, q: Path) {
    p <= q || q <= p
  }

  lemma {:induction false} GetOfPut(f: Fields, key: string, value: Json, k: string)
    ensures Get(Put(f, key, value), k) == if k == key then Some(value) else Get(f, k)
    decreases f
  {
    if f.Field? {
      GetOfPut(f.rest, key, value, k);
    }
  }

  /** What is written is what is read. */
  lemma {:induction false} ReadAtWrite(f: Fields, path: Path, value: Json)
    requires path != []
    ensures Extract(Obj(SetNested(f, path, value)), path) == Some(value)
    decreases |path|
  {
    if |path| == 1 {
      GetOfPut(f, path[0], value, path[0]);
    } else {
      var child := Child(f, path[0]);
      ReadAtWrite(child, path[1..], value);
      GetOfPut(f, path[0], Obj(SetNested(child, path[1..], value)), path[0]);
    }
  }

  /** A path incomparable with the written one reads as before. */
  lemma {:induction false} ReadElsewhere(f: Fields, path: Path, value: Json, q: Path)
    requires path != [] && !Comparable(path, q)
    ensures Extract(Obj(SetNested(f, path, value)), q) == Extract(Obj(f), q)
    decreases |path|
  {
    var inner := SetNested(Child(f, path[0]), path[1..], value);
    var written := if |path| == 1 then value else Obj(inner);
    GetOfPut(f, path[0], written, q[0]);
    if q[0] == path[0] {
      assert !Comparable(path[1..], q[1..]) by {
        assert path == [path[0]] + path[1..] && q == [q[0]] + q[1..];
      }
      ReadElsewhere(Child(f, path[0]), path[1..], value, q[1..]);
    }
  }

  /** Above the written path there is an object. */
  lemma {:induction false} ReadAbove(f: Fields, path: Path, value: Json, q: Path)
    requires q < path
    ensures var r := Extract(Obj(SetNested(f, path, value)), q); r.Some? && r.value.Obj?
    decreases |path|
  {
    if q != [] {
      var inner := SetNested(Child(f, path[0]), path[1..], value);
      GetOfPut(f, path[0], Obj(inner), q[0]);
      ReadAbove(Child(f, path[0]), path[1..], value, q[1..]);
    }
  }

  lemma {:induction false} ExtractThrough(doc: Json, p: Path, rest: Path)
    ensures Extract(doc, p + rest)
         == if Extract(doc, p).Some? then Extract(Extract(doc, p).value, rest) else None
    decreases |p|
  {
    if p == [] {
      assert p + rest == rest;
    } else if doc.Obj? && Get(doc.fields, p[0]).Some? {
      assert (p + rest)[1..] == p[1..] + rest;
      ExtractThrough(Get(doc.fields, p[0]).value, p[1..], rest);
    }
  }

  // ----------------------------------------------------------- flattening and reading

  function KeysOf(f: Fields): set<string> {
    match f
    case Empty => {}
    case Field(k, _, rest) => {k} + KeysOf(rest)
  }

  /** No key twice, all the way down. */
  predicate WellFormed(f: Fields) {
    match f
    case Empty => true
    case Field(k, v, rest) => k !in KeysOf(rest) && (v.Obj? ==> WellFormed(v.fields)) && WellFormed(rest)
  }

  lemma {:induction false} GetKeys(f: Fields, key: string)
    ensures Get(f, key).Some? <==> key in KeysOf(f)
    decreases f
  {
    if f.Field? {
      GetKeys(f.rest, key);
    }
  }

  lemma {:induction false} PutWellFormed(f: Fields, key: string, value: Json)
    requires WellFormed(f) && (value.Obj? ==> WellFormed(value.fields))
    ensures WellFormed(Put(f, key, value)) && KeysOf(Put(f, key, value)) == KeysOf(f) + {key}
    decreases f
  {
    if f.Field? {
      PutWellFormed(f.rest, key, value);
    }
  }

  lemma {:induction false} ChildWellFormed(f: Fields, key: string)
    requires WellFormed(f)
    ensures WellFormed(Child(f, key))
    decreases f
  {
    if f.Field? && f.key != key {
      ChildWellFormed(f.rest, key);
    }
  }

  lemma {:induction false} SetNestedWellFormed(f: Fields, path: Path, value: Json)
    requires WellFormed(f) && (value.Obj? ==> WellFormed(value.fields))
    ensures WellFormed(SetNested(f, path, value))
    decreases |path|
  {
    if |path| == 1 {
      PutWellFormed(f, path[0], value);
    } else if path != [] {
      ChildWellFormed(f, path[0]);
      SetNestedWellFormed(Child(f, path[0]), path[1..], value);
      PutWellFormed(f, path[0], Obj(SetNested(Child(f, path[0]), path[1..], value)));
    }
  }

  /** The leaf at `q`, relative to the object. */
  predicate IsLeaf(f: Fields, q: Path, v: Json) {
    q != [] && !v.Obj? && Extract(Obj(f), q) == Some(v)
  }

  lemma LeafOfField(f: Fields, q: Path, v: Json)
    requires f.Field? && WellFormed(f)
    ensures IsLeaf(f, q, v) <==>
      || (q != [] && q[0] == f.key && !f.value.Obj? && q[1..] == [] && v == f.value)
      || (q != [] && q[0] == f.key && f.value.Obj? && IsLeaf(f.value.fields, q[1..], v))
      || IsLeaf(f.rest, q, v)
  {
    if q != [] {
      GetKeys(f.rest, q[0]);
      if q[0] == f.key {
        assert Extract(Obj(f), q) == Extract(f.value, q[1..]);
        assert f.value.Obj? ==> f.value == Obj(f.value.fields);
      } else {
        assert Extract(Obj(f), q) == Extract(Obj(f.rest), q);
      }
    }
  }

  lemma {:induction false} FlattenUnder(f: Fields, prefix: Path, p: Path, v: Json)
    requires WellFormed(f)
    ensures (p, v) in Flatten(f, prefix) <==> prefix <= p && IsLeaf(f, p[|prefix|..], v)
    decreases f
  {
    if f.Field? {
      FlattenUnder(f.rest, prefix, p, v);
      if prefix <= p {
        LeafOfField(f, p[|prefix|..], v);
      }
      var own := prefix + [f.key];
      if f.value.Obj? {
        FlattenUnder(f.value.fields, own, p, v);
      }
      assert own <= p <==> prefix < p && p[|prefix|] == f.key;
      if own <= p {
        assert p[|prefix|..][0] == f.key && p[|prefix|..][1..] == p[|own|..];
      }
      assert p == own <==> own <= p && p[|own|..] == [];
    }
  }

  /** Flattening lists exactly the leaves `extract_json_path` can read, each with its value. */
  lemma FlattenIsExtract(f: Fields, p: Path, v: Json)
    requires WellFormed(f)
    ensures (p, v) in Flatten(f, []) <==> IsLeaf(f, p, v)
  {
    FlattenUnder(f, [], p, v);
    assert p[0..] == p;
  }

  ghost predicate NoPathTwice(items: seq<(Path, Json)>) {
    forall i, j :: 0 <= i < j < |items| ==> items[i].0 != items[j].0
  }

  /** No path is listed twice. */
  lemma {:induction false} FlattenHasNoDuplicates(f: Fields, prefix: Path)
    requires WellFormed(f)
    ensures NoPathTwice(Flatten(f, prefix))
    decreases f
  {
    if f.Field? {
      FlattenHasNoDuplicates(f.rest, prefix);
      var own := prefix + [f.key];
      var head := if f.value.Obj? then Flatten(f.value.fields, own) else [(own, f.value)];
      var tail := Flatten(f.rest, prefix);
      if f.value.Obj? {
        FlattenHasNoDuplicates(f.value.fields, own);
      }
      forall i, j | 0 <= i < |head| && 0 <= j < |tail|
        ensures head[i].0 != tail[j].0
      {
        var (p, v) := tail[j];
        assert (p, v) in tail;
        FlattenUnder(f.rest, prefix, p, v);
        GetKeys(f.rest, p[|prefix|..][0]);
        if f.value.Obj? {
          assert (head[i].0, head[i].1) in head;
          FlattenUnder(f.value.fields, own, head[i].0, head[i].1);
        }
        assert own <= head[i].0;
      }
      assert Flatten(f, prefix) == head + tail;
    }
  }
}
