/** Rows, values, errors and group keys shared by every operation of the dataflow engine
    (the row types of compgraph/operations/base.py and the key functions the operations
    build with `[x.get(k) for k in keys]`). */
module Rows {

  /** A field value. Python's int and float both become `Num`: they compare and hash alike
      (`1 == 1.0`), and the model keeps their exact value. `Null` is Python's None, which is
      also what `x.get(k)` yields for a missing field. */
  datatype Value = Null | Num(x: real) | Str(s: string)

  /** The Python exceptions the core can raise. */
  datatype Error = KeyError(key: string) | TypeError | IndexError | AttributeError

  /** The outcome of consuming a stream to its end: the rows, or the exception that aborted it. */
  datatype Result<+T> = Ok(value: T) | Err(error: Error)
  {
    predicate IsFailure() { Err? }

    function PropagateFailure<U>(): Result<U>
      requires Err?
    {
      Err(error)
    }

    function Extract(): T
      requires Ok?
    {
      value
    }
  }

  /** An optional argument (Python's `None` default). */
  datatype Option<+T> = None | Some(value: T)

  /** A Python dict: the field names in insertion order and the value of each field. */
  datatype Dict = Dict(names: seq<string>, fields: map<string, Value>)
  {
    ghost predicate WellFormed()
    {
      && (forall i, j :: 0 <= i < j < |names| ==> names[i] != names[j])
      && (forall k :: k in fields <==> k in names)
    }
  }

  /** A row: a well-formed dict (every field listed once, in insertion order). */
  type Row = d: Dict | d.WellFormed() witness Dict([], map[])

  const EmptyRow: Row := Dict([], map[])

  /** `row.get(k)`: the value, or None when the field is missing. */
  function Get(r: Row, k: string): Value
  {
    if k in r.fields then r.fields[k] else Null
  }

  /** `row[k]`: the value, or a KeyError when the field is missing. */
  function Field(r: Row, k: string): (v: Result<Value>)
    ensures v.Ok? <==> k in r.fields
    ensures v.Ok? ==> v.value == r.fields[k]
    ensures v.Err? ==> v.error == KeyError(k)
  {
    if k in r.fields then Ok(r.fields[k]) else Err(KeyError(k))
  }

  /** `row[k] = v`: an existing field keeps its place, a new one is appended. */
  function Set(r: Row, k: string, v: Value): (r': Row)
    ensures r'.fields == r.fields[k := v]
    ensures k in r.fields ==> r'.names == r.names
    ensures k !in r.fields ==> r'.names == r.names + [k]
  {
    if k in r.fields then Dict(r.names, r.fields[k := v])
    else Dict(r.names + [k], r.fields[k := v])
  }

  /** The names list without `k`. */
  function Without(names: seq<string>, k: string): (r: seq<string>)
    ensures forall x :: x in r <==> x in names && x != k
    ensures (forall i, j :: 0 <= i < j < |names| ==> names[i] != names[j]) ==>
              (forall i, j :: 0 <= i < j < |r| ==> r[i] != r[j])
  {
    if names == [] then []
    else if names[0] == k then Without(names[1..], k)
    else
      var rest := Without(names[1..], k);
      assert (forall i, j :: 0 <= i < j < |names| ==> names[i] != names[j]) ==> names[0] !in names[1..];
      [names[0]] + rest
  }

  /** `row.pop(k)` for a field that is present (the value is discarded). */
  function Pop(r: Row, k: string): (r': Row)
    ensures r'.fields == r.fields - {k}
  {
    Dict(Without(r.names, k), r.fields - {k})
  }

  /** The group key of a row: `[x.get(k) for k in keys]`. */
  function KeyOf(r: Row, keys: seq<string>): (key: seq<Value>)
    ensures |key| == |keys|
    ensures forall i :: 0 <= i < |keys| ==> key[i] == Get(r, keys[i])
  {
    seq(|keys|, i requires 0 <= i < |keys| => Get(r, keys[i]))
  }

  /** `{c: row[c] for c in cols}`: a new dict holding the listed fields in the listed order;
      the first missing field raises a KeyError. */
  function Pick(r: Row, cols: seq<string>): (p: Result<Row>)
    ensures p.Ok? <==> forall c :: c in cols ==> c in r.fields
    ensures p.Ok? ==> p.value.fields.Keys == set c | c in cols
    ensures p.Ok? ==> forall c :: c in cols ==> p.value.fields[c] == r.fields[c]
    ensures p.Err? ==> exists i :: 0 <= i < |cols| && cols[i] !in r.fields
                                    && p.error == KeyError(cols[i])
                                    && forall j :: 0 <= j < i ==> cols[j] in r.fields
  {
    if cols == [] then Ok(EmptyRow)
    else
      var init := cols[..|cols| - 1];
      var c := cols[|cols| - 1];
      var p :- Pick(r, init);
      var v :- Field(r, c);
      Ok(Set(p, c, v))
  }

  /** With distinct columns, the picked dict lists its fields in the order of `cols`. */
  lemma {:induction false} PickNames(r: Row, cols: seq<string>)
    requires forall i, j :: 0 <= i < j < |cols| ==> cols[i] != cols[j]
    ensures Pick(r, cols).Ok? ==> Pick(r, cols).value.names == cols
  {
    if cols != [] && Pick(r, cols).Ok? {
      var init := cols[..|cols| - 1];
      PickNames(r, init);
      assert cols[|cols| - 1] !in init;
      assert init + [cols[|cols| - 1]] == cols;
    }
  }

  /** The key of the leading names is the leading part of the key. */
  lemma KeyOfInit(r: Row, cols: seq<string>)
    requires cols != []
    ensures KeyOf(r, cols[..|cols| - 1]) == KeyOf(r, cols)[..|cols| - 1]
  {
  }

  /** Two rows with the same key list over `cols` pick the same dict when both picks succeed. */
  lemma {:induction false} PickSame(r1: Row, r2: Row, cols: seq<string>)
    requires KeyOf(r1, cols) == KeyOf(r2, cols)
    requires Pick(r1, cols).Ok? && Pick(r2, cols).Ok?
    ensures Pick(r1, cols) == Pick(r2, cols)
  {
    if cols != [] {
      var init, c := cols[..|cols| - 1], cols[|cols| - 1];
      KeyOfInit(r1, cols);
      KeyOfInit(r2, cols);
      PickSame(r1, r2, init);
      assert Get(r1, c) == KeyOf(r1, cols)[|cols| - 1];
      assert Get(r2, c) == KeyOf(r2, cols)[|cols| - 1];
    }
  }

  /** Concatenation of a sequence of row sequences. */
  function Concat(ss: seq<seq<Row>>): (r: seq<Row>)
  {
    if ss == [] then [] else ss[0] + Concat(ss[1..])
  }

  lemma {:induction false} ConcatAppend(ss: seq<seq<Row>>, ts: seq<seq<Row>>)
    ensures Concat(ss + ts) == Concat(ss) + Concat(ts)
  {
    if ss == [] {
      assert ss + ts == ts;
    } else {
      assert (ss + ts)[1..] == ss[1..] + ts;
      ConcatAppend(ss[1..], ts);
    }
  }

  /** Every element handed to `f`, the outputs concatenated in order; the first failure aborts. */
  function FlatMap<T, U>(f: T -> Result<seq<U>>, rows: seq<T>): Result<seq<U>>
  {
    if rows == [] then Ok([])
    else
      var init :- FlatMap(f, rows[..|rows| - 1]);
      var last :- f(rows[|rows| - 1]);
      Ok(init + last)
  }

  /** One more row on the prefix: its output is appended, or its failure becomes the result. */
  lemma FlatMapStep<T, U>(f: T -> Result<seq<U>>, rows: seq<T>, i: nat)
    requires i < |rows|
    ensures FlatMap(f, rows[..i + 1]) ==
              if FlatMap(f, rows[..i]).Err? then FlatMap(f, rows[..i])
              else if f(rows[i]).Err? then Err(f(rows[i]).error)
              else Ok(FlatMap(f, rows[..i]).value + f(rows[i]).value)
  {
    assert rows[..i + 1][..i] == rows[..i];
  }

  /** Once `f` fails on a prefix of the rows, the whole stream fails the same way. */
  lemma {:induction false} FlatMapPrefixErr<T, U>(f: T -> Result<seq<U>>, rows: seq<T>, i: nat)
    requires i <= |rows|
    requires FlatMap(f, rows[..i]).Err?
    ensures FlatMap(f, rows) == FlatMap(f, rows[..i])
    decreases |rows|
  {
    if i < |rows| {
      var init := rows[..|rows| - 1];
      assert init[..i] == rows[..i];
      FlatMapPrefixErr(f, init, i);
    } else {
      assert rows[..i] == rows;
    }
  }

  /** FlatMap over a concatenation is the concatenation of the two results: the output follows
      the input order, and a failure in the first part hides the second. */
  lemma {:induction false} FlatMapAppend<T, U>(f: T -> Result<seq<U>>, a: seq<T>, b: seq<T>)
    ensures FlatMap(f, a).Err? ==> FlatMap(f, a + b) == FlatMap(f, a)
    ensures FlatMap(f, a).Ok? && FlatMap(f, b).Err? ==> FlatMap(f, a + b) == FlatMap(f, b)
    ensures FlatMap(f, a).Ok? && FlatMap(f, b).Ok? ==>
              FlatMap(f, a + b) == Ok(FlatMap(f, a).value + FlatMap(f, b).value)
    decreases |b|
  {
    if b == [] {
      assert a + b == a;
      if FlatMap(f, a).Ok? {
        assert FlatMap(f, a).value + [] == FlatMap(f, a).value;
      }
    } else {
      var b' := b[..|b| - 1];
      var last := b[|b| - 1];
      assert (a + b)[..|a + b| - 1] == a + b' && (a + b)[|a + b| - 1] == last;
      FlatMapAppend(f, a, b');
      var ra, rb', rl := FlatMap(f, a), FlatMap(f, b'), f(last);
      if ra.Ok? && rb'.Ok? && rl.Ok? {
        assert ra.value + rb'.value + rl.value == ra.value + (rb'.value + rl.value);
      }
    }
  }

  /** FlatMap succeeds exactly when `f` succeeds on every element. */
  lemma {:induction false} FlatMapOk<T, U>(f: T -> Result<seq<U>>, xs: seq<T>)
    ensures FlatMap(f, xs).Ok? <==> forall i :: 0 <= i < |xs| ==> f(xs[i]).Ok?
  {
    if xs != [] {
      var init := xs[..|xs| - 1];
      FlatMapOk(f, init);
      assert forall i :: 0 <= i < |init| ==> init[i] == xs[i];
    }
  }

  /** When every element yields exactly one item, the result has one item per element, in order. */
  lemma {:induction false} FlatMapSingles<T, U>(f: T -> Result<seq<U>>, xs: seq<T>)
    requires forall x :: x in xs && f(x).Ok? ==> |f(x).value| == 1
    requires FlatMap(f, xs).Ok?
    ensures |FlatMap(f, xs).value| == |xs|
    ensures forall i :: 0 <= i < |xs| ==> f(xs[i]) == Ok([FlatMap(f, xs).value[i]])
  {
    if xs != [] {
      var init := xs[..|xs| - 1];
      assert forall x :: x in init ==> x in xs;
      FlatMapSingles(f, init);
      var last := xs[|xs| - 1];
      var out, a := FlatMap(f, xs).value, FlatMap(f, init).value;
      var b := f(last).value;
      assert out == a + b;
      forall i | 0 <= i < |xs|
        ensures f(xs[i]) == Ok([out[i]])
      {
        if i < |xs| - 1 {
          assert xs[i] == init[i] && out[i] == a[i];
        } else {
          assert b == [out[i]];
        }
      }
    }
  }

  /** A left fold that may raise: `step` applied to each element in turn, starting from
      `start`; the first exception aborts it. */
  function Scan<S, T>(step: (S, T) -> Result<S>, start: S, xs: seq<T>): Result<S>
  {
    if xs == [] then Ok(start)
    else
      var s :- Scan(step, start, xs[..|xs| - 1]);
      step(s, xs[|xs| - 1])
  }

  /** One more element of the fold. */
  lemma ScanNext<S, T>(step: (S, T) -> Result<S>, start: S, xs: seq<T>, i: nat)
    requires i < |xs| && Scan(step, start, xs[..i]).Ok?
    ensures Scan(step, start, xs[..i + 1]) == step(Scan(step, start, xs[..i]).value, xs[i])
  {
    assert xs[..i + 1][..i] == xs[..i];
  }

  /** Once the fold fails on a prefix, it fails the same way on the whole sequence. */
  lemma {:induction false} ScanPrefixErr<S, T>(step: (S, T) -> Result<S>, start: S, xs: seq<T>, i: nat)
    requires i <= |xs|
    requires Scan(step, start, xs[..i]).Err?
    ensures Scan(step, start, xs) == Scan(step, start, xs[..i])
    decreases |xs|
  {
    if i < |xs| {
      var init := xs[..|xs| - 1];
      assert init[..i] == xs[..i];
      ScanPrefixErr(step, start, init, i);
    } else {
      assert xs[..i] == xs;
    }
  }

  // ---------------------------------------------------------------------------------------
  // Python's ordering of values and of key lists.

  /** Python's `<` on strings: code point by code point, a proper prefix is smaller. */
  predicate StrLt(a: string, b: string)
  {
    if a == [] then b != []
    else if b == [] then false
    else if a[0] != b[0] then a[0] < b[0]
    else StrLt(a[1..], b[1..])
  }

  /** Python's `a < b` on two values: numbers and strings are ordered among themselves,
      anything else (None included) raises a TypeError. */
  function ValueLt(a: Value, b: Value): Result<bool>
  {
    if a.Num? && b.Num? then Ok(a.x < b.x)
    else if a.Str? && b.Str? then Ok(StrLt(a.s, b.s))
    else Err(TypeError)
  }

  /** Python's `a < b` on two lists: the first position where they differ decides, by `<` on
      the two elements there; when one is a prefix of the other, the shorter is smaller. */
  function KeyLt(a: seq<Value>, b: seq<Value>): (r: Result<bool>)
    ensures r.Err? ==> r.error == TypeError
  {
    if a == [] then Ok(b != [])
    else if b == [] then Ok(false)
    else if a[0] != b[0] then ValueLt(a[0], b[0])
    else KeyLt(a[1..], b[1..])
  }

  /** `a < b` on values holds (and did not raise). */
  predicate ValueBelow(a: Value, b: Value)
  {
    ValueLt(a, b) == Ok(true)
  }

  /** The kind of a value: None, a number or a string. */
  function Kind(v: Value): nat
  {
    match v
    case Null => 0
    case Num(_) => 1
    case Str(_) => 2
  }

  /** `a < b` on values is a strict total order on the numbers and on the strings; comparing
      anything else raises. */
  lemma ValueLtTotal(a: Value, b: Value)
    ensures ValueLt(a, b).Ok? <==> Kind(a) == Kind(b) && Kind(a) != 0
    ensures ValueLt(a, b).Ok? ==> ValueLt(b, a).Ok? && (a == b || ValueBelow(a, b) || ValueBelow(b, a))
    ensures !(ValueBelow(a, b) && ValueBelow(b, a))
    ensures !ValueBelow(a, a)
  {
    if a.Str? {
      StrLtIrreflexive(a.s);
      if b.Str? {
        StrLtTrichotomy(a.s, b.s);
      }
    }
  }

  lemma ValueBelowTransitive(a: Value, b: Value, c: Value)
    requires ValueBelow(a, b) && ValueBelow(b, c)
    ensures ValueBelow(a, c)
  {
    if a.Str? {
      StrLtTransitive(a.s, b.s, c.s);
    }
  }

  /** `a < b` holds (and did not raise). */
  predicate KeyBelow(a: seq<Value>, b: seq<Value>)
  {
    KeyLt(a, b) == Ok(true)
  }

  lemma {:induction false} StrLtIrreflexive(a: string)
    ensures !StrLt(a, a)
  {
    if a != [] {
      StrLtIrreflexive(a[1..]);
    }
  }

  lemma {:induction false} StrLtTrichotomy(a: string, b: string)
    ensures a == b || StrLt(a, b) || StrLt(b, a)
    ensures !(StrLt(a, b) && StrLt(b, a))
  {
    if a != [] && b != [] && a[0] == b[0] {
      StrLtTrichotomy(a[1..], b[1..]);
      if a[1..] == b[1..] {
        assert a == [a[0]] + a[1..] && b == [b[0]] + b[1..];
      }
    }
  }

  lemma {:induction false} StrLtTransitive(a: string, b: string, c: string)
    requires StrLt(a, b) && StrLt(b, c)
    ensures StrLt(a, c)
  {
    if a != [] && b != [] && c != [] && a[0] == b[0] && b[0] == c[0] {
      StrLtTransitive(a[1..], b[1..], c[1..]);
    }
  }

  /** Equal key lists never compare as smaller, and never raise. */
  lemma {:induction false} KeyLtIrreflexive(a: seq<Value>)
    ensures KeyLt(a, a) == Ok(false)
  {
    if a != [] {
      KeyLtIrreflexive(a[1..]);
    }
  }

  /** Two different key lists of the same length: either both comparisons raise, or exactly
      one of `a < b` and `b < a` holds. */
  lemma {:induction false} KeyLtTrichotomy(a: seq<Value>, b: seq<Value>)
    requires |a| == |b| && a != b
    ensures KeyLt(a, b).Ok? <==> KeyLt(b, a).Ok?
    ensures KeyLt(a, b).Ok? ==> KeyLt(a, b).value != KeyLt(b, a).value
  {
    if a[0] != b[0] {
      if a[0].Str? && b[0].Str? {
        StrLtTrichotomy(a[0].s, b[0].s);
      }
    } else {
      assert a == [a[0]] + a[1..] && b == [b[0]] + b[1..];
      KeyLtTrichotomy(a[1..], b[1..]);
    }
  }

  /** `<` on key lists is transitive wherever both comparisons succeed. */
  lemma {:induction false} KeyBelowTransitive(a: seq<Value>, b: seq<Value>, c: seq<Value>)
    requires KeyBelow(a, b) && KeyBelow(b, c)
    ensures KeyBelow(a, c)
  {
    if a != [] && b != [] && c != [] {
      if a[0] == b[0] && b[0] == c[0] {
        KeyBelowTransitive(a[1..], b[1..], c[1..]);
      } else if a[0] == b[0] {
        assert ValueLt(b[0], c[0]) == Ok(true);
      } else if b[0] == c[0] {
        assert ValueLt(a[0], b[0]) == Ok(true);
      } else if a[0].Str? {
        StrLtTransitive(a[0].s, b[0].s, c[0].s);
        StrLtIrreflexive(a[0].s);
      }
    }
  }

  /** `<` on key lists is irreflexive and asymmetric. */
  lemma KeyBelowAsymmetric(a: seq<Value>, b: seq<Value>)
    requires KeyBelow(a, b)
    ensures a != b && !KeyBelow(b, a)
  {
    if a == b {
      KeyLtIrreflexive(a);
    } else if KeyBelow(b, a) {
      KeyBelowTransitive(a, b, a);
      KeyLtIrreflexive(a);
    }
  }

  // ---------------------------------------------------------------------------------------
  // itertools.groupby with the key function `[x.get(k) for k in keys]`.

  /** One run of rows sharing a key, as groupby yields it. */
  datatype Group = Group(key: seq<Value>, rows: seq<Row>)

  function GroupRows(gs: seq<Group>): (r: seq<seq<Row>>)
    ensures |r| == |gs| && forall i :: 0 <= i < |gs| ==> r[i] == gs[i].rows
  {
    seq(|gs|, i requires 0 <= i < |gs| => gs[i].rows)
  }

  /** Every group is non-empty, its rows all carry its key, and its key has one entry per key name. */
  ghost predicate UniformGroups(gs: seq<Group>, keys: seq<string>)
  {
    forall i :: 0 <= i < |gs| ==>
      && gs[i].rows != []
      && |gs[i].key| == |keys|
      && forall r :: r in gs[i].rows ==> KeyOf(r, keys) == gs[i].key
  }

  /** Neighbouring groups have different keys: each group is a maximal run. */
  ghost predicate MaximalRuns(gs: seq<Group>)
  {
    forall i :: 0 <= i < |gs| - 1 ==> gs[i].key != gs[i + 1].key
  }

  /** `groupby(rows, key)`: the input cut into maximal runs of equal keys. Concatenating the
      runs gives back the input, in order. */
  function GroupBy(rows: seq<Row>, keys: seq<string>): (gs: seq<Group>)
    ensures Concat(GroupRows(gs)) == rows
    ensures UniformGroups(gs, keys) && MaximalRuns(gs)
    ensures rows != [] ==> gs != [] && gs[0].key == KeyOf(rows[0], keys)
  {
    if rows == [] then []
    else
      var k := KeyOf(rows[0], keys);
      var rest := GroupBy(rows[1..], keys);
      if rest != [] && rest[0].key == k then
        var gs := [Group(k, [rows[0]] + rest[0].rows)] + rest[1..];
        GroupByExtend(rows, keys, rest, gs);
        gs
      else
        var gs := [Group(k, [rows[0]])] + rest;
        GroupByStart(rows, keys, rest, gs);
        gs
  }

  /** Every run of GroupBy starts with a row of the input, and that row carries the run's key. */
  lemma GroupKeyRow(rows: seq<Row>, keys: seq<string>, g: Group)
    requires g in GroupBy(rows, keys)
    ensures g.rows != [] && g.rows[0] in rows && KeyOf(g.rows[0], keys) == g.key
  {
    var gs := GroupBy(rows, keys);
    var i :| 0 <= i < |gs| && gs[i] == g;
    assert g.rows != [] && KeyOf(g.rows[0], keys) == g.key;
    ConcatHas(GroupRows(gs), i, g.rows[0]);
  }

  /** A row of one of the parts is a row of their concatenation. */
  lemma {:induction false} ConcatHas(ss: seq<seq<Row>>, i: nat, x: Row)
    requires i < |ss| && x in ss[i]
    ensures x in Concat(ss)
  {
    if i > 0 {
      ConcatHas(ss[1..], i - 1, x);
    }
  }

  /** The step of GroupBy where the first row joins the run that follows it. */
  lemma GroupByExtend(rows: seq<Row>, keys: seq<string>, rest: seq<Group>, gs: seq<Group>)
    requires rows != [] && rest != [] && rest[0].key == KeyOf(rows[0], keys)
    requires Concat(GroupRows(rest)) == rows[1..]
    requires UniformGroups(rest, keys) && MaximalRuns(rest)
    requires gs == [Group(KeyOf(rows[0], keys), [rows[0]] + rest[0].rows)] + rest[1..]
    ensures Concat(GroupRows(gs)) == rows
    ensures UniformGroups(gs, keys) && MaximalRuns(gs)
  {
    assert GroupRows(gs) == [[rows[0]] + rest[0].rows] + GroupRows(rest)[1..];
    assert GroupRows(rest) == [rest[0].rows] + GroupRows(rest)[1..];
    assert rows == [rows[0]] + rows[1..];
    forall i | 0 <= i < |gs|
      ensures gs[i].rows != [] && |gs[i].key| == |keys|
      ensures forall r :: r in gs[i].rows ==> KeyOf(r, keys) == gs[i].key
    {
      if i > 0 {
        assert gs[i] == rest[i];
      }
    }
    forall i | 0 <= i < |gs| - 1
      ensures gs[i].key != gs[i + 1].key
    {
      assert gs[i + 1] == rest[i + 1];
      if i > 0 {
        assert gs[i] == rest[i];
      }
    }
  }

  /** The step of GroupBy where the first row starts a run of its own. */
  lemma GroupByStart(rows: seq<Row>, keys: seq<string>, rest: seq<Group>, gs: seq<Group>)
    requires rows != [] && (rest == [] || rest[0].key != KeyOf(rows[0], keys))
    requires Concat(GroupRows(rest)) == rows[1..]
    requires UniformGroups(rest, keys) && MaximalRuns(rest)
    requires gs == [Group(KeyOf(rows[0], keys), [rows[0]])] + rest
    ensures Concat(GroupRows(gs)) == rows
    ensures UniformGroups(gs, keys) && MaximalRuns(gs)
  {
    assert GroupRows(gs) == [[rows[0]]] + GroupRows(rest);
    assert rows == [rows[0]] + rows[1..];
    forall i | 0 <= i < |gs|
      ensures gs[i].rows != [] && |gs[i].key| == |keys|
      ensures forall r :: r in gs[i].rows ==> KeyOf(r, keys) == gs[i].key
    {
      if i > 0 {
        assert gs[i] == rest[i - 1];
      }
    }
    forall i | 0 <= i < |gs| - 1
      ensures gs[i].key != gs[i + 1].key
    {
      assert gs[i + 1] == rest[i];
      if i > 0 {
        assert gs[i] == rest[i - 1];
      }
    }
  }
}
