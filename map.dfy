/** The Map operation and its mappers (compgraph/operations/map.py). A mapper turns one row
    into zero, one or many rows; Map concatenates what the mapper yields, row by row. */
module MapOps {
  import opened Rows

  /** The characters of Python's `string.punctuation`. */
  const PunctuationChars: string := "!\"#$%&'()*+,-./:;<=>?@[\\]^_`{|}~"

  predicate IsPunctuation(c: char)
  {
    c in PunctuationChars
  }

  /** Python's `str.isspace` on one character. */
  predicate IsSpace(c: char)
  {
    || c == ' '
    || ('\t' <= c <= '\r')
    || ('\U{1c}' <= c <= '\U{1f}')
    || c == '\U{85}' || c == '\U{a0}' || c == '\U{1680}'
    || ('\U{2000}' <= c <= '\U{200a}')
    || c == '\U{2028}' || c == '\U{2029}' || c == '\U{202f}' || c == '\U{205f}' || c == '\U{3000}'
  }

  /** The separator test Split builds in its constructor: `x.isspace()` by default, otherwise
      `x == separator`, which a one-character string can only satisfy when the separator is
      itself one character long. */
  predicate IsSeparator(separator: Option<string>, c: char)
  {
    match separator
    case None => IsSpace(c)
    case Some(sep) => [c] == sep
  }

  const DefaultProductColumn: string := "product"

  /** The mappers of the source. The callables given to Filter and Apply are Dafny functions of
      the row; Apply's function returns the row after whatever it did to it in place, together
      with its return value. */
  datatype Mapper =
    | DummyMapper
    | FilterPunctuation(column: string)
    | LowerCase(column: string)
    | Split(column: string, separator: Option<string>)
    | Product(columns: seq<string>, resultColumn: string)
    | Filter(condition: Row -> bool)
    | Project(columns: seq<string>)
    | Apply(func: Row -> (Row, Value), target: Option<string>)

  // ---------------------------------------------------------------------------------------
  // Text helpers.

  /** `s.translate({ord(c): None for c in punctuation})`. */
  function StripPunctuation(s: string): (r: string)
    ensures |r| <= |s|
    ensures forall i :: 0 <= i < |r| ==> !IsPunctuation(r[i]) && r[i] in s
  {
    if s == [] then [] else (if IsPunctuation(s[0]) then [] else [s[0]]) + StripPunctuation(s[1..])
  }

  /** Stripping works piecewise, so the characters that are kept stay in their order. */
  lemma {:induction false} StripPunctuationAppend(a: string, b: string)
    ensures StripPunctuation(a + b) == StripPunctuation(a) + StripPunctuation(b)
  {
    if a != [] {
      var head := if IsPunctuation(a[0]) then [] else [a[0]];
      assert (a + b)[0] == a[0] && (a + b)[1..] == a[1..] + b;
      assert StripPunctuation(a + b) == head + StripPunctuation(a[1..] + b);
      StripPunctuationAppend(a[1..], b);
      assert StripPunctuation(a) == head + StripPunctuation(a[1..]);
    } else {
      assert a + b == b;
    }
  }

  /** A text without punctuation is left as it is; in particular stripping is idempotent. */
  lemma {:induction false} StripPunctuationKeeps(s: string)
    requires forall i :: 0 <= i < |s| ==> !IsPunctuation(s[i])
    ensures StripPunctuation(s) == s
  {
    if s != [] {
      StripPunctuationKeeps(s[1..]);
    }
  }

  lemma StripPunctuationIdempotent(s: string)
    ensures StripPunctuation(StripPunctuation(s)) == StripPunctuation(s)
  {
    StripPunctuationKeeps(StripPunctuation(s));
  }

  /** The number of punctuation characters removed from `s`. */
  function PunctuationCount(s: string): nat
  {
    if s == [] then 0 else (if IsPunctuation(s[0]) then 1 else 0) + PunctuationCount(s[1..])
  }

  lemma {:induction false} StripPunctuationLength(s: string)
    ensures |StripPunctuation(s)| == |s| - PunctuationCount(s)
  {
    if s != [] {
      StripPunctuationLength(s[1..]);
    }
  }

  /** ASCII lowering, the part of `str.lower` the model keeps. */
  function LowerChar(c: char): (d: char)
  {
    if 'A' <= c <= 'Z' then (c as int + 32) as char else c
  }

  function Lower(s: string): (r: string)
    ensures |r| == |s|
    ensures forall i :: 0 <= i < |s| ==> r[i] == LowerChar(s[i])
  {
    seq(|s|, i requires 0 <= i < |s| => LowerChar(s[i]))
  }

  lemma LowerIdempotent(s: string)
    ensures Lower(Lower(s)) == Lower(s)
    ensures forall i :: 0 <= i < |s| ==> !('A' <= Lower(s)[i] <= 'Z')
  {
  }

  // ---------------------------------------------------------------------------------------
  // Split.

  /** The text cut at every separator character: one more segment than there are separators,
      empty segments included. */
  function Segments(s: string, separator: Option<string>): (segs: seq<string>)
    ensures |segs| >= 1
  {
    if s == [] then [""]
    else
      var segs := Segments(s[..|s| - 1], separator);
      if IsSeparator(separator, s[|s| - 1]) then segs + [""]
      else segs[..|segs| - 1] + [segs[|segs| - 1] + [s[|s| - 1]]]
  }

  /** What Split yields for a text: every segment, except a last one that is empty. */
  function Pieces(s: string, separator: Option<string>): (ps: seq<string>)
  {
    var segs := Segments(s, separator);
    if segs[|segs| - 1] == "" then segs[..|segs| - 1] else segs
  }

  /** The number of separator characters in `s`. */
  function SeparatorCount(s: string, separator: Option<string>): nat
  {
    if s == [] then 0
    else SeparatorCount(s[..|s| - 1], separator) + (if IsSeparator(separator, s[|s| - 1]) then 1 else 0)
  }

  lemma {:induction false} SegmentsShape(s: string, separator: Option<string>)
    ensures |Segments(s, separator)| == SeparatorCount(s, separator) + 1
    ensures forall k, i :: 0 <= k < |Segments(s, separator)| && 0 <= i < |Segments(s, separator)[k]|
              ==> !IsSeparator(separator, Segments(s, separator)[k][i])
  {
    if s != [] {
      SegmentsShape(s[..|s| - 1], separator);
    }
  }

  /** Split's pieces hold no separator; there is one per separator character, plus one when
      the text does not end with a separator; an empty text yields none. */
  lemma PiecesShape(s: string, separator: Option<string>)
    ensures forall k, i :: 0 <= k < |Pieces(s, separator)| && 0 <= i < |Pieces(s, separator)[k]|
              ==> !IsSeparator(separator, Pieces(s, separator)[k][i])
    ensures var segs := Segments(s, separator);
            |Pieces(s, separator)| == SeparatorCount(s, separator) + (if segs[|segs| - 1] != "" then 1 else 0)
    ensures s == "" ==> Pieces(s, separator) == []
  {
    SegmentsShape(s, separator);
  }

  /** The last segment is empty exactly when the text is empty or ends with a separator. */
  lemma {:induction false} LastSegmentEmpty(s: string, separator: Option<string>)
    ensures var segs := Segments(s, separator);
            segs[|segs| - 1] == "" <==> (s == "" || IsSeparator(separator, s[|s| - 1]))
  {
  }

  /** `sep.join(parts)`. */
  function JoinWith(parts: seq<string>, sep: char): string
  {
    if parts == [] then ""
    else if |parts| == 1 then parts[0]
    else JoinWith(parts[..|parts| - 1], sep) + [sep] + parts[|parts| - 1]
  }

  /** Joining one more part puts the separator before it. */
  lemma JoinWithSnoc(parts: seq<string>, p: string, c: char)
    requires parts != []
    ensures JoinWith(parts + [p], c) == JoinWith(parts, c) + [c] + p
  {
    assert (parts + [p])[..|parts|] == parts;
  }

  /** A character appended to the last part ends up at the end of the joined text. */
  lemma JoinWithExtendLast(parts: seq<string>, x: char, c: char)
    requires parts != []
    ensures JoinWith(parts[..|parts| - 1] + [parts[|parts| - 1] + [x]], c) == JoinWith(parts, c) + [x]
  {
    var n := |parts|;
    if n > 1 {
      var init := parts[..n - 1];
      assert parts == init + [parts[n - 1]];
      JoinWithSnoc(init, parts[n - 1] + [x], c);
      JoinWithSnoc(init, parts[n - 1], c);
    }
  }

  lemma {:induction false} SegmentsJoin(s: string, c: char)
    ensures JoinWith(Segments(s, Some([c])), c) == s
  {
    if s != [] {
      var init, last := s[..|s| - 1], s[|s| - 1];
      var segs := Segments(init, Some([c]));
      SegmentsJoin(init, c);
      assert s == init + [last];
      if last == c {
        JoinWithSnoc(segs, "", c);
      } else {
        JoinWithExtendLast(segs, last, c);
      }
    }
  }

  /** With a one-character separator, joining the pieces with it gives the text back, less the
      separator that ended it. */
  lemma PiecesJoin(s: string, c: char)
    ensures JoinWith(Pieces(s, Some([c])), c) == if s != "" && s[|s| - 1] == c then s[..|s| - 1] else s
  {
    var segs := Segments(s, Some([c]));
    SegmentsJoin(s, c);
    LastSegmentEmpty(s, Some([c]));
    if segs[|segs| - 1] == "" && s != "" {
      var n := |segs|;
      SegmentsShape(s, Some([c]));
      assert SeparatorCount(s, Some([c])) >= 1;
      assert JoinWith(segs, c) == JoinWith(segs[..n - 1], c) + [c];
      assert s == s[..|s| - 1] + [c];
    }
  }

  /** A separator of another length than one never matches, so a non-empty text is one piece. */
  lemma {:induction false} LongSeparatorNeverSplits(s: string, sep: string)
    requires |sep| != 1
    ensures Segments(s, Some(sep)) == [s]
    ensures s != "" ==> Pieces(s, Some(sep)) == [s]
  {
    if s != [] {
      LongSeparatorNeverSplits(s[..|s| - 1], sep);
      assert s == s[..|s| - 1] + [s[|s| - 1]];
    }
  }

  /** One more character of the text: a separator closes the current segment, anything else
      extends it. */
  lemma SegmentsExtend(s: string, separator: Option<string>, i: nat, start: nat, pieces: seq<string>)
    requires start <= i < |s|
    requires Segments(s[..i], separator) == pieces + [s[start..i]]
    ensures IsSeparator(separator, s[i]) ==>
              Segments(s[..i + 1], separator) == (pieces + [s[start..i]]) + [s[i + 1..i + 1]]
    ensures !IsSeparator(separator, s[i]) ==>
              Segments(s[..i + 1], separator) == pieces + [s[start..i + 1]]
  {
    var t := s[..i + 1];
    assert t[..|t| - 1] == s[..i] && t[|t| - 1] == s[i];
    if IsSeparator(separator, s[i]) {
      assert s[i + 1..i + 1] == "";
      SegmentsLastClosed(t, separator);
    } else {
      assert s[start..i] + [s[i]] == s[start..i + 1];
      SegmentsLastExtended(t, separator, pieces, s[start..i]);
    }
  }

  /** A text ending with a separator: the segments of the rest, then an empty one. */
  lemma SegmentsLastClosed(t: string, separator: Option<string>)
    requires t != [] && IsSeparator(separator, t[|t| - 1])
    ensures Segments(t, separator) == Segments(t[..|t| - 1], separator) + [""]
  {
  }

  /** A text ending with another character: that character extends the last segment. */
  lemma SegmentsLastExtended(t: string, separator: Option<string>, pieces: seq<string>, last: string)
    requires t != [] && !IsSeparator(separator, t[|t| - 1])
    requires Segments(t[..|t| - 1], separator) == pieces + [last]
    ensures Segments(t, separator) == pieces + [last + [t[|t| - 1]]]
  {
    var segs := Segments(t[..|t| - 1], separator);
    assert segs[..|segs| - 1] == pieces && segs[|segs| - 1] == last;
  }

  /** One output row per piece: a copy of the row with the column replaced by the piece. */
  function RowsWithPieces(row: Row, column: string, ps: seq<string>): (rs: seq<Row>)
    ensures |rs| == |ps|
    ensures forall i :: 0 <= i < |ps| ==> rs[i] == Set(row, column, Str(ps[i]))
  {
    seq(|ps|, i requires 0 <= i < |ps| => Set(row, column, Str(ps[i])))
  }

  /** One more piece, one more row. */
  lemma RowsWithPiecesAppend(row: Row, column: string, ps: seq<string>, p: string)
    ensures RowsWithPieces(row, column, ps + [p]) == RowsWithPieces(row, column, ps) + [Set(row, column, Str(p))]
  {
  }

  /** Split(column, separator) applied to one row. */
  function SplitRows(column: string, separator: Option<string>, row: Row): (out: Result<seq<Row>>)
  {
    var v :- Field(row, column);
    if v.Str? then Ok(RowsWithPieces(row, column, Pieces(v.s, separator))) else Err(TypeError)
  }

  /** Split.__call__: walks the text by index, emitting the segment before each separator. */
  method SplitRow(column: string, separator: Option<string>, row: Row) returns (out: Result<seq<Row>>)
    ensures out == SplitRows(column, separator, row)
  {
    if column !in row.fields {
      return Err(KeyError(column));
    }
    var value := row.fields[column];
    if !value.Str? {
      return Err(TypeError);
    }
    var text := value.s;
    var rows: seq<Row> := [];
    ghost var pieces: seq<string> := [];
    var start := 0;
    for i := 0 to |text|
      invariant 0 <= start <= i
      invariant Segments(text[..i], separator) == pieces + [text[start..i]]
      invariant rows == RowsWithPieces(row, column, pieces)
    {
      SegmentsExtend(text, separator, i, start, pieces);
      if IsSeparator(separator, text[i]) {
        RowsWithPiecesAppend(row, column, pieces, text[start..i]);
        rows := rows + [Set(row, column, Str(text[start..i]))];
        pieces := pieces + [text[start..i]];
        start := i + 1;
      }
    }
    assert text[..|text|] == text && text[start..|text|] == text[start..];
    ghost var segs := pieces + [text[start..]];
    assert Segments(text, separator) == segs;
    assert segs[..|segs| - 1] == pieces;
    if start != |text| {
      assert segs[|segs| - 1] != "";
      RowsWithPiecesAppend(row, column, pieces, text[start..]);
      rows := rows + [Set(row, column, Str(text[start..]))];
      pieces := pieces + [text[start..]];
      assert Pieces(text, separator) == pieces;
    } else {
      assert segs[|segs| - 1] == "";
      assert Pieces(text, separator) == pieces;
    }
    return Ok(rows);
  }

  // ---------------------------------------------------------------------------------------
  // Product.

  /** `a * b` on values: only numbers are multiplied here. */
  function Mul(a: Value, b: Value): Result<Value>
  {
    if a.Num? && b.Num? then Ok(Num(a.x * b.x)) else Err(TypeError)
  }

  /** `res = row[columns[0]]; res *= row[columns[1]]; ...`, for a non-empty column list. */
  function ColumnProduct(row: Row, columns: seq<string>): Result<Value>
    requires |columns| >= 1
  {
    if |columns| == 1 then Field(row, columns[0])
    else
      var p :- ColumnProduct(row, columns[..|columns| - 1]);
      var v :- Field(row, columns[|columns| - 1]);
      Mul(p, v)
  }

  /** The product of a list of numbers. */
  function RealProduct(xs: seq<real>): real
  {
    if xs == [] then 1.0 else RealProduct(xs[..|xs| - 1]) * xs[|xs| - 1]
  }

  /** Every listed column is present and holds a number. */
  predicate AllNumbers(row: Row, columns: seq<string>)
  {
    forall i :: 0 <= i < |columns| ==> columns[i] in row.fields && row.fields[columns[i]].Num?
  }

  /** The numbers held in the listed columns, in order. */
  function NumbersOf(row: Row, columns: seq<string>): (xs: seq<real>)
    requires AllNumbers(row, columns)
    ensures |xs| == |columns|
    ensures forall i :: 0 <= i < |columns| ==> xs[i] == row.fields[columns[i]].x
  {
    seq(|columns|, i requires 0 <= i < |columns| => row.fields[columns[i]].x)
  }

  /** Once a prefix of the columns fails, the whole product fails the same way. */
  lemma {:induction false} ColumnProductPrefixErr(row: Row, columns: seq<string>, i: nat)
    requires 1 <= i <= |columns|
    requires ColumnProduct(row, columns[..i]).Err?
    ensures ColumnProduct(row, columns) == ColumnProduct(row, columns[..i])
    decreases |columns|
  {
    if i < |columns| {
      var init := columns[..|columns| - 1];
      assert init[..i] == columns[..i];
      ColumnProductPrefixErr(row, init, i);
    } else {
      assert columns[..i] == columns;
    }
  }

  /** Product(columns, result_column) applied to one row. */
  function ProductRows(columns: seq<string>, resultColumn: string, row: Row): Result<seq<Row>>
  {
    if columns == [] then Err(IndexError)
    else
      var p :- ColumnProduct(row, columns);
      Ok([Set(row, resultColumn, p)])
  }

  /** The running product of number columns is the product of their numbers. */
  lemma {:induction false} ColumnProductOfNumbers(row: Row, columns: seq<string>)
    requires |columns| >= 1
    requires AllNumbers(row, columns)
    ensures ColumnProduct(row, columns) == Ok(Num(RealProduct(NumbersOf(row, columns))))
  {
    var xs := NumbersOf(row, columns);
    var last := columns[|columns| - 1];
    var b := row.fields[last];
    if |columns| > 1 {
      var init := columns[..|columns| - 1];
      ColumnProductOfNumbers(row, init);
      var a := RealProduct(NumbersOf(row, init));
      assert xs[..|xs| - 1] == NumbersOf(row, init);
      assert RealProduct(xs) == a * b.x;
      var r := ColumnProduct(row, columns);
      assert r == Mul(Num(a), b);
      assert r.Ok? && r.value == Num(RealProduct(xs));
    } else {
      assert xs[..0] == [];
      assert RealProduct(xs) == 1.0 * b.x;
    }
  }

  /** When every listed column holds a number, Product adds exactly one field, the product of
      those numbers, and leaves every other field as it was. */
  lemma ProductOfNumbers(columns: seq<string>, resultColumn: string, row: Row)
    requires |columns| >= 1
    requires AllNumbers(row, columns)
    ensures var out := ProductRows(columns, resultColumn, row);
            && out.Ok? && |out.value| == 1
            && out.value[0].fields == row.fields[resultColumn := Num(RealProduct(NumbersOf(row, columns)))]
  {
    ColumnProductOfNumbers(row, columns);
  }

  /** Product fails with an IndexError for an empty column list, and otherwise with the first
      missing column's KeyError. */
  lemma {:induction false} ProductErrors(columns: seq<string>, resultColumn: string, row: Row)
    ensures columns == [] ==> ProductRows(columns, resultColumn, row) == Err(IndexError)
    ensures |columns| >= 1 && ColumnProduct(row, columns).Ok? ==> forall c :: c in columns ==> c in row.fields
  {
    if |columns| > 1 && ColumnProduct(row, columns).Ok? {
      ProductErrors(columns[..|columns| - 1], resultColumn, row);
      assert forall c :: c in columns ==> c in columns[..|columns| - 1] || c == columns[|columns| - 1];
    }
  }

  /** Product.__call__: an accumulator loop over the listed columns. */
  method ProductRow(columns: seq<string>, resultColumn: string, row: Row) returns (out: Result<seq<Row>>)
    ensures out == ProductRows(columns, resultColumn, row)
  {
    if columns == [] {
      return Err(IndexError);
    }
    var res := Field(row, columns[0]);
    if res.Err? {
      ColumnProductPrefixErr(row, columns, 1);
      return Err(res.error);
    }
    var acc := res.value;
    for i := 1 to |columns|
      invariant ColumnProduct(row, columns[..i]) == Ok(acc)
    {
      assert columns[..i + 1][..i] == columns[..i];
      var v := Field(row, columns[i]);
      if v.Err? {
        ColumnProductPrefixErr(row, columns, i + 1);
        return Err(v.error);
      }
      var p := Mul(acc, v.value);
      if p.Err? {
        ColumnProductPrefixErr(row, columns, i + 1);
        return Err(p.error);
      }
      acc := p.value;
    }
    assert columns[..|columns|] == columns;
    return Ok([Set(row, resultColumn, acc)]);
  }

  // ---------------------------------------------------------------------------------------
  // One mapper on one row, and the Map operation.

  /** What `mapper(row)` yields. */
  function MapRow(mapper: Mapper, row: Row): Result<seq<Row>>
  {
    match mapper
    case DummyMapper => Ok([row])
    case FilterPunctuation(column) =>
      var v :- Field(row, column);
      if v.Str? then Ok([Set(row, column, Str(StripPunctuation(v.s)))]) else Err(AttributeError)
    case LowerCase(column) =>
      var v :- Field(row, column);
      if v.Str? then Ok([Set(row, column, Str(Lower(v.s)))]) else Err(AttributeError)
    case Split(column, separator) => SplitRows(column, separator, row)
    case Product(columns, resultColumn) => ProductRows(columns, resultColumn, row)
    case Filter(condition) => if condition(row) then Ok([row]) else Ok([])
    case Project(columns) =>
      var p :- Pick(row, columns);
      Ok([p])
    case Apply(func, resultColumn) =>
      var (changed, result) := func(row);
      match resultColumn
      case None => Ok([changed])
      case Some(c) => Ok([Set(changed, c, result)])
  }

  /** Mapper.__call__ for every mapper: the two that loop run as methods. */
  method CallMapper(mapper: Mapper, row: Row) returns (out: Result<seq<Row>>)
    ensures out == MapRow(mapper, row)
  {
    match mapper
    case Split(column, separator) =>
      out := SplitRow(column, separator, row);
    case Product(columns, resultColumn) =>
      out := ProductRow(columns, resultColumn, row);
    case _ =>
      out := MapRow(mapper, row);
  }

  /** Map(mapper) on a whole stream: the mapper's outputs, row after row. */
  function MapRows(mapper: Mapper, rows: seq<Row>): Result<seq<Row>>
  {
    FlatMap(row => MapRow(mapper, row), rows)
  }

  /** Map.__call__. */
  method MapCall(mapper: Mapper, rows: seq<Row>) returns (out: Result<seq<Row>>)
    ensures out == MapRows(mapper, rows)
  {
    var acc: seq<Row> := [];
    for i := 0 to |rows|
      invariant MapRows(mapper, rows[..i]) == Ok(acc)
    {
      assert rows[..i + 1][..i] == rows[..i];
      var mapped := CallMapper(mapper, rows[i]);
      if mapped.Err? {
        FlatMapPrefixErr(row => MapRow(mapper, row), rows, i + 1);
        return Err(mapped.error);
      }
      acc := acc + mapped.value;
    }
    assert rows[..|rows|] == rows;
    return Ok(acc);
  }

  /** Map(DummyMapper) hands every row back unchanged: it is the identity on the stream. */
  lemma DummyMapperIdentity(rows: seq<Row>)
    ensures MapRows(DummyMapper, rows) == Ok(rows)
  {
    FlatMapIdentity(row => MapRow(DummyMapper, row), rows);
  }

  lemma {:induction false} FlatMapIdentity<T>(f: T -> Result<seq<T>>, rows: seq<T>)
    requires forall row :: f(row) == Ok([row])
    ensures FlatMap(f, rows) == Ok(rows)
  {
    if rows != [] {
      var init, last := rows[..|rows| - 1], rows[|rows| - 1];
      assert rows == init + [last];
      FlatMapIdentity(f, init);
      assert f(last) == Ok([last]);
    }
  }

  /** Map over a concatenation of streams is the concatenation of the two Maps. */
  lemma MapRowsAppend(mapper: Mapper, a: seq<Row>, b: seq<Row>)
    ensures MapRows(mapper, a).Err? ==> MapRows(mapper, a + b) == MapRows(mapper, a)
    ensures MapRows(mapper, a).Ok? && MapRows(mapper, b).Err? ==> MapRows(mapper, a + b) == MapRows(mapper, b)
    ensures MapRows(mapper, a).Ok? && MapRows(mapper, b).Ok? ==>
              MapRows(mapper, a + b) == Ok(MapRows(mapper, a).value + MapRows(mapper, b).value)
  {
    FlatMapAppend(row => MapRow(mapper, row), a, b);
  }

  /** The rows of `rows` satisfying `p`, in order. */
  function Kept<T>(p: T -> bool, rows: seq<T>): (r: seq<T>)
    ensures |r| <= |rows|
    ensures forall x :: x in r ==> x in rows && p(x)
  {
    if rows == [] then [] else (if p(rows[0]) then [rows[0]] else []) + Kept(p, rows[1..])
  }

  lemma {:induction false} KeptAppend<T>(p: T -> bool, a: seq<T>, b: seq<T>)
    ensures Kept(p, a + b) == Kept(p, a) + Kept(p, b)
  {
    if a != [] {
      assert (a + b)[0] == a[0] && (a + b)[1..] == a[1..] + b;
      KeptAppend(p, a[1..], b);
    } else {
      assert a + b == b;
    }
  }

  /** Map(Filter(p)) yields exactly the subsequence of the rows that satisfy `p`. */
  lemma MapFilterKeeps(p: Row -> bool, rows: seq<Row>)
    ensures MapRows(Filter(p), rows) == Ok(Kept(p, rows))
  {
    FlatMapFilter(row => MapRow(Filter(p), row), p, rows);
  }

  lemma {:induction false} FlatMapFilter<T>(f: T -> Result<seq<T>>, p: T -> bool, rows: seq<T>)
    requires forall row :: f(row) == Ok(if p(row) then [row] else [])
    ensures FlatMap(f, rows) == Ok(Kept(p, rows))
  {
    if rows != [] {
      var init := rows[..|rows| - 1];
      var last := rows[|rows| - 1];
      assert rows == init + [last];
      FlatMapFilter(f, p, init);
      var mine := if p(last) then [last] else [];
      assert [last][1..] == [];
      assert Kept(p, [last]) == mine;
      KeptAppend(p, init, [last]);
      assert f(last) == Ok(mine);
      assert FlatMap(f, rows) == Ok(Kept(p, init) + mine);
    }
  }

  /** Project yields one row whose fields are exactly the listed columns, with their values;
      a missing column raises a KeyError. */
  lemma ProjectFields(columns: seq<string>, row: Row)
    ensures (forall c :: c in columns ==> c in row.fields) ==>
              && MapRow(Project(columns), row).Ok?
              && |MapRow(Project(columns), row).value| == 1
              && MapRow(Project(columns), row).value[0].fields == map c | c in columns :: row.fields[c]
    ensures (exists c :: c in columns && c !in row.fields) ==>
              && MapRow(Project(columns), row).Err?
              && MapRow(Project(columns), row).error.KeyError?
              && MapRow(Project(columns), row).error.key !in row.fields
  {
  }

  /** Apply yields exactly one row: with a result column, the function's row with only that
      field set to its return value; without one, the row as the function left it. */
  lemma ApplyOneRow(func: Row -> (Row, Value), resultColumn: Option<string>, row: Row)
    ensures var out := MapRow(Apply(func, resultColumn), row);
            && out.Ok? && |out.value| == 1
            && (resultColumn.None? ==> out.value[0] == func(row).0)
            && (resultColumn.Some? ==>
                  out.value[0].fields == func(row).0.fields[resultColumn.value := func(row).1])
  {
  }

  /** FilterPunctuation and LowerCase yield exactly one row for a string column: the same
      fields in the same order, with only `column` rewritten to the stripped or lowered text.
      A missing column raises a KeyError, a value that is not a string an AttributeError. */
  lemma TextMappersOneRow(column: string, row: Row)
    ensures var strip, lower := MapRow(FilterPunctuation(column), row), MapRow(LowerCase(column), row);
      && (column !in row.fields ==> strip == Err(KeyError(column)) && lower == Err(KeyError(column)))
      && (column in row.fields && !row.fields[column].Str? ==>
            strip == Err(AttributeError) && lower == Err(AttributeError))
      && (column in row.fields && row.fields[column].Str? ==>
            var s := row.fields[column].s;
            && strip.Ok? && |strip.value| == 1
            && strip.value[0].names == row.names
            && strip.value[0].fields == row.fields[column := Str(StripPunctuation(s))]
            && lower.Ok? && |lower.value| == 1
            && lower.value[0].names == row.names
            && lower.value[0].fields == row.fields[column := Str(Lower(s))])
  {
  }
}
