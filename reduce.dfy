/** The Reduce operation and its reducers (compgraph/operations/reduce.py). Reduce cuts its
    input into maximal runs of rows with equal keys and hands each run to the reducer together
    with the tuple of key names; the reducers' outputs are concatenated run by run. */
module ReduceOps {
  import opened Rows
  import opened SortOps

  /** TermFrequency's default result column. */
  const DefaultTfColumn: string := "tf"

  datatype Reducer =
    | FirstReducer
    | TopN(column: string, n: int)
    | TermFrequency(wordsColumn: string, resultColumn: string)
    | Count(column: string)
    | Sum(column: string)

  // ---------------------------------------------------------------------------------------
  // Count.

  /** Count's row for one group: the group-key fields of the first row, with `column` set to
      the number of rows. */
  function CountRow(groupKey: seq<string>, column: string, rows: seq<Row>): (r: Result<Row>)
    ensures rows == [] ==> r == Ok(Set(EmptyRow, column, Num(0.0)))
    ensures rows != [] ==> (r.Ok? <==> forall c :: c in groupKey ==> c in rows[0].fields)
    ensures r.Ok? ==> column in r.value.fields && r.value.fields[column] == Num(|rows| as real)
    ensures r.Ok? && rows != [] ==>
              && r.value.fields.Keys == (set c | c in groupKey) + {column}
              && forall c :: c in groupKey && c != column ==> r.value.fields[c] == rows[0].fields[c]
    ensures r.Err? ==> r.error.KeyError? && r.error.key in groupKey && r.error.key !in rows[0].fields
  {
    if rows == [] then Ok(Set(EmptyRow, column, Num(0.0)))
    else
      var p :- Pick(rows[0], groupKey);
      Ok(Set(p, column, Num(|rows| as real)))
  }

  /** A pick that yields the empty row picked no columns. */
  lemma EmptyPick(r: Row, cols: seq<string>)
    requires Pick(r, cols).Ok? && Pick(r, cols).value.names == []
    ensures cols == []
  {
  }

  /** Count.__call__: counts the rows while the new row is still empty (falsy) rebuilds it from
      the current row's group-key fields. */
  method CountCall(groupKey: seq<string>, column: string, rows: seq<Row>) returns (out: Result<Row>)
    ensures out == CountRow(groupKey, column, rows)
  {
    var count := 0;
    var newRow := EmptyRow;
    for i := 0 to |rows|
      invariant count == i
      invariant i == 0 ==> newRow == EmptyRow
      invariant i > 0 ==> Pick(rows[0], groupKey) == Ok(newRow)
    {
      count := count + 1;
      if newRow.names == [] {
        if i > 0 {
          EmptyPick(rows[0], groupKey);
        }
        var p := Pick(rows[i], groupKey);
        if p.Err? {
          return Err(p.error);
        }
        newRow := p.value;
      }
    }
    return Ok(Set(newRow, column, Num(count as real)));
  }

  // ---------------------------------------------------------------------------------------
  // Sum.

  /** `row[column]` added to a number: a KeyError when the field is missing, a TypeError when
      it is not a number. */
  function NumberIn(row: Row, column: string): (r: Result<real>)
    ensures r.Ok? <==> column in row.fields && row.fields[column].Num?
    ensures r.Ok? ==> r.value == row.fields[column].x
    ensures r.Err? ==> r.error == (if column in row.fields then TypeError else KeyError(column))
  {
    var v :- Field(row, column);
    if v.Num? then Ok(v.x) else Err(TypeError)
  }

  /** One step of `row_sum += row[column]`. */
  function SumNext(column: string, acc: real, row: Row): Result<real>
  {
    var x :- NumberIn(row, column);
    Ok(acc + x)
  }

  function SumStep(column: string): (real, Row) -> Result<real>
  {
    (acc: real, row: Row) => SumNext(column, acc, row)
  }

  /** The running sum of `column` over the rows, from 0. */
  function ColumnSum(rows: seq<Row>, column: string): Result<real>
  {
    Scan(SumStep(column), 0.0, rows)
  }

  /** One more row of the running sum. */
  lemma ColumnSumNext(rows: seq<Row>, column: string, i: nat)
    requires i < |rows| && ColumnSum(rows[..i], column).Ok?
    ensures ColumnSum(rows[..i + 1], column) == SumNext(column, ColumnSum(rows[..i], column).value, rows[i])
  {
    ScanNext(SumStep(column), 0.0, rows, i);
  }

  /** Every row holds a number in `column`. */
  predicate NumericColumn(rows: seq<Row>, column: string)
  {
    forall i :: 0 <= i < |rows| ==> column in rows[i].fields && rows[i].fields[column].Num?
  }

  /** The sum of the numbers in `column`. */
  function ColumnTotal(rows: seq<Row>, column: string): real
    requires NumericColumn(rows, column)
  {
    if rows == [] then 0.0 else ColumnTotal(rows[..|rows| - 1], column) + rows[|rows| - 1].fields[column].x
  }

  /** The running sum succeeds exactly when every row holds a number, and is then their total;
      otherwise it fails on the first row that does not. */
  lemma {:induction false} ColumnSumTotal(rows: seq<Row>, column: string)
    ensures ColumnSum(rows, column).Ok? <==> NumericColumn(rows, column)
    ensures NumericColumn(rows, column) ==> ColumnSum(rows, column) == Ok(ColumnTotal(rows, column))
    ensures ColumnSum(rows, column).Err? ==>
              exists i :: 0 <= i < |rows| && NumberIn(rows[i], column) == Err(ColumnSum(rows, column).error)
                          && forall j :: 0 <= j < i ==> NumberIn(rows[j], column).Ok?
  {
    if rows != [] {
      var init, last := rows[..|rows| - 1], rows[|rows| - 1];
      ColumnSumTotal(init, column);
      assert forall i :: 0 <= i < |init| ==> init[i] == rows[i];
      if ColumnSum(init, column).Ok? && NumberIn(last, column).Err? {
        assert NumberIn(rows[|rows| - 1], column) == Err(ColumnSum(rows, column).error);
      }
    }
  }

  /** Sum's row for one group: the group-key fields of the first row, with `column` set to the
      sum of the rows' `column` values. A row is read in order: its `column` value, then (for
      the first row) its group-key fields. */
  function SumRow(groupKey: seq<string>, column: string, rows: seq<Row>): Result<Row>
  {
    if rows == [] then Ok(Set(EmptyRow, column, Num(0.0)))
    else
      var first :- NumberIn(rows[0], column);
      var p :- Pick(rows[0], groupKey);
      var total :- ColumnSum(rows, column);
      Ok(Set(p, column, Num(total)))
  }

  /** Sum succeeds on a non-empty group exactly when every row holds a number in `column` and
      the first row holds every group-key field; the row then holds those key fields and the
      total. */
  lemma SumRowMeaning(groupKey: seq<string>, column: string, rows: seq<Row>)
    ensures rows == [] ==> SumRow(groupKey, column, rows) == Ok(Set(EmptyRow, column, Num(0.0)))
    ensures rows != [] ==>
              (SumRow(groupKey, column, rows).Ok? <==>
                 NumericColumn(rows, column) && forall c :: c in groupKey ==> c in rows[0].fields)
    ensures rows != [] && SumRow(groupKey, column, rows).Ok? ==>
              var r := SumRow(groupKey, column, rows).value;
              && r.fields.Keys == (set c | c in groupKey) + {column}
              && r.fields[column] == Num(ColumnTotal(rows, column))
              && forall c :: c in groupKey && c != column ==> r.fields[c] == rows[0].fields[c]
  {
    ColumnSumTotal(rows, column);
  }

  /** The total of `f` over a sequence. */
  function Total<T>(f: T -> real, xs: seq<T>): real
  {
    if xs == [] then 0.0 else Total(f, xs[..|xs| - 1]) + f(xs[|xs| - 1])
  }

  /** Taking one element out of a total subtracts its value. */
  lemma {:induction false} TotalRemove<T>(f: T -> real, xs: seq<T>, j: nat)
    requires j < |xs|
    ensures Total(f, xs) == Total(f, xs[..j] + xs[j + 1..]) + f(xs[j])
  {
    var rest := xs[..j] + xs[j + 1..];
    if j == |xs| - 1 {
      assert rest == xs[..|xs| - 1];
    } else {
      var init := xs[..|xs| - 1];
      TotalRemove(f, init, j);
      assert init[..j] + init[j + 1..] == rest[..|rest| - 1];
      assert rest[|rest| - 1] == xs[|xs| - 1];
    }
  }

  /** A total does not depend on the order of the elements. */
  lemma {:induction false} TotalPermutation<T>(f: T -> real, xs: seq<T>, ys: seq<T>)
    requires multiset(xs) == multiset(ys)
    ensures Total(f, xs) == Total(f, ys)
    decreases |xs|
  {
    if xs == [] {
      assert |multiset(ys)| == 0;
    } else {
      var init, last := xs[..|xs| - 1], xs[|xs| - 1];
      assert last in multiset(ys);
      var j :| 0 <= j < |ys| && ys[j] == last;
      var rest := ys[..j] + ys[j + 1..];
      assert xs == init + [last];
      assert ys == ys[..j] + [last] + ys[j + 1..];
      assert multiset(xs) == multiset(init) + multiset{last};
      assert multiset(ys) == multiset(ys[..j]) + multiset{last} + multiset(ys[j + 1..]);
      assert multiset(rest) == multiset(ys[..j]) + multiset(ys[j + 1..]);
      assert multiset(init) == multiset(xs) - multiset{last};
      assert multiset(rest) == multiset(ys) - multiset{last};
      TotalRemove(f, ys, j);
      TotalPermutation(f, init, rest);
    }
  }

  /** The number in `column`, or 0 where there is none. */
  function NumberOr0(column: string): Row -> real
  {
    (row: Row) => if column in row.fields && row.fields[column].Num? then row.fields[column].x else 0.0
  }

  /** On an all-number column the column total is the generic total. */
  lemma {:induction false} ColumnTotalIsTotal(rows: seq<Row>, column: string)
    requires NumericColumn(rows, column)
    ensures ColumnTotal(rows, column) == Total(NumberOr0(column), rows)
  {
    if rows != [] {
      var init := rows[..|rows| - 1];
      assert forall i :: 0 <= i < |init| ==> init[i] == rows[i];
      ColumnTotalIsTotal(init, column);
    }
  }

  /** Reordering the rows keeps an all-number column all-number and keeps its total. */
  lemma ColumnTotalPermutation(rows: seq<Row>, rows': seq<Row>, column: string)
    requires multiset(rows) == multiset(rows') && NumericColumn(rows, column)
    ensures NumericColumn(rows', column)
    ensures ColumnTotal(rows, column) == ColumnTotal(rows', column)
  {
    forall i | 0 <= i < |rows'|
      ensures column in rows'[i].fields && rows'[i].fields[column].Num?
    {
      assert rows'[i] in multiset(rows);
      var k :| 0 <= k < |rows| && rows[k] == rows'[i];
    }
    ColumnTotalIsTotal(rows, column);
    ColumnTotalIsTotal(rows', column);
    TotalPermutation(NumberOr0(column), rows, rows');
  }

  /** Sum does not depend on the order of a group's rows: reordering them changes neither
      whether the running sum succeeds nor its value, and when Sum succeeds on both orders it
      emits the same row. */
  lemma SumOrderIndependent(groupKey: seq<string>, column: string, rows: seq<Row>, rows': seq<Row>)
    requires multiset(rows) == multiset(rows')
    requires forall r, s :: r in rows && s in rows ==> KeyOf(r, groupKey) == KeyOf(s, groupKey)
    ensures ColumnSum(rows, column).Ok? <==> ColumnSum(rows', column).Ok?
    ensures ColumnSum(rows, column).Ok? ==> ColumnSum(rows, column) == ColumnSum(rows', column)
    ensures SumRow(groupKey, column, rows).Ok? && SumRow(groupKey, column, rows').Ok? ==>
              SumRow(groupKey, column, rows) == SumRow(groupKey, column, rows')
  {
    ColumnSumTotal(rows, column);
    ColumnSumTotal(rows', column);
    if NumericColumn(rows, column) {
      ColumnTotalPermutation(rows, rows', column);
    } else if NumericColumn(rows', column) {
      ColumnTotalPermutation(rows', rows, column);
    }
    if rows != [] && SumRow(groupKey, column, rows).Ok? && SumRow(groupKey, column, rows').Ok? {
      assert rows'[0] in multiset(rows);
      assert rows[0] in rows;
      PickSame(rows[0], rows'[0], groupKey);
    } else if rows == [] {
      assert |multiset(rows')| == 0;
    }
  }

  /** Sum.__call__: an accumulator loop; the new row is rebuilt from the current row's
      group-key fields while it is still empty. */
  method SumCall(groupKey: seq<string>, column: string, rows: seq<Row>) returns (out: Result<Row>)
    ensures out == SumRow(groupKey, column, rows)
  {
    var newRow := EmptyRow;
    var rowSum: real := 0.0;
    for i := 0 to |rows|
      invariant ColumnSum(rows[..i], column).Ok? && ColumnSum(rows[..i], column).value == rowSum
      invariant i == 0 ==> newRow == EmptyRow
      invariant i > 0 ==> NumberIn(rows[0], column).Ok? && Pick(rows[0], groupKey) == Ok(newRow)
    {
      ColumnSumNext(rows, column, i);
      var x := NumberIn(rows[i], column);
      if x.Err? {
        ScanPrefixErr(SumStep(column), 0.0, rows, i + 1);
        return Err(x.error);
      }
      assert SumNext(column, rowSum, rows[i]).value == rowSum + x.value;
      rowSum := rowSum + x.value;
      if newRow.names == [] {
        if i > 0 {
          EmptyPick(rows[0], groupKey);
        }
        var p := Pick(rows[i], groupKey);
        if p.Err? {
          return Err(p.error);
        }
        newRow := p.value;
      }
    }
    assert rows[..|rows|] == rows;
    return Ok(Set(newRow, column, Num(rowSum)));
  }

  // ---------------------------------------------------------------------------------------
  // TermFrequency.

  /** The occurrence counts (`dct`) and the first row seen for each word (`new_rows`). */
  datatype TfState = TfState(counts: map<Value, nat>, firstRows: seq<Row>)

  /** One row of TermFrequency's first loop: count the word, and on its first occurrence
      record the row's group-key fields and the word. */
  function TfNext(groupKey: seq<string>, wordsColumn: string, st: TfState, row: Row): Result<TfState>
  {
    var w :- Field(row, wordsColumn);
    var c := (if w in st.counts then st.counts[w] else 0) + 1;
    if c == 1 then
      var p :- Pick(row, groupKey);
      Ok(TfState(st.counts[w := c], st.firstRows + [Set(p, wordsColumn, w)]))
    else Ok(TfState(st.counts[w := c], st.firstRows))
  }

  function TfStep(groupKey: seq<string>, wordsColumn: string): (TfState, Row) -> Result<TfState>
  {
    (st: TfState, row: Row) => TfNext(groupKey, wordsColumn, st, row)
  }

  /** The counts and first rows after the first loop has read the rows. */
  function TfScan(groupKey: seq<string>, wordsColumn: string, rows: seq<Row>): Result<TfState>
  {
    Scan(TfStep(groupKey, wordsColumn), TfState(map[], []), rows)
  }

  /** One more row of the first loop. */
  lemma TfScanNext(groupKey: seq<string>, wordsColumn: string, rows: seq<Row>, i: nat)
    requires i < |rows| && TfScan(groupKey, wordsColumn, rows[..i]).Ok?
    ensures TfScan(groupKey, wordsColumn, rows[..i + 1])
            == TfNext(groupKey, wordsColumn, TfScan(groupKey, wordsColumn, rows[..i]).value, rows[i])
  {
    ScanNext(TfStep(groupKey, wordsColumn), TfState(map[], []), rows, i);
  }

  /** The first rows, each with its word's number of occurrences divided by `total`. */
  function TfRatios(st: TfState, wordsColumn: string, resultColumn: string, total: nat): (r: seq<Row>)
    requires total > 0
    ensures |r| == |st.firstRows|
  {
    seq(|st.firstRows|, i requires 0 <= i < |st.firstRows| =>
          var w := Get(st.firstRows[i], wordsColumn);
          Set(st.firstRows[i], resultColumn,
              Num((if w in st.counts then st.counts[w] else 0) as real / total as real)))
  }

  /** TermFrequency's rows for one group: one per distinct word, with its share of the rows. */
  function TermFrequencyRows(groupKey: seq<string>, wordsColumn: string, resultColumn: string,
                             rows: seq<Row>): Result<seq<Row>>
  {
    var st :- TfScan(groupKey, wordsColumn, rows);
    if rows == [] then Ok([]) else Ok(TfRatios(st, wordsColumn, resultColumn, |rows|))
  }

  /** TermFrequency.__call__'s first loop: counts every word and records the first row of
      each. */
  method TfCount(groupKey: seq<string>, wordsColumn: string, rows: seq<Row>) returns (out: Result<TfState>)
    ensures out == TfScan(groupKey, wordsColumn, rows)
  {
    var dct: map<Value, nat> := map[];
    var newRows: seq<Row> := [];
    for i := 0 to |rows|
      invariant TfScan(groupKey, wordsColumn, rows[..i]).Ok?
      invariant TfScan(groupKey, wordsColumn, rows[..i]).value == TfState(dct, newRows)
    {
      TfScanNext(groupKey, wordsColumn, rows, i);
      var w := Field(rows[i], wordsColumn);
      if w.Err? {
        ScanPrefixErr(TfStep(groupKey, wordsColumn), TfState(map[], []), rows, i + 1);
        return Err(w.error);
      }
      var c := (if w.value in dct then dct[w.value] else 0) + 1;
      dct := dct[w.value := c];
      if c == 1 {
        var p := Pick(rows[i], groupKey);
        if p.Err? {
          ScanPrefixErr(TfStep(groupKey, wordsColumn), TfState(map[], []), rows, i + 1);
          return Err(p.error);
        }
        newRows := newRows + [Set(p.value, wordsColumn, w.value)];
      }
    }
    assert rows[..|rows|] == rows;
    return Ok(TfState(dct, newRows));
  }

  /** TermFrequency.__call__: the counting loop, then a loop writing each first row's share
      of the `count` rows. */
  method TermFrequencyCall(groupKey: seq<string>, wordsColumn: string, resultColumn: string,
                           rows: seq<Row>) returns (out: Result<seq<Row>>)
    ensures out == TermFrequencyRows(groupKey, wordsColumn, resultColumn, rows)
  {
    var count := |rows|;
    var st := TfCount(groupKey, wordsColumn, rows);
    if st.Err? {
      return Err(st.error);
    }
    if rows == [] {
      assert TfScan(groupKey, wordsColumn, rows) == Ok(TfState(map[], []));
    }
    var result := TfSharesCall(st.value, wordsColumn, resultColumn, count);
    return Ok(result);
  }

  /** TermFrequency.__call__'s second loop: each first row gets the share of its word among
      the `total` rows. With no rows there is no first row either. */
  method TfSharesCall(st: TfState, wordsColumn: string, resultColumn: string, total: nat)
    returns (result: seq<Row>)
    requires total > 0 || st.firstRows == []
    ensures total > 0 ==> result == TfRatios(st, wordsColumn, resultColumn, total)
    ensures total == 0 ==> result == []
  {
    var dct, newRows := st.counts, st.firstRows;
    result := [];
    for j := 0 to |newRows|
      invariant total > 0 ==> result == TfRatios(st, wordsColumn, resultColumn, total)[..j]
      invariant total == 0 ==> result == []
    {
      var word := Get(newRows[j], wordsColumn);
      var occurrences := if word in dct then dct[word] else 0;
      result := result + [Set(newRows[j], resultColumn, Num(occurrences as real / total as real))];
    }
  }

  /** The distinct values, in the order they first appear. */
  function Distinct(ws: seq<Value>): seq<Value>
  {
    if ws == [] then []
    else
      var d := Distinct(ws[..|ws| - 1]);
      if ws[|ws| - 1] in ws[..|ws| - 1] then d else d + [ws[|ws| - 1]]
  }

  /** Where `w` first appears. */
  function FirstIndex(ws: seq<Value>, w: Value): (i: nat)
    requires w in ws
    ensures i < |ws| && ws[i] == w
  {
    if w in ws[..|ws| - 1] then FirstIndex(ws[..|ws| - 1], w) else |ws| - 1
  }

  /** FirstIndex is the first appearance, and stays put when values are appended. */
  lemma {:induction false} FirstIndexFirst(ws: seq<Value>, w: Value)
    requires w in ws
    ensures w !in ws[..FirstIndex(ws, w)]
  {
    var init := ws[..|ws| - 1];
    if w in init {
      FirstIndexFirst(init, w);
      assert init[..FirstIndex(init, w)] == ws[..FirstIndex(ws, w)];
    }
  }

  /** Distinct lists each value of the sequence exactly once, in order of first appearance. */
  lemma {:induction false} DistinctProps(ws: seq<Value>)
    ensures forall w :: w in Distinct(ws) <==> w in ws
    ensures forall k, l :: 0 <= k < l < |Distinct(ws)| ==> Distinct(ws)[k] != Distinct(ws)[l]
    ensures forall k, l :: 0 <= k < l < |Distinct(ws)| ==>
              FirstIndex(ws, Distinct(ws)[k]) < FirstIndex(ws, Distinct(ws)[l])
  {
    if ws != [] {
      var init, last := ws[..|ws| - 1], ws[|ws| - 1];
      assert ws == init + [last];
      DistinctProps(init);
      var d := Distinct(init);
      forall x | x in init
        ensures FirstIndex(ws, x) == FirstIndex(init, x)
      {
      }
      if last !in init {
        assert FirstIndex(ws, last) == |ws| - 1;
        forall k | 0 <= k < |d|
          ensures FirstIndex(ws, d[k]) < |ws| - 1
        {
          assert d[k] in init;
        }
      }
    }
  }

  /** A first row of TermFrequency for `row`: its group-key fields and its word. */
  ghost predicate TfFirstRow(groupKey: seq<string>, wordsColumn: string, row: Row, fr: Row)
  {
    && fr.fields.Keys == (set c | c in groupKey) + {wordsColumn}
    && fr.fields[wordsColumn] == Get(row, wordsColumn)
    && forall c :: c in groupKey && c != wordsColumn ==> c in row.fields && fr.fields[c] == row.fields[c]
  }

  /** `frs` holds, for each value of `ds` in order, a first row built from the row of `rows`
      where that value first appears in the words column. */
  ghost predicate TfFirstRows(groupKey: seq<string>, wordsColumn: string, rows: seq<Row>, ds: seq<Value>, frs: seq<Row>)
  {
    var ws := ColumnValues(rows, wordsColumn);
    && |frs| == |ds|
    && forall k :: 0 <= k < |ds| ==>
         ds[k] in ws && TfFirstRow(groupKey, wordsColumn, rows[FirstIndex(ws, ds[k])], frs[k])
  }

  /** What TermFrequency's counting loop keeps true after reading `rows`: each word counted
      with its number of occurrences, and one first row per distinct word, in first-seen
      order, built from the row where the word first appears. */
  ghost predicate TfInv(groupKey: seq<string>, wordsColumn: string, rows: seq<Row>, st: TfState)
  {
    var ws := ColumnValues(rows, wordsColumn);
    && (forall w :: w in st.counts <==> w in ws)
    && (forall w :: w in st.counts ==> st.counts[w] == multiset(ws)[w])
    && TfFirstRows(groupKey, wordsColumn, rows, Distinct(ws), st.firstRows)
  }

  /** Every row holds the words column, and every row whose word appears for the first time
      holds every group-key field. */
  ghost predicate TfReadable(groupKey: seq<string>, wordsColumn: string, rows: seq<Row>)
  {
    forall i :: 0 <= i < |rows| ==>
      && wordsColumn in rows[i].fields
      && (Get(rows[i], wordsColumn) !in ColumnValues(rows, wordsColumn)[..i] ==>
            forall c :: c in groupKey ==> c in rows[i].fields)
  }

  lemma TfReadableAppend(groupKey: seq<string>, wordsColumn: string, rows: seq<Row>, row: Row)
    ensures TfReadable(groupKey, wordsColumn, rows + [row]) <==>
              && TfReadable(groupKey, wordsColumn, rows)
              && wordsColumn in row.fields
              && (Get(row, wordsColumn) !in ColumnValues(rows, wordsColumn) ==>
                    forall c :: c in groupKey ==> c in row.fields)
  {
    var all := rows + [row];
    var ws, ws' := ColumnValues(rows, wordsColumn), ColumnValues(all, wordsColumn);
    assert ws'[..|rows|] == ws;
    forall i | 0 <= i < |rows|
      ensures all[i] == rows[i] && ws'[..i] == ws[..i]
    {
    }
  }

  /** Appending a value: earlier values keep their first appearance, the new value counts
      once more, and it joins the distinct values exactly when it had not appeared. */
  lemma ValuesAppend(ws: seq<Value>, w: Value)
    ensures multiset(ws + [w]) == multiset(ws) + multiset{w}
    ensures Distinct(ws + [w]) == if w in ws then Distinct(ws) else Distinct(ws) + [w]
    ensures forall x :: x in ws ==> FirstIndex(ws + [w], x) == FirstIndex(ws, x)
    ensures w !in ws ==> FirstIndex(ws + [w], w) == |ws|
  {
    assert (ws + [w])[..|ws|] == ws;
  }

  /** A first row built from an earlier row stays the first row of its word after one more row. */
  lemma TfFirstRowKept(groupKey: seq<string>, wordsColumn: string, rows: seq<Row>, row: Row, x: Value, fr: Row)
    requires wordsColumn in row.fields
    requires x in ColumnValues(rows, wordsColumn)
    requires TfFirstRow(groupKey, wordsColumn, rows[FirstIndex(ColumnValues(rows, wordsColumn), x)], fr)
    ensures x in ColumnValues(rows + [row], wordsColumn)
    ensures TfFirstRow(groupKey, wordsColumn,
                       (rows + [row])[FirstIndex(ColumnValues(rows + [row], wordsColumn), x)], fr)
  {
    var ws, w := ColumnValues(rows, wordsColumn), row.fields[wordsColumn];
    assert ColumnValues(rows + [row], wordsColumn) == ws + [w];
    ValuesAppend(ws, w);
    var i := FirstIndex(ws, x);
    assert (rows + [row])[i] == rows[i];
  }

  /** The first row recorded for a new word is a first row of the row it comes from. */
  lemma TfFirstRowNew(groupKey: seq<string>, wordsColumn: string, row: Row, p: Row)
    requires wordsColumn in row.fields
    requires Pick(row, groupKey) == Ok(p)
    ensures TfFirstRow(groupKey, wordsColumn, row, Set(p, wordsColumn, row.fields[wordsColumn]))
  {
  }

  /** First rows stay first rows when one more row is read. */
  lemma TfFirstRowsKept(groupKey: seq<string>, wordsColumn: string, rows: seq<Row>, row: Row,
                        ds: seq<Value>, frs: seq<Row>)
    requires wordsColumn in row.fields
    requires TfFirstRows(groupKey, wordsColumn, rows, ds, frs)
    ensures TfFirstRows(groupKey, wordsColumn, rows + [row], ds, frs)
  {
    forall k | 0 <= k < |ds|
      ensures var ws' := ColumnValues(rows + [row], wordsColumn);
              ds[k] in ws' && TfFirstRow(groupKey, wordsColumn, (rows + [row])[FirstIndex(ws', ds[k])], frs[k])
    {
      TfFirstRowKept(groupKey, wordsColumn, rows, row, ds[k], frs[k]);
    }
  }

  /** One step of the counting loop keeps the first rows of its invariant. */
  lemma TfFirstRowsStep(groupKey: seq<string>, wordsColumn: string, rows: seq<Row>, st: TfState,
                        row: Row, st': TfState)
    requires TfInv(groupKey, wordsColumn, rows, st)
    requires wordsColumn in row.fields
    requires TfNext(groupKey, wordsColumn, st, row) == Ok(st')
    ensures TfFirstRows(groupKey, wordsColumn, rows + [row], Distinct(ColumnValues(rows + [row], wordsColumn)), st'.firstRows)
  {
    var all := rows + [row];
    var w := row.fields[wordsColumn];
    var ws, ws' := ColumnValues(rows, wordsColumn), ColumnValues(all, wordsColumn);
    assert ws' == ws + [w];
    ValuesAppend(ws, w);
    var ds := Distinct(ws);
    TfFirstRowsKept(groupKey, wordsColumn, rows, row, ds, st.firstRows);
    assert w in st.counts <==> w in ws;
    if w !in ws {
      var fr := Set(Pick(row, groupKey).value, wordsColumn, w);
      assert st'.firstRows == st.firstRows + [fr];
      assert FirstIndex(ws', w) == |rows| && all[|rows|] == row;
      TfFirstRowNew(groupKey, wordsColumn, row, Pick(row, groupKey).value);
      TfFirstRowsAppend(groupKey, wordsColumn, all, ds, st.firstRows, w, fr);
    } else {
      assert st'.firstRows == st.firstRows;
    }
  }

  /** One more value with its first row. */
  lemma TfFirstRowsAppend(groupKey: seq<string>, wordsColumn: string, rows: seq<Row>, ds: seq<Value>,
                          frs: seq<Row>, x: Value, fr: Row)
    requires TfFirstRows(groupKey, wordsColumn, rows, ds, frs)
    requires x in ColumnValues(rows, wordsColumn)
    requires TfFirstRow(groupKey, wordsColumn, rows[FirstIndex(ColumnValues(rows, wordsColumn), x)], fr)
    ensures TfFirstRows(groupKey, wordsColumn, rows, ds + [x], frs + [fr])
  {
  }

  /** One step of the counting loop keeps its invariant. */
  lemma TfStepKeeps(groupKey: seq<string>, wordsColumn: string, rows: seq<Row>, st: TfState, row: Row)
    requires TfInv(groupKey, wordsColumn, rows, st)
    ensures TfNext(groupKey, wordsColumn, st, row).Ok? <==>
              && wordsColumn in row.fields
              && (Get(row, wordsColumn) !in ColumnValues(rows, wordsColumn) ==>
                    forall c :: c in groupKey ==> c in row.fields)
    ensures TfNext(groupKey, wordsColumn, st, row).Ok? ==>
              TfInv(groupKey, wordsColumn, rows + [row], TfNext(groupKey, wordsColumn, st, row).value)
    ensures TfNext(groupKey, wordsColumn, st, row).Err? ==>
              var e := TfNext(groupKey, wordsColumn, st, row).error;
              e.KeyError? && (e.key == wordsColumn || e.key in groupKey)
  {
    if wordsColumn in row.fields {
      var w := row.fields[wordsColumn];
      var ws, ws' := ColumnValues(rows, wordsColumn), ColumnValues(rows + [row], wordsColumn);
      assert ws' == ws + [w];
      var c := (if w in st.counts then st.counts[w] else 0) + 1;
      assert c == 1 <==> w !in ws;
      var next := TfNext(groupKey, wordsColumn, st, row);
      if next.Ok? {
        assert next.value.counts == st.counts[w := c];
        CountsStep(st.counts, ws, w);
        TfFirstRowsStep(groupKey, wordsColumn, rows, st, row, next.value);
      }
    }
  }

  /** Counting one more value keeps every count equal to the value's number of occurrences. */
  lemma CountsStep(counts: map<Value, nat>, ws: seq<Value>, w: Value)
    requires forall x :: x in counts <==> x in ws
    requires forall x :: x in counts ==> counts[x] == multiset(ws)[x]
    ensures var counts' := counts[w := (if w in counts then counts[w] else 0) + 1];
            && (forall x :: x in counts' <==> x in ws + [w])
            && forall x :: x in counts' ==> counts'[x] == multiset(ws + [w])[x]
  {
    assert multiset(ws + [w]) == multiset(ws) + multiset{w};
  }

  /** TermFrequency's counting loop over a whole group: it succeeds exactly when the rows are
      readable, and then ends in a state satisfying its invariant; otherwise it raises a
      KeyError for the words column or a group-key field. */
  lemma {:induction false} TfScanMeaning(groupKey: seq<string>, wordsColumn: string, rows: seq<Row>)
    ensures TfScan(groupKey, wordsColumn, rows).Ok? <==> TfReadable(groupKey, wordsColumn, rows)
    ensures TfScan(groupKey, wordsColumn, rows).Ok? ==>
              TfInv(groupKey, wordsColumn, rows, TfScan(groupKey, wordsColumn, rows).value)
    ensures TfScan(groupKey, wordsColumn, rows).Err? ==>
              var e := TfScan(groupKey, wordsColumn, rows).error;
              e.KeyError? && (e.key == wordsColumn || e.key in groupKey)
  {
    if rows == [] {
      assert TfScan(groupKey, wordsColumn, rows) == Ok(TfState(map[], []));
    } else {
      var init, last := rows[..|rows| - 1], rows[|rows| - 1];
      assert rows == init + [last];
      TfScanMeaning(groupKey, wordsColumn, init);
      TfReadableAppend(groupKey, wordsColumn, init, last);
      if TfScan(groupKey, wordsColumn, init).Ok? {
        var st := TfScan(groupKey, wordsColumn, init).value;
        assert TfScan(groupKey, wordsColumn, rows) == TfNext(groupKey, wordsColumn, st, last);
        TfStepKeeps(groupKey, wordsColumn, init, st, last);
      }
    }
  }

  /** TermFrequency on one group: it succeeds exactly when the rows are readable (otherwise a
      KeyError for the words column or a group-key field); it then yields one row per distinct
      word, in first-seen order, holding the group-key fields of the row where the word first
      appears, the word, and the word's share of the group's rows. */
  lemma TermFrequencyCorrect(groupKey: seq<string>, wordsColumn: string, resultColumn: string, rows: seq<Row>)
    ensures TermFrequencyRows(groupKey, wordsColumn, resultColumn, rows).Ok? <==>
              TfReadable(groupKey, wordsColumn, rows)
    ensures TermFrequencyRows(groupKey, wordsColumn, resultColumn, rows).Err? ==>
              var e := TermFrequencyRows(groupKey, wordsColumn, resultColumn, rows).error;
              e.KeyError? && (e.key == wordsColumn || e.key in groupKey)
    ensures TermFrequencyRows(groupKey, wordsColumn, resultColumn, rows).Ok? && rows != [] ==>
              var out := TermFrequencyRows(groupKey, wordsColumn, resultColumn, rows).value;
              && |out| == |Distinct(ColumnValues(rows, wordsColumn))|
              && forall k :: 0 <= k < |out| ==> TfRatioRow(groupKey, wordsColumn, resultColumn, rows, k, out[k])
    ensures TermFrequencyRows(groupKey, wordsColumn, resultColumn, rows).Ok? && rows == [] ==>
              TermFrequencyRows(groupKey, wordsColumn, resultColumn, rows).value == []
  {
    TfScanMeaning(groupKey, wordsColumn, rows);
    if TfScan(groupKey, wordsColumn, rows).Ok? && rows != [] {
      var st := TfScan(groupKey, wordsColumn, rows).value;
      var ws := ColumnValues(rows, wordsColumn);
      var ds := Distinct(ws);
      var out := TfRatios(st, wordsColumn, resultColumn, |rows|);
      assert TermFrequencyRows(groupKey, wordsColumn, resultColumn, rows).value == out;
      forall k | 0 <= k < |out|
        ensures TfRatioRow(groupKey, wordsColumn, resultColumn, rows, k, out[k])
      {
        TfRatiosRow(groupKey, wordsColumn, resultColumn, rows, st, k);
      }
    }
  }

  /** The k-th row TermFrequency yields: the k-th distinct word's first row, with its share. */
  ghost predicate TfRatioRow(groupKey: seq<string>, wordsColumn: string, resultColumn: string,
                             rows: seq<Row>, k: nat, out: Row)
    requires rows != []
  {
    var ws := ColumnValues(rows, wordsColumn);
    var ds := Distinct(ws);
    && k < |ds| && ds[k] in ws
    && out.fields.Keys == (set c | c in groupKey) + {wordsColumn, resultColumn}
    && out.fields[resultColumn] == Num(multiset(ws)[ds[k]] as real / |rows| as real)
    && (resultColumn != wordsColumn ==> out.fields[wordsColumn] == ds[k])
    && forall c :: c in groupKey && c != wordsColumn && c != resultColumn ==>
         c in rows[FirstIndex(ws, ds[k])].fields && out.fields[c] == rows[FirstIndex(ws, ds[k])].fields[c]
  }

  lemma TfRatiosRow(groupKey: seq<string>, wordsColumn: string, resultColumn: string, rows: seq<Row>,
                    st: TfState, k: nat)
    requires rows != [] && TfInv(groupKey, wordsColumn, rows, st) && k < |st.firstRows|
    ensures TfRatioRow(groupKey, wordsColumn, resultColumn, rows, k, TfRatios(st, wordsColumn, resultColumn, |rows|)[k])
  {
    var ws := ColumnValues(rows, wordsColumn);
    var ds := Distinct(ws);
    var fr := st.firstRows[k];
    assert TfFirstRow(groupKey, wordsColumn, rows[FirstIndex(ws, ds[k])], fr);
    assert Get(fr, wordsColumn) == ds[k] && ds[k] in st.counts;
  }

  // ---------------------------------------------------------------------------------------
  // TopN.

  /** The rows kept so far (`new_rows`) and `min_tmp`, None until the first row. */
  datatype TopState = TopState(kept: seq<Row>, minTmp: Value)

  /** The `column` values of the rows. */
  function ColumnValues(rows: seq<Row>, column: string): (vs: seq<Value>)
    ensures |vs| == |rows|
    ensures forall i :: 0 <= i < |rows| ==> vs[i] == Get(rows[i], column)
  {
    seq(|rows|, i requires 0 <= i < |rows| => Get(rows[i], column))
  }

  /** Python's `min`: the first value no later value is below, comparing each value with the
      least so far. */
  function MinValue(vs: seq<Value>): Result<Value>
    requires vs != []
  {
    if |vs| == 1 then Ok(vs[0])
    else
      var m :- MinValue(vs[..|vs| - 1]);
      var below :- ValueLt(vs[|vs| - 1], m);
      Ok(if below then vs[|vs| - 1] else m)
  }

  /** `new_rows.remove([row for row in new_rows if row[column] == v][0])`: drops the first row
      whose `column` value is `v`; an IndexError when there is none. */
  function RemoveFirstWith(rows: seq<Row>, column: string, v: Value): Result<seq<Row>>
  {
    if rows == [] then Err(IndexError)
    else
      var x :- Field(rows[0], column);
      if x == v then Ok(rows[1..])
      else
        var rest :- RemoveFirstWith(rows[1..], column, v);
        Ok([rows[0]] + rest)
  }

  /** One row of TopN's loop: the row displaces a row holding the current minimum when it is
      above it and `n` rows are kept, and is simply added while fewer than `n` are kept. */
  function TopNNext(column: string, n: int, st: TopState, row: Row): Result<TopState>
  {
    var v :- Field(row, column);
    var minTmp := if st.minTmp.Null? then v else st.minTmp;
    var above :- ValueLt(minTmp, v);
    if (above && |st.kept| == n) || |st.kept| < n then
      var rest :- (if above && |st.kept| == n then RemoveFirstWith(st.kept, column, minTmp) else Ok(st.kept));
      var kept := rest + [row];
      var m :- MinValue(ColumnValues(kept, column));
      Ok(TopState(kept, m))
    else Ok(TopState(st.kept, minTmp))
  }

  function TopNStep(column: string, n: int): (TopState, Row) -> Result<TopState>
  {
    (st: TopState, row: Row) => TopNNext(column, n, st, row)
  }

  /** `sort(key=lambda x: x[column], reverse=True)`: `a` goes before `b` when b's value is
      below a's. The kept rows all hold `column`. */
  function DescendingBy(column: string): Order<Row>
  {
    (a: Row, b: Row) => ValueLt(Get(b, column), Get(a, column))
  }

  /** The state after TopN's loop has read the rows. */
  function TopNScan(column: string, n: int, rows: seq<Row>): Result<TopState>
  {
    Scan(TopNStep(column, n), TopState([], Null), rows)
  }

  /** One more row of TopN's loop. */
  lemma TopNScanNext(column: string, n: int, rows: seq<Row>, i: nat)
    requires i < |rows| && TopNScan(column, n, rows[..i]).Ok?
    ensures TopNScan(column, n, rows[..i + 1]) == TopNNext(column, n, TopNScan(column, n, rows[..i]).value, rows[i])
  {
    ScanNext(TopNStep(column, n), TopState([], Null), rows, i);
  }

  /** TopN's rows for one group: the kept rows, largest value first. */
  function TopNRows(column: string, n: int, rows: seq<Row>): Result<seq<Row>>
  {
    var st :- TopNScan(column, n, rows);
    SortWith(st.kept, DescendingBy(column))
  }

  /** TopN.__call__. */
  method TopNCall(column: string, n: int, rows: seq<Row>) returns (out: Result<seq<Row>>)
    ensures out == TopNRows(column, n, rows)
  {
    var newRows: seq<Row> := [];
    var minTmp := Null;
    for i := 0 to |rows|
      invariant TopNScan(column, n, rows[..i]).Ok?
      invariant TopNScan(column, n, rows[..i]).value == TopState(newRows, minTmp)
    {
      TopNScanNext(column, n, rows, i);
      var v := Field(rows[i], column);
      if v.Err? {
        ScanPrefixErr(TopNStep(column, n), TopState([], Null), rows, i + 1);
        return Err(v.error);
      }
      if minTmp.Null? {
        minTmp := v.value;
      }
      var above := ValueLt(minTmp, v.value);
      if above.Err? {
        ScanPrefixErr(TopNStep(column, n), TopState([], Null), rows, i + 1);
        return Err(above.error);
      }
      if (above.value && |newRows| == n) || |newRows| < n {
        if above.value && |newRows| == n {
          var rest := RemoveFirstWith(newRows, column, minTmp);
          if rest.Err? {
            ScanPrefixErr(TopNStep(column, n), TopState([], Null), rows, i + 1);
            return Err(rest.error);
          }
          newRows := rest.value;
        }
        newRows := newRows + [rows[i]];
        var m := MinValue(ColumnValues(newRows, column));
        if m.Err? {
          ScanPrefixErr(TopNStep(column, n), TopState([], Null), rows, i + 1);
          return Err(m.error);
        }
        minTmp := m.value;
      }
    }
    assert rows[..|rows|] == rows;
    out := SortWith(newRows, DescendingBy(column));
  }

  /** `a <= b <= c` for values of one kind. */
  lemma NotBelowTransitive(a: Value, b: Value, c: Value)
    requires Kind(a) == Kind(b) == Kind(c) != 0
    requires !ValueBelow(b, a) && !ValueBelow(c, b)
    ensures !ValueBelow(c, a)
  {
    ValueLtTotal(a, b);
    ValueLtTotal(b, c);
    ValueLtTotal(a, c);
    if ValueBelow(a, b) && ValueBelow(b, c) {
      ValueBelowTransitive(a, b, c);
    }
  }

  /** Python's `min` over values of one kind succeeds, and yields one of them that none is
      below. */
  lemma {:induction false} MinValueLeast(vs: seq<Value>, k: nat)
    requires vs != [] && k != 0
    requires forall i :: 0 <= i < |vs| ==> Kind(vs[i]) == k
    ensures MinValue(vs).Ok? && MinValue(vs).value in vs
    ensures forall i :: 0 <= i < |vs| ==> !ValueBelow(vs[i], MinValue(vs).value)
  {
    if |vs| > 1 {
      var init, last := vs[..|vs| - 1], vs[|vs| - 1];
      MinValueLeast(init, k);
      var m := MinValue(init).value;
      ValueLtTotal(last, m);
      assert MinValue(vs) == Ok(if ValueBelow(last, m) then last else m);
      assert MinValue(vs).value in vs by {
        if !ValueBelow(last, m) {
          var q :| 0 <= q < |init| && init[q] == m;
          assert vs[q] == m;
        }
      }
      forall i | 0 <= i < |vs|
        ensures !ValueBelow(vs[i], MinValue(vs).value)
      {
        if i < |vs| - 1 {
          assert vs[i] == init[i];
          if ValueBelow(last, m) && ValueBelow(vs[i], last) {
            ValueBelowTransitive(vs[i], last, m);
          }
        } else {
          ValueLtTotal(last, last);
        }
      }
    } else {
      ValueLtTotal(vs[0], vs[0]);
    }
  }

  /** Where RemoveFirstWith removes: the first row whose `column` value is `v`. */
  lemma {:induction false} RemoveFirstWithShape(rows: seq<Row>, column: string, v: Value) returns (p: nat)
    requires RemoveFirstWith(rows, column, v).Ok?
    ensures p < |rows| && column in rows[p].fields && rows[p].fields[column] == v
    ensures forall q :: 0 <= q < p ==> column in rows[q].fields && rows[q].fields[column] != v
    ensures RemoveFirstWith(rows, column, v).value == rows[..p] + rows[p + 1..]
  {
    if rows[0].fields[column] == v {
      p := 0;
    } else {
      var rest := rows[1..];
      var p' := RemoveFirstWithShape(rest, column, v);
      p := p' + 1;
      ConsRemoveAt(rows, p');
      forall q | 0 <= q < p
        ensures column in rows[q].fields && rows[q].fields[column] != v
      {
        if q > 0 {
          assert rows[q] == rest[q - 1];
        }
      }
    }
  }

  /** RemoveFirstWith succeeds when every row holds `column` and one of them holds `v`. */
  lemma RemoveFirstWithSucceeds(rows: seq<Row>, column: string, v: Value)
    requires forall i :: 0 <= i < |rows| ==> column in rows[i].fields
    requires v in ColumnValues(rows, column)
    ensures RemoveFirstWith(rows, column, v).Ok?
  {
    var vs := ColumnValues(rows, column);
    var i :| 0 <= i < |vs| && vs[i] == v;
    RemoveFirstWithAt(rows, column, v, i);
  }

  /** The same, given a row that holds `v`. */
  lemma {:induction false} RemoveFirstWithAt(rows: seq<Row>, column: string, v: Value, i: nat)
    requires forall j :: 0 <= j < |rows| ==> column in rows[j].fields
    requires i < |rows| && rows[i].fields[column] == v
    ensures RemoveFirstWith(rows, column, v).Ok?
  {
    if rows[0].fields[column] != v {
      RemoveFirstWithAt(rows[1..], column, v, i - 1);
    }
  }

  /** Removing at p + 1 is keeping the head and removing at p in the tail. */
  lemma ConsRemoveAt<T>(s: seq<T>, p: nat)
    requires p + 1 < |s|
    ensures [s[0]] + (s[1..][..p] + s[1..][p + 1..]) == s[..p + 1] + s[p + 2..]
  {
    assert s[..p + 1] == [s[0]] + s[1..][..p];
    assert s[p + 2..] == s[1..][p + 1..];
  }

  /** The sequence without its element at `p`. */
  lemma RemoveAt<T>(s: seq<T>, p: nat) returns (r: seq<T>)
    requires p < |s|
    ensures r == s[..p] + s[p + 1..] && |r| == |s| - 1
    ensures forall i :: 0 <= i < p ==> r[i] == s[i]
    ensures forall i :: p <= i < |r| ==> r[i] == s[i + 1]
    ensures multiset(s) == multiset(r) + multiset{s[p]}
  {
    r := s[..p] + s[p + 1..];
    assert s == s[..p] + [s[p]] + s[p + 1..];
  }

  /** A sub-multiset of the same size is the whole multiset. */
  lemma SubMultisetSameSize<T>(a: multiset<T>, b: multiset<T>)
    requires a <= b && |a| == |b|
    ensures a == b
  {
    var d := b - a;
    assert b == a + d;
  }

  /** Every row holds `column`, with a value of kind `k`. */
  ghost predicate ColumnOfKind(rows: seq<Row>, column: string, k: nat)
  {
    forall i :: 0 <= i < |rows| ==> column in rows[i].fields && Kind(rows[i].fields[column]) == k
  }

  /** What TopN's loop keeps true after reading `seen`, for `n >= 1`: as many rows kept as
      fit; the kept rows drawn from the rows read; `min_tmp` the least kept value; and no row
      left out above it. */
  ghost predicate TopInv(column: string, n: int, seen: seq<Row>, st: TopState)
  {
    && |st.kept| == (if |seen| < n then |seen| else n)
    && multiset(st.kept) <= multiset(seen)
    && (seen == [] ==> st.minTmp == Null)
    && (seen != [] ==>
          && Kind(st.minTmp) != 0
          && ColumnOfKind(seen, column, Kind(st.minTmp))
          && ColumnOfKind(st.kept, column, Kind(st.minTmp))
          && st.minTmp in ColumnValues(st.kept, column)
          && (forall i :: 0 <= i < |st.kept| ==> !ValueBelow(st.kept[i].fields[column], st.minTmp))
          && (forall r :: multiset(seen)[r] > multiset(st.kept)[r] ==> !ValueBelow(st.minTmp, Get(r, column))))
  }

  /** The rows all hold `column`, with values of one kind that Python can order (numbers, or
      strings). */
  ghost predicate UniformColumn(rows: seq<Row>, column: string)
  {
    rows == [] || (Kind(Get(rows[0], column)) != 0 && ColumnOfKind(rows, column, Kind(Get(rows[0], column))))
  }

  /** One more row of a column of one kind. */
  lemma ColumnOfKindAppend(rows: seq<Row>, row: Row, column: string, k: nat)
    requires ColumnOfKind(rows, column, k)
    requires column in row.fields && Kind(row.fields[column]) == k
    ensures ColumnOfKind(rows + [row], column, k)
  {
    forall i | 0 <= i < |rows| + 1
      ensures column in (rows + [row])[i].fields && Kind((rows + [row])[i].fields[column]) == k
    {
      if i < |rows| {
        assert (rows + [row])[i] == rows[i];
      }
    }
  }

  /** A row added while fewer than `n` rows are kept. */
  lemma TopNAddKeeps(column: string, n: int, seen: seq<Row>, st: TopState, row: Row)
    requires n >= 1 && TopInv(column, n, seen, st) && |st.kept| < n
    requires column in row.fields && Kind(row.fields[column]) != 0
    requires seen != [] ==> Kind(row.fields[column]) == Kind(st.minTmp)
    ensures MinValue(ColumnValues(st.kept + [row], column)).Ok?
    ensures TopInv(column, n, seen + [row],
                   TopState(st.kept + [row], MinValue(ColumnValues(st.kept + [row], column)).value))
  {
    var k := Kind(row.fields[column]);
    var kept := st.kept + [row];
    var vs := ColumnValues(kept, column);
    assert |seen| < n;
    SubMultisetSameSize(multiset(st.kept), multiset(seen));
    assert seen + [row] == seen + [row];
    assert multiset(kept) == multiset(seen + [row]);
    ColumnOfKindAppend(st.kept, row, column, k);
    ColumnOfKindAppend(seen, row, column, k);
    MinValueLeast(vs, k);
    var m := MinValue(vs).value;
    var j :| 0 <= j < |vs| && vs[j] == m;
    assert Kind(m) == k;
  }

  /** Removing the first kept row holding the minimum succeeds; the rows left are kept rows,
      none below the minimum. */
  lemma TopNRemoveMin(column: string, n: int, seen: seq<Row>, st: TopState) returns (gone: Row)
    requires n >= 1 && TopInv(column, n, seen, st) && seen != []
    ensures RemoveFirstWith(st.kept, column, st.minTmp).Ok?
    ensures var rest := RemoveFirstWith(st.kept, column, st.minTmp).value;
            && |rest| == |st.kept| - 1
            && multiset(st.kept) == multiset(rest) + multiset{gone}
            && Get(gone, column) == st.minTmp
            && ColumnOfKind(rest, column, Kind(st.minTmp))
            && forall i :: 0 <= i < |rest| ==> !ValueBelow(rest[i].fields[column], st.minTmp)
  {
    RemoveFirstWithSucceeds(st.kept, column, st.minTmp);
    var p := RemoveFirstWithShape(st.kept, column, st.minTmp);
    var rest := RemoveAt(st.kept, p);
    gone := st.kept[p];
    forall i | 0 <= i < |rest|
      ensures column in rest[i].fields && Kind(rest[i].fields[column]) == Kind(st.minTmp)
      ensures !ValueBelow(rest[i].fields[column], st.minTmp)
    {
      if i >= p {
        assert rest[i] == st.kept[i + 1];
      }
    }
  }

  /** A row above the minimum while `n` rows are kept: it displaces the first row holding the
      minimum. */
  lemma TopNReplaceKeeps(column: string, n: int, seen: seq<Row>, st: TopState, row: Row)
    requires n >= 1 && TopInv(column, n, seen, st) && seen != [] && |st.kept| == n
    requires column in row.fields && ValueBelow(st.minTmp, row.fields[column])
    ensures RemoveFirstWith(st.kept, column, st.minTmp).Ok?
    ensures var kept := RemoveFirstWith(st.kept, column, st.minTmp).value + [row];
            && MinValue(ColumnValues(kept, column)).Ok?
            && TopInv(column, n, seen + [row], TopState(kept, MinValue(ColumnValues(kept, column)).value))
  {
    var m0 := st.minTmp;
    var k := Kind(m0);
    var v := row.fields[column];
    ValueLtTotal(m0, v);
    var gone := TopNRemoveMin(column, n, seen, st);
    var rest := RemoveFirstWith(st.kept, column, m0).value;
    var kept := rest + [row];
    var seen' := seen + [row];
    assert multiset(kept) == multiset(rest) + multiset{row};
    assert multiset(seen') == multiset(seen) + multiset{row};
    ColumnOfKindAppend(rest, row, column, k);
    ColumnOfKindAppend(seen, row, column, k);
    var m := ReplacedMin(column, rest, row, m0);
    TopNReplaceDiscards(column, seen, st, row, gone, rest, m);
    assert multiset(kept) <= multiset(seen') by {
      assert multiset(rest) <= multiset(st.kept);
    }
    assert |kept| == n && ColumnOfKind(kept, column, k) && ColumnOfKind(seen', column, k);
    assert m in ColumnValues(kept, column);
  }

  /** The minimum after a row above the old minimum `m0` joins rows none of which is below
      `m0`: it has their kind, is not below `m0`, and no kept row is below it. */
  lemma ReplacedMin(column: string, rest: seq<Row>, row: Row, m0: Value) returns (m: Value)
    requires Kind(m0) != 0 && ColumnOfKind(rest, column, Kind(m0)) && column in row.fields
    requires forall i :: 0 <= i < |rest| ==> !ValueBelow(rest[i].fields[column], m0)
    requires ValueBelow(m0, row.fields[column])
    ensures MinValue(ColumnValues(rest + [row], column)) == Ok(m)
    ensures Kind(m) == Kind(m0) && !ValueBelow(m, m0) && m in ColumnValues(rest + [row], column)
    ensures forall i :: 0 <= i < |rest| + 1 ==> !ValueBelow((rest + [row])[i].fields[column], m)
  {
    var kept := rest + [row];
    ValueLtTotal(m0, row.fields[column]);
    ColumnOfKindAppend(rest, row, column, Kind(m0));
    var vs := ColumnValues(kept, column);
    MinValueLeast(vs, Kind(m0));
    m := MinValue(vs).value;
    var j :| 0 <= j < |vs| && vs[j] == m;
    if j < |rest| {
      assert kept[j] == rest[j];
    } else {
      ValueLtTotal(m0, m);
    }
    forall i | 0 <= i < |kept|
      ensures !ValueBelow(kept[i].fields[column], m)
    {
      assert vs[i] == kept[i].fields[column];
    }
  }

  /** After a replacement the rows left out are those left out before and the displaced row,
      none of them above the new minimum `m`. */
  lemma TopNReplaceDiscards(column: string, seen: seq<Row>, st: TopState, row: Row, gone: Row,
                            rest: seq<Row>, m: Value)
    requires Kind(st.minTmp) != 0 && ColumnOfKind(seen, column, Kind(st.minTmp))
    requires forall r :: multiset(seen)[r] > multiset(st.kept)[r] ==> !ValueBelow(st.minTmp, Get(r, column))
    requires multiset(st.kept) == multiset(rest) + multiset{gone} && Get(gone, column) == st.minTmp
    requires Kind(m) == Kind(st.minTmp) && !ValueBelow(m, st.minTmp)
    ensures forall r :: multiset(seen + [row])[r] > multiset(rest + [row])[r] ==> !ValueBelow(m, Get(r, column))
  {
    assert multiset(seen + [row]) == multiset(seen) + multiset{row};
    assert multiset(rest + [row]) == multiset(rest) + multiset{row};
    forall r | multiset(seen + [row])[r] > multiset(rest + [row])[r]
      ensures !ValueBelow(m, Get(r, column))
    {
      if r != gone {
        assert multiset(seen)[r] > multiset(st.kept)[r];
        assert r in seen;
        var i :| 0 <= i < |seen| && seen[i] == r;
        NotBelowTransitive(Get(r, column), st.minTmp, m);
      }
    }
  }

  /** A row not above the minimum while `n` rows are kept is left out. */
  lemma TopNSkipKeeps(column: string, n: int, seen: seq<Row>, st: TopState, row: Row)
    requires n >= 1 && TopInv(column, n, seen, st) && seen != [] && |st.kept| == n
    requires column in row.fields && Kind(row.fields[column]) == Kind(st.minTmp)
    requires !ValueBelow(st.minTmp, row.fields[column])
    ensures TopInv(column, n, seen + [row], st)
  {
    var seen' := seen + [row];
    assert multiset(seen') == multiset(seen) + multiset{row};
    ColumnOfKindAppend(seen, row, column, Kind(st.minTmp));
  }

  /** One step of TopN's loop keeps the invariant; it fails exactly when the row lacks
      `column` (a KeyError) or holds a value of another kind than the rows before, or None
      (a TypeError). */
  lemma TopNStepKeeps(column: string, n: int, seen: seq<Row>, st: TopState, row: Row)
    requires n >= 1 && TopInv(column, n, seen, st)
    ensures TopNNext(column, n, st, row).Ok? <==>
              && column in row.fields && Kind(row.fields[column]) != 0
              && (seen != [] ==> Kind(row.fields[column]) == Kind(st.minTmp))
    ensures TopNNext(column, n, st, row).Ok? ==> TopInv(column, n, seen + [row], TopNNext(column, n, st, row).value)
    ensures TopNNext(column, n, st, row).Err? ==>
              TopNNext(column, n, st, row).error == (if column in row.fields then TypeError else KeyError(column))
  {
    if column in row.fields {
      var v := row.fields[column];
      var m0 := if st.minTmp.Null? then v else st.minTmp;
      ValueLtTotal(m0, v);
      if ValueLt(m0, v).Ok? {
        if ValueBelow(m0, v) && |st.kept| == n {
          TopNReplaceKeeps(column, n, seen, st, row);
          var kept := RemoveFirstWith(st.kept, column, m0).value + [row];
          assert TopNNext(column, n, st, row) == Ok(TopState(kept, MinValue(ColumnValues(kept, column)).value));
        } else if |st.kept| < n {
          TopNAddKeeps(column, n, seen, st, row);
          var kept := st.kept + [row];
          assert TopNNext(column, n, st, row) == Ok(TopState(kept, MinValue(ColumnValues(kept, column)).value));
        } else {
          TopNSkipKeeps(column, n, seen, st, row);
          assert TopNNext(column, n, st, row) == Ok(st);
        }
      }
    }
  }

  /** A column stays uniform when a row with a value of the same kind is added. */
  lemma UniformColumnAppend(rows: seq<Row>, row: Row, column: string)
    ensures UniformColumn(rows + [row], column) <==>
              && UniformColumn(rows, column)
              && column in row.fields && Kind(row.fields[column]) != 0
              && (rows != [] ==> Kind(row.fields[column]) == Kind(Get(rows[0], column)))
  {
    var all := rows + [row];
    if rows != [] {
      assert all[0] == rows[0];
      if UniformColumn(all, column) {
        assert all[|rows|] == row;
        forall i | 0 <= i < |rows|
          ensures column in rows[i].fields && Kind(rows[i].fields[column]) == Kind(Get(rows[0], column))
        {
          assert all[i] == rows[i];
        }
      }
      if UniformColumn(rows, column) && column in row.fields && Kind(row.fields[column]) == Kind(Get(rows[0], column)) {
        ColumnOfKindAppend(rows, row, column, Kind(Get(rows[0], column)));
      }
    } else {
      assert all == [row];
    }
  }

  /** TopN's loop over a whole group, for `n >= 1`: it succeeds exactly when every row holds
      `column` with values of one orderable kind, and then ends in a state satisfying the
      invariant; otherwise it raises a KeyError or a TypeError. */
  lemma {:induction false} TopNScanKeeps(column: string, n: int, rows: seq<Row>)
    requires n >= 1
    ensures TopNScan(column, n, rows).Ok? <==> UniformColumn(rows, column)
    ensures TopNScan(column, n, rows).Ok? ==> TopInv(column, n, rows, TopNScan(column, n, rows).value)
    ensures TopNScan(column, n, rows).Err? ==>
              TopNScan(column, n, rows).error == KeyError(column) || TopNScan(column, n, rows).error == TypeError
  {
    if rows != [] {
      var init, last := rows[..|rows| - 1], rows[|rows| - 1];
      assert rows == init + [last];
      TopNScanKeeps(column, n, init);
      UniformColumnAppend(init, last, column);
      if TopNScan(column, n, init).Ok? {
        var st := TopNScan(column, n, init).value;
        assert TopNScan(column, n, rows) == TopNNext(column, n, st, last);
        TopNStepKeeps(column, n, init, st, last);
        if init != [] {
          assert Kind(init[0].fields[column]) == Kind(st.minTmp);
        }
      }
    }
  }

  /** TopN's order is asymmetric. */
  lemma DescendingAsymmetric(column: string)
    ensures Asymmetric(DescendingBy(column))
  {
    forall a: Row, b: Row | DescendingBy(column)(a, b) == Ok(true)
      ensures DescendingBy(column)(b, a) == Ok(false)
    {
      ValueLtTotal(Get(b, column), Get(a, column));
    }
  }

  /** TopN, for `n >= 1`, on one group: it succeeds exactly when every row holds `column` with
      values of one orderable kind (otherwise a KeyError or a TypeError); it then yields
      min(n, |rows|) of the rows, largest value first, and no row it leaves out has a value
      above that of a row it yields. */
  lemma TopNCorrect(column: string, n: int, rows: seq<Row>)
    requires n >= 1
    ensures TopNRows(column, n, rows).Ok? <==> UniformColumn(rows, column)
    ensures TopNRows(column, n, rows).Err? ==>
              TopNRows(column, n, rows).error == KeyError(column) || TopNRows(column, n, rows).error == TypeError
    ensures TopNRows(column, n, rows).Ok? ==>
              var out := TopNRows(column, n, rows).value;
              && |out| == (if |rows| < n then |rows| else n)
              && multiset(out) <= multiset(rows)
              && Sorted(out, DescendingBy(column))
              && forall r, i :: 0 <= i < |out| && multiset(rows)[r] > multiset(out)[r] ==>
                                 !ValueBelow(Get(out[i], column), Get(r, column))
  {
    TopNScanKeeps(column, n, rows);
    if TopNScan(column, n, rows).Ok? {
      TopNSortKept(column, n, rows, TopNScan(column, n, rows).value);
    }
  }

  /** Sorting what the scan kept: it succeeds, and yields the kept rows largest value first. */
  lemma TopNSortKept(column: string, n: int, rows: seq<Row>, st: TopState)
    requires TopInv(column, n, rows, st)
    ensures SortWith(st.kept, DescendingBy(column)).Ok?
    ensures var out := SortWith(st.kept, DescendingBy(column)).value;
            && |out| == (if |rows| < n then |rows| else n)
            && multiset(out) <= multiset(rows)
            && Sorted(out, DescendingBy(column))
            && forall r, i :: 0 <= i < |out| && multiset(rows)[r] > multiset(out)[r] ==>
                                !ValueBelow(Get(out[i], column), Get(r, column))
  {
    KeptComparable(column, n, rows, st);
    SortWithSucceeds(st.kept, DescendingBy(column));
    var out := SortWith(st.kept, DescendingBy(column)).value;
    SortWithPermutes(st.kept, DescendingBy(column));
    DescendingAsymmetric(column);
    SortWithSorted(st.kept, DescendingBy(column));
    LeftOutNotAbove(column, n, rows, st, out);
  }

  /** No row left out has a value above that of a row kept, in whatever order the kept rows
      come. */
  lemma LeftOutNotAbove(column: string, n: int, rows: seq<Row>, st: TopState, out: seq<Row>)
    requires TopInv(column, n, rows, st)
    requires multiset(out) == multiset(st.kept)
    ensures forall r, i :: 0 <= i < |out| && multiset(rows)[r] > multiset(out)[r] ==>
                             !ValueBelow(Get(out[i], column), Get(r, column))
  {
    forall r, i | 0 <= i < |out| && multiset(rows)[r] > multiset(out)[r]
      ensures !ValueBelow(Get(out[i], column), Get(r, column))
    {
      assert out[i] in multiset(st.kept);
      var j :| 0 <= j < |st.kept| && st.kept[j] == out[i];
      assert r in rows;
      var q :| 0 <= q < |rows| && rows[q] == r;
      var x, y := Get(r, column), Get(out[i], column);
      assert Kind(x) == Kind(st.minTmp) && !ValueBelow(st.minTmp, x);
      assert Kind(y) == Kind(st.minTmp) && !ValueBelow(y, st.minTmp);
      NotBelowTransitive(x, st.minTmp, y);
    }
  }

  /** Any two kept rows compare without raising. */
  lemma KeptComparable(column: string, n: int, rows: seq<Row>, st: TopState)
    requires TopInv(column, n, rows, st)
    ensures forall i, j :: 0 <= i < |st.kept| && 0 <= j < |st.kept| ==>
              DescendingBy(column)(st.kept[i], st.kept[j]).Ok?
  {
    if rows != [] {
      forall i, j | 0 <= i < |st.kept| && 0 <= j < |st.kept|
        ensures DescendingBy(column)(st.kept[i], st.kept[j]).Ok?
      {
        ValueLtTotal(Get(st.kept[j], column), Get(st.kept[i], column));
      }
    }
  }


  /** With `n == 0` nothing is ever kept, but a row above the first one still makes the loop
      look for a kept row holding the minimum, and the empty list's `[0]` raises. */
  lemma TopNZeroRaises(column: string)
    ensures TopNRows(column, 0, [Set(EmptyRow, column, Num(1.0)), Set(EmptyRow, column, Num(2.0))]) == Err(IndexError)
  {
    var a, b := Set(EmptyRow, column, Num(1.0)), Set(EmptyRow, column, Num(2.0));
    var rows := [a, b];
    assert rows[..0] == [] && rows[..1] == [a] && rows[..2] == rows;
    TopNScanNext(column, 0, rows, 0);
    assert Field(a, column) == Ok(Num(1.0)) && ValueLt(Num(1.0), Num(1.0)) == Ok(false);
    assert TopNNext(column, 0, TopState([], Null), a).Ok?;
    assert TopNScan(column, 0, rows[..1]).value == TopState([], Num(1.0));
    TopNScanNext(column, 0, rows, 1);
    assert Field(b, column) == Ok(Num(2.0)) && ValueLt(Num(1.0), Num(2.0)) == Ok(true);
  }

  // ---------------------------------------------------------------------------------------
  // Reduce.

  /** What `reducer(group_key, rows)` yields for one group. */
  function ReduceGroup(reducer: Reducer, groupKey: seq<string>, rows: seq<Row>): Result<seq<Row>>
  {
    match reducer
    case FirstReducer => Ok(rows)
    case TopN(column, n) => TopNRows(column, n, rows)
    case TermFrequency(wordsColumn, resultColumn) =>
      TermFrequencyRows(groupKey, wordsColumn, resultColumn, rows)
    case Count(column) =>
      var row :- CountRow(groupKey, column, rows);
      Ok([row])
    case Sum(column) =>
      var row :- SumRow(groupKey, column, rows);
      Ok([row])
  }

  /** Reducer.__call__ for every reducer: the loops run as methods. */
  method CallReducer(reducer: Reducer, groupKey: seq<string>, rows: seq<Row>) returns (out: Result<seq<Row>>)
    ensures out == ReduceGroup(reducer, groupKey, rows)
  {
    match reducer
    case FirstReducer =>
      out := Ok(rows);
    case TopN(column, n) =>
      out := TopNCall(column, n, rows);
    case TermFrequency(wordsColumn, resultColumn) =>
      out := TermFrequencyCall(groupKey, wordsColumn, resultColumn, rows);
    case Count(column) =>
      var row := CountCall(groupKey, column, rows);
      out := if row.Ok? then Ok([row.value]) else Err(row.error);
    case Sum(column) =>
      var row := SumCall(groupKey, column, rows);
      out := if row.Ok? then Ok([row.value]) else Err(row.error);
  }

  /** The reducer applied to one groupby run, with the key names. */
  function GroupReducer(reducer: Reducer, keys: seq<string>): Group -> Result<seq<Row>>
  {
    (g: Group) => ReduceGroup(reducer, keys, g.rows)
  }

  /** Reduce(reducer, keys) on a whole stream: the reducer's outputs, run after run. */
  function ReduceRows(reducer: Reducer, keys: seq<string>, rows: seq<Row>): Result<seq<Row>>
  {
    FlatMap(GroupReducer(reducer, keys), GroupBy(rows, keys))
  }

  /** Reduce.__call__: the reducer runs on each run of equal keys, in order. */
  method ReduceCall(reducer: Reducer, keys: seq<string>, rows: seq<Row>) returns (out: Result<seq<Row>>)
    ensures out == ReduceRows(reducer, keys, rows)
  {
    var groups := GroupBy(rows, keys);
    out := ReduceGroupsCall(reducer, keys, groups);
  }

  /** The loop of Reduce.__call__ over the runs; the first exception ends it. */
  method ReduceGroupsCall(reducer: Reducer, keys: seq<string>, groups: seq<Group>) returns (out: Result<seq<Row>>)
    ensures out == FlatMap(GroupReducer(reducer, keys), groups)
  {
    var acc: seq<Row> := [];
    for i := 0 to |groups|
      invariant FlatMap(GroupReducer(reducer, keys), groups[..i]) == Ok(acc)
    {
      var next := ReduceStep(reducer, keys, groups, i, acc);
      if next.Err? {
        FlatMapPrefixErr(GroupReducer(reducer, keys), groups, i + 1);
        return next;
      }
      acc := next.value;
    }
    assert groups[..|groups|] == groups;
    return Ok(acc);
  }

  /** One turn of that loop: the reducer's rows for run i follow those of the runs before. */
  method ReduceStep(reducer: Reducer, keys: seq<string>, groups: seq<Group>, i: nat, acc: seq<Row>)
    returns (next: Result<seq<Row>>)
    requires i < |groups| && FlatMap(GroupReducer(reducer, keys), groups[..i]) == Ok(acc)
    ensures next == FlatMap(GroupReducer(reducer, keys), groups[..i + 1])
  {
    FlatMapStep(GroupReducer(reducer, keys), groups, i);
    var reduced := CallReducer(reducer, keys, groups[i].rows);
    assert GroupReducer(reducer, keys)(groups[i]) == reduced;
    if reduced.Err? {
      return Err(reduced.error);
    }
    return Ok(acc + reduced.value);
  }

  /** FirstReducer hands every row back: Reduce with it is the identity on the stream. */
  lemma {:induction false} ReduceFirstIdentity(keys: seq<string>, rows: seq<Row>)
    ensures ReduceRows(FirstReducer, keys, rows) == Ok(rows)
  {
    FlatMapGroupRows(keys, GroupBy(rows, keys));
  }

  /** FlatMap of the identity reducer over groups concatenates their rows. */
  lemma {:induction false} FlatMapGroupRows(keys: seq<string>, gs: seq<Group>)
    ensures FlatMap(GroupReducer(FirstReducer, keys), gs).Ok?
    ensures FlatMap(GroupReducer(FirstReducer, keys), gs).value == Concat(GroupRows(gs))
  {
    if gs != [] {
      var init, last := gs[..|gs| - 1], gs[|gs| - 1];
      FlatMapGroupRows(keys, init);
      assert GroupReducer(FirstReducer, keys)(last) == Ok(last.rows);
      assert GroupRows(gs) == GroupRows(init) + [last.rows];
      ConcatAppend(GroupRows(init), [last.rows]);
      assert Concat([last.rows]) == last.rows + Concat([]);
    }
  }

  /** Count and Sum yield one row per group. */
  lemma OneRowPerGroup(reducer: Reducer, keys: seq<string>, gs: seq<Group>)
    requires reducer.Count? || reducer.Sum?
    ensures FlatMap(GroupReducer(reducer, keys), gs).Ok? <==>
              forall i :: 0 <= i < |gs| ==> ReduceGroup(reducer, keys, gs[i].rows).Ok?
    ensures FlatMap(GroupReducer(reducer, keys), gs).Ok? ==>
              && |FlatMap(GroupReducer(reducer, keys), gs).value| == |gs|
              && forall i :: 0 <= i < |gs| ==>
                   ReduceGroup(reducer, keys, gs[i].rows) == Ok([FlatMap(GroupReducer(reducer, keys), gs).value[i]])
  {
    var f := GroupReducer(reducer, keys);
    forall i | 0 <= i < |gs|
      ensures f(gs[i]) == ReduceGroup(reducer, keys, gs[i].rows)
    {
    }
    FlatMapOk(f, gs);
    if FlatMap(f, gs).Ok? {
      forall x | x in gs && f(x).Ok?
        ensures |f(x).value| == 1
      {
      }
      FlatMapSingles(f, gs);
    }
  }

  /** The first row of every run holds every key field. */
  ghost predicate RunsHaveKeys(gs: seq<Group>, keys: seq<string>)
  {
    forall i :: 0 <= i < |gs| ==> gs[i].rows != [] && forall c :: c in keys ==> c in gs[i].rows[0].fields
  }

  /** The row Count yields for a run: the run's key fields, from its first row, and its
      number of rows. */
  ghost predicate CountedRun(keys: seq<string>, column: string, rows: seq<Row>, out: Row)
  {
    && rows != []
    && out.fields.Keys == (set c | c in keys) + {column}
    && out.fields[column] == Num(|rows| as real)
    && forall c :: c in keys && c != column ==> c in rows[0].fields && out.fields[c] == rows[0].fields[c]
  }

  /** Count on one run. */
  lemma CountRun(keys: seq<string>, column: string, rows: seq<Row>)
    requires rows != []
    ensures ReduceGroup(Count(column), keys, rows).Ok? <==> forall c :: c in keys ==> c in rows[0].fields
    ensures ReduceGroup(Count(column), keys, rows).Ok? ==>
              |ReduceGroup(Count(column), keys, rows).value| == 1
              && CountedRun(keys, column, rows, ReduceGroup(Count(column), keys, rows).value[0])
  {
  }

  /** Reduce with Count: one row per run of equal keys, holding the run's key fields and its
      number of rows; it fails exactly when the first row of some run lacks a key field. */
  lemma ReduceCountRows(keys: seq<string>, column: string, rows: seq<Row>)
    ensures ReduceRows(Count(column), keys, rows).Ok? <==> RunsHaveKeys(GroupBy(rows, keys), keys)
    ensures ReduceRows(Count(column), keys, rows).Ok? ==>
              var out, gs := ReduceRows(Count(column), keys, rows).value, GroupBy(rows, keys);
              |out| == |gs| && forall i :: 0 <= i < |gs| ==> CountedRun(keys, column, gs[i].rows, out[i])
  {
    CountRuns(keys, column, GroupBy(rows, keys));
  }

  /** Count over runs. */
  lemma CountRuns(keys: seq<string>, column: string, gs: seq<Group>)
    requires forall i :: 0 <= i < |gs| ==> gs[i].rows != []
    ensures FlatMap(GroupReducer(Count(column), keys), gs).Ok? <==> RunsHaveKeys(gs, keys)
    ensures FlatMap(GroupReducer(Count(column), keys), gs).Ok? ==>
              var out := FlatMap(GroupReducer(Count(column), keys), gs).value;
              |out| == |gs| && forall i :: 0 <= i < |gs| ==> CountedRun(keys, column, gs[i].rows, out[i])
  {
    OneRowPerGroup(Count(column), keys, gs);
    forall i | 0 <= i < |gs|
      ensures ReduceGroup(Count(column), keys, gs[i].rows).Ok? <==> forall c :: c in keys ==> c in gs[i].rows[0].fields
      ensures ReduceGroup(Count(column), keys, gs[i].rows).Ok? ==>
                CountedRun(keys, column, gs[i].rows, ReduceGroup(Count(column), keys, gs[i].rows).value[0])
    {
      CountRun(keys, column, gs[i].rows);
    }
  }

  /** The row Sum yields for a run: the run's key fields, from its first row, and the total of
      its `column` values. */
  ghost predicate SummedRun(keys: seq<string>, column: string, rows: seq<Row>, out: Row)
  {
    && rows != []
    && NumericColumn(rows, column)
    && out.fields.Keys == (set c | c in keys) + {column}
    && out.fields[column] == Num(ColumnTotal(rows, column))
    && forall c :: c in keys && c != column ==> c in rows[0].fields && out.fields[c] == rows[0].fields[c]
  }

  /** Sum on one run. */
  lemma SumRun(keys: seq<string>, column: string, rows: seq<Row>)
    requires rows != []
    ensures ReduceGroup(Sum(column), keys, rows).Ok? <==>
              NumericColumn(rows, column) && forall c :: c in keys ==> c in rows[0].fields
    ensures ReduceGroup(Sum(column), keys, rows).Ok? ==>
              |ReduceGroup(Sum(column), keys, rows).value| == 1
              && SummedRun(keys, column, rows, ReduceGroup(Sum(column), keys, rows).value[0])
  {
    SumRowMeaning(keys, column, rows);
    var s := SumRow(keys, column, rows);
    assert ReduceGroup(Sum(column), keys, rows) == if s.Ok? then Ok([s.value]) else Err(s.error);
    if s.Ok? {
      assert SummedRun(keys, column, rows, s.value);
    }
  }

  /** Reduce with Sum: one row per run of equal keys, holding the run's key fields and the
      total of its `column` values; it fails exactly when some run has a row without a number
      in `column` or a first row without a key field. */
  lemma ReduceSumRows(keys: seq<string>, column: string, rows: seq<Row>)
    ensures ReduceRows(Sum(column), keys, rows).Ok? <==> RunsSummable(GroupBy(rows, keys), keys, column)
    ensures ReduceRows(Sum(column), keys, rows).Ok? ==>
              var out, gs := ReduceRows(Sum(column), keys, rows).value, GroupBy(rows, keys);
              |out| == |gs| && forall i :: 0 <= i < |gs| ==> SummedRun(keys, column, gs[i].rows, out[i])
  {
    SumRuns(keys, column, GroupBy(rows, keys));
  }

  /** Every run holds numbers in `column`, and its first row holds every key field. */
  ghost predicate RunsSummable(gs: seq<Group>, keys: seq<string>, column: string)
  {
    RunsHaveKeys(gs, keys) && forall i :: 0 <= i < |gs| ==> NumericColumn(gs[i].rows, column)
  }

  /** Sum over runs. */
  lemma SumRuns(keys: seq<string>, column: string, gs: seq<Group>)
    requires forall i :: 0 <= i < |gs| ==> gs[i].rows != []
    ensures FlatMap(GroupReducer(Sum(column), keys), gs).Ok? <==> RunsSummable(gs, keys, column)
    ensures FlatMap(GroupReducer(Sum(column), keys), gs).Ok? ==>
              var out := FlatMap(GroupReducer(Sum(column), keys), gs).value;
              |out| == |gs| && forall i :: 0 <= i < |gs| ==> SummedRun(keys, column, gs[i].rows, out[i])
  {
    OneRowPerGroup(Sum(column), keys, gs);
    forall i | 0 <= i < |gs|
      ensures ReduceGroup(Sum(column), keys, gs[i].rows).Ok? <==>
                NumericColumn(gs[i].rows, column) && forall c :: c in keys ==> c in gs[i].rows[0].fields
      ensures ReduceGroup(Sum(column), keys, gs[i].rows).Ok? ==>
                SummedRun(keys, column, gs[i].rows, ReduceGroup(Sum(column), keys, gs[i].rows).value[0])
    {
      SumRun(keys, column, gs[i].rows);
    }
  }
}
