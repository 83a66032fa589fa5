/** Sorting. The sort step of a graph (Graph.sort, compgraph/graph.py) runs ExternalSort,
    whose implementation is not part of this model; it is modelled here by a reference
    definition, a stable ascending sort of the rows by their key lists, comparing keys as
    Python does. The same stable insertion sort, given the reversed comparison, is the
    `list.sort(reverse=True)` that TopN calls. */
module SortOps {
  import opened Rows

  /** `lt(a, b)`: whether `a` goes strictly before `b`, or the exception comparing them raises. */
  type Order<!T> = (T, T) -> Result<bool>

  /** Inserts `x` into the sorted `s` after every element it does not go strictly before:
      walking from the back, x moves left past each element it goes before. */
  function Insert<T>(s: seq<T>, x: T, lt: Order<T>): Result<seq<T>>
  {
    if s == [] then Ok([x])
    else
      var before :- lt(x, s[|s| - 1]);
      if before then
        var r :- Insert(s[..|s| - 1], x, lt);
        Ok(r + [s[|s| - 1]])
      else Ok(s + [x])
  }

  /** Stable insertion sort: elements that do not go before one another keep their order. */
  function SortWith<T>(s: seq<T>, lt: Order<T>): Result<seq<T>>
  {
    if s == [] then Ok([])
    else
      var sorted :- SortWith(s[..|s| - 1], lt);
      Insert(sorted, s[|s| - 1], lt)
  }

  /** No element goes strictly before its predecessor, and every neighbouring comparison
      succeeds. */
  predicate Sorted<T>(s: seq<T>, lt: Order<T>)
  {
    forall i :: 0 <= i < |s| - 1 ==> lt(s[i + 1], s[i]) == Ok(false)
  }

  /** When `a` goes strictly before `b`, comparing them the other way succeeds and says no. */
  ghost predicate Asymmetric<T(!new)>(lt: Order<T>)
  {
    forall a, b :: lt(a, b) == Ok(true) ==> lt(b, a) == Ok(false)
  }

  /** Where Insert puts `x`: after a prefix of `s` whose last element x does not go before,
      in front of a suffix whose elements x all goes before. */
  lemma {:induction false} InsertShape<T>(s: seq<T>, x: T, lt: Order<T>) returns (p: nat)
    requires Insert(s, x, lt).Ok?
    ensures p <= |s|
    ensures Insert(s, x, lt).value == s[..p] + [x] + s[p..]
    ensures p > 0 ==> lt(x, s[p - 1]) == Ok(false)
    ensures forall q :: p <= q < |s| ==> lt(x, s[q]) == Ok(true)
  {
    if s == [] {
      p := 0;
    } else {
      var init, last := s[..|s| - 1], s[|s| - 1];
      if lt(x, last) == Ok(true) {
        p := InsertShape(init, x, lt);
        var r := Insert(init, x, lt).value;
        assert Insert(s, x, lt).value == r + [last];
        assert init[..p] == s[..p];
        assert init[p..] + [last] == s[p..];
        assert (s[..p] + [x] + init[p..]) + [last] == s[..p] + [x] + (init[p..] + [last]);
        forall q | p <= q < |s|
          ensures lt(x, s[q]) == Ok(true)
        {
          if q < |s| - 1 {
            assert s[q] == init[q];
          }
        }
      } else {
        p := |s|;
        assert s[..p] == s && s[p..] == [];
      }
    }
  }

  /** Insertion adds `x` and loses nothing. */
  lemma InsertPermutes<T>(s: seq<T>, x: T, lt: Order<T>)
    requires Insert(s, x, lt).Ok?
    ensures multiset(Insert(s, x, lt).value) == multiset(s) + multiset{x}
  {
    var p := InsertShape(s, x, lt);
    assert s == s[..p] + s[p..];
  }

  /** The sort's output is a permutation of its input. */
  lemma {:induction false} SortWithPermutes<T>(s: seq<T>, lt: Order<T>)
    requires SortWith(s, lt).Ok?
    ensures multiset(SortWith(s, lt).value) == multiset(s)
  {
    if s != [] {
      var init, last := s[..|s| - 1], s[|s| - 1];
      SortWithPermutes(init, lt);
      var sorted := SortWith(init, lt).value;
      assert SortWith(s, lt) == Insert(sorted, last, lt);
      InsertPermutes(sorted, last, lt);
      assert s == init + [last];
      assert multiset(s) == multiset(init) + multiset{last};
    }
  }

  /** Insertion keeps a sorted sequence sorted. */
  lemma InsertSorted<T(!new)>(s: seq<T>, x: T, lt: Order<T>)
    requires Asymmetric(lt)
    requires Sorted(s, lt) && Insert(s, x, lt).Ok?
    ensures Sorted(Insert(s, x, lt).value, lt)
  {
    var p := InsertShape(s, x, lt);
    var r := Insert(s, x, lt).value;
    forall i | 0 <= i < |r| - 1
      ensures lt(r[i + 1], r[i]) == Ok(false)
    {
      if i + 1 < p {
        assert r[i] == s[i] && r[i + 1] == s[i + 1];
      } else if i + 1 == p {
        assert r[i] == s[p - 1] && r[i + 1] == x;
      } else if i == p {
        assert r[i] == x && r[i + 1] == s[p];
      } else {
        assert r[i] == s[i - 1] && r[i + 1] == s[i];
      }
    }
  }

  /** The sort's output is sorted. */
  lemma {:induction false} SortWithSorted<T(!new)>(s: seq<T>, lt: Order<T>)
    requires Asymmetric(lt)
    requires SortWith(s, lt).Ok?
    ensures Sorted(SortWith(s, lt).value, lt)
  {
    if s != [] {
      SortWithSorted(s[..|s| - 1], lt);
      InsertSorted(SortWith(s[..|s| - 1], lt).value, s[|s| - 1], lt);
    }
  }

  /** Sorting what is already sorted gives it back unchanged. */
  lemma {:induction false} SortWithIdempotent<T>(s: seq<T>, lt: Order<T>)
    requires Sorted(s, lt)
    ensures SortWith(s, lt) == Ok(s)
  {
    if s != [] {
      var init := s[..|s| - 1];
      assert Sorted(init, lt) by {
        forall i | 0 <= i < |init| - 1
          ensures lt(init[i + 1], init[i]) == Ok(false)
        {
          assert init[i] == s[i] && init[i + 1] == s[i + 1];
        }
      }
      SortWithIdempotent(init, lt);
      if |s| > 1 {
        assert lt(s[|s| - 1], init[|init| - 1]) == Ok(false);
      }
      assert init + [s[|s| - 1]] == s;
    }
  }

  /** Insertion succeeds when comparing `x` with every element succeeds. */
  lemma {:induction false} InsertSucceeds<T>(s: seq<T>, x: T, lt: Order<T>)
    requires forall i :: 0 <= i < |s| ==> lt(x, s[i]).Ok?
    ensures Insert(s, x, lt).Ok?
  {
    if s != [] {
      InsertSucceeds(s[..|s| - 1], x, lt);
    }
  }

  /** A sort succeeds when every comparison between two of its elements succeeds. */
  lemma {:induction false} SortWithSucceeds<T>(s: seq<T>, lt: Order<T>)
    requires forall i, j :: 0 <= i < |s| && 0 <= j < |s| ==> lt(s[i], s[j]).Ok?
    ensures SortWith(s, lt).Ok?
  {
    if s != [] {
      var init, last := s[..|s| - 1], s[|s| - 1];
      SortWithSucceeds(init, lt);
      var sorted := SortWith(init, lt).value;
      SortWithPermutes(init, lt);
      forall i | 0 <= i < |sorted|
        ensures lt(last, sorted[i]).Ok?
      {
        assert sorted[i] in multiset(init);
        var j :| 0 <= j < |init| && init[j] == sorted[i];
      }
      InsertSucceeds(sorted, last, lt);
    }
  }

  /** A sort fails only with an exception some comparison of two of its elements raises. */
  lemma {:induction false} SortWithError<T(!new)>(s: seq<T>, lt: Order<T>, e: Error)
    requires forall a, b :: lt(a, b).Err? ==> lt(a, b).error == e
    ensures SortWith(s, lt).Err? ==> SortWith(s, lt).error == e
  {
    if s != [] {
      SortWithError(s[..|s| - 1], lt, e);
      if SortWith(s[..|s| - 1], lt).Ok? {
        InsertError(SortWith(s[..|s| - 1], lt).value, s[|s| - 1], lt, e);
      }
    }
  }

  lemma {:induction false} InsertError<T(!new)>(s: seq<T>, x: T, lt: Order<T>, e: Error)
    requires forall a, b :: lt(a, b).Err? ==> lt(a, b).error == e
    ensures Insert(s, x, lt).Err? ==> Insert(s, x, lt).error == e
  {
    if s != [] {
      InsertError(s[..|s| - 1], x, lt, e);
    }
  }

  // ---------------------------------------------------------------------------------------
  // ExternalSort: rows in ascending order of their keys.

  /** Python's `<` on the key lists `[row.get(k) for k in keys]` of two rows. */
  function KeyOrder(keys: seq<string>): Order<Row>
  {
    (a: Row, b: Row) => KeyLt(KeyOf(a, keys), KeyOf(b, keys))
  }

  /** ExternalSort(keys): the rows sorted by key, ascending, rows with equal keys in input
      order. */
  function SortRows(rows: seq<Row>, keys: seq<string>): Result<seq<Row>>
  {
    SortWith(rows, KeyOrder(keys))
  }

  /** Key lists of one length are compared asymmetrically. */
  lemma KeyOrderAsymmetric(keys: seq<string>)
    ensures Asymmetric(KeyOrder(keys))
  {
    forall a: Row, b: Row | KeyOrder(keys)(a, b) == Ok(true)
      ensures KeyOrder(keys)(b, a) == Ok(false)
    {
      KeyBelowAsymmetric(KeyOf(a, keys), KeyOf(b, keys));
      KeyLtTrichotomy(KeyOf(a, keys), KeyOf(b, keys));
    }
  }

  /** The elements whose key is `k`, in order. */
  function WithKey<T>(s: seq<T>, key: T -> seq<Value>, k: seq<Value>): seq<T>
  {
    if s == [] then []
    else WithKey(s[..|s| - 1], key, k) + (if key(s[|s| - 1]) == k then [s[|s| - 1]] else [])
  }

  lemma {:induction false} WithKeyAppend<T>(a: seq<T>, b: seq<T>, key: T -> seq<Value>, k: seq<Value>)
    ensures WithKey(a + b, key, k) == WithKey(a, key, k) + WithKey(b, key, k)
    decreases |b|
  {
    if b == [] {
      assert a + b == a;
    } else {
      var b', last := b[..|b| - 1], b[|b| - 1];
      assert (a + b)[..|a + b| - 1] == a + b' && (a + b)[|a + b| - 1] == last;
      WithKeyAppend(a, b', key, k);
    }
  }

  /** Nothing in a sequence whose keys are all strictly above `k` has key `k`. */
  lemma {:induction false} WithKeyNone<T>(s: seq<T>, key: T -> seq<Value>, k: seq<Value>)
    requires forall q :: 0 <= q < |s| ==> KeyBelow(k, key(s[q]))
    ensures WithKey(s, key, k) == []
  {
    if s != [] {
      WithKeyNone(s[..|s| - 1], key, k);
      KeyBelowAsymmetric(k, key(s[|s| - 1]));
    }
  }

  /** Inserting `x` by key appends it to the elements that share its key and leaves the other
      keys' elements as they were. */
  lemma InsertStable<T>(s: seq<T>, x: T, lt: Order<T>, key: T -> seq<Value>, k: seq<Value>)
    requires forall a, b :: lt(a, b) == KeyLt(key(a), key(b))
    requires Insert(s, x, lt).Ok?
    ensures WithKey(Insert(s, x, lt).value, key, k) == WithKey(s, key, k) + (if key(x) == k then [x] else [])
  {
    var p := InsertShape(s, x, lt);
    var a, b := s[..p], s[p..];
    var mine := if key(x) == k then [x] else [];
    assert s == a + b;
    WithKeyAppend(a + [x], b, key, k);
    WithKeyAppend(a, [x], key, k);
    WithKeyAppend(a, b, key, k);
    assert WithKey([x], key, k) == mine by {
      assert [x][..0] == [];
    }
    var wa, wb := WithKey(a, key, k), WithKey(b, key, k);
    assert WithKey(Insert(s, x, lt).value, key, k) == wa + mine + wb;
    if key(x) == k {
      WithKeyNone(b, key, k);
    }
    SwapEmpty(wa, mine, wb);
  }

  /** Two parts, one of them empty, can trade places. */
  lemma SwapEmpty<T>(a: seq<T>, b: seq<T>, c: seq<T>)
    requires b == [] || c == []
    ensures a + b + c == a + c + b
  {
  }

  /** A sort by key is stable: for every key, the elements carrying it keep their input order. */
  lemma {:induction false} SortWithStable<T>(s: seq<T>, lt: Order<T>, key: T -> seq<Value>, k: seq<Value>)
    requires forall a, b :: lt(a, b) == KeyLt(key(a), key(b))
    requires SortWith(s, lt).Ok?
    ensures WithKey(SortWith(s, lt).value, key, k) == WithKey(s, key, k)
  {
    if s != [] {
      var init := s[..|s| - 1];
      SortWithStable(init, lt, key, k);
      InsertStable(SortWith(init, lt).value, s[|s| - 1], lt, key, k);
    }
  }

  /** ExternalSort's promises: a successful sort's output is a permutation of the input,
      sorted by key, stable for every key, and sorting it again changes nothing; a failed sort
      raised a TypeError. (SortWithSucceeds gives success when every pair of keys compares;
      with an incomparable pair, whether the sort fails depends on which pairs it compares.) */
  lemma SortRowsCorrect(rows: seq<Row>, keys: seq<string>, k: seq<Value>)
    ensures SortRows(rows, keys).Err? ==> SortRows(rows, keys).error == TypeError
    ensures SortRows(rows, keys).Ok? ==>
              var out := SortRows(rows, keys).value;
              && multiset(out) == multiset(rows)
              && Sorted(out, KeyOrder(keys))
              && WithKey(out, (row: Row) => KeyOf(row, keys), k) == WithKey(rows, (row: Row) => KeyOf(row, keys), k)
              && SortRows(out, keys) == Ok(out)
  {
    SortWithError(rows, KeyOrder(keys), TypeError);
    if SortRows(rows, keys).Ok? {
      KeyOrderAsymmetric(keys);
      SortWithPermutes(rows, KeyOrder(keys));
      SortWithSorted(rows, KeyOrder(keys));
      SortWithStable(rows, KeyOrder(keys), (row: Row) => KeyOf(row, keys), k);
      SortWithIdempotent(SortRows(rows, keys).value, KeyOrder(keys));
    }
  }
}
