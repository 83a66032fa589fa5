/** The sort-merge Join of compgraph/operations/join.py: the four joiner strategies, and the
    loop that walks the key runs of both inputs with two cursors. */
module JoinOps {
  import opened Rows
  import SortOps

  /** The default suffixes of a Joiner. */
  const DefaultSuffixA: string := "_1"
  const DefaultSuffixB: string := "_2"

  /** The joiner strategies, each with the suffixes it gives to a field both sides carry. */
  datatype Joiner =
    | InnerJoiner(suffixA: string, suffixB: string)
    | LeftJoiner(suffixA: string, suffixB: string)
    | RightJoiner(suffixA: string, suffixB: string)
    | OuterJoiner(suffixA: string, suffixB: string)

  // ---------------------------------------------------------------------------------------
  // Merging a row of A into a copy of a row of B (InnerJoiner's innermost loop).

  /** A non-key field that both rows carry: the merged row keeps it twice, under suffixed names. */
  predicate Shared(keys: seq<string>, a: Row, b: Row, k: string)
  {
    k in a.fields && k in b.fields && k !in keys
  }

  /** One turn of the loop over `row_a.keys()`: a shared field moves to its two suffixed names,
      any other field of `a` is written over. */
  function MergeField(keys: seq<string>, a: Row, b: Row, sa: string, sb: string, acc: Row, k: string): Row
    requires k in a.fields
  {
    if k in b.fields && k !in keys then
      Pop(Set(Set(acc, k + sa, a.fields[k]), k + sb, b.fields[k]), k)
    else
      Set(acc, k, a.fields[k])
  }

  /** The row after the loop has visited the listed fields of `a`, in order, starting from `b`. */
  function MergeFields(keys: seq<string>, a: Row, b: Row, sa: string, sb: string, names: seq<string>): Row
    requires forall i :: 0 <= i < |names| ==> names[i] in a.fields
  {
    if names == [] then b
    else
      var init := names[..|names| - 1];
      MergeField(keys, a, b, sa, sb, MergeFields(keys, a, b, sa, sb, init), names[|names| - 1])
  }

  /** The row InnerJoiner yields for the pair (a, b). */
  function MergeRow(keys: seq<string>, a: Row, b: Row, sa: string, sb: string): Row
  {
    MergeFields(keys, a, b, sa, sb, a.names)
  }

  /** The suffixed names of the shared fields collide neither with a field of either row nor
      with each other (in particular both suffixes are non-empty and differ). */
  ghost predicate NoClash(keys: seq<string>, a: Row, b: Row, sa: string, sb: string)
  {
    forall s :: Shared(keys, a, b, s) ==>
      && s + sa !in a.fields && s + sa !in b.fields
      && s + sb !in a.fields && s + sb !in b.fields
      && forall t :: Shared(keys, a, b, t) ==> s + sa != t + sb
  }

  /** Visited shared fields sit under their two suffixed names and no longer under their own. */
  ghost predicate SharedMoved(keys: seq<string>, a: Row, b: Row, sa: string, sb: string,
                              done: set<string>, m: map<string, Value>)
  {
    forall k :: k in done && Shared(keys, a, b, k) ==>
      && k !in m
      && k + sa in m && m[k + sa] == a.fields[k]
      && k + sb in m && m[k + sb] == b.fields[k]
  }

  /** Every other visited field of `a` holds `a`'s value. */
  ghost predicate OthersCopied(keys: seq<string>, a: Row, b: Row, done: set<string>, m: map<string, Value>)
    requires done <= a.fields.Keys
  {
    forall k :: k in done && !Shared(keys, a, b, k) ==> k in m && m[k] == a.fields[k]
  }

  /** Fields of `b` not visited yet still hold `b`'s value. */
  ghost predicate UnvisitedKept(b: Row, done: set<string>, m: map<string, Value>)
  {
    forall k :: k in b.fields && k !in done ==> k in m && m[k] == b.fields[k]
  }

  /** Every field comes from `b`, from a visited field, or is a visited shared field's suffixed name. */
  ghost predicate NothingElse(keys: seq<string>, a: Row, b: Row, sa: string, sb: string,
                              done: set<string>, m: map<string, Value>)
  {
    forall n :: n in m ==>
      || n in done || n in b.fields
      || exists k :: k in done && Shared(keys, a, b, k) && (n == k + sa || n == k + sb)
  }

  /** What the merged row holds once the fields in `done` have been visited. */
  ghost predicate MergedAfter(keys: seq<string>, a: Row, b: Row, sa: string, sb: string,
                              done: set<string>, m: map<string, Value>)
    requires done <= a.fields.Keys
  {
    && SharedMoved(keys, a, b, sa, sb, done, m)
    && OthersCopied(keys, a, b, done, m)
    && UnvisitedKept(b, done, m)
    && NothingElse(keys, a, b, sa, sb, done, m)
  }

  /** One turn of the loop keeps MergedAfter. */
  lemma MergeFieldKeeps(keys: seq<string>, a: Row, b: Row, sa: string, sb: string,
                        done: set<string>, acc: Row, k: string)
    requires done <= a.fields.Keys && k in a.fields && k !in done
    requires NoClash(keys, a, b, sa, sb)
    requires MergedAfter(keys, a, b, sa, sb, done, acc.fields)
    ensures MergedAfter(keys, a, b, sa, sb, done + {k}, MergeField(keys, a, b, sa, sb, acc, k).fields)
  {
    if Shared(keys, a, b, k) {
      var m := acc.fields;
      var m' := m[k + sa := a.fields[k]][k + sb := b.fields[k]] - {k};
      assert MergeField(keys, a, b, sa, sb, acc, k).fields == m';
      SharedMovedKeeps(keys, a, b, sa, sb, done, m, k);
      OthersCopiedShared(keys, a, b, sa, sb, done, m, k);
      UnvisitedKeptShared(keys, a, b, sa, sb, done, m, k);
      NothingElseShared(keys, a, b, sa, sb, done, m, k);
    } else {
      MergeOtherKeeps(keys, a, b, sa, sb, done, acc.fields, k);
    }
  }

  lemma SharedMovedKeeps(keys: seq<string>, a: Row, b: Row, sa: string, sb: string,
                         done: set<string>, m: map<string, Value>, k: string)
    requires done <= a.fields.Keys && k !in done && Shared(keys, a, b, k)
    requires NoClash(keys, a, b, sa, sb)
    requires SharedMoved(keys, a, b, sa, sb, done, m)
    ensures SharedMoved(keys, a, b, sa, sb, done + {k}, m[k + sa := a.fields[k]][k + sb := b.fields[k]] - {k})
  {
    var m' := m[k + sa := a.fields[k]][k + sb := b.fields[k]] - {k};
    forall s | s in done + {k} && Shared(keys, a, b, s)
      ensures s !in m' && s + sa in m' && m'[s + sa] == a.fields[s] && s + sb in m' && m'[s + sb] == b.fields[s]
    {
      if s != k {
        assert s + sa != k + sb;
        assert k + sa != s + sb;
        assert s + sa != k + sa && s + sb != k + sb by {
          assert (s + sa)[..|s|] == s && (k + sa)[..|k|] == k;
          assert (s + sb)[..|s|] == s && (k + sb)[..|k|] == k;
        }
      }
    }
  }

  lemma OthersCopiedShared(keys: seq<string>, a: Row, b: Row, sa: string, sb: string,
                           done: set<string>, m: map<string, Value>, k: string)
    requires done <= a.fields.Keys && k !in done && Shared(keys, a, b, k)
    requires NoClash(keys, a, b, sa, sb)
    requires OthersCopied(keys, a, b, done, m)
    ensures OthersCopied(keys, a, b, done + {k}, m[k + sa := a.fields[k]][k + sb := b.fields[k]] - {k})
  {
  }

  lemma UnvisitedKeptShared(keys: seq<string>, a: Row, b: Row, sa: string, sb: string,
                            done: set<string>, m: map<string, Value>, k: string)
    requires Shared(keys, a, b, k)
    requires NoClash(keys, a, b, sa, sb)
    requires UnvisitedKept(b, done, m)
    ensures UnvisitedKept(b, done + {k}, m[k + sa := a.fields[k]][k + sb := b.fields[k]] - {k})
  {
  }

  lemma NothingElseShared(keys: seq<string>, a: Row, b: Row, sa: string, sb: string,
                          done: set<string>, m: map<string, Value>, k: string)
    requires Shared(keys, a, b, k)
    requires NothingElse(keys, a, b, sa, sb, done, m)
    ensures NothingElse(keys, a, b, sa, sb, done + {k}, m[k + sa := a.fields[k]][k + sb := b.fields[k]] - {k})
  {
    var m' := m[k + sa := a.fields[k]][k + sb := b.fields[k]] - {k};
    forall n | n in m'
      ensures || n in done + {k} || n in b.fields
              || exists s :: s in done + {k} && Shared(keys, a, b, s) && (n == s + sa || n == s + sb)
    {
      if n == k + sa || n == k + sb {
        assert k in done + {k} && Shared(keys, a, b, k);
      }
    }
  }

  /** The turn for any other field of `a`: it is written over. */
  lemma MergeOtherKeeps(keys: seq<string>, a: Row, b: Row, sa: string, sb: string,
                        done: set<string>, m: map<string, Value>, k: string)
    requires done <= a.fields.Keys && k in a.fields && k !in done && !Shared(keys, a, b, k)
    requires NoClash(keys, a, b, sa, sb)
    requires MergedAfter(keys, a, b, sa, sb, done, m)
    ensures MergedAfter(keys, a, b, sa, sb, done + {k}, m[k := a.fields[k]])
  {
  }

  /** The set of names in a list. */
  function NameSet(ns: seq<string>): set<string>
  {
    set x | x in ns
  }

  /** The loop over a prefix of `a`'s field names produces MergedAfter of that prefix. */
  lemma {:induction false} MergeFieldsMeaning(keys: seq<string>, a: Row, b: Row, sa: string, sb: string, j: nat)
    requires j <= |a.names|
    requires NoClash(keys, a, b, sa, sb)
    ensures MergedAfter(keys, a, b, sa, sb, NameSet(a.names[..j]),
                        MergeFields(keys, a, b, sa, sb, a.names[..j]).fields)
  {
    if j > 0 {
      var init, k := a.names[..j - 1], a.names[j - 1];
      MergeFieldsMeaning(keys, a, b, sa, sb, j - 1);
      MergeFieldsStep(keys, a, b, sa, sb, j);
      MergeFieldKeeps(keys, a, b, sa, sb, NameSet(init), MergeFields(keys, a, b, sa, sb, init), k);
    }
  }

  /** The prefix of length j is the prefix of length j - 1 and one more field of `a`. */
  lemma MergeFieldsStep(keys: seq<string>, a: Row, b: Row, sa: string, sb: string, j: nat)
    requires 0 < j <= |a.names|
    ensures var init, k := a.names[..j - 1], a.names[j - 1];
      && k in a.fields && k !in NameSet(init) && NameSet(init) <= a.fields.Keys
      && NameSet(a.names[..j]) == NameSet(init) + {k}
      && MergeFields(keys, a, b, sa, sb, a.names[..j])
         == MergeField(keys, a, b, sa, sb, MergeFields(keys, a, b, sa, sb, init), k)
  {
    var init, k := a.names[..j - 1], a.names[j - 1];
    assert a.names[..j][..j - 1] == init;
    assert k !in init;
  }

  /** InnerJoiner's merged row: a shared non-key field appears as `f + suffix_a` with A's value
      and `f + suffix_b` with B's value and no longer as `f`; every other field of A is copied
      in (A wins on key fields); B's own fields are kept; nothing else appears. */
  lemma MergeRowFields(keys: seq<string>, a: Row, b: Row, sa: string, sb: string)
    requires NoClash(keys, a, b, sa, sb)
    ensures var m := MergeRow(keys, a, b, sa, sb).fields;
      && (forall k :: Shared(keys, a, b, k) ==>
            && k !in m
            && k + sa in m && m[k + sa] == a.fields[k]
            && k + sb in m && m[k + sb] == b.fields[k])
      && (forall k :: k in a.fields && !Shared(keys, a, b, k) ==> k in m && m[k] == a.fields[k])
      && (forall k :: k in b.fields && k !in a.fields ==> k in m && m[k] == b.fields[k])
      && (forall n :: n in m ==>
            || n in a.fields || n in b.fields
            || exists k :: Shared(keys, a, b, k) && (n == k + sa || n == k + sb))
  {
    var all := a.names[..|a.names|];
    MergeFieldsMeaning(keys, a, b, sa, sb, |a.names|);
    assert all == a.names;
    assert NameSet(all) == a.fields.Keys;
    MergedAfterAll(keys, a, b, sa, sb, MergeFields(keys, a, b, sa, sb, all).fields);
  }

  /** MergedAfter once every field of `a` has been visited. */
  lemma MergedAfterAll(keys: seq<string>, a: Row, b: Row, sa: string, sb: string, m: map<string, Value>)
    requires MergedAfter(keys, a, b, sa, sb, a.fields.Keys, m)
    ensures forall k :: Shared(keys, a, b, k) ==>
              && k !in m
              && k + sa in m && m[k + sa] == a.fields[k]
              && k + sb in m && m[k + sb] == b.fields[k]
    ensures forall k :: k in a.fields && !Shared(keys, a, b, k) ==> k in m && m[k] == a.fields[k]
    ensures forall k :: k in b.fields && k !in a.fields ==> k in m && m[k] == b.fields[k]
    ensures forall n :: n in m ==>
              || n in a.fields || n in b.fields
              || exists k :: Shared(keys, a, b, k) && (n == k + sa || n == k + sb)
  {
  }

  /** InnerJoiner's innermost loop, on a copy of `b`. The `pop` never meets a missing field:
      every later field of `a` that `b` carries is still in the row. */
  method MergeRowCall(keys: seq<string>, a: Row, b: Row, sa: string, sb: string) returns (newRow: Row)
    ensures newRow == MergeRow(keys, a, b, sa, sb)
  {
    newRow := b;
    for i := 0 to |a.names|
      invariant newRow == MergeFields(keys, a, b, sa, sb, a.names[..i])
      invariant forall j :: i <= j < |a.names| && a.names[j] in b.fields ==> a.names[j] in newRow.fields
    {
      var key := a.names[i];
      MergeFieldsStep(keys, a, b, sa, sb, i + 1);
      ghost var before := newRow;
      if key in b.fields && key !in keys {
        newRow := Set(newRow, key + sa, a.fields[key]);
        newRow := Set(newRow, key + sb, b.fields[key]);
        assert key in newRow.fields;
        newRow := Pop(newRow, key);
      } else {
        newRow := Set(newRow, key, a.fields[key]);
      }
      assert before.fields.Keys - {key} <= newRow.fields.Keys;
      assert forall j :: i < j < |a.names| ==> a.names[j] != key;
    }
    assert a.names[..|a.names|] == a.names;
  }

  // ---------------------------------------------------------------------------------------
  // The joiners.

  /** The rows one row `a` of A yields in InnerJoiner: one merged row per row of B, in order. */
  function MergeAll(keys: seq<string>, a: Row, rowsB: seq<Row>, sa: string, sb: string): (out: seq<Row>)
    ensures |out| == |rowsB|
    ensures forall j :: 0 <= j < |rowsB| ==> out[j] == MergeRow(keys, a, rowsB[j], sa, sb)
  {
    seq(|rowsB|, j requires 0 <= j < |rowsB| => MergeRow(keys, a, rowsB[j], sa, sb))
  }

  /** InnerJoiner: for each row of A in order, for each row of B in order, the merged row. */
  function InnerJoin(keys: seq<string>, rowsA: seq<Row>, rowsB: seq<Row>, sa: string, sb: string): seq<Row>
  {
    if rowsA == [] then []
    else InnerJoin(keys, rowsA[..|rowsA| - 1], rowsB, sa, sb) + MergeAll(keys, rowsA[|rowsA| - 1], rowsB, sa, sb)
  }

  /** The blocks of InnerJoiner's output: block i holds the rows A[i] yields. */
  function Blocks(keys: seq<string>, rowsA: seq<Row>, rowsB: seq<Row>, sa: string, sb: string): (bl: seq<seq<Row>>)
    ensures |bl| == |rowsA|
    ensures forall i :: 0 <= i < |rowsA| ==> bl[i] == MergeAll(keys, rowsA[i], rowsB, sa, sb)
  {
    seq(|rowsA|, i requires 0 <= i < |rowsA| => MergeAll(keys, rowsA[i], rowsB, sa, sb))
  }

  /** Concatenating blocks of one width w gives |blocks|·w rows. */
  lemma {:induction false} ConcatWidth(ss: seq<seq<Row>>, w: nat)
    requires forall i :: 0 <= i < |ss| ==> |ss[i]| == w
    ensures |Concat(ss)| == |ss| * w
  {
    if ss != [] {
      ConcatWidth(ss[1..], w);
      assert |ss| * w == w + (|ss| - 1) * w;
    }
  }

  /** InnerJoiner yields, for each row of A in order, the merged rows with every row of B in
      order: A's rows drive the outer loop and B's the inner one. That is |A|·|B| rows, and none
      when either side is empty. */
  lemma {:induction false} InnerJoinShape(keys: seq<string>, rowsA: seq<Row>, rowsB: seq<Row>, sa: string, sb: string)
    ensures InnerJoin(keys, rowsA, rowsB, sa, sb) == Concat(Blocks(keys, rowsA, rowsB, sa, sb))
    ensures |InnerJoin(keys, rowsA, rowsB, sa, sb)| == |rowsA| * |rowsB|
    ensures InnerJoin(keys, rowsA, rowsB, sa, sb) == [] <==> rowsA == [] || rowsB == []
  {
    InnerJoinBlocks(keys, rowsA, rowsB, sa, sb);
    ConcatWidth(Blocks(keys, rowsA, rowsB, sa, sb), |rowsB|);
    if rowsA != [] && rowsB != [] {
      assert |rowsA| * |rowsB| > 0;
    }
  }

  lemma {:induction false} InnerJoinBlocks(keys: seq<string>, rowsA: seq<Row>, rowsB: seq<Row>, sa: string, sb: string)
    ensures InnerJoin(keys, rowsA, rowsB, sa, sb) == Concat(Blocks(keys, rowsA, rowsB, sa, sb))
  {
    if rowsA != [] {
      var init := rowsA[..|rowsA| - 1];
      var last := MergeAll(keys, rowsA[|rowsA| - 1], rowsB, sa, sb);
      InnerJoinBlocks(keys, init, rowsB, sa, sb);
      assert Blocks(keys, rowsA, rowsB, sa, sb) == Blocks(keys, init, rowsB, sa, sb) + [last];
      ConcatAppend(Blocks(keys, init, rowsB, sa, sb), [last]);
      assert Concat([last]) == last + Concat([]);
    }
  }

  /** RightJoiner: the rows of B when A is empty, otherwise InnerJoiner with the sides swapped
      (B's rows drive the outer loop and take `suffix_a`). */
  function RightRows(keys: seq<string>, rowsA: seq<Row>, rowsB: seq<Row>, sa: string, sb: string): seq<Row>
  {
    if rowsA == [] then rowsB else InnerJoin(keys, rowsB, rowsA, sa, sb)
  }

  /** What a joiner yields for one pair of groups. */
  function JoinerRows(joiner: Joiner, keys: seq<string>, rowsA: seq<Row>, rowsB: seq<Row>): seq<Row>
  {
    match joiner
    case InnerJoiner(sa, sb) => InnerJoin(keys, rowsA, rowsB, sa, sb)
    case LeftJoiner(sa, sb) => if rowsB == [] then rowsA else InnerJoin(keys, rowsA, rowsB, sa, sb)
    case RightJoiner(sa, sb) => RightRows(keys, rowsA, rowsB, sa, sb)
    case OuterJoiner(sa, sb) => if rowsB == [] then rowsA else RightRows(keys, rowsA, rowsB, sa, sb)
  }

  /** What each joiner yields: a side that is empty passes the other side through unchanged
      (Left and Outer on an empty B, Right and Outer on an empty A); with both sides present,
      Inner and Left merge each row of A with every row of B, Right and Outer each row of B
      with every row of A, always |A|·|B| rows. */
  lemma JoinerRowsShape(joiner: Joiner, keys: seq<string>, rowsA: seq<Row>, rowsB: seq<Row>)
    ensures var out := JoinerRows(joiner, keys, rowsA, rowsB);
      && (joiner.InnerJoiner? && (rowsA == [] || rowsB == []) ==> out == [])
      && (joiner.RightJoiner? && rowsA != [] && rowsB == [] ==> out == [])
      && (joiner.LeftJoiner? && rowsA == [] ==> out == [])
      && ((joiner.LeftJoiner? || joiner.OuterJoiner?) && rowsB == [] ==> out == rowsA)
      && ((joiner.RightJoiner? || joiner.OuterJoiner?) && rowsA == [] ==> out == rowsB)
      && ((joiner.InnerJoiner? || joiner.LeftJoiner?) && rowsA != [] && rowsB != [] ==>
            && |out| == |rowsA| * |rowsB|
            && out == Concat(Blocks(keys, rowsA, rowsB, joiner.suffixA, joiner.suffixB)))
      && ((joiner.RightJoiner? || joiner.OuterJoiner?) && rowsA != [] && rowsB != [] ==>
            && |out| == |rowsA| * |rowsB|
            && out == Concat(Blocks(keys, rowsB, rowsA, joiner.suffixA, joiner.suffixB)))
  {
    InnerJoinShape(keys, rowsA, rowsB, joiner.suffixA, joiner.suffixB);
    InnerJoinShape(keys, rowsB, rowsA, joiner.suffixA, joiner.suffixB);
  }

  /** InnerJoiner's inner loop: one row of A against every row of B. */
  method MergeAllCall(keys: seq<string>, a: Row, rowsB: seq<Row>, sa: string, sb: string)
    returns (out: seq<Row>)
    ensures out == MergeAll(keys, a, rowsB, sa, sb)
  {
    out := [];
    for j := 0 to |rowsB|
      invariant |out| == j
      invariant forall jj :: 0 <= jj < j ==> out[jj] == MergeRow(keys, a, rowsB[jj], sa, sb)
    {
      var newRow := MergeRowCall(keys, a, rowsB[j], sa, sb);
      out := out + [newRow];
    }
  }

  /** InnerJoiner's two nested loops over A and (the list of) B. */
  method InnerJoinCall(keys: seq<string>, rowsA: seq<Row>, rowsB: seq<Row>, sa: string, sb: string)
    returns (out: seq<Row>)
    ensures out == InnerJoin(keys, rowsA, rowsB, sa, sb)
  {
    out := [];
    for i := 0 to |rowsA|
      invariant out == InnerJoin(keys, rowsA[..i], rowsB, sa, sb)
    {
      assert rowsA[..i + 1][..i] == rowsA[..i];
      var block := MergeAllCall(keys, rowsA[i], rowsB, sa, sb);
      out := out + block;
    }
    assert rowsA[..|rowsA|] == rowsA;
  }

  /** Joiner.__call__ for every joiner; an exhausted side is the empty list. */
  method CallJoiner(joiner: Joiner, keys: seq<string>, rowsA: seq<Row>, rowsB: seq<Row>) returns (out: seq<Row>)
    ensures out == JoinerRows(joiner, keys, rowsA, rowsB)
  {
    match joiner {
      case InnerJoiner(sa, sb) =>
        out := InnerJoinCall(keys, rowsA, rowsB, sa, sb);
      case LeftJoiner(sa, sb) =>
        if rowsB == [] {
          out := rowsA;
        } else {
          out := InnerJoinCall(keys, rowsA, rowsB, sa, sb);
        }
      case RightJoiner(sa, sb) =>
        if rowsA == [] {
          out := rowsB;
        } else {
          out := InnerJoinCall(keys, rowsB, rowsA, sa, sb);
        }
      case OuterJoiner(sa, sb) =>
        if rowsB == [] {
          out := rowsA;
        } else if rowsA == [] {
          out := rowsB;
        } else {
          out := InnerJoinCall(keys, rowsB, rowsA, sa, sb);
        }
    }
  }

  // ---------------------------------------------------------------------------------------
  // The merge loop of Join.__call__.

  /** What one turn of the loop hands to the joiner: both current groups, or one of them with
      an empty partner. */
  datatype Step = Both(a: Group, b: Group) | LeftOnly(a: Group) | RightOnly(b: Group)

  /** Every group key has one entry per key name. */
  ghost predicate KeysOfWidth(gs: seq<Group>, w: nat)
  {
    forall i :: 0 <= i < |gs| ==> |gs[i].key| == w
  }

  /** The turns of the loop over the groups of both inputs. Equal current keys go to the joiner
      together and both cursors advance; otherwise the smaller key (or the only one left) goes
      alone and only its cursor advances. Comparing keys of incomparable values raises. */
  function MergeSteps(keys: seq<string>, ga: seq<Group>, gb: seq<Group>): Result<seq<Step>>
    requires KeysOfWidth(ga, |keys|) && KeysOfWidth(gb, |keys|)
    decreases |ga| + |gb|
  {
    if ga == [] && gb == [] then Ok([])
    else if ga != [] && gb != [] && ga[0].key == gb[0].key then
      var rest :- MergeSteps(keys, ga[1..], gb[1..]);
      Ok([Both(ga[0], gb[0])] + rest)
    else
      var leftFirst :- if gb == [] then Ok(true) else if ga == [] then Ok(false) else KeyLt(ga[0].key, gb[0].key);
      if leftFirst then
        var rest :- MergeSteps(keys, ga[1..], gb);
        Ok([LeftOnly(ga[0])] + rest)
      else
        var rightFirst :- if ga == [] then Ok(true) else KeyLt(gb[0].key, ga[0].key);
        if rightFirst then
          var rest :- MergeSteps(keys, ga, gb[1..]);
          Ok([RightOnly(gb[0])] + rest)
        else
          KeyLtTrichotomy(ga[0].key, gb[0].key);
          assert false;
          Err(TypeError)
  }

  /** The rows the joiner yields for one turn; an exhausted side is the empty list. */
  function StepRows(joiner: Joiner, keys: seq<string>, step: Step): seq<Row>
  {
    match step
    case Both(a, b) => JoinerRows(joiner, keys, a.rows, b.rows)
    case LeftOnly(a) => JoinerRows(joiner, keys, a.rows, [])
    case RightOnly(b) => JoinerRows(joiner, keys, [], b.rows)
  }

  /** The rows of a sequence of turns, in order. */
  function StepsRows(joiner: Joiner, keys: seq<string>, steps: seq<Step>): seq<Row>
  {
    if steps == [] then []
    else StepsRows(joiner, keys, steps[..|steps| - 1]) + StepRows(joiner, keys, steps[|steps| - 1])
  }

  /** The rows of one more turn follow those of the turns before it. */
  lemma StepsRowsAppend(joiner: Joiner, keys: seq<string>, steps: seq<Step>, step: Step)
    ensures StepsRows(joiner, keys, steps + [step]) == StepsRows(joiner, keys, steps) + StepRows(joiner, keys, step)
  {
    assert (steps + [step])[..|steps|] == steps;
  }

  /** One turn of Join's loop: the joiner called on the turn's two groups, one of them possibly
      empty. */
  method CallStep(joiner: Joiner, keys: seq<string>, step: Step) returns (out: seq<Row>)
    ensures out == StepRows(joiner, keys, step)
  {
    match step {
      case Both(a, b) =>
        out := CallJoiner(joiner, keys, a.rows, b.rows);
      case LeftOnly(a) =>
        out := CallJoiner(joiner, keys, a.rows, []);
      case RightOnly(b) =>
        out := CallJoiner(joiner, keys, [], b.rows);
    }
  }

  /** What Join yields for the stream `rows` joined with the stream `other`. */
  function JoinRows(joiner: Joiner, keys: seq<string>, rows: seq<Row>, other: seq<Row>): Result<seq<Row>>
  {
    JoinGroups(joiner, keys, GroupBy(rows, keys), GroupBy(other, keys))
  }

  /** The left groups of the turns, in order. */
  function LeftGroups(steps: seq<Step>): seq<Group>
  {
    if steps == [] then []
    else (if steps[0].RightOnly? then [] else [steps[0].a]) + LeftGroups(steps[1..])
  }

  /** The right groups of the turns, in order. */
  function RightGroups(steps: seq<Step>): seq<Group>
  {
    if steps == [] then []
    else (if steps[0].LeftOnly? then [] else [steps[0].b]) + RightGroups(steps[1..])
  }

  /** The groups of one turn come before those of the turns after it. */
  lemma StepsGroupsCons(step: Step, rest: seq<Step>)
    ensures LeftGroups([step] + rest) == (if step.RightOnly? then [] else [step.a]) + LeftGroups(rest)
    ensures RightGroups([step] + rest) == (if step.LeftOnly? then [] else [step.b]) + RightGroups(rest)
  {
    assert ([step] + rest)[1..] == rest;
  }

  /** Every group of each input reaches the joiner exactly once, in input order, and groups
      reach it together only when their keys are equal. */
  lemma {:induction false} MergeStepsCover(keys: seq<string>, ga: seq<Group>, gb: seq<Group>)
    requires KeysOfWidth(ga, |keys|) && KeysOfWidth(gb, |keys|)
    requires MergeSteps(keys, ga, gb).Ok?
    decreases |ga| + |gb|
    ensures LeftGroups(MergeSteps(keys, ga, gb).value) == ga
    ensures RightGroups(MergeSteps(keys, ga, gb).value) == gb
    ensures forall s :: s in MergeSteps(keys, ga, gb).value && s.Both? ==> s.a.key == s.b.key
  {
    var steps := MergeSteps(keys, ga, gb).value;
    if ga == [] && gb == [] {
      return;
    }
    var step: Step, ra: seq<Group>, rb: seq<Group>;
    if ga != [] && gb != [] && ga[0].key == gb[0].key {
      step, ra, rb := Both(ga[0], gb[0]), ga[1..], gb[1..];
    } else if steps[0].LeftOnly? {
      step, ra, rb := LeftOnly(ga[0]), ga[1..], gb;
    } else {
      step, ra, rb := RightOnly(gb[0]), ga, gb[1..];
    }
    assert KeysOfWidth(ra, |keys|) && KeysOfWidth(rb, |keys|);
    var rest := MergeSteps(keys, ra, rb).value;
    assert steps == [step] + rest;
    MergeStepsCover(keys, ra, rb);
    StepsGroupsCons(step, rest);
    assert ga == (if step.RightOnly? then [] else [step.a]) + ra;
    assert gb == (if step.LeftOnly? then [] else [step.b]) + rb;
    forall s | s in steps && s.Both?
      ensures s.a.key == s.b.key
    {
      if s != step {
        assert s in rest;
      }
    }
  }

  /** Keys strictly ascending along the groups, as sorted input gives them. */
  ghost predicate Ascending(gs: seq<Group>)
  {
    forall i, j :: 0 <= i < j < |gs| ==> KeyBelow(gs[i].key, gs[j].key)
  }

  /** A key below the first of ascending groups is below, hence different from, all of them. */
  lemma BelowAll(k: seq<Value>, gs: seq<Group>)
    requires Ascending(gs) && gs != [] && KeyBelow(k, gs[0].key)
    ensures forall g :: g in gs ==> k != g.key
  {
    forall g | g in gs
      ensures k != g.key
    {
      var j :| 0 <= j < |gs| && gs[j] == g;
      if j > 0 {
        KeyBelowTransitive(k, gs[0].key, g.key);
      }
      KeyBelowAsymmetric(k, g.key);
    }
  }

  /** Each turn's groups come from their input, and a group goes alone only when the other
      input has no group with its key. */
  ghost predicate Matched(steps: seq<Step>, ga: seq<Group>, gb: seq<Group>)
  {
    && (forall s :: s in steps && !s.RightOnly? ==> s.a in ga)
    && (forall s :: s in steps && !s.LeftOnly? ==> s.b in gb)
    && (forall s :: s in steps && s.LeftOnly? ==> forall g :: g in gb ==> g.key != s.a.key)
    && (forall s :: s in steps && s.RightOnly? ==> forall g :: g in ga ==> g.key != s.b.key)
  }

  /** One more turn in front of matched turns over the remaining groups `ra` and `rb`. */
  lemma MatchedCons(step: Step, rest: seq<Step>, ga: seq<Group>, gb: seq<Group>, ra: seq<Group>, rb: seq<Group>)
    requires Matched(rest, ra, rb)
    requires ra == ga || (ga != [] && ra == ga[1..])
    requires rb == gb || (gb != [] && rb == gb[1..])
    requires ra != ga ==> forall h :: h in rb ==> ga[0].key != h.key
    requires rb != gb ==> forall h :: h in ra ==> gb[0].key != h.key
    requires !step.RightOnly? ==> step.a in ga
    requires !step.LeftOnly? ==> step.b in gb
    requires step.LeftOnly? ==> forall g :: g in gb ==> g.key != step.a.key
    requires step.RightOnly? ==> forall g :: g in ga ==> g.key != step.b.key
    ensures Matched([step] + rest, ga, gb)
  {
    forall s | s in rest && s.LeftOnly?
      ensures forall g :: g in gb ==> g.key != s.a.key
    {
      if rb != gb {
        assert gb == [gb[0]] + rb;
      }
    }
    forall s | s in rest && s.RightOnly?
      ensures forall g :: g in ga ==> g.key != s.b.key
    {
      if ra != ga {
        assert ga == [ga[0]] + ra;
      }
    }
  }

  /** On key-sorted inputs the loop is a sort-merge join: a group goes to the joiner alone
      exactly when the other input has no group with its key. */
  lemma {:induction false} MergeStepsMatch(keys: seq<string>, ga: seq<Group>, gb: seq<Group>)
    requires KeysOfWidth(ga, |keys|) && KeysOfWidth(gb, |keys|)
    requires Ascending(ga) && Ascending(gb)
    requires MergeSteps(keys, ga, gb).Ok?
    decreases |ga| + |gb|
    ensures forall s :: s in MergeSteps(keys, ga, gb).value && !s.RightOnly? ==> s.a in ga
    ensures forall s :: s in MergeSteps(keys, ga, gb).value && !s.LeftOnly? ==> s.b in gb
    ensures forall s :: s in MergeSteps(keys, ga, gb).value && s.LeftOnly? ==>
              forall g :: g in gb ==> g.key != s.a.key
    ensures forall s :: s in MergeSteps(keys, ga, gb).value && s.RightOnly? ==>
              forall g :: g in ga ==> g.key != s.b.key
  {
    var steps := MergeSteps(keys, ga, gb).value;
    if ga == [] && gb == [] {
      return;
    }
    var step: Step, ra: seq<Group>, rb: seq<Group>;
    if ga != [] && gb != [] && ga[0].key == gb[0].key {
      step, ra, rb := Both(ga[0], gb[0]), ga[1..], gb[1..];
      if ra != [] {
        BelowAll(gb[0].key, ra);
      }
      if rb != [] {
        BelowAll(ga[0].key, rb);
      }
    } else if steps[0].LeftOnly? {
      step, ra, rb := LeftOnly(ga[0]), ga[1..], gb;
      if gb != [] {
        BelowAll(ga[0].key, gb);
      }
    } else {
      step, ra, rb := RightOnly(gb[0]), ga, gb[1..];
      if ga != [] {
        BelowAll(gb[0].key, ga);
      }
    }
    assert KeysOfWidth(ra, |keys|) && KeysOfWidth(rb, |keys|);
    assert Ascending(ra) && Ascending(rb);
    var rest := MergeSteps(keys, ra, rb).value;
    assert steps == [step] + rest;
    MergeStepsMatch(keys, ra, rb);
    MatchedCons(step, rest, ga, gb, ra, rb);
  }

  /** The turns with nothing on the right: every group goes alone. */
  function LeftSteps(gs: seq<Group>): (steps: seq<Step>)
    ensures |steps| == |gs| && forall i :: 0 <= i < |gs| ==> steps[i] == LeftOnly(gs[i])
  {
    seq(|gs|, i requires 0 <= i < |gs| => LeftOnly(gs[i]))
  }

  /** With an empty right input the loop never compares keys: each left group goes alone. */
  lemma {:induction false} MergeStepsAlone(keys: seq<string>, ga: seq<Group>)
    requires KeysOfWidth(ga, |keys|)
    ensures MergeSteps(keys, ga, []) == Ok(LeftSteps(ga))
  {
    if ga != [] {
      MergeStepsAlone(keys, ga[1..]);
      assert LeftSteps(ga) == [LeftOnly(ga[0])] + LeftSteps(ga[1..]);
    }
  }

  /** A lone left group: its rows for Left and Outer, nothing for Inner and Right. */
  lemma LoneLeftRows(joiner: Joiner, keys: seq<string>, rows: seq<Row>)
    ensures JoinerRows(joiner, keys, rows, []) ==
              if joiner.InnerJoiner? || joiner.RightJoiner? then [] else rows
  {
    InnerJoinShape(keys, rows, [], joiner.suffixA, joiner.suffixB);
  }

  /** The lone-left turns of all groups but the last, then the last one's. */
  lemma LeftStepsSnoc(gs: seq<Group>)
    requires gs != []
    ensures LeftSteps(gs) == LeftSteps(gs[..|gs| - 1]) + [LeftOnly(gs[|gs| - 1])]
    ensures GroupRows(gs) == GroupRows(gs[..|gs| - 1]) + [gs[|gs| - 1].rows]
  {
  }

  /** The rows of lone left groups: all their rows for Left and Outer, none for Inner and Right. */
  lemma {:induction false} LeftStepsRows(joiner: Joiner, keys: seq<string>, gs: seq<Group>)
    ensures StepsRows(joiner, keys, LeftSteps(gs)) ==
              if joiner.InnerJoiner? || joiner.RightJoiner? then [] else Concat(GroupRows(gs))
  {
    if gs != [] {
      var init := gs[..|gs| - 1];
      var last := gs[|gs| - 1];
      LeftStepsRows(joiner, keys, init);
      LeftStepsSnoc(gs);
      StepsRowsAppend(joiner, keys, LeftSteps(init), LeftOnly(last));
      LoneLeftRows(joiner, keys, last.rows);
      var before := StepsRows(joiner, keys, LeftSteps(init));
      assert StepsRows(joiner, keys, LeftSteps(gs)) == before + JoinerRows(joiner, keys, last.rows, []);
      if !(joiner.InnerJoiner? || joiner.RightJoiner?) {
        ConcatAppend(GroupRows(init), [last.rows]);
        assert Concat([last.rows]) == last.rows + Concat([]);
        assert Concat(GroupRows(gs)) == before + last.rows;
      }
    }
  }

  /** A Join with an empty second input: Inner and Right yield nothing, Left and Outer yield
      the first input unchanged, and no comparison can fail. */
  lemma JoinWithoutOther(joiner: Joiner, keys: seq<string>, rows: seq<Row>)
    ensures JoinRows(joiner, keys, rows, []).Ok?
    ensures JoinRows(joiner, keys, rows, []).value ==
              if joiner.InnerJoiner? || joiner.RightJoiner? then [] else rows
  {
    var ga := GroupBy(rows, keys);
    assert GroupBy([], keys) == [];
    MergeStepsAlone(keys, ga);
    LeftStepsRows(joiner, keys, ga);
  }

  /** The loop does not raise when every key of the first input compares with every key of
      the second: the two current keys are then equal, or exactly one is smaller. */
  lemma {:induction false} MergeStepsSucceeds(keys: seq<string>, ga: seq<Group>, gb: seq<Group>)
    requires KeysOfWidth(ga, |keys|) && KeysOfWidth(gb, |keys|)
    requires forall g, h :: g in ga && h in gb ==> KeyLt(g.key, h.key).Ok?
    ensures MergeSteps(keys, ga, gb).Ok?
    decreases |ga| + |gb|
  {
    if ga == [] && gb == [] {
    } else if ga != [] && gb != [] && ga[0].key == gb[0].key {
      assert KeysOfWidth(ga[1..], |keys|) && KeysOfWidth(gb[1..], |keys|);
      MergeStepsSucceeds(keys, ga[1..], gb[1..]);
    } else if gb == [] {
      assert KeysOfWidth(ga[1..], |keys|);
      MergeStepsSucceeds(keys, ga[1..], gb);
    } else if ga == [] {
      assert KeysOfWidth(gb[1..], |keys|);
      MergeStepsSucceeds(keys, ga, gb[1..]);
    } else {
      assert ga[0] in ga && gb[0] in gb;
      assert |ga[0].key| == |keys| == |gb[0].key|;
      KeyLtTrichotomy(ga[0].key, gb[0].key);
      if KeyLt(ga[0].key, gb[0].key) == Ok(true) {
        assert KeysOfWidth(ga[1..], |keys|);
        MergeStepsSucceeds(keys, ga[1..], gb);
      } else {
        assert KeysOfWidth(gb[1..], |keys|);
        MergeStepsSucceeds(keys, ga, gb[1..]);
      }
    }
  }

  /** The runs of a stream sorted by key have strictly ascending keys. */
  lemma {:induction false} SortedGroupsAscending(rows: seq<Row>, keys: seq<string>)
    requires SortOps.Sorted(rows, SortOps.KeyOrder(keys))
    ensures Ascending(GroupBy(rows, keys))
  {
    if rows != [] {
      var tail := rows[1..];
      assert SortOps.Sorted(tail, SortOps.KeyOrder(keys)) by {
        forall i | 0 <= i < |tail| - 1
          ensures SortOps.KeyOrder(keys)(tail[i + 1], tail[i]) == Ok(false)
        {
          assert tail[i] == rows[i + 1] && tail[i + 1] == rows[i + 2];
        }
      }
      SortedGroupsAscending(tail, keys);
      var k := KeyOf(rows[0], keys);
      var rest := GroupBy(tail, keys);
      if rest != [] && rest[0].key == k {
        AscendingExtend(rest, k, [rows[0]] + rest[0].rows);
      } else {
        if rest != [] {
          assert rest[0].key == KeyOf(rows[1], keys);
          assert KeyLt(KeyOf(rows[1], keys), k) == Ok(false);
          KeyLtTrichotomy(k, rest[0].key);
        }
        AscendingStart(rest, k, [rows[0]]);
      }
    }
  }

  /** A run that absorbs the first of ascending runs keeps them ascending. */
  lemma AscendingExtend(rest: seq<Group>, k: seq<Value>, rows: seq<Row>)
    requires Ascending(rest) && rest != [] && rest[0].key == k
    ensures Ascending([Group(k, rows)] + rest[1..])
  {
    var gs := [Group(k, rows)] + rest[1..];
    forall i, j | 0 <= i < j < |gs|
      ensures KeyBelow(gs[i].key, gs[j].key)
    {
      assert gs[j].key == rest[j].key && gs[i].key == rest[i].key;
    }
  }

  /** A run with a key below the first of ascending runs, put in front, keeps them ascending. */
  lemma AscendingStart(rest: seq<Group>, k: seq<Value>, rows: seq<Row>)
    requires Ascending(rest) && (rest != [] ==> KeyBelow(k, rest[0].key))
    ensures Ascending([Group(k, rows)] + rest)
  {
    var gs := [Group(k, rows)] + rest;
    forall i, j | 0 <= i < j < |gs|
      ensures KeyBelow(gs[i].key, gs[j].key)
    {
      assert gs[j] == rest[j - 1];
      if i > 0 {
        assert gs[i] == rest[i - 1];
      } else if j > 1 {
        KeyBelowTransitive(k, rest[0].key, rest[j - 1].key);
      }
    }
  }

  /** Sort both inputs, then join: the runs of each side ascend, the loop does not raise when
      every key of one input compares with every key of the other, each run of either side
      reaches the joiner exactly once and in order, runs go together exactly when their keys
      are equal, and a run goes alone exactly when the other side has no run with its key. */
  lemma SortMergeJoin(joiner: Joiner, keys: seq<string>, rows: seq<Row>, other: seq<Row>)
    requires SortOps.SortRows(rows, keys).Ok? && SortOps.SortRows(other, keys).Ok?
    requires forall r, s :: r in rows && s in other ==> KeyLt(KeyOf(r, keys), KeyOf(s, keys)).Ok?
    ensures var ra, rb := SortOps.SortRows(rows, keys).value, SortOps.SortRows(other, keys).value;
      var ga, gb := GroupBy(ra, keys), GroupBy(rb, keys);
      && Ascending(ga) && Ascending(gb)
      && KeysOfWidth(ga, |keys|) && KeysOfWidth(gb, |keys|)
      && MergeSteps(keys, ga, gb).Ok?
      && JoinRows(joiner, keys, ra, rb) == Ok(StepsRows(joiner, keys, MergeSteps(keys, ga, gb).value))
      && RunsMatched(MergeSteps(keys, ga, gb).value, ga, gb)
  {
    var ra, rb := SortOps.SortRows(rows, keys).value, SortOps.SortRows(other, keys).value;
    SortedRunsAscending(rows, keys);
    SortedRunsAscending(other, keys);
    RunKeysCompare(keys, rows, other, ra, rb);
    SortedRunsMatch(keys, GroupBy(ra, keys), GroupBy(rb, keys));
  }

  /** ExternalSort then groupby: the runs of the sorted rows have strictly ascending keys. */
  lemma SortedRunsAscending(rows: seq<Row>, keys: seq<string>)
    requires SortOps.SortRows(rows, keys).Ok?
    ensures multiset(SortOps.SortRows(rows, keys).value) == multiset(rows)
    ensures Ascending(GroupBy(SortOps.SortRows(rows, keys).value, keys))
  {
    SortOps.SortRowsCorrect(rows, keys, []);
    SortedGroupsAscending(SortOps.SortRows(rows, keys).value, keys);
  }

  /** When every key of one input compares with every key of the other, so do the run keys of
      any reordering of the two. */
  lemma RunKeysCompare(keys: seq<string>, rows: seq<Row>, other: seq<Row>, ra: seq<Row>, rb: seq<Row>)
    requires multiset(ra) == multiset(rows) && multiset(rb) == multiset(other)
    requires forall r, s :: r in rows && s in other ==> KeyLt(KeyOf(r, keys), KeyOf(s, keys)).Ok?
    ensures forall g, h :: g in GroupBy(ra, keys) && h in GroupBy(rb, keys) ==> KeyLt(g.key, h.key).Ok?
  {
    forall g, h | g in GroupBy(ra, keys) && h in GroupBy(rb, keys)
      ensures KeyLt(g.key, h.key).Ok?
    {
      GroupKeyRow(ra, keys, g);
      GroupKeyRow(rb, keys, h);
      assert g.rows[0] in multiset(rows) && h.rows[0] in multiset(other);
    }
  }

  /** The turns hand over every run of each side once and in order, pair runs exactly on equal
      keys, and send a run alone exactly when the other side has no run with its key. */
  ghost predicate RunsMatched(steps: seq<Step>, ga: seq<Group>, gb: seq<Group>)
  {
    && LeftGroups(steps) == ga && RightGroups(steps) == gb
    && (forall s :: s in steps && s.Both? ==> s.a.key == s.b.key)
    && (forall s :: s in steps && s.LeftOnly? ==> forall g :: g in gb ==> g.key != s.a.key)
    && (forall s :: s in steps && s.RightOnly? ==> forall g :: g in ga ==> g.key != s.b.key)
  }

  /** The loop over ascending runs whose keys all compare: it does not raise, hands over every
      run once and in order, pairs runs exactly on equal keys, and sends a run alone exactly
      when the other side has no run with its key. */
  lemma SortedRunsMatch(keys: seq<string>, ga: seq<Group>, gb: seq<Group>)
    requires KeysOfWidth(ga, |keys|) && KeysOfWidth(gb, |keys|)
    requires Ascending(ga) && Ascending(gb)
    requires forall g, h :: g in ga && h in gb ==> KeyLt(g.key, h.key).Ok?
    ensures MergeSteps(keys, ga, gb).Ok? && RunsMatched(MergeSteps(keys, ga, gb).value, ga, gb)
  {
    MergeStepsSucceeds(keys, ga, gb);
    MergeStepsCover(keys, ga, gb);
    MergeStepsMatch(keys, ga, gb);
  }

  /** Prepending a turn puts its rows in front. */
  lemma {:induction false} StepsRowsCons(joiner: Joiner, keys: seq<string>, step: Step, rest: seq<Step>)
    ensures StepsRows(joiner, keys, [step] + rest) == StepRows(joiner, keys, step) + StepsRows(joiner, keys, rest)
    decreases |rest|
  {
    if rest == [] {
      assert [step] + rest == [step] && [step][..0] == [];
    } else {
      var init, last := rest[..|rest| - 1], rest[|rest| - 1];
      var front := [step] + init;
      StepsRowsCons(joiner, keys, step, init);
      StepsRowsAppend(joiner, keys, front, last);
      ConsSnoc(step, rest);
      var x, b, l := StepRows(joiner, keys, step), StepsRows(joiner, keys, init), StepRows(joiner, keys, last);
      assert StepsRows(joiner, keys, rest) == b + l;
      AppendAssoc(x, b, l);
    }
  }

  lemma ConsSnoc<T>(x: T, rest: seq<T>)
    requires rest != []
    ensures [x] + rest == ([x] + rest[..|rest| - 1]) + [rest[|rest| - 1]]
    ensures rest == rest[..|rest| - 1] + [rest[|rest| - 1]]
  {
  }

  lemma AppendAssoc<T>(x: seq<T>, y: seq<T>, z: seq<T>)
    ensures (x + y) + z == x + (y + z)
  {
  }

  /** The rows of the runs, with a run in front. */
  lemma ConcatGroupsCons(g: Group, gs: seq<Group>)
    ensures Concat(GroupRows([g] + gs)) == g.rows + Concat(GroupRows(gs))
  {
    assert GroupRows([g] + gs) == [g.rows] + GroupRows(gs);
    assert ([g.rows] + GroupRows(gs))[1..] == GroupRows(gs);
  }

  /** Turns that never pair two runs: Outer yields every row of every run it was handed. */
  lemma {:induction false} OuterLoneSteps(keys: seq<string>, sa: string, sb: string, steps: seq<Step>)
    requires forall s :: s in steps ==> !s.Both?
    ensures multiset(StepsRows(OuterJoiner(sa, sb), keys, steps)) ==
              multiset(Concat(GroupRows(LeftGroups(steps)))) + multiset(Concat(GroupRows(RightGroups(steps))))
  {
    if steps != [] {
      var step, rest := steps[0], steps[1..];
      assert steps == [step] + rest;
      OuterLoneSteps(keys, sa, sb, rest);
      if step.LeftOnly? {
        OuterLoneLeft(keys, sa, sb, step.a, rest);
      } else {
        OuterLoneRight(keys, sa, sb, step.b, rest);
      }
    }
  }

  /** A lone left run in front: Outer yields its rows before the others. */
  lemma OuterLoneLeft(keys: seq<string>, sa: string, sb: string, g: Group, rest: seq<Step>)
    ensures multiset(StepsRows(OuterJoiner(sa, sb), keys, [LeftOnly(g)] + rest)) ==
              multiset(g.rows) + multiset(StepsRows(OuterJoiner(sa, sb), keys, rest))
    ensures Concat(GroupRows(LeftGroups([LeftOnly(g)] + rest))) == g.rows + Concat(GroupRows(LeftGroups(rest)))
    ensures RightGroups([LeftOnly(g)] + rest) == RightGroups(rest)
  {
    StepsRowsCons(OuterJoiner(sa, sb), keys, LeftOnly(g), rest);
    StepsGroupsCons(LeftOnly(g), rest);
    LoneLeftRows(OuterJoiner(sa, sb), keys, g.rows);
    ConcatGroupsCons(g, LeftGroups(rest));
  }

  /** A lone right run in front: Outer yields its rows before the others. */
  lemma OuterLoneRight(keys: seq<string>, sa: string, sb: string, g: Group, rest: seq<Step>)
    ensures multiset(StepsRows(OuterJoiner(sa, sb), keys, [RightOnly(g)] + rest)) ==
              multiset(g.rows) + multiset(StepsRows(OuterJoiner(sa, sb), keys, rest))
    ensures Concat(GroupRows(RightGroups([RightOnly(g)] + rest))) == g.rows + Concat(GroupRows(RightGroups(rest)))
    ensures LeftGroups([RightOnly(g)] + rest) == LeftGroups(rest)
  {
    StepsRowsCons(OuterJoiner(sa, sb), keys, RightOnly(g), rest);
    StepsGroupsCons(RightOnly(g), rest);
    JoinerRowsShape(OuterJoiner(sa, sb), keys, [], g.rows);
    ConcatGroupsCons(g, RightGroups(rest));
  }

  /** Outer on inputs with no key in common yields exactly the rows of both, none merged,
      provided every key of one input compares with every key of the other. */
  lemma OuterDisjoint(keys: seq<string>, sa: string, sb: string, rows: seq<Row>, other: seq<Row>)
    requires forall r, s :: r in rows && s in other ==>
               KeyOf(r, keys) != KeyOf(s, keys) && KeyLt(KeyOf(r, keys), KeyOf(s, keys)).Ok?
    ensures JoinRows(OuterJoiner(sa, sb), keys, rows, other).Ok?
    ensures multiset(JoinRows(OuterJoiner(sa, sb), keys, rows, other).value) == multiset(rows) + multiset(other)
  {
    var ga, gb := GroupBy(rows, keys), GroupBy(other, keys);
    forall g, h | g in ga && h in gb
      ensures KeyLt(g.key, h.key).Ok? && g.key != h.key
    {
      GroupKeyRow(rows, keys, g);
      GroupKeyRow(other, keys, h);
    }
    MergeStepsSucceeds(keys, ga, gb);
    MergeStepsCover(keys, ga, gb);
    var steps := MergeSteps(keys, ga, gb).value;
    forall s | s in steps
      ensures !s.Both?
    {
      StepGroupsListed(steps, s);
    }
    OuterLoneSteps(keys, sa, sb, steps);
  }

  /** The runs of a turn are among the listed runs of all turns. */
  lemma {:induction false} StepGroupsListed(steps: seq<Step>, s: Step)
    requires s in steps
    ensures !s.RightOnly? ==> s.a in LeftGroups(steps)
    ensures !s.LeftOnly? ==> s.b in RightGroups(steps)
  {
    assert steps == [steps[0]] + steps[1..];
    StepsGroupsCons(steps[0], steps[1..]);
    if s != steps[0] {
      StepGroupsListed(steps[1..], s);
    }
  }

  // ---------------------------------------------------------------------------------------
  // Right and Outer on paired runs. RightJoiner calls InnerJoiner with the sides swapped but
  // the suffixes kept, so B's value of a shared field gets `suffix_a`; OuterJoiner inherits
  // this. Inner(A, B) ⊆ Left(A, B) ⊆ Outer(A, B) therefore fails on any paired run with a
  // shared non-key field.

  /** `{"id": 1, "x": x}`. */
  function SampleRow(x: string): (r: Row)
    ensures r.fields.Keys == {"id", "x"}
  {
    Dict(["id", "x"], map["id" := Num(1.0), "x" := Str(x)])
  }

  /** One row on each side, with equal keys: a single turn hands both rows to the joiner. */
  lemma SinglePairJoin(joiner: Joiner, keys: seq<string>, ra: Row, rb: Row)
    requires KeyOf(ra, keys) == KeyOf(rb, keys)
    ensures JoinRows(joiner, keys, [ra], [rb]) == Ok(JoinerRows(joiner, keys, [ra], [rb]))
  {
    var k := KeyOf(ra, keys);
    var ga, gb := GroupBy([ra], keys), GroupBy([rb], keys);
    assert [ra][1..] == [] && [rb][1..] == [];
    assert ga == [Group(k, [ra])] && gb == [Group(k, [rb])];
    assert ga[1..] == [] && gb[1..] == [];
    assert MergeSteps(keys, [], []) == Ok([]);
    var step := Both(Group(k, [ra]), Group(k, [rb]));
    assert [step] + [] == [step];
    assert MergeSteps(keys, ga, gb) == Ok([step]);
    assert [step][..0] == [];
    assert StepsRows(joiner, keys, [step]) == StepRows(joiner, keys, step);
  }

  /** One row on each side: InnerJoiner yields their merge. */
  lemma SingleInnerJoin(keys: seq<string>, ra: Row, rb: Row, sa: string, sb: string)
    ensures InnerJoin(keys, [ra], [rb], sa, sb) == [MergeRow(keys, ra, rb, sa, sb)]
  {
    assert [ra][..0] == [];
  }

  /** One row on each side, with equal keys: Inner and Left merge A's row with B's, Outer
      merges B's row with A's. */
  lemma SinglePairJoiners(keys: seq<string>, ra: Row, rb: Row, sa: string, sb: string)
    requires KeyOf(ra, keys) == KeyOf(rb, keys)
    ensures JoinRows(InnerJoiner(sa, sb), keys, [ra], [rb]) == Ok([MergeRow(keys, ra, rb, sa, sb)])
    ensures JoinRows(LeftJoiner(sa, sb), keys, [ra], [rb]) == Ok([MergeRow(keys, ra, rb, sa, sb)])
    ensures JoinRows(OuterJoiner(sa, sb), keys, [ra], [rb]) == Ok([MergeRow(keys, rb, ra, sa, sb)])
  {
    SinglePairJoin(InnerJoiner(sa, sb), keys, ra, rb);
    SinglePairJoin(LeftJoiner(sa, sb), keys, ra, rb);
    SinglePairJoin(OuterJoiner(sa, sb), keys, ra, rb);
    SingleInnerJoin(keys, ra, rb, sa, sb);
    SingleInnerJoin(keys, rb, ra, sa, sb);
  }

  /** Merging `{"id": 1, "x": x}` with `{"id": 1, "x": y}` on `id` puts x under `x_1`. */
  lemma SampleMerge(x: string, y: string)
    ensures var m := MergeRow(["id"], SampleRow(x), SampleRow(y), DefaultSuffixA, DefaultSuffixB);
      "x_1" in m.fields && m.fields["x_1"] == Str(x)
  {
    var keys, a, b := ["id"], SampleRow(x), SampleRow(y);
    assert "x" + DefaultSuffixA == "x_1" && "x" + DefaultSuffixB == "x_2";
    assert forall f :: Shared(keys, a, b, f) ==> f == "x";
    MergeRowFields(keys, a, b, DefaultSuffixA, DefaultSuffixB);
    assert Shared(keys, a, b, "x");
  }

  /** `{"id": 1, "x": "L"}` joined with `{"id": 1, "x": "R"}` on `id`: Inner and Left yield
      `x_1 = "L"`, Outer yields `x_1 = "R"`, so Left's row is missing from Outer's output. */
  lemma OuterSwapsSuffixes()
    ensures var keys, a, b := ["id"], [SampleRow("L")], [SampleRow("R")];
      var inner := JoinRows(InnerJoiner(DefaultSuffixA, DefaultSuffixB), keys, a, b);
      var left := JoinRows(LeftJoiner(DefaultSuffixA, DefaultSuffixB), keys, a, b);
      var outer := JoinRows(OuterJoiner(DefaultSuffixA, DefaultSuffixB), keys, a, b);
      && inner.Ok? && left.Ok? && outer.Ok?
      && inner.value == left.value && |left.value| == 1 && |outer.value| == 1
      && "x_1" in left.value[0].fields && left.value[0].fields["x_1"] == Str("L")
      && "x_1" in outer.value[0].fields && outer.value[0].fields["x_1"] == Str("R")
      && !(multiset(left.value) <= multiset(outer.value))
  {
    var keys, ra, rb := ["id"], SampleRow("L"), SampleRow("R");
    var sa, sb := DefaultSuffixA, DefaultSuffixB;
    assert KeyOf(ra, keys) == KeyOf(rb, keys);
    SinglePairJoiners(keys, ra, rb, sa, sb);
    SampleMerge("L", "R");
    SampleMerge("R", "L");
    var m1, m2 := MergeRow(keys, ra, rb, sa, sb), MergeRow(keys, rb, ra, sa, sb);
    assert m1 != m2;
    assert m1 !in multiset{m2};
  }

  /** The joiners with Right and Outer behaving as Inner whenever both runs are present, so
      that `suffix_a` always names the value from `rows_a` and `suffix_b` the one from `rows_b`;
      a missing side passes the other through. */
  function IntendedJoinerRows(joiner: Joiner, keys: seq<string>, rowsA: seq<Row>, rowsB: seq<Row>): seq<Row>
  {
    var inner := InnerJoin(keys, rowsA, rowsB, joiner.suffixA, joiner.suffixB);
    match joiner
    case InnerJoiner(_, _) => inner
    case LeftJoiner(_, _) => if rowsB == [] then rowsA else inner
    case RightJoiner(_, _) => if rowsA == [] then rowsB else inner
    case OuterJoiner(_, _) => if rowsB == [] then rowsA else if rowsA == [] then rowsB else inner
  }

  /** The intended rows of one turn. */
  function IntendedStepRows(joiner: Joiner, keys: seq<string>, step: Step): seq<Row>
  {
    match step
    case Both(a, b) => IntendedJoinerRows(joiner, keys, a.rows, b.rows)
    case LeftOnly(a) => IntendedJoinerRows(joiner, keys, a.rows, [])
    case RightOnly(b) => IntendedJoinerRows(joiner, keys, [], b.rows)
  }

  /** The intended rows of a sequence of turns, in order. */
  function IntendedStepsRows(joiner: Joiner, keys: seq<string>, steps: seq<Step>): seq<Row>
  {
    if steps == [] then []
    else IntendedStepsRows(joiner, keys, steps[..|steps| - 1]) + IntendedStepRows(joiner, keys, steps[|steps| - 1])
  }

  /** Join with the intended joiners: the same loop, the intended rows for each turn. */
  function IntendedJoinRows(joiner: Joiner, keys: seq<string>, rows: seq<Row>, other: seq<Row>): Result<seq<Row>>
  {
    var steps :- MergeSteps(keys, GroupBy(rows, keys), GroupBy(other, keys));
    Ok(IntendedStepsRows(joiner, keys, steps))
  }

  /** One pair of groups: Inner's rows are among Left's and Right's, and those among Outer's. */
  lemma IntendedRowsNested(keys: seq<string>, sa: string, sb: string, rowsA: seq<Row>, rowsB: seq<Row>)
    ensures var inner := multiset(IntendedJoinerRows(InnerJoiner(sa, sb), keys, rowsA, rowsB));
      var left := multiset(IntendedJoinerRows(LeftJoiner(sa, sb), keys, rowsA, rowsB));
      var right := multiset(IntendedJoinerRows(RightJoiner(sa, sb), keys, rowsA, rowsB));
      var outer := multiset(IntendedJoinerRows(OuterJoiner(sa, sb), keys, rowsA, rowsB));
      inner <= left <= outer && inner <= right <= outer
  {
    var inner := InnerJoin(keys, rowsA, rowsB, sa, sb);
    InnerJoinShape(keys, rowsA, rowsB, sa, sb);
    if rowsA == [] || rowsB == [] {
      assert multiset(inner) == multiset{};
    }
  }

  /** One turn: Inner's rows are among Left's and Right's, and those among Outer's. */
  lemma IntendedStepNested(keys: seq<string>, sa: string, sb: string, step: Step)
    ensures var inner := multiset(IntendedStepRows(InnerJoiner(sa, sb), keys, step));
      var left := multiset(IntendedStepRows(LeftJoiner(sa, sb), keys, step));
      var right := multiset(IntendedStepRows(RightJoiner(sa, sb), keys, step));
      var outer := multiset(IntendedStepRows(OuterJoiner(sa, sb), keys, step));
      inner <= left <= outer && inner <= right <= outer
  {
    match step
    case Both(a, b) => IntendedRowsNested(keys, sa, sb, a.rows, b.rows);
    case LeftOnly(a) => IntendedRowsNested(keys, sa, sb, a.rows, []);
    case RightOnly(b) => IntendedRowsNested(keys, sa, sb, [], b.rows);
  }

  /** With the intended joiners, on every input: all four succeed or fail together, and
      Inner ⊆ Left ⊆ Outer and Inner ⊆ Right ⊆ Outer as multisets of rows. */
  lemma {:induction false} IntendedJoinsNested(keys: seq<string>, sa: string, sb: string, steps: seq<Step>)
    ensures var inner := multiset(IntendedStepsRows(InnerJoiner(sa, sb), keys, steps));
      var left := multiset(IntendedStepsRows(LeftJoiner(sa, sb), keys, steps));
      var right := multiset(IntendedStepsRows(RightJoiner(sa, sb), keys, steps));
      var outer := multiset(IntendedStepsRows(OuterJoiner(sa, sb), keys, steps));
      inner <= left <= outer && inner <= right <= outer
  {
    if steps != [] {
      var init, last := steps[..|steps| - 1], steps[|steps| - 1];
      IntendedJoinsNested(keys, sa, sb, init);
      IntendedStepNested(keys, sa, sb, last);
    }
  }

  /** Join with the intended joiners: Inner ⊆ Left ⊆ Outer and Inner ⊆ Right ⊆ Outer. */
  lemma IntendedJoinRowsNested(keys: seq<string>, sa: string, sb: string, rows: seq<Row>, other: seq<Row>)
    ensures var inner := IntendedJoinRows(InnerJoiner(sa, sb), keys, rows, other);
      var left := IntendedJoinRows(LeftJoiner(sa, sb), keys, rows, other);
      var right := IntendedJoinRows(RightJoiner(sa, sb), keys, rows, other);
      var outer := IntendedJoinRows(OuterJoiner(sa, sb), keys, rows, other);
      && (inner.Ok? <==> outer.Ok?) && (left.Ok? <==> outer.Ok?) && (right.Ok? <==> outer.Ok?)
      && (outer.Ok? ==>
            && multiset(inner.value) <= multiset(left.value) <= multiset(outer.value)
            && multiset(inner.value) <= multiset(right.value) <= multiset(outer.value))
  {
    var steps := MergeSteps(keys, GroupBy(rows, keys), GroupBy(other, keys));
    if steps.Ok? {
      IntendedJoinsNested(keys, sa, sb, steps.value);
    }
  }

  /** Over any turns, Inner and Left as written yield the rows of the corrected joiners. */
  lemma {:induction false} InnerLeftStepsAsIntended(keys: seq<string>, sa: string, sb: string, steps: seq<Step>)
    ensures StepsRows(InnerJoiner(sa, sb), keys, steps) == IntendedStepsRows(InnerJoiner(sa, sb), keys, steps)
    ensures StepsRows(LeftJoiner(sa, sb), keys, steps) == IntendedStepsRows(LeftJoiner(sa, sb), keys, steps)
  {
    if steps != [] {
      InnerLeftStepsAsIntended(keys, sa, sb, steps[..|steps| - 1]);
    }
  }

  /** Join with InnerJoiner or LeftJoiner as written is the corrected Join, so on every input
      the two succeed together and Inner's rows are among Left's. */
  lemma InnerWithinLeft(keys: seq<string>, sa: string, sb: string, rows: seq<Row>, other: seq<Row>)
    ensures JoinRows(InnerJoiner(sa, sb), keys, rows, other) == IntendedJoinRows(InnerJoiner(sa, sb), keys, rows, other)
    ensures JoinRows(LeftJoiner(sa, sb), keys, rows, other) == IntendedJoinRows(LeftJoiner(sa, sb), keys, rows, other)
    ensures var inner, left := JoinRows(InnerJoiner(sa, sb), keys, rows, other), JoinRows(LeftJoiner(sa, sb), keys, rows, other);
      && (inner.Ok? <==> left.Ok?)
      && (inner.Ok? ==> multiset(inner.value) <= multiset(left.value))
  {
    var steps := MergeSteps(keys, GroupBy(rows, keys), GroupBy(other, keys));
    if steps.Ok? {
      InnerLeftStepsAsIntended(keys, sa, sb, steps.value);
    }
    IntendedJoinRowsNested(keys, sa, sb, rows, other);
  }

  /** The Join operation: the joiner, the key names, and the second input it last received. */
  class Join {
    const joiner: Joiner
    const keys: seq<string>
    /** The second input; a call given one stores it, and every call drains it. */
    var joinIter: seq<Row>

    constructor(joiner: Joiner, keys: seq<string>)
      ensures this.joiner == joiner && this.keys == keys && joinIter == []
    {
      this.joiner := joiner;
      this.keys := keys;
      joinIter := [];
    }

    /** Join.__call__: a second input among the arguments replaces the stored one; the two
        inputs are cut into key runs and walked with two cursors. */
    method Call(rows: seq<Row>, args: seq<seq<Row>>) returns (out: Result<seq<Row>>)
      modifies this
      ensures joinIter == []
      ensures out == JoinRows(joiner, keys, rows, if args != [] then args[0] else old(joinIter))
    {
      if args != [] {
        joinIter := args[0];
      }
      var ga := GroupBy(rows, keys);
      var gb := GroupBy(joinIter, keys);
      joinIter := [];
      out := MergeJoinCall(joiner, keys, ga, gb);
    }
  }

  /** One turn of the loop of Join.__call__: the step taken on the current key runs and the
      positions after it, or the TypeError raised by comparing the two current keys. */
  method MergeTurn(keys: seq<string>, ga: seq<Group>, gb: seq<Group>, ia: nat, ib: nat)
    returns (r: Result<Step>, na: nat, nb: nat)
    requires KeysOfWidth(ga, |keys|) && KeysOfWidth(gb, |keys|)
    requires ia <= |ga| && ib <= |gb| && (ia < |ga| || ib < |gb|)
    ensures r.Err? ==> MergeSteps(keys, ga[ia..], gb[ib..]) == Err(r.error)
    ensures r.Ok? ==> && ia <= na <= |ga| && ib <= nb <= |gb| && ia + ib < na + nb
                      && MergeSteps(keys, ga[ia..], gb[ib..])
                           == Prefixed([r.value], MergeSteps(keys, ga[na..], gb[nb..]))
  {
    na, nb := ia, ib;
    ghost var restA, restB := ga[ia..], gb[ib..];
    if ia < |ga| && ib < |gb| && ga[ia].key == gb[ib].key {
      assert restA[1..] == ga[ia + 1..] && restB[1..] == gb[ib + 1..];
      UnfoldBoth(keys, restA, restB);
      r, na, nb := Ok(Both(ga[ia], gb[ib])), ia + 1, ib + 1;
    } else {
      var leftFirst := true;
      if ib < |gb| {
        if ia == |ga| {
          leftFirst := false;
        } else {
          var lt := KeyLt(ga[ia].key, gb[ib].key);
          if lt.Err? {
            UnfoldFails(keys, restA, restB);
            r := Err(lt.error);
            return;
          }
          leftFirst := lt.value;
        }
      }
      if leftFirst {
        assert restA[1..] == ga[ia + 1..];
        UnfoldLeft(keys, restA, restB);
        r, na, nb := Ok(LeftOnly(ga[ia])), ia + 1, ib;
      } else {
        var rightFirst := true;
        if ia < |ga| {
          var gt := KeyLt(gb[ib].key, ga[ia].key);
          if gt.Err? {
            UnfoldFails(keys, restA, restB);
            r := Err(gt.error);
            return;
          }
          rightFirst := gt.value;
        }
        if !rightFirst {
          KeyLtTrichotomy(ga[ia].key, gb[ib].key);
          assert false;
        }
        assert restB[1..] == gb[ib + 1..];
        UnfoldRight(keys, restA, restB);
        r, na, nb := Ok(RightOnly(gb[ib])), ia, ib + 1;
      }
    }
  }

  /** The loop of Join.__call__ over the key runs of both inputs. */
  method MergeJoinCall(joiner: Joiner, keys: seq<string>, ga: seq<Group>, gb: seq<Group>)
    returns (out: Result<seq<Row>>)
    requires KeysOfWidth(ga, |keys|) && KeysOfWidth(gb, |keys|)
    ensures out == JoinGroups(joiner, keys, ga, gb)
  {
    var ia, ib := 0, 0;
    var acc: seq<Row> := [];
    ghost var done: seq<Step> := [];
    assert ga[0..] == ga && gb[0..] == gb;
    PrefixedNone(MergeSteps(keys, ga, gb));
    while ia < |ga| || ib < |gb|
      invariant 0 <= ia <= |ga| && 0 <= ib <= |gb|
      invariant MergeSteps(keys, ga, gb) == Prefixed(done, MergeSteps(keys, ga[ia..], gb[ib..]))
      invariant acc == StepsRows(joiner, keys, done)
      decreases |ga| - ia + |gb| - ib
    {
      var next, na, nb := MergeTurn(keys, ga, gb, ia, ib);
      if next.Err? {
        assert MergeSteps(keys, ga, gb) == Err(next.error);
        return Err(next.error);
      }
      var step := next.value;
      ia, ib := na, nb;
      var part := CallStep(joiner, keys, step);
      acc := acc + part;
      PrefixedStep(done, step, MergeSteps(keys, ga[ia..], gb[ib..]));
      StepsRowsAppend(joiner, keys, done, step);
      done := done + [step];
    }
    assert ga[ia..] == [] && gb[ib..] == [];
    assert MergeSteps(keys, ga, gb).Ok? && MergeSteps(keys, ga, gb).value == done + [];
    assert done + [] == done;
    out := Ok(acc);
  }

  /** What Join yields for the key runs of its two inputs. */
  function JoinGroups(joiner: Joiner, keys: seq<string>, ga: seq<Group>, gb: seq<Group>): Result<seq<Row>>
    requires KeysOfWidth(ga, |keys|) && KeysOfWidth(gb, |keys|)
  {
    var steps :- MergeSteps(keys, ga, gb);
    Ok(StepsRows(joiner, keys, steps))
  }

  lemma UnfoldBoth(keys: seq<string>, ga: seq<Group>, gb: seq<Group>)
    requires KeysOfWidth(ga, |keys|) && KeysOfWidth(gb, |keys|)
    requires ga != [] && gb != [] && ga[0].key == gb[0].key
    ensures MergeSteps(keys, ga, gb) == Prefixed([Both(ga[0], gb[0])], MergeSteps(keys, ga[1..], gb[1..]))
  {
  }

  lemma UnfoldLeft(keys: seq<string>, ga: seq<Group>, gb: seq<Group>)
    requires KeysOfWidth(ga, |keys|) && KeysOfWidth(gb, |keys|)
    requires ga != [] && (gb == [] || (ga[0].key != gb[0].key && KeyLt(ga[0].key, gb[0].key) == Ok(true)))
    ensures MergeSteps(keys, ga, gb) == Prefixed([LeftOnly(ga[0])], MergeSteps(keys, ga[1..], gb))
  {
  }

  lemma UnfoldRight(keys: seq<string>, ga: seq<Group>, gb: seq<Group>)
    requires KeysOfWidth(ga, |keys|) && KeysOfWidth(gb, |keys|)
    requires gb != []
    requires ga == [] || (ga[0].key != gb[0].key && KeyLt(ga[0].key, gb[0].key) == Ok(false)
                          && KeyLt(gb[0].key, ga[0].key) == Ok(true))
    ensures MergeSteps(keys, ga, gb) == Prefixed([RightOnly(gb[0])], MergeSteps(keys, ga, gb[1..]))
  {
  }

  /** A comparison of the two current keys that raises aborts the whole loop. */
  lemma UnfoldFails(keys: seq<string>, ga: seq<Group>, gb: seq<Group>)
    requires KeysOfWidth(ga, |keys|) && KeysOfWidth(gb, |keys|)
    requires ga != [] && gb != [] && ga[0].key != gb[0].key
    requires KeyLt(ga[0].key, gb[0].key).Err?
             || (KeyLt(ga[0].key, gb[0].key) == Ok(false) && KeyLt(gb[0].key, ga[0].key).Err?)
    ensures MergeSteps(keys, ga, gb) == Err(TypeError)
  {
  }

  lemma PrefixedNone(r: Result<seq<Step>>)
    ensures Prefixed([], r) == r
  {
    if r.Ok? {
      assert [] + r.value == r.value;
    }
  }

  lemma PrefixedStep(done: seq<Step>, s: Step, r: Result<seq<Step>>)
    ensures Prefixed(done, Prefixed([s], r)) == Prefixed(done + [s], r)
  {
    if r.Ok? {
      assert done + ([s] + r.value) == (done + [s]) + r.value;
    }
  }

  /** The outcome of the whole loop, given the turns already taken and the outcome of the rest. */
  function Prefixed(done: seq<Step>, rest: Result<seq<Step>>): Result<seq<Step>>
  {
    if rest.Err? then rest else Ok(done + rest.value)
  }
}
