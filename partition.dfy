/** The partitioner (`split_data`) and the reunification of its two parts
    (`pd.concat` with `ignore_index=True`). */
module Partition {
  import opened Tables

  /** The rows whose `response` is null (`isNull`) or non-null (`!isNull`),
      in input order: a boolean-mask selection. */
  function Where(rows: seq<Row>, isNull: bool): (r: seq<Row>)
    ensures |r| <= |rows|
    ensures forall x :: x in r ==> x in rows && x.response.None? == isNull
  {
    if rows == [] then []
    else (if rows[0].response.None? == isNull then [rows[0]] else []) + Where(rows[1..], isNull)
  }

  /** `split_data`: the rows with a non-null `response`, then the rows with a
      null one; a `KeyError` when the table has no `response` column. */
  function SplitData(t: Table): (r: Result<(Table, Table)>)
    ensures r.Failure? <==> ResponseColumn !in t.columns
    ensures r.Failure? ==> r.error == MissingResponseColumn
    ensures r.Success? ==>
      && r.value.0.columns == t.columns && r.value.1.columns == t.columns
      && (forall x :: x in r.value.0.rows ==> x in t.rows && x.response.Some?)
      && (forall x :: x in r.value.1.rows ==> x in t.rows && x.response.None?)
  {
    if ResponseColumn !in t.columns then Failure(MissingResponseColumn)
    else Success((Table(t.columns, Where(t.rows, false)), Table(t.columns, Where(t.rows, true))))
  }

  /** `pd.concat([first, second], ignore_index=True)`: the rows of the first
      table followed by those of the second, under the union of the columns. */
  function Reunify(first: Table, second: Table): (r: Table)
    ensures r.columns == first.columns + second.columns
    ensures |r.rows| == |first.rows| + |second.rows|
    ensures multiset(r.rows) == multiset(first.rows) + multiset(second.rows)
    ensures r.rows[..|first.rows|] == first.rows && r.rows[|first.rows|..] == second.rows
  {
    Table(first.columns + second.columns, first.rows + second.rows)
  }

  /** Every row whose nullity matches lands in its partition as often as it
      occurs in the input; every other row does not land there at all. */
  lemma {:induction false} WhereCount(rows: seq<Row>, isNull: bool, x: Row)
    ensures multiset(Where(rows, isNull))[x] ==
            if x.response.None? == isNull then multiset(rows)[x] else 0
  {
    if rows != [] {
      WhereCount(rows[1..], isNull, x);
      assert rows == [rows[0]] + rows[1..];
    }
  }

  /** Selection distributes over concatenation: it keeps the input order. */
  lemma {:induction false} WhereAppend(a: seq<Row>, b: seq<Row>, isNull: bool)
    ensures Where(a + b, isNull) == Where(a, isNull) + Where(b, isNull)
  {
    if a == [] {
      assert a + b == b;
    } else {
      assert (a + b)[1..] == a[1..] + b;
      WhereAppend(a[1..], b, isNull);
    }
  }

  /** `a` is `b` with some elements removed, order kept. */
  predicate SubsequenceOf(a: seq<Row>, b: seq<Row>)
    decreases |b|
  {
    a == [] || (b != [] && if a[0] == b[0] then SubsequenceOf(a[1..], b[1..]) else SubsequenceOf(a, b[1..]))
  }

  /** Each partition is a subsequence of the input. */
  lemma {:induction false} WhereIsSubsequence(rows: seq<Row>, isNull: bool)
    ensures SubsequenceOf(Where(rows, isNull), rows)
  {
    if rows != [] {
      WhereIsSubsequence(rows[1..], isNull);
      var w := Where(rows[1..], isNull);
      if rows[0].response.None? == isNull {
        assert Where(rows, isNull) == [rows[0]] + w;
      } else {
        assert Where(rows, isNull) == w;
        if w != [] {
          assert w[0] in w;
        }
      }
    }
  }

  /** The partition is exact: the parts are disjoint, together they hold
      every input row exactly as often as the input, and their lengths sum to
      the input's. */
  lemma {:induction false} SplitIsExact(t: Table)
    requires ResponseColumn in t.columns
    ensures var (notNull, nulls) := SplitData(t).value;
      && multiset(notNull.rows) + multiset(nulls.rows) == multiset(t.rows)
      && multiset(notNull.rows) * multiset(nulls.rows) == multiset{}
      && |notNull.rows| + |nulls.rows| == |t.rows|
  {
    var (notNull, nulls) := SplitData(t).value;
    forall x
      ensures (multiset(notNull.rows) + multiset(nulls.rows))[x] == multiset(t.rows)[x]
      ensures (multiset(notNull.rows) * multiset(nulls.rows))[x] == 0
    {
      WhereCount(t.rows, false, x);
      WhereCount(t.rows, true, x);
    }
    assert multiset(notNull.rows) + multiset(nulls.rows) == multiset(t.rows);
    assert |multiset(notNull.rows) + multiset(nulls.rows)| == |multiset(t.rows)|;
  }

  /** No row with a null `response` comes before one with a non-null `response`. */
  predicate NullsLast(rows: seq<Row>)
  {
    forall i, j :: 0 <= i < j < |rows| && rows[i].response.None? ==> rows[j].response.None?
  }

  /** The reunified table has the input's columns, every input row as often
      as before, and the non-null part first. */
  lemma {:induction false} ReunifyAfterSplit(t: Table)
    requires ResponseColumn in t.columns
    ensures var u := Reunify(SplitData(t).value.0, SplitData(t).value.1);
      && u.columns == t.columns
      && |u.rows| == |t.rows|
      && multiset(u.rows) == multiset(t.rows)
      && NullsLast(u.rows)
  {
    SplitIsExact(t);
    var (notNull, nulls) := SplitData(t).value;
    var u := Reunify(notNull, nulls);
    forall k | 0 <= k < |notNull.rows|
      ensures u.rows[k].response.Some?
    {
      assert notNull.rows[k] in notNull.rows;
    }
    forall i, j | 0 <= i < j < |u.rows| && u.rows[i].response.None?
      ensures u.rows[j].response.None?
    {
      assert u.rows[j] in nulls.rows;
    }
  }

  /** A row sequence whose rows all have the nullity `isNull` is its own selection. */
  lemma {:induction false} WhereAll(rows: seq<Row>, isNull: bool)
    requires forall i :: 0 <= i < |rows| ==> rows[i].response.None? == isNull
    ensures Where(rows, isNull) == rows
    ensures Where(rows, !isNull) == []
  {
    if rows != [] {
      WhereAll(rows[1..], isNull);
      assert rows == [rows[0]] + rows[1..];
    }
  }

  /** Dropping the first row keeps the non-null rows first. */
  lemma NullsLastTail(rows: seq<Row>)
    requires rows != [] && NullsLast(rows)
    ensures NullsLast(rows[1..])
  {
    var rest := rows[1..];
    forall i, j | 0 <= i < j < |rest| && rest[i].response.None?
      ensures rest[j].response.None?
    {
      assert rest[i] == rows[i + 1] && rest[j] == rows[j + 1];
    }
  }

  /** When the first row is null, so are all the others. */
  lemma NullsLastHead(rows: seq<Row>)
    requires rows != [] && NullsLast(rows) && rows[0].response.None?
    ensures forall i :: 0 <= i < |rows| ==> rows[i].response.None?
  {
    forall i | 0 < i < |rows|
      ensures rows[i].response.None?
    {
      assert 0 < i;
    }
  }

  /** One step of `WhereStable`: a non-null first row stays in front. */
  lemma WhereStableStep(rows: seq<Row>)
    requires rows != [] && rows[0].response.Some?
    requires Where(rows[1..], false) + Where(rows[1..], true) == rows[1..]
    ensures Where(rows, false) + Where(rows, true) == rows
  {
    var a, b := Where(rows[1..], false), Where(rows[1..], true);
    var w0, w1 := Where(rows, false), Where(rows, true);
    assert w0 == [rows[0]] + a;
    assert w1 == b;
    assert |w0 + w1| == |rows|;
    forall k | 0 <= k < |rows|
      ensures (w0 + w1)[k] == rows[k]
    {
      if k > 0 {
        assert (w0 + w1)[k] == (a + b)[k - 1];
      }
    }
  }

  /** Selecting the non-null rows, then the null rows, of a row sequence
      whose non-null rows already come first gives back the same sequence. */
  lemma {:induction false} WhereStable(rows: seq<Row>)
    requires NullsLast(rows)
    ensures Where(rows, false) + Where(rows, true) == rows
  {
    if rows != [] {
      if rows[0].response.Some? {
        NullsLastTail(rows);
        WhereStable(rows[1..]);
        WhereStableStep(rows);
      } else {
        NullsLastHead(rows);
        WhereAll(rows, true);
      }
    }
  }

  /** Splitting and reunifying a table whose non-null rows already come
      first gives back the same rows in the same order. */
  lemma {:induction false} ReunifyKeepsPartitionedOrder(t: Table)
    requires ResponseColumn in t.columns
    requires NullsLast(t.rows)
    ensures Reunify(SplitData(t).value.0, SplitData(t).value.1).rows == t.rows
  {
    WhereStable(t.rows);
  }
}
