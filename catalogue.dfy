/** The reference joiner (`merge_catalogue`): a pandas left merge of the
    verification table on `sku` against the catalogue's `sku_code`, bringing
    in the catalogue's `corr_sku`. */
module Catalogue {
  import opened Tables

  /** A catalogue row, reduced to the two columns the merge selects. */
  datatype Entry = Entry(skuCode: Cell, corrSku: Cell)

  /** The catalogue: its column names and its entries, in sheet order. */
  datatype Reference = Reference(columns: set<string>, entries: seq<Entry>)

  /** A verification row after the merge, with its `corr_sku` cell. */
  datatype Joined = Joined(row: Row, corrSku: Cell)

  /** The `corr_sku` cells of the entries whose `sku_code` equals `key`, in
      catalogue order. Keys compare as cells: like pandas, a null `sku`
      matches a null `sku_code`. */
  function Matches(entries: seq<Entry>, key: Cell): (r: seq<Cell>)
    ensures |r| <= |entries|
    ensures r == [] <==> forall e :: e in entries ==> e.skuCode != key
    ensures forall c :: c in r ==> Entry(key, c) in entries
  {
    if entries == [] then []
    else (if entries[0].skuCode == key then [entries[0].corrSku] else []) + Matches(entries[1..], key)
  }

  /** The `sku_code` column of the catalogue, in order. */
  function Keys(entries: seq<Entry>): seq<Cell>
  {
    seq(|entries|, i requires 0 <= i < |entries| => entries[i].skuCode)
  }

  /** There is one match per entry keyed by `key`: as many as the key occurs
      in the `sku_code` column. */
  lemma {:induction false} MatchesCount(entries: seq<Entry>, key: Cell)
    ensures |Matches(entries, key)| == multiset(Keys(entries))[key]
  {
    if entries != [] {
      MatchesCount(entries[1..], key);
      assert Keys(entries) == [entries[0].skuCode] + Keys(entries[1..]);
    }
  }

  /** What one verification row becomes in a left merge: one joined row per
      matching entry, or a single row with a null `corr_sku` when none matches. */
  function JoinRow(row: Row, entries: seq<Entry>): (r: seq<Joined>)
    ensures |r| >= 1
    ensures forall j :: j in r ==> j.row == row
    ensures Matches(entries, row.sku) == [] ==> r == [Joined(row, None)]
    ensures Matches(entries, row.sku) != [] ==>
      |r| == |Matches(entries, row.sku)| &&
      forall i :: 0 <= i < |r| ==> r[i].corrSku == Matches(entries, row.sku)[i]
  {
    var m := Matches(entries, row.sku);
    if m == [] then [Joined(row, None)]
    else seq(|m|, i requires 0 <= i < |m| => Joined(row, m[i]))
  }

  /** The joined row `j` is what a left merge can make of a row of `rows`:
      its `corr_sku` comes from an entry keyed by its `sku`, or it is null
      and no entry has that key. */
  predicate JoinedFrom(j: Joined, rows: seq<Row>, entries: seq<Entry>)
  {
    && j.row in rows
    && (Entry(j.row.sku, j.corrSku) in entries
        || (j.corrSku.None? && forall e :: e in entries ==> e.skuCode != j.row.sku))
  }

  /** The left merge of `rows` against `entries`, left order kept. */
  function JoinRows(rows: seq<Row>, entries: seq<Entry>): (r: seq<Joined>)
    ensures |r| >= |rows|
    ensures forall j :: j in r ==> JoinedFrom(j, rows, entries)
  {
    if rows == [] then []
    else JoinRow(rows[0], entries) + JoinRows(rows[1..], entries)
  }

  /** `merge_catalogue`: a `KeyError` when the catalogue lacks `sku_code` or
      `corr_sku` (checked first), or when the verification table lacks the
      `sku` join key; otherwise the left merge. */
  function MergeCatalogue(data: Table, ref: Reference): (r: Result<seq<Joined>>)
    ensures r.Failure? <==>
      SkuCodeColumn !in ref.columns || CorrSkuColumn !in ref.columns || SkuColumn !in data.columns
    ensures r.Failure? ==>
      r.error == if SkuCodeColumn !in ref.columns || CorrSkuColumn !in ref.columns
                 then MissingCatalogueColumns else MissingSkuColumn
    ensures r.Success? ==> |r.value| >= |data.rows|
    ensures r.Success? ==> forall x :: x in data.rows ==> exists j :: j in r.value && j.row == x
  {
    if SkuCodeColumn !in ref.columns || CorrSkuColumn !in ref.columns then Failure(MissingCatalogueColumns)
    else if SkuColumn !in data.columns then Failure(MissingSkuColumn)
    else
      JoinKeepsAllRows(data.rows, ref.entries);
      Success(JoinRows(data.rows, ref.entries))
  }

  /** No two entries share a `sku_code`. */
  predicate UniqueKeys(entries: seq<Entry>)
  {
    forall i, j :: 0 <= i < j < |entries| ==> entries[i].skuCode != entries[j].skuCode
  }

  /** The `corr_sku` of the first entry keyed by `key`, or null when there is none. */
  function Lookup(entries: seq<Entry>, key: Cell): (r: Cell)
    ensures (forall e :: e in entries ==> e.skuCode != key) ==> r == None
    ensures r.Some? ==> Entry(key, r) in entries
    ensures (exists e :: e in entries && e.skuCode == key) ==>
      exists i :: 0 <= i < |entries| && entries[i].skuCode == key && r == entries[i].corrSku
                  && forall k :: 0 <= k < i ==> entries[k].skuCode != key
  {
    if entries == [] then None
    else if entries[0].skuCode == key then entries[0].corrSku
    else Lookup(entries[1..], key)
  }

  /** With unique keys a row matches at most one entry, and that entry's
      `corr_sku` is the one `Lookup` finds. */
  lemma {:induction false} UniqueMatch(entries: seq<Entry>, key: Cell)
    requires UniqueKeys(entries)
    ensures Matches(entries, key) == [] || Matches(entries, key) == [Lookup(entries, key)]
  {
    if entries != [] {
      var rest := entries[1..];
      assert UniqueKeys(rest) by {
        forall i, j | 0 <= i < j < |rest|
          ensures rest[i].skuCode != rest[j].skuCode
        {
          assert rest[i] == entries[i + 1] && rest[j] == entries[j + 1];
        }
      }
      UniqueMatch(rest, key);
      if entries[0].skuCode == key {
        forall e | e in rest
          ensures e.skuCode != key
        {
          var k :| 0 <= k < |rest| && rest[k] == e;
          assert entries[k + 1] == e;
        }
        assert Matches(rest, key) == [];
      }
    }
  }

  /** Every verification row survives the left merge. */
  lemma {:induction false} JoinKeepsEveryRow(rows: seq<Row>, entries: seq<Entry>, x: Row)
    requires x in rows
    ensures exists j :: j in JoinRows(rows, entries) && j.row == x
  {
    if rows[0] == x {
      var j := JoinRow(x, entries)[0];
      assert j in JoinRows(rows, entries);
    } else {
      JoinKeepsEveryRow(rows[1..], entries, x);
      var j :| j in JoinRows(rows[1..], entries) && j.row == x;
      assert j in JoinRows(rows, entries);
    }
  }

  /** No verification row is lost in the left merge. */
  lemma JoinKeepsAllRows(rows: seq<Row>, entries: seq<Entry>)
    ensures forall x :: x in rows ==> exists j :: j in JoinRows(rows, entries) && j.row == x
  {
    forall x | x in rows
      ensures exists j :: j in JoinRows(rows, entries) && j.row == x
    {
      JoinKeepsEveryRow(rows, entries, x);
    }
  }

  /** With unique catalogue keys the left merge keeps the length and order of
      the verification rows, and each row's `corr_sku` is that of the entry
      keyed by its `sku`, or null when there is none. */
  lemma {:induction false} LeftJoinPreservesRows(rows: seq<Row>, entries: seq<Entry>)
    requires UniqueKeys(entries)
    ensures |JoinRows(rows, entries)| == |rows|
    ensures forall i :: 0 <= i < |rows| ==>
      JoinRows(rows, entries)[i] == Joined(rows[i], Lookup(entries, rows[i].sku))
  {
    if rows != [] {
      LeftJoinPreservesRows(rows[1..], entries);
      UniqueMatch(entries, rows[0].sku);
      var head := JoinRow(rows[0], entries);
      assert head == [Joined(rows[0], Lookup(entries, rows[0].sku))];
      var tail := JoinRows(rows[1..], entries);
      forall i | 0 < i < |rows|
        ensures JoinRows(rows, entries)[i] == Joined(rows[i], Lookup(entries, rows[i].sku))
      {
        assert JoinRows(rows, entries)[i] == tail[i - 1];
        assert rows[i] == rows[1..][i - 1];
      }
    }
  }
}
