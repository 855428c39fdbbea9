/** `process_verification_data` and the pipeline around it: merge with the
    catalogue, classify and annotate every row, then force the outcome of
    the special-channel rows; and, before that, the partition of the receipt
    table and its reunification. */
module Verification {
  import opened Tables
  import opened Partition
  import opened Catalogue
  import opened Classifier

  /** A row of the final report: the receipt row, its `corr_sku`, its
      outcome code and its comment. */
  datatype Record = Record(row: Row, corrSku: Cell, value: string, comment: string)

  /** The two `apply` passes for one joined row: the `value` column from
      `determine_value`, then the `comment` column from `add_comment`. */
  function Annotate(j: Joined): (r: Record)
    ensures r.row == j.row && r.corrSku == j.corrSku
    ensures r.value == DetermineValue(j) && r.comment == AddComment(r.value)
    ensures r.comment == "" <==> j.corrSku.Some? && j.row.sku == j.corrSku
    ensures r.comment == BypassComment <==> j.corrSku.None? && InChannels(j.row.response)
  {
    var v := DetermineValue(j);
    Record(j.row, j.corrSku, v, AddComment(v))
  }

  /** `apply` over the whole merged table, row by row. */
  function AnnotateAll(js: seq<Joined>): (r: seq<Record>)
    ensures |r| == |js|
    ensures forall i :: 0 <= i < |js| ==>
      r[i].row == js[i].row && r[i].corrSku == js[i].corrSku && r[i].value == DetermineValue(js[i])
    ensures forall i :: 0 <= i < |js| ==> r[i].comment == AddComment(r[i].value)
  {
    seq(|js|, i requires 0 <= i < |js| => Annotate(js[i]))
  }

  /** The channel override for one row: a special-channel row loses its
      `corr_sku`, gets the code `0_1` and the bypass comment. */
  function OverrideRow(r: Record): (o: Record)
    ensures o.row == r.row
    ensures InChannels(r.row.response) ==>
      o.corrSku == None && o.value == Bypassed && o.comment == BypassComment
    ensures !InChannels(r.row.response) ==> o == r
  {
    if InChannels(r.row.response)
    then r.(corrSku := None, value := Bypassed, comment := BypassComment)
    else r
  }

  /** The channel override over a table: the masked rows are forced, every
      other row is left exactly as it was. */
  function Override(rs: seq<Record>): (o: seq<Record>)
    ensures |o| == |rs|
    ensures forall i :: 0 <= i < |rs| ==> o[i].row == rs[i].row
    ensures forall i :: 0 <= i < |rs| && InChannels(rs[i].row.response) ==>
      o[i].corrSku == None && o[i].value == Bypassed && o[i].comment == BypassComment
    ensures forall i :: 0 <= i < |rs| && !InChannels(rs[i].row.response) ==> o[i] == rs[i]
  {
    seq(|rs|, i requires 0 <= i < |rs| => OverrideRow(rs[i]))
  }

  /** The in-place updates of the masked rows: `corr_sku`, `value` and
      `comment` are overwritten on every special-channel row, and no other
      row changes. */
  method ApplyChannelOverride(a: array<Record>)
    modifies a
    ensures a[..] == Override(old(a[..]))
    ensures forall k :: 0 <= k < a.Length && !InChannels(old(a[k]).row.response) ==> a[k] == old(a[k])
  {
    for i := 0 to a.Length
      invariant forall k :: 0 <= k < i ==> a[k] == OverrideRow(old(a[k]))
      invariant forall k :: i <= k < a.Length ==> a[k] == old(a[k])
    {
      if InChannels(a[i].row.response) {
        a[i] := a[i].(corrSku := None, value := Bypassed, comment := BypassComment);
      }
    }
  }

  /** The merged table has no plain `corr_sku` column: the verification
      table already had one, so the merge renamed both to `corr_sku_x` and
      `corr_sku_y`, and `determine_value` fails on the first row it reads. */
  predicate CorrSkuClash(data: Table)
  {
    CorrSkuColumn in data.columns && data.rows != []
  }

  /** `process_verification_data`, as a value: the merge's error, the
      `KeyError` of `determine_value` when `corr_sku` was renamed, the
      `KeyError` on `response` when the table has none, or the annotated
      table after the channel override. */
  function Process(data: Table, ref: Reference): (r: Result<seq<Record>>)
    ensures r.Failure? <==>
      MergeCatalogue(data, ref).Failure? || CorrSkuClash(data) || ResponseColumn !in data.columns
    ensures r.Failure? ==>
      r.error == if MergeCatalogue(data, ref).Failure? then MergeCatalogue(data, ref).error
                 else if CorrSkuClash(data) then MissingCorrSkuColumn
                 else MissingResponseColumn
    ensures r.Success? ==> |r.value| >= |data.rows|
  {
    match MergeCatalogue(data, ref)
    case Failure(e) => Failure(e)
    case Success(js) =>
      if CorrSkuClash(data) then Failure(MissingCorrSkuColumn)
      else if ResponseColumn !in data.columns then Failure(MissingResponseColumn)
      else Success(Override(AnnotateAll(js)))
  }

  /** `process_verification_data`: merge, fill the `value` and `comment`
      columns of a fresh table, then override the special-channel rows in
      place. */
  method ProcessVerificationData(data: Table, ref: Reference) returns (r: Result<array<Record>>)
    ensures r.Failure? ==> Process(data, ref) == Failure(r.error)
    ensures r.Success? ==> fresh(r.value) && Process(data, ref) == Success(r.value[..])
  {
    var merged := MergeCatalogue(data, ref);
    if merged.Failure? {
      return Failure(merged.error);
    }
    if CorrSkuClash(data) {
      return Failure(MissingCorrSkuColumn);
    }
    if ResponseColumn !in data.columns {
      return Failure(MissingResponseColumn);
    }
    var js := merged.value;
    var a := new Record[|js|](i requires 0 <= i < |js| => Annotate(js[i]));
    assert a[..] == AnnotateAll(js);
    ApplyChannelOverride(a);
    return Success(a);
  }

  /** Steps 2, 4 and 5 of `main`: split the receipt table on `response`,
      concatenate the two parts (non-null first) and process the result. */
  function RunPipeline(receipt: Table, ref: Reference): (r: Result<seq<Record>>)
    ensures r.Success? ==> |r.value| >= |receipt.rows|
  {
    match SplitData(receipt)
    case Failure(e) => Failure(e)
    case Success(parts) =>
      ReunifyAfterSplit(receipt);
      Process(Reunify(parts.0, parts.1), ref)
  }

  /** What every row of the final report satisfies: a legal code with its
      own comment; a special-channel row is forced to `0_1` with no
      `corr_sku`; any other row carries the classifier's code for its
      `sku` and `corr_sku`. */
  predicate Verified(r: Record)
  {
    && r.value in Codes
    && r.comment == AddComment(r.value)
    && (InChannels(r.row.response) ==>
          r.corrSku == None && r.value == Bypassed && r.comment == BypassComment)
    && (!InChannels(r.row.response) ==> r.value == DetermineValue(Joined(r.row, r.corrSku)))
  }

  /** The receipt rows of a report, in order. */
  function RowsOf(rs: seq<Record>): seq<Row>
  {
    seq(|rs|, i requires 0 <= i < |rs| => rs[i].row)
  }

  /** Every row `process_verification_data` outputs is `Verified`, comes from
      a verification row, and a row the override left alone carries the
      `corr_sku` the left merge gave it. */
  lemma ProcessGuarantees(data: Table, ref: Reference)
    requires Process(data, ref).Success?
    ensures forall r :: r in Process(data, ref).value ==>
      && Verified(r)
      && r.row in data.rows
      && (!InChannels(r.row.response) ==> JoinedFrom(Joined(r.row, r.corrSku), data.rows, ref.entries))
  {
    var js := MergeCatalogue(data, ref).value;
    var annotated := AnnotateAll(js);
    var out := Override(annotated);
    forall r | r in out
      ensures Verified(r) && r.row in data.rows
      ensures !InChannels(r.row.response) ==> JoinedFrom(Joined(r.row, r.corrSku), data.rows, ref.entries)
    {
      var k :| 0 <= k < |out| && out[k] == r;
      assert js[k] in js;
      assert annotated[k] == Annotate(js[k]);
    }
  }

  /** The channel override is idempotent. */
  lemma OverrideIdempotent(rs: seq<Record>)
    ensures Override(Override(rs)) == Override(rs)
  {
  }

  /** The pipeline fails exactly when a required column is missing, or when
      a non-empty receipt already has a `corr_sku` column, with the error of
      the first stage that finds it. */
  lemma PipelineErrors(receipt: Table, ref: Reference)
    ensures RunPipeline(receipt, ref).Failure? <==>
      || ResponseColumn !in receipt.columns
      || SkuCodeColumn !in ref.columns || CorrSkuColumn !in ref.columns
      || SkuColumn !in receipt.columns
      || (CorrSkuColumn in receipt.columns && receipt.rows != [])
    ensures RunPipeline(receipt, ref).Failure? ==>
      RunPipeline(receipt, ref).error ==
        if ResponseColumn !in receipt.columns then MissingResponseColumn
        else if SkuCodeColumn !in ref.columns || CorrSkuColumn !in ref.columns then MissingCatalogueColumns
        else if SkuColumn !in receipt.columns then MissingSkuColumn
        else MissingCorrSkuColumn
  {
    if ResponseColumn in receipt.columns {
      ReunifyAfterSplit(receipt);
    }
  }

  /** Every row of the final report is `Verified` and comes from the receipt. */
  lemma PipelineGuarantees(receipt: Table, ref: Reference)
    requires RunPipeline(receipt, ref).Success?
    ensures forall r :: r in RunPipeline(receipt, ref).value ==>
      && Verified(r)
      && r.row in receipt.rows
      && (!InChannels(r.row.response) ==> JoinedFrom(Joined(r.row, r.corrSku), receipt.rows, ref.entries))
  {
    var parts := SplitData(receipt).value;
    var u := Reunify(parts.0, parts.1);
    ProcessGuarantees(u, ref);
    ReunifyAfterSplit(receipt);
    forall r | r in RunPipeline(receipt, ref).value
      ensures r.row in receipt.rows
      ensures !InChannels(r.row.response) ==> JoinedFrom(Joined(r.row, r.corrSku), receipt.rows, ref.entries)
    {
      assert multiset(u.rows)[r.row] > 0;
    }
  }

  /** With unique catalogue keys the pipeline conserves the rows: the report
      holds every receipt row exactly as often as the receipt, non-null
      `response` first, and a row the override left alone carries the
      `corr_sku` of the catalogue entry keyed by its `sku`. */
  lemma PipelinePreservesRows(receipt: Table, ref: Reference)
    requires UniqueKeys(ref.entries)
    requires RunPipeline(receipt, ref).Success?
    ensures var out := RunPipeline(receipt, ref).value;
      && |out| == |receipt.rows|
      && RowsOf(out) == Where(receipt.rows, false) + Where(receipt.rows, true)
      && multiset(RowsOf(out)) == multiset(receipt.rows)
      && NullsLast(RowsOf(out))
      && forall i :: 0 <= i < |out| && !InChannels(out[i].row.response) ==>
           out[i].corrSku == Lookup(ref.entries, out[i].row.sku)
  {
    var parts := SplitData(receipt).value;
    var u := Reunify(parts.0, parts.1);
    ReunifyAfterSplit(receipt);
    LeftJoinPreservesRows(u.rows, ref.entries);
    var out := RunPipeline(receipt, ref).value;
    assert RowsOf(out) == u.rows;
  }

  /** The worked examples: a correct match, an incorrect match, a special
      channel without a match, an ordinary channel without a match, and a
      catalogue without `corr_sku`. */
  lemma Examples()
    ensures var a1, z9 := Row(Some("A1"), Some("STORE_X"), map[]), Row(Some("Z9"), Some(Marketplace), map[]);
      && Annotate(Joined(a1, Some("A1"))) == Record(a1, Some("A1"), Correct, "")
      && Annotate(Joined(a1, Some("B2"))) == Record(a1, Some("B2"), Incorrect, IncorrectComment)
      && OverrideRow(Annotate(Joined(z9, None))) == Annotate(Joined(z9, None))
      && Annotate(Joined(z9, None)) == Record(z9, None, Bypassed, BypassComment)
      && Annotate(Joined(a1.(sku := Some("Z9")), None)).value == NotRecognized
      && Annotate(Joined(a1.(sku := Some("Z9")), None)).comment == NotRecognizedComment
      && RunPipeline(Table({ResponseColumn, SkuColumn}, [a1]), Reference({SkuCodeColumn}, []))
         == Failure(MissingCatalogueColumns)
  {
  }

  /** A verification table without `response` fails on that column, whether
      it has rows or not. */
  lemma MissingResponseExamples()
    ensures var a1 := Row(Some("A1"), None, map[]);
      && Process(Table({SkuColumn}, [a1]), Reference({SkuCodeColumn, CorrSkuColumn}, []))
         == Failure(MissingResponseColumn)
      && Process(Table({SkuColumn}, []), Reference({SkuCodeColumn, CorrSkuColumn}, []))
         == Failure(MissingResponseColumn)
  {
  }

  /** A whole run: a marketplace row whose `sku` the catalogue confirms is
      still forced to `0_1`, while an ordinary row keeps its `1_1`. */
  lemma PipelineExample()
    ensures var a1, z9 := Row(Some("A1"), Some("STORE_X"), map[]), Row(Some("Z9"), Some(Marketplace), map[]);
      RunPipeline(Table({ResponseColumn, SkuColumn}, [z9, a1]),
                  Reference({SkuCodeColumn, CorrSkuColumn}, [Entry(Some("A1"), Some("A1")), Entry(Some("Z9"), Some("Z9"))]))
      == Success([Record(z9, None, Bypassed, BypassComment), Record(a1, Some("A1"), Correct, "")])
  {
    var a1, z9 := Row(Some("A1"), Some("STORE_X"), map[]), Row(Some("Z9"), Some(Marketplace), map[]);
    var t := Table({ResponseColumn, SkuColumn}, [z9, a1]);
    var ref := Reference({SkuCodeColumn, CorrSkuColumn}, [Entry(Some("A1"), Some("A1")), Entry(Some("Z9"), Some("Z9"))]);
    ReunifyKeepsPartitionedOrder(t);
    assert Reunify(SplitData(t).value.0, SplitData(t).value.1) == t;
    ExampleProcess(a1, z9, t, ref);
  }

  /** The `process_verification_data` step of `PipelineExample`. */
  lemma ExampleProcess(a1: Row, z9: Row, t: Table, ref: Reference)
    requires a1 == Row(Some("A1"), Some("STORE_X"), map[]) && z9 == Row(Some("Z9"), Some(Marketplace), map[])
    requires t == Table({ResponseColumn, SkuColumn}, [z9, a1])
    requires ref == Reference({SkuCodeColumn, CorrSkuColumn}, [Entry(Some("A1"), Some("A1")), Entry(Some("Z9"), Some("Z9"))])
    ensures Process(t, ref) == Success([Record(z9, None, Bypassed, BypassComment), Record(a1, Some("A1"), Correct, "")])
  {
    ExampleJoin(a1, z9, ref.entries);
    ExampleAnnotate(a1, z9);
    var js := [Joined(z9, Some("Z9")), Joined(a1, Some("A1"))];
    assert MergeCatalogue(t, ref) == Success(js);
    assert !CorrSkuClash(t);
  }

  /** The merge step of `PipelineExample`. */
  lemma ExampleJoin(a1: Row, z9: Row, entries: seq<Entry>)
    requires a1.sku == Some("A1") && z9.sku == Some("Z9")
    requires entries == [Entry(Some("A1"), Some("A1")), Entry(Some("Z9"), Some("Z9"))]
    ensures JoinRows([z9, a1], entries) == [Joined(z9, Some("Z9")), Joined(a1, Some("A1"))]
  {
    LeftJoinPreservesRows([z9, a1], entries);
    assert Lookup(entries, Some("Z9")) == Some("Z9");
    assert Lookup(entries, Some("A1")) == Some("A1");
  }

  /** The annotate and override steps of `PipelineExample`. */
  lemma ExampleAnnotate(a1: Row, z9: Row)
    requires a1 == Row(Some("A1"), Some("STORE_X"), map[]) && z9 == Row(Some("Z9"), Some(Marketplace), map[])
    ensures Override(AnnotateAll([Joined(z9, Some("Z9")), Joined(a1, Some("A1"))]))
            == [Record(z9, None, Bypassed, BypassComment), Record(a1, Some("A1"), Correct, "")]
  {
    var annotated := AnnotateAll([Joined(z9, Some("Z9")), Joined(a1, Some("A1"))]);
    assert annotated == [Record(z9, Some("Z9"), Correct, ""), Record(a1, Some("A1"), Correct, "")];
    assert InChannels(z9.response) && !InChannels(a1.response);
  }
}
