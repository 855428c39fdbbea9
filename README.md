# Receipt verification pipeline: a Dafny model

This project models the checking of a neural classifier's receipt results
against a product catalogue (`kr/main.py`). The pipeline runs in five stages:

1. **Partition.** The receipt table is split into the rows whose `response` is
   non-null and the rows whose `response` is null (`split_data`).
2. **Reunify.** The two parts are concatenated again, non-null part first
   (`pd.concat`).
3. **Catalogue merge.** The table is left-merged on `sku` = `sku_code`, which
   brings in the catalogue's `corr_sku` (`merge_catalogue`).
4. **Classify and annotate.** Every row gets an outcome code `1_1`, `1_0`,
   `0_1` or `0_0` (`determine_value`) and that code's comment (`add_comment`).
5. **Channel override.** Every row whose `response` is one of the four special
   sales channels (`ИНТЕРНЕТ РЕШЕНИЯ`, `МАРКЕТПЛЕЙС`, `ВАЙЛДБЕРРИЗ`, `ЯНДЕКС`)
   is forced to have no `corr_sku`, code `0_1` and the bypass comment.

Files:

- `tables.dfy` (module `Tables`) holds the shared types. A nullable cell is
  `Option<string>`. A row has `sku`, `response` and its other columns. A table
  has a column set and its rows in order. `Error` names the four `KeyError`s
  the modelled stages can raise: no `response` column (in `split_data`, or
  in `process_verification_data` when called on such a table), no `sku_code`
  or `corr_sku` in the catalogue, no `sku` join key, and no plain `corr_sku`
  after the merge (see below).
- `partition.dfy` (module `Partition`) holds `split_data` as `SplitData`, built
  on the mask selection `Where`, and the concatenation as `Reunify`.
- `catalogue.dfy` (module `Catalogue`) holds `merge_catalogue` as
  `MergeCatalogue`. It is a faithful left merge: a row with several matching
  catalogue entries fans out into one row per matching entry. A row with no
  match gets a null `corr_sku`. `Lookup` is an independent
  first-match reference. Under unique `sku_code` values the merge is proved to
  equal `Lookup` row by row.
- `classifier.dfy` (module `Classifier`) holds `determine_value` as
  `DetermineValue` and `add_comment` as `AddComment`. The channel names, codes
  and comments are kept verbatim as constants.
- `verification.dfy` (module `Verification`) holds `process_verification_data`.
  `ProcessVerificationData` is a method. It builds a fresh array of annotated
  rows (the two `apply` passes; `Annotate`, `AnnotateAll`). It then runs
  `ApplyChannelOverride`, a loop that overwrites the masked rows in place.
  Both methods are proved against the value-level specification `Process` /
  `Override`. `RunPipeline` chains split, reunify and process, as `main` does.
  The lemmas state what the final report guarantees.

Keys are compared as cells, so a null `sku` matches a null `sku_code`. pandas'
`merge` behaves the same way.

When the verification table already has a `corr_sku` column, the merge keeps
both and renames them `corr_sku_x` and `corr_sku_y`. `determine_value` then
finds no `corr_sku` on the first row it reads and raises a `KeyError`. The
model returns `MissingCorrSkuColumn` in that case, for a non-empty table.

`process_verification_data` also reads `response`: `determine_value` reads it
on every row without a `corr_sku`, and the override mask reads the column at
line 94 in any case. A table without it raises a `KeyError`, so `Process`
returns `MissingResponseColumn`. In `main` the table always has `response`,
because `split_data` checked it and the concatenation keeps the columns.

## Model

| member | source | states |
|---|---|---|
| `Partition.Where` | kr/main.py:28-29 | every row kept by the `notnull`/`isnull` mask comes from the input and has the selected nullity |
| `Partition.SplitData` | kr/main.py:24-31 | fails with the missing-`response` error exactly when the column is absent; otherwise both parts keep the columns, the first holds only input rows with non-null `response`, the second only input rows with null `response` |
| `Partition.WhereCount` | kr/main.py:28-29 | a row of matching nullity is in its partition exactly as often as in the input; any other row is not in it at all |
| `Partition.WhereAppend` | kr/main.py:28-29 | the selection distributes over concatenation, so it keeps input order |
| `Partition.WhereIsSubsequence` | kr/main.py:28-29 | each partition is a subsequence of the input |
| `Partition.SplitIsExact` | kr/main.py:28-29 | the partitions are disjoint, together equal the input as a multiset, and their lengths sum to the input's |
| `Partition.WhereAll` | kr/main.py:28-29 | when all rows have one nullity, that partition is the whole input and the other is empty |
| `Partition.WhereStable` | kr/main.py:28-29 | for rows already ordered non-null first, non-null part followed by null part is the input itself |
| `Partition.Reunify` | kr/main.py:153 | the concatenation holds exactly the rows of the two parts, the first part's rows in front and the second's after them, under the union of their columns |
| `Partition.ReunifyAfterSplit` | kr/main.py:146-153 | the concatenated table has the input's columns and length, every input row as often as before, and no null-`response` row before a non-null one |
| `Partition.ReunifyKeepsPartitionedOrder` | kr/main.py:146-153 | splitting and concatenating a table already ordered non-null first returns its rows unchanged |
| `Catalogue.Matches` | kr/main.py:53 | the matched `corr_sku` cells come from entries keyed by the row's `sku`, and there are none exactly when no entry has that key |
| `Catalogue.MatchesCount` | kr/main.py:53 | a key has one match per catalogue entry carrying it: as many as the key occurs in the `sku_code` column |
| `Catalogue.JoinRow` | kr/main.py:53 | a row with no match yields the single row with a null `corr_sku`; otherwise one merged row per match, the i-th carrying the i-th matched `corr_sku`; every merged row carries the row unchanged |
| `Catalogue.JoinRows` | kr/main.py:53 | the left merge has at least as many rows as its input; each merged row comes from an input row with a `corr_sku` from an entry keyed by its `sku`, or null when no entry has that key |
| `Catalogue.MergeCatalogue` | kr/main.py:47-55 | fails exactly when the catalogue lacks `sku_code` or `corr_sku` (that error first) or the table lacks `sku`; otherwise every input row appears in the result, which has at least as many rows |
| `Catalogue.Lookup` | kr/main.py:53 | the first-match reference: null when no entry has the key, otherwise the `corr_sku` of the first entry with that key |
| `Catalogue.UniqueMatch` | kr/main.py:53 | with unique `sku_code` values a key matches no entry or exactly the one `Lookup` finds |
| `Catalogue.JoinKeepsEveryRow` | kr/main.py:53 | every verification row appears in the left merge |
| `Catalogue.JoinKeepsAllRows` | kr/main.py:53 | no verification row is lost in the left merge |
| `Catalogue.LeftJoinPreservesRows` | kr/main.py:53 | with unique `sku_code` values the merge keeps length and order, and row i carries the `corr_sku` that `Lookup` gives for its `sku` |
| `Classifier.DetermineValue` | kr/main.py:66-76 | the code is always one of the four; its first digit is 1 exactly when `corr_sku` is non-null; then the second digit is 1 exactly when `sku` equals `corr_sku`; with a null `corr_sku` it is 1 exactly when `response` is a special channel |
| `Classifier.AddComment` | kr/main.py:78-86 | among legal codes the comment is empty exactly for `1_1`; any other string gets the empty comment; the bypass comment belongs to `0_1` alone |
| `Classifier.CommentDeterminesCode` | kr/main.py:78-86 | no two legal codes share a comment |
| `Verification.Annotate` | kr/main.py:90-91 | a row keeps its receipt columns and `corr_sku` and gets the code `determine_value` gives its merged row, with that code's comment; the comment is empty exactly when `corr_sku` is non-null and equals `sku`, and is the bypass comment exactly when there is no `corr_sku` and the channel is special |
| `Verification.AnnotateAll` | kr/main.py:90-91 | row-wise: same length and order, each row gets `determine_value` of its merged row and the comment of that code |
| `Verification.OverrideRow` | kr/main.py:95-97 | a special-channel row gets a null `corr_sku`, `0_1` and the bypass comment; any other row is unchanged; the receipt columns never change |
| `Verification.Override` | kr/main.py:94-97 | keeps the length and every row's receipt columns; special-channel rows get a null `corr_sku`, `0_1` and the bypass comment; all other rows are unchanged |
| `Verification.ApplyChannelOverride` | kr/main.py:94-97 | the array after the in-place updates is `Override` of the array before, and non-channel rows are untouched |
| `Verification.Process` | kr/main.py:88-100 | fails exactly when the merge fails (with its error), a non-empty table already had `corr_sku` (then `MissingCorrSkuColumn`), or the table has no `response` (then `MissingResponseColumn`); otherwise it has at least as many rows as the input |
| `Verification.ProcessVerificationData` | kr/main.py:88-100 | returns the error `Process` gives, or a fresh array holding exactly the `Process` result: merged, annotated, then overridden |
| `Verification.ProcessGuarantees` | kr/main.py:88-100 | every output row has a legal code and the comment of that code; special-channel rows are forced; other rows keep the classifier's code for their `corr_sku`, which came from the merge; every row comes from the input |
| `Verification.OverrideIdempotent` | kr/main.py:94-97 | applying the channel override twice gives the same table as once |
| `Verification.RunPipeline` | kr/main.py:146-156 | split, concatenate, then process; a successful report has at least as many rows as the receipt |
| `Verification.PipelineErrors` | kr/main.py:26-90 | the run fails exactly when `response`, a catalogue column or `sku` is missing, or a non-empty receipt already has `corr_sku`, with the error of the first stage that finds it |
| `Verification.PipelineGuarantees` | kr/main.py:146-156 | every report row is `Verified` and is a receipt row, and a row the override left alone carries a `corr_sku` the merge gave it |
| `Verification.PipelinePreservesRows` | kr/main.py:146-156 | with unique `sku_code` values the report's rows are the receipt's non-null-`response` rows in order, then its null-`response` rows in order (so the same length and multiset), and every non-overridden row carries its `Lookup` `corr_sku` |
| `Verification.Examples` | kr/main.py:66-97 | the worked cases: correct match `1_1` with no comment; wrong match `1_0`; marketplace without match `0_1` with the bypass comment, which the override leaves as is; ordinary channel without match `0_0` with its comment; a catalogue without `corr_sku` fails |
| `Verification.MissingResponseExamples` | kr/main.py:73-94 | a verification table without `response` fails with `MissingResponseColumn`, whether it has rows or not |
| `Verification.PipelineExample` | kr/main.py:146-156 | a marketplace row that the catalogue confirms is still forced to `0_1`, while an ordinary confirmed row keeps `1_1` |

## Left out

- Reading the receipt files (`load_data`) and writing the partitions and the final report (`save_csv`, `save_final_report`) are file I/O. The tables are parameters and results instead.
- `main`'s home-directory paths, `os.makedirs`, the fallback search for the catalogue file and the top-level catch-and-log are left out. They are path handling and process plumbing.
- Logging, and the log-then-re-raise wrappers, are left out. Each error is a `Failure` value of the stage that raises it.
- The catalogue is a loaded table argument. `pd.read_excel` and its `FileNotFoundError` are not modelled.
- Cells are strings; pandas' dtype handling (numeric comparison of int and float keys, the `ValueError` when merging int64 keys with object keys) is not modelled. NaN and None are both the null cell.
- The merge's extra `sku_code` column is not modelled. Nor is its renaming to `sku_code_x`/`sku_code_y` when the table already has a `sku_code` column; nothing downstream reads it. A clash on `corr_sku` is modelled as `MissingCorrSkuColumn`.
- How pandas' `apply` behaves on an empty merged table is not modelled. The model returns an empty report when the table has a `response` column.
- The report's column list is not tracked. A `Record` always has `corr_sku`, `value` and `comment`.
- The override mask is computed once at line 94. The loop tests each row's `response` as it goes. These agree because the override never changes `response`.
- `add_comment` never fails: an unknown code gets `""`, and `AddComment` does the same.
