# adex helpers: a verified model of the preprocessing core

This project models the table and set logic of `adex/helpers.py`, the helper
module of a gene-expression preprocessing pipeline. The model covers:

- the loop in `gene_intersection`, with its re-seeding of an empty running set;
- the join reductions in `common_genes_dataframe`, `high_frequency_genes_dataframe`
  and `get_pre_processed_dataset`, viewed through the gene keys they keep;
- the row filter of `high_frequency_genes_dataframe` on the `Null-Percentage` score;
- the column and row selection helpers `_keep_only_selected_genes` and
  `_keep_only_selected_samples`;
- the stage of `get_pre_processed_dataset` that follows the metadata joins:
  the per-loader filter, the `None` result for an empty table, column
  null-pruning, and stripping the reserved metadata columns;
- the title that `plot_condition_2d` chooses for each data loader.

Dataframes are `Tables.Table` values. A table is a sequence of column names
plus a sequence of rows. Each row maps a column name to a cell. A cell is
null (`None`) or a string, a finite number or positive infinity. `gene` is the
key column of the per-dataset tables, and `Sample` is the key column after the
transpose.

A polars error on a missing column is modelled as
`Failure(ColumnNotFound(name))`. Unpacking `head, *tail` from an empty list
gives `Failure(EmptyList)`. The `ValueError` of the file glob is
`Failure(NoFilesFound(path))`, and the `ValueError` of the plot title is
`Failure(UnhandledLoader)`.

`METADATA_COLUMNS` and `DATASET_INFO_COLUMNS` are defined in `adex/models.py`,
which is not part of this model. They are a parameter, `Preprocessing.Reserved`.
The data-loader classes also live there. They are the datatype
`Loaders.DataLoader`: the five classes the code matches on, plus
`OtherDataLoader`, which stands for any further loader.

Modules:

- `Tables` (tables.dfy): the table model, filtering, selection and dropping.
- `GeneSets` (gene_sets.dfy): `gene_intersection`.
- `Joins` (joins.dfy): the joins and their reductions.
- `FrequencyFilter` (frequency_filter.dfy): the `Null-Percentage` filter.
- `Loaders` (loaders.dfy): the data loaders and loading.
- `Preprocessing` (preprocessing.dfy): selection, loader dispatch, pruning and stripping.
- `Plotting` (plotting.dfy): plot titles.

Points where the code's behaviour is easy to misread:

- `gene_intersection` re-seeds the running set whenever it becomes empty, so its result depends on the order of the dataframes; see Findings.
- The row score sums `is_null / count()` over all columns, the `gene` key included. Here `count()` is the number of non-null cells of that column.
- An unrecognised loader reaching the filter dispatch falls into `case _: pass`, which leaves the table unchanged. Only the plot title raises an error for such a loader.
- A sequencing loader's title shows the technique's `name`, while the row filter compares the `Method` column with the technique's `value`.
- A frame with no columns has no rows. So when column pruning removes every column, the result of `get_pre_processed_dataset` is the empty frame.

## Model

| member | source | states |
|---|---|---|
| GeneSets.GeneIntersection | adex/helpers.py:37-53 | The loop fails exactly when some dataframe lacks a `gene` column. Otherwise its result is the re-seeding fold `Reseeded` over the gene sets in list order. An empty list gives the empty set. |
| GeneSets.Reseeded | adex/helpers.py:41-51 | The running set after visiting every dataframe in order; an empty list leaves it empty. |
| GeneSets.ReseededKeepsCommon | adex/helpers.py:41-53 | A gene present in every dataframe of a non-empty list is in the result. |
| GeneSets.CommonToAllSnoc | adex/helpers.py:43-51 | The genes common to all sets are the genes common to all but the last set, intersected with the last set. |
| GeneSets.ReseededIsCommonWhenNonEmpty | adex/helpers.py:41-53 | When the dataframes share at least one gene, the result is exactly the set of shared genes. |
| GeneSets.ReseededWithinLast | adex/helpers.py:43-51 | For a non-empty list, the result is a subset of the last dataframe's genes. |
| GeneSets.ReseedCounterexample | adex/helpers.py:44-47 | `[{A}, {B}, {C}]` gives `{C}`: the empty running set is re-seeded from the third dataframe. |
| GeneSets.ReseededOrderMatters | adex/helpers.py:43-51 | The same gene sets in two orders give `{B}` and `{}`, so the result depends on the order. |
| GeneSets.SharedGenesExample | adex/helpers.py:41-53 | Three overlapping gene lists give exactly their two shared genes. |
| GeneSets.IntendedIntersection | adex/helpers.py:37-53 | Corrected loop: a gene is in the result iff every dataframe has it, and an empty list gives the empty set. |
| GeneSets.ReseededAgreesWhenShared | adex/helpers.py:41-53 | The loop as written and the corrected intersection agree whenever the dataframes share a gene. |
| GeneSets.ReseededDiffersFromIntended | adex/helpers.py:44-47 | The loop as written and the corrected intersection differ on `[{A}, {B}, {C}]`. |
| Joins.Join | adex/helpers.py:63 | A join fails iff either side lacks `gene`, or iff the clashing right columns still collide after the `_right` suffix. A successful join has the left columns, then the renamed right non-key columns, with no duplicates. |
| Joins.Reduce | adex/helpers.py:62-66 | A reduction never fails with the empty-list error, and a reduction with an empty tail returns its head. |
| Joins.JoinAll | adex/helpers.py:60-66 | `head, *tail` followed by the reduction fails with the empty-list error iff the list is empty. A one-element list is returned unchanged. |
| Joins.JoinWellFormed | adex/helpers.py:63 | A successful join of a well-formed left table is well-formed: no duplicate columns, and every row holds exactly the result's columns. |
| Joins.ReduceWellFormed | adex/helpers.py:62-66 | A successful reduction from a well-formed head is well-formed. |
| Joins.JoinAllWellFormed | adex/helpers.py:60-66 | A successful `head, *tail` reduction from a well-formed first dataframe is well-formed. |
| Joins.JoinAvoids | adex/helpers.py:63 | A column name that neither side has, and that does not end in `_right`, is not in the join's result. |
| Joins.ReduceAvoids | adex/helpers.py:62-66 | A column name that no table of the reduction has, and that does not end in `_right`, is not in its result. |
| Joins.JoinAllAvoids | adex/helpers.py:60-66 | A column name that no dataframe has, and that does not end in `_right`, is not in the reduction's result. |
| Joins.MergeEachKeys | adex/helpers.py:63 | The rows merged from a left row carry exactly the left row's key, and there are none when it has no match. |
| Joins.MatchingEmpty | adex/helpers.py:63 | A key has no match iff it is null or no right row holds it: null keys never join. |
| Joins.InnerRowsKeys | adex/helpers.py:63 | The inner join's rows hold exactly the non-null keys present on both sides. |
| Joins.OuterLeftRowsKeys | adex/helpers.py:86 | The left part of the outer join keeps exactly the left keys. |
| Joins.RightOnlyRowsKeys | adex/helpers.py:86 | The unmatched right rows contribute their own keys, coalesced into `gene`. |
| Joins.OuterRowsKeys | adex/helpers.py:86 | The coalescing outer join's rows hold the union of both sides' keys. |
| Joins.JoinKeys | adex/helpers.py:62-66 | One join's key set: the non-null intersection for `inner`, the union for `outer_coalesce`. |
| Joins.ReduceInnerKeys | adex/helpers.py:62-66 | A non-null key survives the inner reduction iff the head and every table of the tail hold it. |
| Joins.ReduceOuterKeys | adex/helpers.py:85-89 | A key is in the outer reduction iff the head or some table of the tail holds it. |
| Joins.CommonGenesDataframe | adex/helpers.py:56-66 | `common_genes_dataframe` fails on an empty list and returns a single dataframe unchanged. |
| Joins.CommonGenesKeys | adex/helpers.py:56-66 | A non-null gene is in `common_genes_dataframe`'s result iff every dataframe has it. |
| Joins.OuterJoinAllKeys | adex/helpers.py:83-89 | A gene is in the coalescing outer reduction iff some dataframe has it. |
| FrequencyFilter.NonNullCount | adex/helpers.py:92 | `count()` of a column is at most the number of rows. |
| FrequencyFilter.Annotate | adex/helpers.py:92 | Every row gets its own score stored under `Null-Percentage`, and the row count is kept. |
| FrequencyFilter.HighFrequencyGenesDataframe | adex/helpers.py:69-99 | Fails with the empty-list error iff the list is empty, and succeeds iff the outer reduction does. |
| FrequencyFilter.HighFrequencyGenesRows | adex/helpers.py:69-99 | For well-formed inputs without a `Null-Percentage` column, the rows are exactly the joined rows whose score is at most the threshold, in order. They carry their scores when the column is kept. `Null-Percentage` is in the result iff it is not dropped, and every other column is one of the joined table's. |
| FrequencyFilter.WithScores | adex/helpers.py:92 | Adds `Null-Percentage` as the last column (or keeps the columns when it is already there) and keeps the row count. Each row's score cell is its score, and its other cells are unchanged. |
| FrequencyFilter.FilterByScore | adex/helpers.py:91-99 | `Null-Percentage` is in the output iff it is not dropped. Every other column is kept iff it is an input column, and rows are never added. |
| FrequencyFilter.FilterAnnotated | adex/helpers.py:92-93 | Filtering the annotated rows on the stored score is the same as filtering the rows on their score, then annotating them. |
| FrequencyFilter.WithScoresWellFormed | adex/helpers.py:92 | Adding the score column to a well-formed table without one gives a well-formed table. |
| FrequencyFilter.DropAnnotated | adex/helpers.py:96-97 | Dropping `Null-Percentage` from annotated rows gives the original rows back. |
| FrequencyFilter.FilterByScoreRows | adex/helpers.py:91-99 | The output rows are exactly the input rows whose score is at most the threshold, in their original order. With the score column kept, each row carries its score. |
| FrequencyFilter.RowScoreNonNegative | adex/helpers.py:92 | A finite row score is at least 0. |
| FrequencyFilter.RowScoreZero | adex/helpers.py:92 | A row without a null cell scores 0. |
| FrequencyFilter.RowScorePositive | adex/helpers.py:92-93 | A row with a null cell scores above 0, or infinity when its column is all null. |
| FrequencyFilter.FullRowKept | adex/helpers.py:91-94 | A row without a null cell is kept for every threshold of at least 0. |
| FrequencyFilter.NullRowRemovedAtZero | adex/helpers.py:91-94 | At threshold 0, every row with a null cell is removed. |
| FrequencyFilter.KeptMonotone | adex/helpers.py:93 | Raising the threshold never removes a row a lower threshold kept. The lower threshold's rows are the higher threshold's rows, filtered again. |
| Loaders.LoadDataPerCondition | adex/helpers.py:21-34 | Loading fails with the path error iff no file was found. Otherwise it returns the dataframes read. |
| Loaders.LoadData | adex/helpers.py:120-124 | A file loader reads only its one file. Every other loader reads the whole directory of its condition. |
| Loaders.LoadedJoinNeverEmpty | adex/helpers.py:120-137 | After a successful load, `head, *tail` never meets an empty list. A failed load is the missing-files error of a non-file loader. |
| Preprocessing.GeneSelection | adex/helpers.py:205-211 | The selected column list starts with `Sample` and has no duplicates. Its members are `Sample` plus the present reserved columns and requested genes. Every reserved column comes before every gene column. |
| Preprocessing.KeepOnlySelectedGenes | adex/helpers.py:204-212 | Fails iff the table has no `Sample` column. Otherwise it keeps every row, and every cell of the selected columns. |
| Preprocessing.KeepOnlySelectedGenesColumns | adex/helpers.py:204-212 | The column set is `({Sample} ∪ metadata ∪ dataset info ∪ genes) ∩ existing columns`. `Sample` comes first and there are no duplicates. A requested gene the table lacks never appears, and the result stays well-formed. |
| Preprocessing.KeepOnlySelectedSamples | adex/helpers.py:215-216 | Keeps exactly the rows whose `Sample` is listed, in their order, each as often as it occurs. Listed samples the table lacks are ignored, and the columns are unchanged. Fails iff `Sample` is missing. |
| Preprocessing.FilterEquals | adex/helpers.py:169-175 | Keeps exactly the rows whose column equals the value, in their order, each as often as it occurs, with the columns unchanged. Fails iff the column is missing. |
| Preprocessing.FilterTissueAndMethod | adex/helpers.py:184 | Keeps exactly the rows matching both the tissue and the method, in their order, each as often as it occurs. Fails iff either column is missing. |
| Preprocessing.LoaderFilter | adex/helpers.py:168-190 | Condition loaders and unrecognised loaders leave the table unchanged. A failure is a missing-column error, and a success never adds a column or a row. |
| Preprocessing.LoaderFilterCases | adex/helpers.py:168-190 | Tissue loaders filter on `Tissue == tissue.value`, and sequencing loaders on `Method == value`. The combined loader filters on both, then keeps the listed genes when it has a list. A file loader keeps the listed genes, then the listed samples, for whichever lists it has. Loaders without lists, and every other loader, leave the table unchanged. |
| Preprocessing.FilterForLoader | adex/helpers.py:168-190 | Rebinding the working table once per filter computes exactly `LoaderFilter`. |
| Preprocessing.LoaderFilterShrinks | adex/helpers.py:168-190 | The loader filter keeps tables well-formed and never adds a column or a row. |
| Preprocessing.NullCount | adex/helpers.py:196 | `null_count()` is at most the height. |
| Preprocessing.PruneColumns | adex/helpers.py:196 | A column survives iff `null_count / height <= allowed_null_percentage`, in column order. Every row is kept while a column survives; with none left, the frame is empty. |
| Preprocessing.PruneBelowZero | adex/helpers.py:196 | Below 0, no column survives pruning and the result is the empty frame. |
| Preprocessing.StripReserved | adex/helpers.py:201 | Removes exactly the reserved columns, keeping the order of the others, with no duplicates introduced. Every row is kept while a column remains. |
| Preprocessing.PruneColumnsCells | adex/helpers.py:196 | Pruning keeps every cell of the surviving columns. |
| Preprocessing.StripReservedCells | adex/helpers.py:201 | Stripping keeps every cell of the remaining columns. |
| Preprocessing.GetPreProcessedDataset | adex/helpers.py:168-201 | A loader-filter failure propagates. The result is `None` iff the filtered table has no rows. Otherwise its columns are those of the filtered table that pass pruning and, without metadata, are not reserved, in their order. It keeps every row and cell while a column remains, and is the empty frame otherwise; with metadata it is the pruned table. |
| Plotting.PlotTitle | adex/helpers.py:243-255 | Fails with the unhandled-loader error iff the loader is none of the five. Otherwise the title is `"<method> of '<label>' Dataset"`. |
| Plotting.LabelShape | adex/helpers.py:244-253 | The label starts with the condition name. With parts free of `\|`, it has one separator per qualifier: none, one for the tissue, file or technique, or two. |
| Plotting.TitleDeterminesLabel | adex/helpers.py:244-253 | Two titles with the same method are equal only when their labels are. |
| Plotting.TitleIgnoresTechniqueValue | adex/helpers.py:250-251 | A sequencing loader's title depends on the technique's `name` and not on its `value`. |
| Plotting.ConditionTitleExample | adex/helpers.py:244-245 | A condition loader `ALS` with method `PCA` gets the title `PCA of 'ALS' Dataset`. |

## Left out

- File reading: `pl.read_parquet`, `pl.read_csv` and `Path.glob` are I/O. The loaded dataframes are parameters of `Loaders.LoadData` and `Loaders.LoadDataPerCondition`.
- The transpose, rename, slice and `cast(pl.Float64)` of lines 140-151: polars mechanics plus floating-point coercion. `Preprocessing.GetPreProcessedDataset` takes the transposed, typed table as its input.
- The metadata joins and `unique(subset=["Sample"])` of lines 154-165. Which duplicate row polars keeps is library behaviour, so the joined table is an input.
- Plot rendering: the `plt` calls, scatter, colours and legend. Only the title is modelled.
- `run_ml_model`: scikit-learn fitting, grid search, cross-validation, metrics and printing.
- The contents of `METADATA_COLUMNS` and `DATASET_INFO_COLUMNS`, and the loader class hierarchy: they are defined in `adex/models.py`, which is not part of this model. The model assumes none of the five loader classes subclasses another.
- Preprocessing.GeneSelection: Python sets have no defined iteration order, so the model lists each group in the table's column order. The contracts state only what holds for every order: `Sample` first, reserved columns before genes, and the column set.
- Joins.Join: the row order of a join is fixed by the model (left rows first, then unmatched right rows), but no contract relies on it. Non-key cell values of joined rows are modelled but not stated in contracts; the key sets are.
- Joins.CommonGenesKeys: the row count of `common_genes_dataframe` is not bounded. With a gene repeated in a table, an inner join yields more rows than either input. The key set is stated instead.
- Preprocessing.StripReserved: dropping a reserved column that pruning already removed is modelled as ignoring it. A polars release whose `drop` rejects absent names would raise there instead; that error path is not modelled.
- Default arguments: `allowed_null_percentage=0.2`, `drop_frequencies_column=True` and `return_metadata=True` (lines 71-72 and 107-108) are ordinary parameters of `FrequencyFilter.HighFrequencyGenesDataframe` and `Preprocessing.GetPreProcessedDataset`, since Dafny has no default arguments. A caller that relies on the defaults passes `0.2`, `true` and `true`.
- FrequencyFilter.HighFrequencyGenesRows: assumes no input already has a `Null-Percentage` column. With one, `with_columns` would overwrite it, and the join could rename it; that case is not stated.
- GeneSets.Reseeded: the bound by the last dataframe's genes is the lemma `GeneSets.ReseededWithinLast`, not an `ensures` of the function.
- Floating point: the threshold and scores are exact reals. `allowed_null_percentage` and the 1/count terms are not rounded.
- Genes and samples are compared as whole strings; polars dtype casting is not modelled.

## Findings

| source | as written | input that shows it | evidently intended | confidence | as-written member | corrected member |
|---|---|---|---|---|---|---|
| adex/helpers.py:44 | `if len(common_genes) == 0` re-seeds the running set whenever it is empty, not only on the first iteration (the comment says "First iteration"). | Gene sets `{A}`, `{B}`, `{C}`: the running set is `{A}`, then empty, then re-seeded to `{C}`. The result is `{C}`, although no gene is common to all three. | The first dataframe seeds the set and every later one intersects it, giving the genes all dataframes share (`{}` here). | high; not executed | GeneSets.ReseedCounterexample | GeneSets.IntendedIntersection |
