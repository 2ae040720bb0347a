/**
 * The stage of `get_pre_processed_dataset` that follows the joins with the
 * metadata: the loader-specific row and column selection, the empty-result
 * short-circuit, the pruning of columns with too many nulls and the
 * optional stripping of the reserved metadata columns.
 *
 * The table this stage receives has one row per sample, a `Sample` column,
 * one column per gene and the metadata and dataset-information columns.
 */
module Preprocessing {
  import opened Tables
  import opened Loaders

  /** The reserved column names: the sample-metadata columns and the
      dataset-information columns. */
  datatype Reserved = Reserved(metadata: set<Name>, datasetInfo: set<Name>)

  /** `Sample` and the reserved columns: the columns gene selection keeps. */
  predicate IsFixedName(rc: Reserved, c: Name)
  {
    c == "Sample" || c in rc.metadata || c in rc.datasetInfo
  }

  // ---------------------------------------------------------------------
  // Gene selection

  lemma GroupsNoDup(a: seq<Name>, b: seq<Name>)
    requires NoDup(a) && NoDup(b)
    requires "Sample" !in a && "Sample" !in b
    requires forall x :: x in a ==> x !in b
    ensures NoDup(["Sample"] + a + b)
  {
    NoDupAppend(a, b);
    NoDupAppend(["Sample"], a + b);
    assert ["Sample"] + a + b == ["Sample"] + (a + b);
  }

  lemma GroupsOrdered(rc: Reserved, a: seq<Name>, b: seq<Name>)
    requires forall x :: x in a ==> IsFixedName(rc, x)
    requires forall x :: x in b ==> !IsFixedName(rc, x)
    ensures forall i, j :: 0 <= i < j < |["Sample"] + a + b| && IsFixedName(rc, (["Sample"] + a + b)[j]) ==>
              IsFixedName(rc, (["Sample"] + a + b)[i])
  {
    var cols := ["Sample"] + a + b;
    forall k | 1 + |a| <= k < |cols| ensures !IsFixedName(rc, cols[k]) {
      assert cols[k] == b[k - 1 - |a|];
    }
    forall k | 1 <= k < 1 + |a| ensures IsFixedName(rc, cols[k]) {
      assert cols[k] == a[k - 1];
    }
  }

  /** The column list `_keep_only_selected_genes` selects: `Sample`, then
      the other reserved columns the table has, then the requested genes the
      table has that are not reserved. Each group is listed in the table's
      column order. */
  function GeneSelection(t: Table, genes: seq<Name>, rc: Reserved): (cols: seq<Name>)
    ensures |cols| > 0 && cols[0] == "Sample"
    ensures forall c :: c in cols <==>
              c == "Sample" || (c in t.columns && (IsFixedName(rc, c) || c in genes))
    ensures NoDup(t.columns) ==> NoDup(cols)
    ensures forall i, j :: 0 <= i < j < |cols| && IsFixedName(rc, cols[j]) ==> IsFixedName(rc, cols[i])
  {
    var existing := Elems(t.columns);
    var fixed := ({"Sample"} + rc.metadata + rc.datasetInfo) * existing;
    var common := (fixed + Elems(genes)) * existing;
    var inFixed := (c: Name) => c in fixed - {"Sample"};
    var inGenes := (c: Name) => c in common - fixed;
    var a := Filter(t.columns, inFixed);
    var b := Filter(t.columns, inGenes);
    FilterMembers(t.columns, inFixed);
    FilterMembers(t.columns, inGenes);
    GroupsOrdered(rc, a, b);
    if NoDup(t.columns) then
      FilterNoDup(t.columns, inFixed);
      FilterNoDup(t.columns, inGenes);
      GroupsNoDup(a, b);
      ["Sample"] + a + b
    else
      ["Sample"] + a + b
  }

  /** `_keep_only_selected_genes(input, genes)`: keeps `Sample` first, then
      every present reserved column, then every requested gene the table
      has. The selection fails when the table has no `Sample` column. */
  function KeepOnlySelectedGenes(t: Table, genes: seq<Name>, rc: Reserved): (r: Result<Table>)
    ensures r.Failure? <==> "Sample" !in t.columns
    ensures r.Failure? ==> r.error == ColumnNotFound("Sample")
    ensures r.Success? ==> r.value.columns == GeneSelection(t, genes, rc)
    ensures r.Success? ==> |r.value.rows| == |t.rows|
    ensures r.Success? ==> forall i, c :: 0 <= i < |t.rows| && c in r.value.columns ==>
              CellOf(r.value.rows[i], c) == CellOf(t.rows[i], c)
  {
    if "Sample" !in t.columns then Failure(ColumnNotFound("Sample"))
    else
      Success(Select(t, GeneSelection(t, genes, rc)))
  }

  /** What gene selection means for a well-formed table: `Sample` comes
      first, no column appears twice, the reserved columns come before the
      genes, and the columns are exactly `Sample`, the reserved columns and
      the requested genes that the table has, so a requested gene the table
      lacks never appears. */
  lemma KeepOnlySelectedGenesColumns(t: Table, genes: seq<Name>, rc: Reserved)
    requires WellFormed(t)
    requires "Sample" in t.columns
    ensures var out := KeepOnlySelectedGenes(t, genes, rc).value;
            && WellFormed(out)
            && out.columns[0] == "Sample"
            && NoDup(out.columns)
            && Elems(out.columns) == ({"Sample"} + rc.metadata + rc.datasetInfo + Elems(genes)) * Elems(t.columns)
            && (forall g :: g in genes && g !in t.columns ==> g !in out.columns)
            && (forall i, j :: 0 <= i < j < |out.columns| && IsFixedName(rc, out.columns[j]) ==>
                  IsFixedName(rc, out.columns[i]))
  {
    SelectWellFormed(t, GeneSelection(t, genes, rc));
  }

  // ---------------------------------------------------------------------
  // Row filters

  /** `pl.col("Sample").is_in(samples)` for one row; a null sample is in no list. */
  predicate InSamples(r: Row, samples: seq<string>)
  {
    var c := CellOf(r, "Sample");
    c.Some? && c.value.Str? && c.value.s in samples
  }

  /** `_keep_only_selected_samples(input, samples)`: the rows whose sample is
      listed, in their order; listed samples the table lacks are ignored. */
  function KeepOnlySelectedSamples(t: Table, samples: seq<string>): (r: Result<Table>)
    ensures r.Failure? <==> "Sample" !in t.columns
    ensures r.Failure? ==> r.error == ColumnNotFound("Sample")
    ensures r.Success? ==> r.value.columns == t.columns && |r.value.rows| <= |t.rows|
    ensures r.Success? ==> forall row :: row in r.value.rows ==> row in t.rows && InSamples(row, samples)
    ensures r.Success? ==> forall row :: row in t.rows && InSamples(row, samples) ==> row in r.value.rows
    ensures r.Success? ==> IsSubsequence(r.value.rows, t.rows)
    ensures r.Success? ==> forall row ::
              multiset(r.value.rows)[row] == if InSamples(row, samples) then multiset(t.rows)[row] else 0
  {
    if "Sample" !in t.columns then Failure(ColumnNotFound("Sample"))
    else
      var keep := (row: Row) => InSamples(row, samples);
      FilterMembers(t.rows, keep);
      SamplesMultiplicity(t, samples);
      FilterSubsequence(t.rows, keep);
      Success(FilterRows(t, keep))
  }

  /** `pl.col(column) == value` for one row; a null cell matches nothing. */
  predicate HasValue(r: Row, column: Name, value: string)
  {
    CellOf(r, column) == Some(Str(value))
  }

  /** `filter(pl.col(column) == value)`. */
  function FilterEquals(t: Table, column: Name, value: string): (r: Result<Table>)
    ensures r.Failure? <==> column !in t.columns
    ensures r.Failure? ==> r.error == ColumnNotFound(column)
    ensures r.Success? ==> r.value.columns == t.columns && |r.value.rows| <= |t.rows|
    ensures r.Success? ==> forall row :: row in r.value.rows ==> row in t.rows && HasValue(row, column, value)
    ensures r.Success? ==> forall row :: row in t.rows && HasValue(row, column, value) ==> row in r.value.rows
    ensures r.Success? ==> IsSubsequence(r.value.rows, t.rows)
    ensures r.Success? ==> forall row ::
              multiset(r.value.rows)[row] == if HasValue(row, column, value) then multiset(t.rows)[row] else 0
  {
    if column !in t.columns then Failure(ColumnNotFound(column))
    else
      var keep := (row: Row) => HasValue(row, column, value);
      FilterMembers(t.rows, keep);
      EqualsMultiplicity(t, column, value);
      FilterSubsequence(t.rows, keep);
      Success(FilterRows(t, keep))
  }

  /** `filter((pl.col("Tissue") == tissue) & (pl.col("Method") == method))`. */
  function FilterTissueAndMethod(t: Table, tissue: string, technique: string): (r: Result<Table>)
    ensures r.Failure? <==> "Tissue" !in t.columns || "Method" !in t.columns
    ensures r.Success? ==> r.value.columns == t.columns && |r.value.rows| <= |t.rows|
    ensures r.Success? ==> forall row :: row in r.value.rows ==>
              row in t.rows && HasValue(row, "Tissue", tissue) && HasValue(row, "Method", technique)
    ensures r.Success? ==> forall row ::
              (row in t.rows && HasValue(row, "Tissue", tissue) && HasValue(row, "Method", technique)) ==>
              row in r.value.rows
    ensures r.Success? ==> IsSubsequence(r.value.rows, t.rows)
    ensures r.Success? ==> forall row ::
              multiset(r.value.rows)[row] ==
              if HasValue(row, "Tissue", tissue) && HasValue(row, "Method", technique) then multiset(t.rows)[row] else 0
  {
    if "Tissue" !in t.columns then Failure(ColumnNotFound("Tissue"))
    else if "Method" !in t.columns then Failure(ColumnNotFound("Method"))
    else
      var keep := (row: Row) => HasValue(row, "Tissue", tissue) && HasValue(row, "Method", technique);
      FilterMembers(t.rows, keep);
      TissueAndMethodMultiplicity(t, tissue, technique);
      FilterSubsequence(t.rows, keep);
      Success(FilterRows(t, keep))
  }

  lemma SamplesMultiplicity(t: Table, samples: seq<string>)
    ensures forall row :: multiset(Filter(t.rows, (row: Row) => InSamples(row, samples)))[row] ==
              if InSamples(row, samples) then multiset(t.rows)[row] else 0
  {
    var keep := (row: Row) => InSamples(row, samples);
    forall row ensures multiset(Filter(t.rows, keep))[row] == if InSamples(row, samples) then multiset(t.rows)[row] else 0 {
      FilterMultiplicity(t.rows, keep, row);
    }
  }

  lemma EqualsMultiplicity(t: Table, column: Name, value: string)
    ensures forall row :: multiset(Filter(t.rows, (row: Row) => HasValue(row, column, value)))[row] ==
              if HasValue(row, column, value) then multiset(t.rows)[row] else 0
  {
    var keep := (row: Row) => HasValue(row, column, value);
    forall row ensures multiset(Filter(t.rows, keep))[row] == if HasValue(row, column, value) then multiset(t.rows)[row] else 0 {
      FilterMultiplicity(t.rows, keep, row);
    }
  }

  lemma TissueAndMethodMultiplicity(t: Table, tissue: string, technique: string)
    ensures forall row :: multiset(Filter(t.rows, (row: Row) => HasValue(row, "Tissue", tissue) && HasValue(row, "Method", technique)))[row] ==
              if HasValue(row, "Tissue", tissue) && HasValue(row, "Method", technique) then multiset(t.rows)[row] else 0
  {
    var keep := (row: Row) => HasValue(row, "Tissue", tissue) && HasValue(row, "Method", technique);
    forall row ensures multiset(Filter(t.rows, keep))[row] ==
             if HasValue(row, "Tissue", tissue) && HasValue(row, "Method", technique) then multiset(t.rows)[row] else 0 {
      FilterMultiplicity(t.rows, keep, row);
    }
  }

  // ---------------------------------------------------------------------
  // Loader-specific filtering

  /** The `match data_loader` of the filtering step; every loader it does
      not name leaves the table as it is. */
  function LoaderFilter(loader: DataLoader, t: Table, rc: Reserved): (r: Result<Table>)
    ensures loader.ConditionDataLoader? || loader.OtherDataLoader? ==> r == Success(t)
    ensures r.Failure? ==> r.error.ColumnNotFound?
    ensures r.Success? ==> (forall c :: c in r.value.columns ==> c in t.columns) && |r.value.rows| <= |t.rows|
  {
    match loader
    case ConditionTissueDataLoader(_, tissue) => FilterEquals(t, "Tissue", tissue.value)
    case ConditionSequencingDataLoader(_, technique) => FilterEquals(t, "Method", technique.value)
    case FileDataLoader(_, _, genes, samples) =>
      var byGenes := if genes.Some? then KeepOnlySelectedGenes(t, genes.value, rc) else Success(t);
      if byGenes.Failure? || samples.None? then byGenes
      else KeepOnlySelectedSamples(byGenes.value, samples.value)
    case ConditionSequencingTissueDataLoader(_, technique, tissue, genes) =>
      var byRows := FilterTissueAndMethod(t, tissue.value, technique.value);
      if byRows.Failure? || genes.None? then byRows
      else KeepOnlySelectedGenes(byRows.value, genes.value, rc)
    case _ => Success(t)
  }

  /** What each loader does to the table. */
  lemma LoaderFilterCases(loader: DataLoader, t: Table, rc: Reserved)
    ensures loader.ConditionDataLoader? || loader.OtherDataLoader? ==> LoaderFilter(loader, t, rc) == Success(t)
    ensures loader.ConditionTissueDataLoader? ==>
              LoaderFilter(loader, t, rc) == FilterEquals(t, "Tissue", loader.tissue.value)
    ensures loader.ConditionSequencingDataLoader? ==>
              LoaderFilter(loader, t, rc) == FilterEquals(t, "Method", loader.sequencingTechnique.value)
    ensures loader.FileDataLoader? && loader.genes.None? && loader.samples.None? ==>
              LoaderFilter(loader, t, rc) == Success(t)
    ensures loader.ConditionSequencingTissueDataLoader? && loader.genes.None? ==>
              LoaderFilter(loader, t, rc) ==
              FilterTissueAndMethod(t, loader.tissue.value, loader.sequencingTechnique.value)
    ensures loader.ConditionSequencingTissueDataLoader? && loader.genes.Some? ==>
              LoaderFilter(loader, t, rc) ==
              match FilterTissueAndMethod(t, loader.tissue.value, loader.sequencingTechnique.value)
              case Failure(e) => Failure(e)
              case Success(f) => KeepOnlySelectedGenes(f, loader.genes.value, rc)
    ensures loader.FileDataLoader? && loader.genes.Some? && loader.samples.None? ==>
              LoaderFilter(loader, t, rc) == KeepOnlySelectedGenes(t, loader.genes.value, rc)
    ensures loader.FileDataLoader? && loader.genes.None? && loader.samples.Some? ==>
              LoaderFilter(loader, t, rc) == KeepOnlySelectedSamples(t, loader.samples.value)
    ensures loader.FileDataLoader? && loader.genes.Some? && loader.samples.Some? ==>
              LoaderFilter(loader, t, rc) ==
              match KeepOnlySelectedGenes(t, loader.genes.value, rc)
              case Failure(e) => Failure(e)
              case Success(g) => KeepOnlySelectedSamples(g, loader.samples.value)
  {
  }

  /** Loader filtering only removes: every row it returns is an input row
      restricted to the columns it returns, and those are input columns. */
  lemma LoaderFilterShrinks(loader: DataLoader, t: Table, rc: Reserved)
    requires WellFormed(t)
    requires LoaderFilter(loader, t, rc).Success?
    ensures var out := LoaderFilter(loader, t, rc).value;
            && WellFormed(out)
            && Elems(out.columns) <= Elems(t.columns)
            && |out.rows| <= |t.rows|
  {
    match loader
    case ConditionTissueDataLoader(_, tissue) =>
      SubRowsWellFormed(t, FilterEquals(t, "Tissue", tissue.value).value);
    case ConditionSequencingDataLoader(_, technique) =>
      SubRowsWellFormed(t, FilterEquals(t, "Method", technique.value).value);
    case FileDataLoader(_, _, genes, samples) =>
      var byGenes := if genes.Some? then KeepOnlySelectedGenes(t, genes.value, rc).value else t;
      if genes.Some? {
        KeepOnlySelectedGenesColumns(t, genes.value, rc);
      }
      if samples.Some? {
        SubRowsWellFormed(byGenes, KeepOnlySelectedSamples(byGenes, samples.value).value);
      }
    case ConditionSequencingTissueDataLoader(_, technique, tissue, genes) =>
      var byRows := FilterTissueAndMethod(t, tissue.value, technique.value).value;
      SubRowsWellFormed(t, byRows);
      if genes.Some? {
        KeepOnlySelectedGenesColumns(byRows, genes.value, rc);
      }
    case _ =>
  }

  // ---------------------------------------------------------------------
  // Column pruning and stripping

  /** `s.null_count()` of column `c`. */
  function NullCount(rows: seq<Row>, c: Name): (n: nat)
    ensures n <= |rows|
  {
    if rows == [] then 0
    else (if CellOf(rows[0], c) == None then 1 else 0) + NullCount(rows[1..], c)
  }

  /** `s.null_count() / height <= allowed_null_percentage`. */
  predicate ColumnKept(t: Table, c: Name, allowedNullPercentage: real)
    requires |t.rows| > 0
  {
    (NullCount(t.rows, c) as real) / (|t.rows| as real) <= allowedNullPercentage
  }

  /** The list comprehension that keeps the columns whose null fraction is
      at most the allowed percentage; the height is positive here. */
  function PruneColumns(t: Table, allowedNullPercentage: real): (u: Table)
    requires |t.rows| > 0
    ensures u.columns != [] ==> |u.rows| == |t.rows|
    ensures u.columns == [] ==> u.rows == []
    ensures forall c :: c in u.columns <==> c in t.columns && ColumnKept(t, c, allowedNullPercentage)
    ensures NoDup(t.columns) ==> NoDup(u.columns)
    ensures IsSubsequence(u.columns, t.columns)
  {
    var keep := (c: Name) => ColumnKept(t, c, allowedNullPercentage);
    FilterMembers(t.columns, keep);
    FilterSubsequence(t.columns, keep);
    if NoDup(t.columns) then
      FilterNoDup(t.columns, keep);
      Select(t, Filter(t.columns, keep))
    else
      Select(t, Filter(t.columns, keep))
  }

  /** `.drop(METADATA_COLUMNS).drop(DATASET_INFO_COLUMNS)`. */
  function StripReserved(t: Table, rc: Reserved): (u: Table)
    ensures u.columns != [] ==> |u.rows| == |t.rows|
    ensures u.columns == [] ==> u.rows == []
    ensures forall c :: c in u.columns <==> c in t.columns && c !in rc.metadata && c !in rc.datasetInfo
    ensures NoDup(t.columns) ==> NoDup(u.columns)
    ensures IsSubsequence(u.columns, t.columns)
  {
    var once := DropColumns(t, rc.metadata);
    SubsequenceTransitive(DropColumns(once, rc.datasetInfo).columns, once.columns, t.columns);
    DropColumns(once, rc.datasetInfo)
  }

  /** Below 0 no column's null fraction passes, so pruning leaves the empty
      frame. */
  lemma PruneBelowZero(t: Table, allowedNullPercentage: real)
    requires |t.rows| > 0
    requires allowedNullPercentage < 0.0
    ensures PruneColumns(t, allowedNullPercentage) == Table([], [])
  {
    forall c | c in t.columns ensures !ColumnKept(t, c, allowedNullPercentage) {
      assert (NullCount(t.rows, c) as real) / (|t.rows| as real) >= 0.0;
    }
    FilterNone(t.columns, (c: Name) => ColumnKept(t, c, allowedNullPercentage));
  }

  /** The column a pipeline result keeps. */
  predicate Survives(t: Table, c: Name, allowedNullPercentage: real, returnMetadata: bool, rc: Reserved)
    requires |t.rows| > 0
  {
    ColumnKept(t, c, allowedNullPercentage) && (returnMetadata || (c !in rc.metadata && c !in rc.datasetInfo))
  }

  // ---------------------------------------------------------------------
  // The stage itself

  /** The `match data_loader` step of `get_pre_processed_dataset`, rebinding
      the working table once per filter the loader asks for. */
  method FilterForLoader(loader: DataLoader, joined: Table, rc: Reserved) returns (r: Result<Table>)
    ensures r == LoaderFilter(loader, joined, rc)
  {
    var df := joined;
    match loader {
      case ConditionTissueDataLoader(_, tissue) =>
        var f := FilterEquals(df, "Tissue", tissue.value);
        if f.Failure? { return Failure(f.error); }
        df := f.value;
      case ConditionSequencingDataLoader(_, technique) =>
        var f := FilterEquals(df, "Method", technique.value);
        if f.Failure? { return Failure(f.error); }
        df := f.value;
      case FileDataLoader(_, _, genes, samples) =>
        if genes.Some? {
          var f := KeepOnlySelectedGenes(df, genes.value, rc);
          if f.Failure? { return Failure(f.error); }
          df := f.value;
        }
        if samples.Some? {
          var f := KeepOnlySelectedSamples(df, samples.value);
          if f.Failure? { return Failure(f.error); }
          df := f.value;
        }
      case ConditionSequencingTissueDataLoader(_, technique, tissue, genes) =>
        var f := FilterTissueAndMethod(df, tissue.value, technique.value);
        if f.Failure? { return Failure(f.error); }
        df := f.value;
        if genes.Some? {
          var g := KeepOnlySelectedGenes(df, genes.value, rc);
          if g.Failure? { return Failure(g.error); }
          df := g.value;
        }
      case _ =>
    }
    return Success(df);
  }

  /** The post-join stage of `get_pre_processed_dataset`, rebinding the
      working table step by step. `joined` is the sample-by-gene table
      already joined with the metadata and dataset information. */
  method GetPreProcessedDataset(loader: DataLoader, joined: Table, allowedNullPercentage: real,
                                returnMetadata: bool, rc: Reserved) returns (r: Result<Option<Table>>)
    ensures LoaderFilter(loader, joined, rc).Failure? ==> r == Failure(LoaderFilter(loader, joined, rc).error)
    ensures LoaderFilter(loader, joined, rc).Success? ==> r.Success?
    ensures LoaderFilter(loader, joined, rc).Success? ==>
              (r.value.None? <==> |LoaderFilter(loader, joined, rc).value.rows| == 0)
    ensures r.Success? && r.value.Some? ==>
              var filtered := LoaderFilter(loader, joined, rc).value;
              var out := r.value.value;
              && |filtered.rows| > 0
              && (forall c :: c in out.columns <==>
                    c in filtered.columns && Survives(filtered, c, allowedNullPercentage, returnMetadata, rc))
              && (NoDup(filtered.columns) ==> NoDup(out.columns))
              && IsSubsequence(out.columns, filtered.columns)
              && (out.columns != [] ==> |out.rows| == |filtered.rows|)
              && (out.columns == [] ==> out.rows == [])
              && (forall i, c :: 0 <= i < |out.rows| && c in out.columns ==>
                    CellOf(out.rows[i], c) == CellOf(filtered.rows[i], c))
              && (returnMetadata ==> out == PruneColumns(filtered, allowedNullPercentage))
              && (!returnMetadata ==> forall c :: c in out.columns ==> c !in rc.metadata && c !in rc.datasetInfo)
  {
    var f := FilterForLoader(loader, joined, rc);
    if f.Failure? { return Failure(f.error); }
    var df := f.value;
    if |df.rows| == 0 {
      return Success(None);
    }
    var filtered := df;
    df := PruneColumns(df, allowedNullPercentage);
    PruneColumnsCells(filtered, allowedNullPercentage);
    if returnMetadata {
      return Success(Some(df));
    }
    StripReservedCells(df, rc);
    SubsequenceTransitive(StripReserved(df, rc).columns, df.columns, filtered.columns);
    return Success(Some(StripReserved(df, rc)));
  }

  lemma PruneColumnsCells(t: Table, allowedNullPercentage: real)
    requires |t.rows| > 0
    ensures forall i, c :: (0 <= i < |PruneColumns(t, allowedNullPercentage).rows| &&
                            c in PruneColumns(t, allowedNullPercentage).columns) ==>
              CellOf(PruneColumns(t, allowedNullPercentage).rows[i], c) == CellOf(t.rows[i], c)
  {
  }

  lemma StripReservedCells(t: Table, rc: Reserved)
    ensures forall i, c :: 0 <= i < |StripReserved(t, rc).rows| && c in StripReserved(t, rc).columns ==>
              CellOf(StripReserved(t, rc).rows[i], c) == CellOf(t.rows[i], c)
  {
    var once := DropColumns(t, rc.metadata);
    forall i, c | 0 <= i < |StripReserved(t, rc).rows| && c in StripReserved(t, rc).columns
      ensures CellOf(StripReserved(t, rc).rows[i], c) == CellOf(t.rows[i], c)
    {
      assert c in once.columns;
    }
  }
}
