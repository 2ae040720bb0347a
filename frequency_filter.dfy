/**
 * `high_frequency_genes_dataframe`: outer-join the dataframes on `gene`,
 * score every row with `sum_horizontal(is_null / count())` over all columns
 * (the key included) into a `Null-Percentage` column, keep the rows whose
 * score is at most the allowed null percentage, and drop the score column
 * unless the caller keeps it.
 *
 * `count()` is the number of non-null cells of a column, so the term of a
 * null cell is the inverse of its column's non-null count, and positive
 * infinity when the column holds no value at all.
 */
module FrequencyFilter {
  import opened Tables
  import Joins

  const ScoreColumn: Name := "Null-Percentage"

  datatype NullScore = Finite(v: real) | Infinite

  function Add(a: NullScore, b: NullScore): NullScore
  {
    if a.Infinite? || b.Infinite? then Infinite else Finite(a.v + b.v)
  }

  /** `score <= threshold`; infinity is above every threshold. */
  predicate AtMost(s: NullScore, threshold: real)
  {
    s.Finite? && s.v <= threshold
  }

  /** `count()` of column `c`: its non-null cells. */
  function NonNullCount(rows: seq<Row>, c: Name): (n: nat)
    ensures n <= |rows|
  {
    if rows == [] then 0
    else (if CellOf(rows[0], c) != None then 1 else 0) + NonNullCount(rows[1..], c)
  }

  /** `is_null() / count()` for the cell of `r` in column `c`. */
  function Term(rows: seq<Row>, r: Row, c: Name): NullScore
  {
    if CellOf(r, c) != None then Finite(0.0)
    else
      var n := NonNullCount(rows, c);
      if n == 0 then Infinite else Finite(1.0 / n as real)
  }

  /** `sum_horizontal` of the terms of `r` over the columns `cols`. */
  function RowScore(rows: seq<Row>, r: Row, cols: seq<Name>): NullScore
  {
    if cols == [] then Finite(0.0) else Add(Term(rows, r, cols[0]), RowScore(rows, r, cols[1..]))
  }

  /** The score of row `r` of table `t`. */
  function Score(t: Table, r: Row): NullScore
  {
    RowScore(t.rows, r, t.columns)
  }

  function ScoreCell(s: NullScore): Cell
  {
    Some(match s case Finite(v) => Num(v) case Infinite => Infinity)
  }

  /** `pl.col("Null-Percentage") <= threshold` on a stored score. */
  predicate CellAtMost(c: Cell, threshold: real)
  {
    c.Some? && c.value.Num? && c.value.x <= threshold
  }

  function Annotate(t: Table, rows: seq<Row>): (out: seq<Row>)
    ensures |out| == |rows|
    ensures forall i :: 0 <= i < |rows| ==> out[i] == rows[i][ScoreColumn := ScoreCell(Score(t, rows[i]))]
  {
    if rows == [] then []
    else [rows[0][ScoreColumn := ScoreCell(Score(t, rows[0]))]] + Annotate(t, rows[1..])
  }

  /** `with_columns(... .alias("Null-Percentage"))`: the score replaces an
      existing column of that name or is appended as the last column. */
  function WithScores(t: Table): (u: Table)
    ensures forall c :: c in u.columns <==> c in t.columns || c == ScoreColumn
    ensures ScoreColumn !in t.columns ==> u.columns == t.columns + [ScoreColumn]
    ensures |u.rows| == |t.rows|
    ensures forall i :: 0 <= i < |t.rows| ==> CellOf(u.rows[i], ScoreColumn) == ScoreCell(Score(t, t.rows[i]))
    ensures forall i, c :: 0 <= i < |t.rows| && c != ScoreColumn ==> CellOf(u.rows[i], c) == CellOf(t.rows[i], c)
  {
    Table(if ScoreColumn in t.columns then t.columns else t.columns + [ScoreColumn],
          Annotate(t, t.rows))
  }

  /** The filter and the optional drop, applied to the joined table. */
  function FilterByScore(t: Table, threshold: real, dropScores: bool): (u: Table)
    ensures ScoreColumn in u.columns <==> !dropScores
    ensures forall c :: c != ScoreColumn ==> (c in u.columns <==> c in t.columns)
    ensures |u.rows| <= |t.rows|
  {
    var filtered := FilterRows(WithScores(t), r => CellAtMost(CellOf(r, ScoreColumn), threshold));
    if dropScores then DropColumns(filtered, {ScoreColumn}) else filtered
  }

  /** `high_frequency_genes_dataframe(dataframes, allowed_null_percentage,
      drop_frequencies_column)`. */
  function HighFrequencyGenesDataframe(dataframes: seq<Table>, allowedNullPercentage: real,
                                       dropFrequenciesColumn: bool): (r: Result<Table>)
    ensures r == Failure(EmptyList) <==> dataframes == []
    ensures r.Success? <==> Joins.JoinAll(Joins.OuterCoalesce, dataframes).Success?
  {
    match Joins.JoinAll(Joins.OuterCoalesce, dataframes)
    case Failure(e) => Failure(e)
    case Success(joined) => Success(FilterByScore(joined, allowedNullPercentage, dropFrequenciesColumn))
  }

  // ---------------------------------------------------------------------
  // What the filter keeps

  /** The rows of `t` whose score is at most `threshold`, in their order. */
  function Kept(t: Table, threshold: real): seq<Row>
  {
    Filter(t.rows, r => AtMost(Score(t, r), threshold))
  }

  /** Filtering annotated rows on the stored score is filtering the rows on
      their score, then annotating them. */
  lemma {:induction false} FilterAnnotated(t: Table, rows: seq<Row>, threshold: real)
    ensures Filter(Annotate(t, rows), r => CellAtMost(CellOf(r, ScoreColumn), threshold))
            == Annotate(t, Filter(rows, r => AtMost(Score(t, r), threshold)))
  {
    if rows != [] {
      FilterAnnotated(t, rows[1..], threshold);
      var a := rows[0][ScoreColumn := ScoreCell(Score(t, rows[0]))];
      assert CellAtMost(CellOf(a, ScoreColumn), threshold) == AtMost(Score(t, rows[0]), threshold);
      assert Annotate(t, rows)[1..] == Annotate(t, rows[1..]);
    }
  }

  /** Scoring a well-formed table without a score column gives a
      well-formed table. */
  lemma WithScoresWellFormed(t: Table)
    requires WellFormed(t)
    requires ScoreColumn !in t.columns
    ensures WellFormed(WithScores(t))
  {
    var u := WithScores(t);
    forall i, j | 0 <= i < j < |u.columns| ensures u.columns[i] != u.columns[j] {
      if j == |t.columns| {
        assert u.columns[i] == t.columns[i];
      }
    }
    assert Elems(u.columns) == Elems(t.columns) + {ScoreColumn};
  }

  /** Dropping the score column of annotated rows of `t` gives the rows back. */
  lemma DropAnnotated(t: Table, rows: seq<Row>)
    requires WellFormed(t)
    requires ScoreColumn !in t.columns
    requires forall r :: r in rows ==> r in t.rows
    ensures DropColumns(Table(WithScores(t).columns, Annotate(t, rows)), {ScoreColumn}).rows == rows
  {
    var u := Table(WithScores(t).columns, Annotate(t, rows));
    var out := DropColumns(u, {ScoreColumn});
    assert Elems(out.columns) == Elems(t.columns);
    assert |out.rows| == |rows| by {
      if rows != [] {
        assert rows[0] in t.rows;
        assert t.columns[0] in out.columns;
      }
    }
    forall i | 0 <= i < |rows| ensures out.rows[i] == rows[i] {
      assert rows[i] in rows;
      var j :| 0 <= j < |t.rows| && t.rows[j] == rows[i];
      assert rows[i].Keys == Elems(out.columns);
      RestrictUpdated(rows[i], ScoreColumn, ScoreCell(Score(t, rows[i])), out.columns);
    }
  }

  /** The rows the filter returns are exactly the rows whose score is at
      most the threshold, in their original order; with the score column
      kept, each carries its score. */
  lemma FilterByScoreRows(t: Table, threshold: real, dropScores: bool)
    requires WellFormed(t)
    requires ScoreColumn !in t.columns
    ensures dropScores ==> FilterByScore(t, threshold, dropScores).rows == Kept(t, threshold)
    ensures !dropScores ==> FilterByScore(t, threshold, dropScores).rows == Annotate(t, Kept(t, threshold))
    ensures forall r :: r in Kept(t, threshold) ==> r in t.rows && AtMost(Score(t, r), threshold)
    ensures forall r :: r in t.rows && AtMost(Score(t, r), threshold) ==> r in Kept(t, threshold)
    ensures IsSubsequence(Kept(t, threshold), t.rows)
  {
    FilterAnnotated(t, t.rows, threshold);
    FilterMembers(t.rows, r => AtMost(Score(t, r), threshold));
    FilterSubsequence(t.rows, r => AtMost(Score(t, r), threshold));
    if dropScores {
      DropAnnotated(t, Kept(t, threshold));
    }
  }

  // ---------------------------------------------------------------------
  // Scores

  lemma {:induction false} RowScoreNonNegative(rows: seq<Row>, r: Row, cols: seq<Name>)
    ensures RowScore(rows, r, cols).Finite? ==> RowScore(rows, r, cols).v >= 0.0
  {
    if cols != [] {
      RowScoreNonNegative(rows, r, cols[1..]);
      TermNonNegative(rows, r, cols[0]);
    }
  }

  lemma TermNonNegative(rows: seq<Row>, r: Row, c: Name)
    ensures Term(rows, r, c).Finite? ==> Term(rows, r, c).v >= 0.0
  {
    var n := NonNullCount(rows, c);
    if CellOf(r, c) == None && n > 0 {
      assert 1.0 / n as real > 0.0;
    }
  }

  /** A row without a null cell scores zero. */
  lemma {:induction false} RowScoreZero(rows: seq<Row>, r: Row, cols: seq<Name>)
    requires forall c :: c in cols ==> CellOf(r, c) != None
    ensures RowScore(rows, r, cols) == Finite(0.0)
  {
    if cols != [] {
      RowScoreZero(rows, r, cols[1..]);
    }
  }

  /** A row with a null cell scores above zero. */
  lemma {:induction false} RowScorePositive(rows: seq<Row>, r: Row, cols: seq<Name>, c: Name)
    requires c in cols
    requires CellOf(r, c) == None
    ensures !AtMost(RowScore(rows, r, cols), 0.0)
  {
    RowScoreNonNegative(rows, r, cols[1..]);
    if cols[0] != c {
      RowScorePositive(rows, r, cols[1..], c);
    } else if NonNullCount(rows, c) > 0 {
      var n := NonNullCount(rows, c) as real;
      assert 1.0 / n > 0.0;
    }
  }

  /** A row of `t` with no null cell is kept for every threshold at least 0. */
  lemma FullRowKept(t: Table, r: Row, threshold: real)
    requires r in t.rows
    requires forall c :: c in t.columns ==> CellOf(r, c) != None
    requires threshold >= 0.0
    ensures r in Kept(t, threshold)
  {
    RowScoreZero(t.rows, r, t.columns);
    FilterMembers(t.rows, r => AtMost(Score(t, r), threshold));
  }

  /** With a threshold of 0 every row holding a null cell is removed. */
  lemma NullRowRemovedAtZero(t: Table, r: Row, c: Name)
    requires c in t.columns
    requires CellOf(r, c) == None
    ensures r !in Kept(t, 0.0)
  {
    RowScorePositive(t.rows, r, t.columns, c);
    FilterMembers(t.rows, r => AtMost(Score(t, r), 0.0));
  }

  /** Raising the threshold never removes a row a lower threshold kept: the
      rows kept at the lower threshold are those kept at the higher one,
      filtered again. */
  lemma KeptMonotone(t: Table, lower: real, higher: real)
    requires lower <= higher
    ensures Filter(Kept(t, higher), r => AtMost(Score(t, r), lower)) == Kept(t, lower)
    ensures forall r :: r in Kept(t, lower) ==> r in Kept(t, higher)
  {
    FilterStronger(t.rows, r => AtMost(Score(t, r), lower), r => AtMost(Score(t, r), higher));
    FilterMembers(t.rows, r => AtMost(Score(t, r), lower));
    FilterMembers(t.rows, r => AtMost(Score(t, r), higher));
  }

  // ---------------------------------------------------------------------
  // The filter applied to the joined dataframes

  lemma ScoreColumnNotRenamed()
    ensures !Joins.IsRenamed(ScoreColumn)
  {
    assert ScoreColumn[|ScoreColumn| - 6..] == "entage";
  }

  /** `high_frequency_genes_dataframe` on dataframes of which the first is
      well-formed and none has a `Null-Percentage` column: the result's rows
      are exactly the outer-joined rows whose score is at most the allowed
      percentage, in their order, carrying their score unless it is dropped;
      `Null-Percentage` is a column iff it is kept, and every other column is
      a column of the joined table. */
  lemma HighFrequencyGenesRows(dataframes: seq<Table>, allowedNullPercentage: real, dropFrequenciesColumn: bool)
    requires HighFrequencyGenesDataframe(dataframes, allowedNullPercentage, dropFrequenciesColumn).Success?
    requires WellFormed(dataframes[0])
    requires forall i :: 0 <= i < |dataframes| ==> ScoreColumn !in dataframes[i].columns
    ensures var joined := Joins.JoinAll(Joins.OuterCoalesce, dataframes).value;
            var out := HighFrequencyGenesDataframe(dataframes, allowedNullPercentage, dropFrequenciesColumn).value;
            && (dropFrequenciesColumn ==> out.rows == Kept(joined, allowedNullPercentage))
            && (!dropFrequenciesColumn ==> out.rows == Annotate(joined, Kept(joined, allowedNullPercentage)))
            && (forall r :: r in Kept(joined, allowedNullPercentage) ==>
                  r in joined.rows && AtMost(Score(joined, r), allowedNullPercentage))
            && (forall r :: r in joined.rows && AtMost(Score(joined, r), allowedNullPercentage) ==>
                  r in Kept(joined, allowedNullPercentage))
            && IsSubsequence(Kept(joined, allowedNullPercentage), joined.rows)
            && (ScoreColumn in out.columns <==> !dropFrequenciesColumn)
            && (forall c :: c != ScoreColumn ==> (c in out.columns <==> c in joined.columns))
  {
    var joined := Joins.JoinAll(Joins.OuterCoalesce, dataframes).value;
    Joins.JoinAllWellFormed(Joins.OuterCoalesce, dataframes);
    ScoreColumnNotRenamed();
    Joins.JoinAllAvoids(Joins.OuterCoalesce, dataframes, ScoreColumn);
    FilterByScoreRows(joined, allowedNullPercentage, dropFrequenciesColumn);
  }
}
