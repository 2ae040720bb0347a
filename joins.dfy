/**
 * Joins on the `gene` key column and the left-to-right reductions over a
 * list of dataframes built from them: `common_genes_dataframe` reduces with
 * inner joins, `high_frequency_genes_dataframe` and the loading step of
 * `get_pre_processed_dataset` reduce with coalescing outer joins.
 *
 * A non-key column of the right table whose name the left table already
 * uses is renamed with the suffix `_right`; a result that would still hold
 * two columns of one name is a failure. Null keys never match.
 */
module Joins {
  import opened Tables

  datatype How = Inner | OuterCoalesce

  /** The name a right-hand non-key column takes in the joined table. */
  function RightName(leftCols: seq<Name>, c: Name): Name
  {
    if c in leftCols then c + "_right" else c
  }

  function RightNames(leftCols: seq<Name>, cs: seq<Name>): (ns: seq<Name>)
    ensures |ns| == |cs|
    ensures forall i :: 0 <= i < |cs| ==> ns[i] == RightName(leftCols, cs[i])
  {
    if cs == [] then [] else [RightName(leftCols, cs[0])] + RightNames(leftCols, cs[1..])
  }

  function NonKey(cols: seq<Name>): seq<Name>
  {
    Filter(cols, c => c != "gene")
  }

  /** The columns of `left` joined with `right`: the left columns, then the
      right non-key columns under their result names. */
  function JoinColumns(left: Table, right: Table): seq<Name>
  {
    left.columns + RightNames(left.columns, NonKey(right.columns))
  }

  /** `row` extended with the cells of `right` in the columns `cs`, under
      their result names. */
  function AddRight(row: Row, right: Row, leftCols: seq<Name>, cs: seq<Name>): Row
    decreases |cs|
  {
    if cs == [] then row
    else AddRight(row[RightName(leftCols, cs[0]) := CellOf(right, cs[0])], right, leftCols, cs[1..])
  }

  /** The rows of `rs` whose key equals the non-null key `k`. */
  function Matching(k: Cell, rs: seq<Row>): seq<Row>
  {
    Filter(rs, r => k != None && KeyOf(r) == k)
  }

  /** One left row merged with each of its matches. */
  function MergeEach(l: Row, ms: seq<Row>, leftCols: seq<Name>, cs: seq<Name>): (out: seq<Row>)
    ensures |out| == |ms|
    ensures forall i :: 0 <= i < |ms| ==> out[i] == AddRight(l, ms[i], leftCols, cs)
  {
    if ms == [] then [] else [AddRight(l, ms[0], leftCols, cs)] + MergeEach(l, ms[1..], leftCols, cs)
  }

  function InnerRows(ls: seq<Row>, rs: seq<Row>, leftCols: seq<Name>, cs: seq<Name>): seq<Row>
  {
    if ls == [] then []
    else MergeEach(ls[0], Matching(KeyOf(ls[0]), rs), leftCols, cs) + InnerRows(ls[1..], rs, leftCols, cs)
  }

  /** The left rows of an outer join: each left row once per match, or once
      with null right cells when nothing matches. */
  function OuterLeftRows(ls: seq<Row>, rs: seq<Row>, leftCols: seq<Name>, cs: seq<Name>): seq<Row>
  {
    if ls == [] then []
    else
      var ms := Matching(KeyOf(ls[0]), rs);
      (if ms == [] then [AddRight(ls[0], map[], leftCols, cs)] else MergeEach(ls[0], ms, leftCols, cs))
      + OuterLeftRows(ls[1..], rs, leftCols, cs)
  }

  /** A right row that no left row matches. */
  predicate Unmatched(r: Row, ls: seq<Row>)
  {
    KeyOf(r) == None || KeyOf(r) !in Keys(ls)
  }

  /** A right row without a match: null left cells, the coalesced key taken
      from the right row. */
  function RightOnlyRow(r: Row, leftCols: seq<Name>, cs: seq<Name>): Row
  {
    AddRight((map c | c in leftCols :: None)["gene" := KeyOf(r)], r, leftCols, cs)
  }

  function RightOnlyRows(rs: seq<Row>, leftCols: seq<Name>, cs: seq<Name>): (out: seq<Row>)
    ensures |out| == |rs|
    ensures forall i :: 0 <= i < |rs| ==> out[i] == RightOnlyRow(rs[i], leftCols, cs)
  {
    if rs == [] then [] else [RightOnlyRow(rs[0], leftCols, cs)] + RightOnlyRows(rs[1..], leftCols, cs)
  }

  function OuterRows(ls: seq<Row>, rs: seq<Row>, leftCols: seq<Name>, cs: seq<Name>): seq<Row>
  {
    OuterLeftRows(ls, rs, leftCols, cs) + RightOnlyRows(Filter(rs, r => Unmatched(r, ls)), leftCols, cs)
  }

  /** `left.join(right, on="gene", how=...)`. */
  function Join(how: How, left: Table, right: Table): (r: Result<Table>)
    ensures r.Failure? <==>
              "gene" !in left.columns || "gene" !in right.columns || !NoDup(JoinColumns(left, right))
    ensures r.Success? ==> r.value.columns == JoinColumns(left, right) && NoDup(r.value.columns)
  {
    if "gene" !in left.columns || "gene" !in right.columns then Failure(ColumnNotFound("gene"))
    else if !NoDup(JoinColumns(left, right)) then Failure(DuplicateColumn)
    else
      var cs := NonKey(right.columns);
      Success(Table(JoinColumns(left, right),
                    match how
                    case Inner => InnerRows(left.rows, right.rows, left.columns, cs)
                    case OuterCoalesce => OuterRows(left.rows, right.rows, left.columns, cs)))
  }

  /** `reduce(lambda left, right: left.join(right, ...), tail, head)`; the
      first failing join ends the reduction. */
  function Reduce(how: How, head: Table, tail: seq<Table>): (r: Result<Table>)
    ensures r.Failure? ==> r.error != EmptyList
    ensures tail == [] ==> r == Success(head)
    decreases |tail|
  {
    if tail == [] then Success(head)
    else
      match Join(how, head, tail[0])
      case Failure(e) => Failure(e)
      case Success(joined) => Reduce(how, joined, tail[1..])
  }

  /** `head, *tail = dataframes` followed by the reduction. */
  function JoinAll(how: How, dataframes: seq<Table>): (r: Result<Table>)
    ensures r == Failure(EmptyList) <==> dataframes == []
    ensures |dataframes| == 1 ==> r == Success(dataframes[0])
  {
    if dataframes == [] then Failure(EmptyList) else Reduce(how, dataframes[0], dataframes[1..])
  }

  // ---------------------------------------------------------------------
  // Keys of joined rows

  /** A result name of a right-hand non-key column is never the key. */
  lemma RightNameNotKey(leftCols: seq<Name>, c: Name)
    requires c != "gene"
    ensures RightName(leftCols, c) != "gene"
  {
    if c in leftCols {
      assert |c + "_right"| == |c| + 6;
    }
  }

  lemma {:induction false} AddRightKeepsKey(row: Row, right: Row, leftCols: seq<Name>, cs: seq<Name>)
    requires "gene" !in cs
    ensures KeyOf(AddRight(row, right, leftCols, cs)) == KeyOf(row)
    decreases |cs|
  {
    if cs != [] {
      RightNameNotKey(leftCols, cs[0]);
      assert "gene" !in cs[1..];
      AddRightKeepsKey(row[RightName(leftCols, cs[0]) := CellOf(right, cs[0])], right, leftCols, cs[1..]);
    }
  }

  lemma NonKeyHasNoKey(cols: seq<Name>)
    ensures "gene" !in NonKey(cols)
  {
    FilterMembers(cols, c => c != "gene");
  }

  lemma KeysAppend(a: seq<Row>, b: seq<Row>)
    ensures Keys(a + b) == Keys(a) + Keys(b)
  {
    forall k | k in Keys(a + b) ensures k in Keys(a) + Keys(b) {
      var r :| r in a + b && KeyOf(r) == k;
    }
  }

  lemma KeysCons(r: Row, rs: seq<Row>)
    ensures Keys([r] + rs) == {KeyOf(r)} + Keys(rs)
  {
    KeysAppend([r], rs);
    assert Keys([r]) == {KeyOf(r)};
  }

  lemma {:induction false} MergeEachKeys(l: Row, ms: seq<Row>, leftCols: seq<Name>, cs: seq<Name>)
    requires "gene" !in cs
    ensures Keys(MergeEach(l, ms, leftCols, cs)) == if ms == [] then {} else {KeyOf(l)}
  {
    var out := MergeEach(l, ms, leftCols, cs);
    forall r | r in out ensures KeyOf(r) == KeyOf(l) {
      var i :| 0 <= i < |out| && out[i] == r;
      AddRightKeepsKey(l, ms[i], leftCols, cs);
    }
    if ms != [] {
      AddRightKeepsKey(l, ms[0], leftCols, cs);
      assert out[0] in out;
    }
  }

  /** A key has a match exactly when it is not null and the right rows hold it. */
  lemma {:induction false} MatchingEmpty(k: Cell, rs: seq<Row>)
    ensures Matching(k, rs) == [] <==> k == None || k !in Keys(rs)
  {
    if rs == [] {
      assert Keys(rs) == {};
    } else {
      MatchingEmpty(k, rs[1..]);
      assert rs == [rs[0]] + rs[1..];
      KeysCons(rs[0], rs[1..]);
    }
  }

  /** An inner join holds exactly the non-null keys both sides hold. */
  lemma {:induction false} InnerRowsKeys(ls: seq<Row>, rs: seq<Row>, leftCols: seq<Name>, cs: seq<Name>)
    requires "gene" !in cs
    ensures forall k :: k in Keys(InnerRows(ls, rs, leftCols, cs)) <==> k != None && k in Keys(ls) && k in Keys(rs)
  {
    if ls == [] {
      assert Keys(ls) == {};
    } else {
      InnerRowsKeys(ls[1..], rs, leftCols, cs);
      var ms := Matching(KeyOf(ls[0]), rs);
      MergeEachKeys(ls[0], ms, leftCols, cs);
      MatchingEmpty(KeyOf(ls[0]), rs);
      KeysAppend(MergeEach(ls[0], ms, leftCols, cs), InnerRows(ls[1..], rs, leftCols, cs));
      assert ls == [ls[0]] + ls[1..];
      KeysCons(ls[0], ls[1..]);
    }
  }

  lemma {:induction false} OuterLeftRowsKeys(ls: seq<Row>, rs: seq<Row>, leftCols: seq<Name>, cs: seq<Name>)
    requires "gene" !in cs
    ensures Keys(OuterLeftRows(ls, rs, leftCols, cs)) == Keys(ls)
  {
    if ls == [] {
      assert Keys(ls) == {};
    } else {
      OuterLeftRowsKeys(ls[1..], rs, leftCols, cs);
      var ms := Matching(KeyOf(ls[0]), rs);
      var first := if ms == [] then [AddRight(ls[0], map[], leftCols, cs)] else MergeEach(ls[0], ms, leftCols, cs);
      if ms == [] {
        AddRightKeepsKey(ls[0], map[], leftCols, cs);
        KeysCons(AddRight(ls[0], map[], leftCols, cs), []);
        assert [AddRight(ls[0], map[], leftCols, cs)] + [] == [AddRight(ls[0], map[], leftCols, cs)];
      } else {
        MergeEachKeys(ls[0], ms, leftCols, cs);
      }
      assert Keys(first) == {KeyOf(ls[0])};
      KeysAppend(first, OuterLeftRows(ls[1..], rs, leftCols, cs));
      assert ls == [ls[0]] + ls[1..];
      KeysCons(ls[0], ls[1..]);
    }
  }

  lemma RightOnlyRowsKeys(rs: seq<Row>, leftCols: seq<Name>, cs: seq<Name>)
    requires "gene" !in cs
    ensures Keys(RightOnlyRows(rs, leftCols, cs)) == Keys(rs)
  {
    var out := RightOnlyRows(rs, leftCols, cs);
    forall i | 0 <= i < |rs| ensures KeyOf(out[i]) == KeyOf(rs[i]) {
      var base := (map c | c in leftCols :: None)["gene" := KeyOf(rs[i])];
      AddRightKeepsKey(base, rs[i], leftCols, cs);
    }
    forall k | k in Keys(out) ensures k in Keys(rs) {
      var r :| r in out && KeyOf(r) == k;
      var i :| 0 <= i < |out| && out[i] == r;
      assert rs[i] in rs;
    }
    forall k | k in Keys(rs) ensures k in Keys(out) {
      var r :| r in rs && KeyOf(r) == k;
      var i :| 0 <= i < |rs| && rs[i] == r;
      assert out[i] in out;
    }
  }

  /** An outer join holds every key either side holds. */
  lemma OuterRowsKeys(ls: seq<Row>, rs: seq<Row>, leftCols: seq<Name>, cs: seq<Name>)
    requires "gene" !in cs
    ensures Keys(OuterRows(ls, rs, leftCols, cs)) == Keys(ls) + Keys(rs)
  {
    var unmatched := Filter(rs, r => Unmatched(r, ls));
    OuterLeftRowsKeys(ls, rs, leftCols, cs);
    RightOnlyRowsKeys(unmatched, leftCols, cs);
    KeysAppend(OuterLeftRows(ls, rs, leftCols, cs), RightOnlyRows(unmatched, leftCols, cs));
    FilterMembers(rs, r => Unmatched(r, ls));
    forall k | k in Keys(rs) ensures k in Keys(ls) + Keys(unmatched) {
      var r :| r in rs && KeyOf(r) == k;
      if Unmatched(r, ls) {
        assert r in unmatched;
      }
    }
  }

  /** The keys of one join, in terms of the keys of its two sides. */
  lemma JoinKeys(how: How, left: Table, right: Table)
    requires Join(how, left, right).Success?
    ensures how == Inner ==> forall k :: k in Keys(Join(how, left, right).value.rows) <==>
              k != None && k in Keys(left.rows) && k in Keys(right.rows)
    ensures how == OuterCoalesce ==>
              Keys(Join(how, left, right).value.rows) == Keys(left.rows) + Keys(right.rows)
  {
    var cs := NonKey(right.columns);
    NonKeyHasNoKey(right.columns);
    if how == Inner {
      InnerRowsKeys(left.rows, right.rows, left.columns, cs);
    } else {
      OuterRowsKeys(left.rows, right.rows, left.columns, cs);
    }
  }

  /** The inner reduction keeps exactly the non-null keys that the head and
      every table of the tail hold. */
  lemma {:induction false} ReduceInnerKeys(head: Table, tail: seq<Table>, k: Cell)
    requires Reduce(Inner, head, tail).Success?
    requires k != None
    ensures k in Keys(Reduce(Inner, head, tail).value.rows) <==>
              k in Keys(head.rows) && forall i :: 0 <= i < |tail| ==> k in Keys(tail[i].rows)
    decreases |tail|
  {
    if tail != [] {
      var joined := Join(Inner, head, tail[0]).value;
      JoinKeys(Inner, head, tail[0]);
      ReduceInnerKeys(joined, tail[1..], k);
      if k in Keys(joined.rows) && forall i :: 0 <= i < |tail[1..]| ==> k in Keys(tail[1..][i].rows) {
        forall i | 0 <= i < |tail| ensures k in Keys(tail[i].rows) {
          if i > 0 {
            assert tail[i] == tail[1..][i - 1];
          }
        }
      }
    }
  }

  /** The outer reduction holds every key that some input holds. */
  lemma {:induction false} ReduceOuterKeys(head: Table, tail: seq<Table>, k: Cell)
    requires Reduce(OuterCoalesce, head, tail).Success?
    ensures k in Keys(Reduce(OuterCoalesce, head, tail).value.rows) <==>
              k in Keys(head.rows) || exists i :: 0 <= i < |tail| && k in Keys(tail[i].rows)
    decreases |tail|
  {
    if tail != [] {
      var joined := Join(OuterCoalesce, head, tail[0]).value;
      JoinKeys(OuterCoalesce, head, tail[0]);
      ReduceOuterKeys(joined, tail[1..], k);
      if exists i :: 0 <= i < |tail| && k in Keys(tail[i].rows) {
        var i :| 0 <= i < |tail| && k in Keys(tail[i].rows);
        if i > 0 {
          assert tail[i] == tail[1..][i - 1];
        }
      }
      if exists i :: 0 <= i < |tail[1..]| && k in Keys(tail[1..][i].rows) {
        var i :| 0 <= i < |tail[1..]| && k in Keys(tail[1..][i].rows);
        assert tail[1..][i] == tail[i + 1];
      }
    }
  }

  /** `common_genes_dataframe`: fails on an empty list, returns a single
      dataframe unchanged, and otherwise keeps exactly the non-null genes
      every dataframe has. */
  function CommonGenesDataframe(dataframes: seq<Table>): (r: Result<Table>)
    ensures r == Failure(EmptyList) <==> dataframes == []
    ensures |dataframes| == 1 ==> r == Success(dataframes[0])
  {
    JoinAll(Inner, dataframes)
  }

  lemma CommonGenesKeys(dataframes: seq<Table>, k: Cell)
    requires CommonGenesDataframe(dataframes).Success?
    requires k != None
    ensures k in Keys(CommonGenesDataframe(dataframes).value.rows) <==>
              forall i :: 0 <= i < |dataframes| ==> k in Keys(dataframes[i].rows)
  {
    ReduceInnerKeys(dataframes[0], dataframes[1..], k);
    if k in Keys(dataframes[0].rows) && forall i :: 0 <= i < |dataframes[1..]| ==> k in Keys(dataframes[1..][i].rows) {
      forall i | 0 <= i < |dataframes| ensures k in Keys(dataframes[i].rows) {
        if i > 0 {
          assert dataframes[i] == dataframes[1..][i - 1];
        }
      }
    }
  }

  /** The coalescing outer reduction holds every gene some dataframe has. */
  lemma OuterJoinAllKeys(dataframes: seq<Table>, k: Cell)
    requires JoinAll(OuterCoalesce, dataframes).Success?
    ensures k in Keys(JoinAll(OuterCoalesce, dataframes).value.rows) <==>
              exists i :: 0 <= i < |dataframes| && k in Keys(dataframes[i].rows)
  {
    ReduceOuterKeys(dataframes[0], dataframes[1..], k);
    if exists i :: 0 <= i < |dataframes| && k in Keys(dataframes[i].rows) {
      var i :| 0 <= i < |dataframes| && k in Keys(dataframes[i].rows);
      if i > 0 {
        assert dataframes[i] == dataframes[1..][i - 1];
      }
    }
    if exists i :: 0 <= i < |dataframes[1..]| && k in Keys(dataframes[1..][i].rows) {
      var i :| 0 <= i < |dataframes[1..]| && k in Keys(dataframes[1..][i].rows);
      assert dataframes[1..][i] == dataframes[i + 1];
    }
  }

  // ---------------------------------------------------------------------
  // Shape of joined tables

  /** A name of the form `c + "_right"`. */
  predicate IsRenamed(n: Name)
  {
    |n| >= 6 && n[|n| - 6..] == "_right"
  }

  /** Extending a row adds exactly the result names of the right columns. */
  lemma {:induction false} AddRightKeys(row: Row, right: Row, leftCols: seq<Name>, cs: seq<Name>)
    ensures AddRight(row, right, leftCols, cs).Keys == row.Keys + Elems(RightNames(leftCols, cs))
    decreases |cs|
  {
    if cs == [] {
      assert RightNames(leftCols, cs) == [];
    } else {
      AddRightKeys(row[RightName(leftCols, cs[0]) := CellOf(right, cs[0])], right, leftCols, cs[1..]);
      assert RightNames(leftCols, cs) == [RightName(leftCols, cs[0])] + RightNames(leftCols, cs[1..]);
    }
  }

  predicate AllHaveKeys(rows: seq<Row>, ks: set<Name>)
  {
    forall r :: r in rows ==> r.Keys == ks
  }

  lemma MergeEachShape(l: Row, ms: seq<Row>, leftCols: seq<Name>, cs: seq<Name>)
    ensures AllHaveKeys(MergeEach(l, ms, leftCols, cs), l.Keys + Elems(RightNames(leftCols, cs)))
  {
    var out := MergeEach(l, ms, leftCols, cs);
    forall r | r in out ensures r.Keys == l.Keys + Elems(RightNames(leftCols, cs)) {
      var i :| 0 <= i < |out| && out[i] == r;
      AddRightKeys(l, ms[i], leftCols, cs);
    }
  }

  lemma {:induction false} InnerRowsShape(ls: seq<Row>, rs: seq<Row>, leftCols: seq<Name>, cs: seq<Name>)
    requires AllHaveKeys(ls, Elems(leftCols))
    ensures AllHaveKeys(InnerRows(ls, rs, leftCols, cs), Elems(leftCols) + Elems(RightNames(leftCols, cs)))
  {
    if ls != [] {
      assert ls[0] in ls;
      assert forall r :: r in ls[1..] ==> r in ls;
      InnerRowsShape(ls[1..], rs, leftCols, cs);
      MergeEachShape(ls[0], Matching(KeyOf(ls[0]), rs), leftCols, cs);
    }
  }

  lemma {:induction false} OuterLeftRowsShape(ls: seq<Row>, rs: seq<Row>, leftCols: seq<Name>, cs: seq<Name>)
    requires AllHaveKeys(ls, Elems(leftCols))
    ensures AllHaveKeys(OuterLeftRows(ls, rs, leftCols, cs), Elems(leftCols) + Elems(RightNames(leftCols, cs)))
  {
    if ls != [] {
      assert ls[0] in ls;
      assert forall r :: r in ls[1..] ==> r in ls;
      OuterLeftRowsShape(ls[1..], rs, leftCols, cs);
      MergeEachShape(ls[0], Matching(KeyOf(ls[0]), rs), leftCols, cs);
      AddRightKeys(ls[0], map[], leftCols, cs);
    }
  }

  lemma RightOnlyRowsShape(rs: seq<Row>, leftCols: seq<Name>, cs: seq<Name>)
    requires "gene" in leftCols
    ensures AllHaveKeys(RightOnlyRows(rs, leftCols, cs), Elems(leftCols) + Elems(RightNames(leftCols, cs)))
  {
    var out := RightOnlyRows(rs, leftCols, cs);
    forall r | r in out ensures r.Keys == Elems(leftCols) + Elems(RightNames(leftCols, cs)) {
      var i :| 0 <= i < |out| && out[i] == r;
      var base := (map c | c in leftCols :: None)["gene" := KeyOf(rs[i])];
      assert base.Keys == Elems(leftCols);
      AddRightKeys(base, rs[i], leftCols, cs);
    }
  }

  /** A successful join of a well-formed left table is well-formed: every
      joined row has exactly the joined columns. */
  lemma JoinWellFormed(how: How, left: Table, right: Table)
    requires WellFormed(left)
    requires Join(how, left, right).Success?
    ensures WellFormed(Join(how, left, right).value)
  {
    var u := Join(how, left, right).value;
    var cs := NonKey(right.columns);
    var ks := Elems(left.columns) + Elems(RightNames(left.columns, cs));
    forall r | r in left.rows ensures r.Keys == Elems(left.columns) {
      var i :| 0 <= i < |left.rows| && left.rows[i] == r;
    }
    match how {
      case Inner => InnerRowsShape(left.rows, right.rows, left.columns, cs);
      case OuterCoalesce =>
        OuterLeftRowsShape(left.rows, right.rows, left.columns, cs);
        RightOnlyRowsShape(Filter(right.rows, r => Unmatched(r, left.rows)), left.columns, cs);
    }
    assert Elems(u.columns) == ks;
    forall i | 0 <= i < |u.rows| ensures u.rows[i].Keys == Elems(u.columns) {
      assert u.rows[i] in u.rows;
    }
    assert "gene" in u.columns;
  }

  /** A reduction whose head is well-formed gives a well-formed table. */
  lemma {:induction false} ReduceWellFormed(how: How, head: Table, tail: seq<Table>)
    requires WellFormed(head)
    requires Reduce(how, head, tail).Success?
    ensures WellFormed(Reduce(how, head, tail).value)
    decreases |tail|
  {
    if tail != [] {
      JoinWellFormed(how, head, tail[0]);
      ReduceWellFormed(how, Join(how, head, tail[0]).value, tail[1..]);
    }
  }

  lemma JoinAllWellFormed(how: How, dataframes: seq<Table>)
    requires JoinAll(how, dataframes).Success?
    requires WellFormed(dataframes[0])
    ensures WellFormed(JoinAll(how, dataframes).value)
  {
    ReduceWellFormed(how, dataframes[0], dataframes[1..]);
  }

  /** A name that neither side has and that is no renamed name is not a
      column of the join. */
  lemma JoinAvoids(how: How, left: Table, right: Table, n: Name)
    requires Join(how, left, right).Success?
    requires n !in left.columns && n !in right.columns && !IsRenamed(n)
    ensures n !in Join(how, left, right).value.columns
  {
    var cs := NonKey(right.columns);
    FilterMembers(right.columns, c => c != "gene");
    var ns := RightNames(left.columns, cs);
    forall i | 0 <= i < |cs| ensures ns[i] != n {
      assert cs[i] in cs;
      if cs[i] in left.columns {
        assert (cs[i] + "_right")[|cs[i] + "_right"| - 6..] == "_right";
      }
    }
  }

  lemma {:induction false} ReduceAvoids(how: How, head: Table, tail: seq<Table>, n: Name)
    requires Reduce(how, head, tail).Success?
    requires n !in head.columns && !IsRenamed(n)
    requires forall i :: 0 <= i < |tail| ==> n !in tail[i].columns
    ensures n !in Reduce(how, head, tail).value.columns
    decreases |tail|
  {
    if tail != [] {
      JoinAvoids(how, head, tail[0], n);
      ReduceAvoids(how, Join(how, head, tail[0]).value, tail[1..], n);
    }
  }

  /** The reduction adds no column that no input has, except renamed ones. */
  lemma JoinAllAvoids(how: How, dataframes: seq<Table>, n: Name)
    requires JoinAll(how, dataframes).Success?
    requires !IsRenamed(n)
    requires forall i :: 0 <= i < |dataframes| ==> n !in dataframes[i].columns
    ensures n !in JoinAll(how, dataframes).value.columns
  {
    ReduceAvoids(how, dataframes[0], dataframes[1..], n);
  }
}
