/**
 * The dataframe model shared by every stage of the preprocessing pipeline.
 *
 * A table is an ordered sequence of column names plus a sequence of rows; a
 * row maps a column name to a cell, and a cell is either null (`None`) or a
 * value. Only the small part of the dataframe library that the pipeline
 * relies on is modelled here: cell lookup, row filtering, column selection
 * and column dropping.
 */
module Tables {

  datatype Option<+T> = None | Some(value: T)

  /** The failures the pipeline can raise. */
  datatype Error =
    | EmptyList                     // `head, *tail = []`: not enough values to unpack
    | ColumnNotFound(name: string)  // a column named in an expression is not in the table
    | DuplicateColumn               // a join would produce two columns with one name
    | NoFilesFound(path: string)    // the glob found no data file under the path
    | UnhandledLoader               // a data loader variant the code does not handle

  datatype Result<+T> = Success(value: T) | Failure(error: Error)

  /** A cell value: a string, a finite number, or positive infinity. */
  datatype Value = Str(s: string) | Num(x: real) | Infinity

  type Name = string
  type Cell = Option<Value>
  type Row = map<Name, Cell>

  datatype Table = Table(columns: seq<Name>, rows: seq<Row>)

  /** The cell of row `r` in column `c`; a row lacking the column reads as null. */
  function CellOf(r: Row, c: Name): Cell
  {
    if c in r then r[c] else None
  }

  /** The cell of a row in the `gene` key column. */
  function KeyOf(r: Row): Cell
  {
    CellOf(r, "gene")
  }

  /** The set of key cells of some rows (a null key included). */
  function Keys(rows: seq<Row>): set<Cell>
  {
    set r | r in rows :: KeyOf(r)
  }

  predicate NoDup<T(==)>(s: seq<T>)
  {
    forall i, j :: 0 <= i < j < |s| ==> s[i] != s[j]
  }

  function Elems<T>(s: seq<T>): set<T>
  {
    set x | x in s
  }

  /** What every dataframe satisfies: distinct column names, every row
      has exactly the table's columns, and a frame without columns has no
      rows (its height is that of its columns). */
  ghost predicate WellFormed(t: Table)
  {
    && NoDup(t.columns)
    && (t.columns == [] ==> t.rows == [])
    && forall i :: 0 <= i < |t.rows| ==> t.rows[i].Keys == Elems(t.columns)
  }

  /** The elements of `s` that satisfy `p`, in their original order. */
  function Filter<T>(s: seq<T>, p: T -> bool): (r: seq<T>)
    ensures |r| <= |s|
  {
    if s == [] then []
    else if p(s[0]) then [s[0]] + Filter(s[1..], p)
    else Filter(s[1..], p)
  }

  lemma {:induction false} FilterMembers<T>(s: seq<T>, p: T -> bool)
    ensures forall x :: x in Filter(s, p) ==> x in s && p(x)
    ensures forall x :: x in s && p(x) ==> x in Filter(s, p)
  {
    if s != [] {
      FilterMembers(s[1..], p);
    }
  }

  /** Filtering keeps every satisfying element as often as it occurs and
      drops every other one. */
  lemma {:induction false} FilterMultiplicity<T>(s: seq<T>, p: T -> bool, x: T)
    ensures multiset(Filter(s, p))[x] == if p(x) then multiset(s)[x] else 0
  {
    if s != [] {
      FilterMultiplicity(s[1..], p, x);
      assert s == [s[0]] + s[1..];
    }
  }

  /** Filtering by a predicate no element satisfies leaves nothing. */
  lemma {:induction false} FilterNone<T>(s: seq<T>, p: T -> bool)
    requires forall x :: x in s ==> !p(x)
    ensures Filter(s, p) == []
  {
    if s != [] {
      assert s[0] in s;
      FilterNone(s[1..], p);
    }
  }

  /** Filtering by a stronger predicate after a weaker one is filtering by
      the stronger predicate alone. */
  lemma {:induction false} FilterStronger<T>(s: seq<T>, strong: T -> bool, weak: T -> bool)
    requires forall x :: strong(x) ==> weak(x)
    ensures Filter(Filter(s, weak), strong) == Filter(s, strong)
  {
    if s != [] {
      FilterStronger(s[1..], strong, weak);
    }
  }

  lemma {:induction false} FilterNoDup<T>(s: seq<T>, p: T -> bool)
    requires NoDup(s)
    ensures NoDup(Filter(s, p))
  {
    if s != [] {
      assert NoDup(s[1..]) by {
        forall i, j | 0 <= i < j < |s[1..]| ensures s[1..][i] != s[1..][j] {
          assert s[1..][i] == s[i + 1] && s[1..][j] == s[j + 1];
        }
      }
      FilterNoDup(s[1..], p);
      FilterMembers(s[1..], p);
      var f := Filter(s[1..], p);
      if p(s[0]) {
        assert s[0] !in s[1..] by {
          forall k | 0 <= k < |s[1..]| ensures s[1..][k] != s[0] {
            assert s[1..][k] == s[k + 1];
          }
        }
        assert s[0] !in f;
        forall i, j | 0 <= i < j < |[s[0]] + f| ensures ([s[0]] + f)[i] != ([s[0]] + f)[j] {
          if i == 0 {
            assert ([s[0]] + f)[j] == f[j - 1];
          } else {
            assert ([s[0]] + f)[i] == f[i - 1] && ([s[0]] + f)[j] == f[j - 1];
          }
        }
      }
    }
  }

  /** `a` is `b` with some elements left out, the rest kept in order. */
  predicate IsSubsequence<T(==)>(a: seq<T>, b: seq<T>)
  {
    if a == [] then true
    else if b == [] then false
    else if a[0] == b[0] then IsSubsequence(a[1..], b[1..])
    else IsSubsequence(a, b[1..])
  }

  lemma {:induction false} FilterSubsequence<T>(s: seq<T>, p: T -> bool)
    ensures IsSubsequence(Filter(s, p), s)
  {
    if s != [] {
      FilterSubsequence(s[1..], p);
      if !p(s[0]) {
        SubsequenceSkip(Filter(s[1..], p), s);
      }
    }
  }

  /** A subsequence of the tail is a subsequence of the whole. */
  lemma {:induction false} SubsequenceSkip<T>(a: seq<T>, b: seq<T>)
    requires b != [] && IsSubsequence(a, b[1..])
    ensures IsSubsequence(a, b)
    decreases |b|, 0
  {
    if a != [] && a[0] == b[0] {
      SubsequenceTail(a, b[1..]);
    }
  }

  /** Leaving out the first element keeps a subsequence. */
  lemma {:induction false} SubsequenceTail<T>(a: seq<T>, b: seq<T>)
    requires a != [] && IsSubsequence(a, b)
    ensures IsSubsequence(a[1..], b)
    decreases |b|, 1
  {
    if a[0] == b[0] {
      SubsequenceSkip(a[1..], b);
    } else {
      SubsequenceTail(a, b[1..]);
      SubsequenceSkip(a[1..], b);
    }
  }

  lemma {:induction false} SubsequenceTransitive<T>(a: seq<T>, b: seq<T>, c: seq<T>)
    requires IsSubsequence(a, b) && IsSubsequence(b, c)
    ensures IsSubsequence(a, c)
    decreases |c|
  {
    if a != [] {
      if b[0] == c[0] {
        if a[0] == b[0] {
          SubsequenceTransitive(a[1..], b[1..], c[1..]);
        } else {
          SubsequenceTransitive(a, b[1..], c[1..]);
        }
      } else {
        SubsequenceTransitive(a, b, c[1..]);
        if a[0] == c[0] {
          SubsequenceTail(a, c[1..]);
        }
      }
    }
  }

  lemma NoDupAppend<T>(a: seq<T>, b: seq<T>)
    requires NoDup(a) && NoDup(b)
    requires forall x :: x in a ==> x !in b
    ensures NoDup(a + b)
  {
    forall i, j | 0 <= i < j < |a + b| ensures (a + b)[i] != (a + b)[j] {
      if i < |a| && j >= |a| {
        assert (a + b)[i] in a;
        assert (a + b)[j] == b[j - |a|];
      }
    }
  }

  /** The row restricted to the columns `cols`. */
  function Restrict(r: Row, cols: seq<Name>): (q: Row)
    ensures q.Keys == r.Keys * Elems(cols)
    ensures forall c :: c in q ==> q[c] == r[c]
  {
    map c | c in r && c in cols :: r[c]
  }

  /** Restricting a row updated outside `cols` to exactly its own columns
      undoes the update. */
  lemma RestrictUpdated(r: Row, k: Name, x: Cell, cols: seq<Name>)
    requires k !in cols
    requires r.Keys == Elems(cols)
    ensures Restrict(r[k := x], cols) == r
  {
  }

  function RestrictAll(rows: seq<Row>, cols: seq<Name>): (rs: seq<Row>)
    ensures |rs| == |rows|
    ensures forall i :: 0 <= i < |rows| ==> rs[i] == Restrict(rows[i], cols)
  {
    if rows == [] then [] else [Restrict(rows[0], cols)] + RestrictAll(rows[1..], cols)
  }

  /** `df.select(cols)` once every name in `cols` is known to exist; a
      selection of no columns is the empty frame, whose height is 0. */
  function Select(t: Table, cols: seq<Name>): (u: Table)
    ensures u.columns == cols
    ensures cols == [] ==> u.rows == []
    ensures cols != [] ==> |u.rows| == |t.rows|
    ensures forall i :: 0 <= i < |u.rows| ==> u.rows[i] == Restrict(t.rows[i], cols)
  {
    if cols == [] then Table([], []) else Table(cols, RestrictAll(t.rows, cols))
  }

  /** Selecting distinct existing columns of a well-formed table keeps it
      well-formed, keeps the number of rows and every selected cell. */
  lemma SelectWellFormed(t: Table, cols: seq<Name>)
    requires WellFormed(t)
    requires NoDup(cols)
    requires Elems(cols) <= Elems(t.columns)
    ensures WellFormed(Select(t, cols))
    ensures forall i, c :: 0 <= i < |Select(t, cols).rows| && c in cols ==>
              CellOf(Select(t, cols).rows[i], c) == CellOf(t.rows[i], c)
  {
  }

  /** `df.filter(p)`: the rows satisfying `p`, in order; the columns stay. */
  function FilterRows(t: Table, p: Row -> bool): (u: Table)
    ensures u.columns == t.columns
  {
    Table(t.columns, Filter(t.rows, p))
  }

  /** A table with the columns of a well-formed table and only rows of it
      is well-formed. */
  lemma SubRowsWellFormed(t: Table, u: Table)
    requires WellFormed(t)
    requires u.columns == t.columns
    requires forall r :: r in u.rows ==> r in t.rows
    ensures WellFormed(u)
  {
    forall i | 0 <= i < |u.rows| ensures u.rows[i].Keys == Elems(t.columns) {
      assert u.rows[i] in t.rows;
    }
    if u.rows != [] {
      assert u.rows[0] in t.rows;
    }
  }

  /** `df.drop(names)`: every column except the named ones, in order;
      dropping every column leaves the empty frame. */
  function DropColumns(t: Table, names: set<Name>): (u: Table)
    ensures u.columns != [] ==> |u.rows| == |t.rows|
    ensures u.columns == [] ==> u.rows == []
    ensures forall c :: c in u.columns <==> c in t.columns && c !in names
    ensures NoDup(t.columns) ==> NoDup(u.columns)
    ensures IsSubsequence(u.columns, t.columns)
  {
    var keep := (c: Name) => c !in names;
    FilterMembers(t.columns, keep);
    FilterSubsequence(t.columns, keep);
    if NoDup(t.columns) then FilterNoDup(t.columns, keep); Select(t, Filter(t.columns, keep))
    else Select(t, Filter(t.columns, keep))
  }

  /** Dropping removes exactly the named columns, keeps the order of the
      others, every row and every other cell. */
  lemma DropColumnsSpec(t: Table, names: set<Name>)
    requires WellFormed(t)
    ensures WellFormed(DropColumns(t, names))
    ensures forall i, c :: 0 <= i < |DropColumns(t, names).rows| && c !in names ==>
              CellOf(DropColumns(t, names).rows[i], c) == CellOf(t.rows[i], c)
  {
    var u := DropColumns(t, names);
    SelectWellFormed(t, u.columns);
    forall i, c | 0 <= i < |u.rows| && c !in names
      ensures CellOf(u.rows[i], c) == CellOf(t.rows[i], c)
    {
      if c !in u.columns {
        assert c !in t.rows[i];
      }
    }
  }
}
