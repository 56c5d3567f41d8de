/**
 * The data frame `validate_and_process_data` works on, the fourteen-column
 * schema, and the loop that appends every schema column the frame lacks.
 */
module Frame {
  import opened Sequences

  /** One cell; `Null` is what an added column is filled with (`df[col] = None`). */
  datatype Cell = Null | Datum(text: string)

  datatype Column = Column(name: string, cells: seq<Cell>)

  /** A frame: its columns in order, and its number of rows. */
  datatype Table = Table(columns: seq<Column>, rows: nat)

  /** Every column holds one cell per row. */
  predicate WellFormed(t: Table) {
    forall i :: 0 <= i < |t.columns| ==> |t.columns[i].cells| == t.rows
  }

  /** `df.columns`: the column names, in order. */
  function Names(t: Table): (names: seq<string>)
    ensures |names| == |t.columns|
    ensures forall i :: 0 <= i < |names| ==> names[i] == t.columns[i].name
  {
    seq(|t.columns|, i requires 0 <= i < |t.columns| => t.columns[i].name)
  }

  predicate Distinct(s: seq<string>) {
    forall i, j :: 0 <= i < j < |s| ==> s[i] != s[j]
  }

  /** The columns of the validation schema, in declaration order. */
  const SchemaColumns: seq<string> := [
    "fips", "admin2", "province_state", "country_region", "last_update",
    "lat", "long_", "confirmed", "deaths", "recovered", "active",
    "combined_key", "incident_rate", "case_fatality_ratio"
  ]

  lemma SchemaColumnsDistinct()
    ensures |SchemaColumns| == 14
    ensures Distinct(SchemaColumns)
  {
  }

  predicate AllNull(cells: seq<Cell>) {
    forall j :: 0 <= j < |cells| ==> cells[j] == Null
  }

  /** A column called `name` with a `Null` in each of `rows` rows. */
  function NullColumn(name: string, rows: nat): (c: Column)
    ensures c.name == name && |c.cells| == rows && AllNull(c.cells)
  {
    Column(name, seq(rows, _ => Null))
  }

  function NullColumns(names: seq<string>, rows: nat): (cs: seq<Column>)
    ensures |cs| == |names|
    ensures forall i :: 0 <= i < |cs| ==> cs[i] == NullColumn(names[i], rows)
  {
    seq(|names|, i requires 0 <= i < |names| => NullColumn(names[i], rows))
  }

  /** One iteration of the completion loop: `if col not in df.columns: df[col] = None`. */
  function AddIfAbsent(t: Table, col: string): (r: Table)
    ensures r.rows == t.rows
    ensures col in Names(r)
    ensures forall x :: x in Names(r) <==> x in Names(t) || x == col
    ensures |t.columns| <= |r.columns| <= |t.columns| + 1
    ensures r.columns[..|t.columns|] == t.columns
    ensures col in Names(t) ==> r == t
  {
    if col in Names(t) then t
    else
      var r := Table(t.columns + [NullColumn(col, t.rows)], t.rows);
      assert Names(r) == Names(t) + [col];
      r
  }

  /** The completion loop run over `cols`, one column after the other. */
  function CompleteWith(t: Table, cols: seq<string>): (r: Table)
    ensures r.rows == t.rows
    ensures forall c :: c in cols ==> c in Names(r)
    ensures forall x :: x in Names(r) <==> x in Names(t) || x in cols
    ensures |t.columns| <= |r.columns| && r.columns[..|t.columns|] == t.columns
  {
    if |cols| == 0 then t
    else
      var front := cols[..|cols| - 1];
      assert cols == front + [cols[|cols| - 1]];
      var mid := CompleteWith(t, front);
      var r := AddIfAbsent(mid, cols[|cols| - 1]);
      assert r.columns[..|t.columns|] == r.columns[..|mid.columns|][..|t.columns|];
      r
  }

  /**
   * `absent` lists, in the order of `cols`, the entries of `cols` at
   * `positions`, and those positions are exactly the entries not in `names`.
   */
  ghost predicate SelectsAbsent(names: seq<string>, cols: seq<string>, absent: seq<string>, positions: seq<nat>) {
    && |positions| == |absent|
    && StrictlyIncreasing(positions)
    && (forall k :: 0 <= k < |positions| ==> positions[k] < |cols| && absent[k] == cols[positions[k]])
    && (forall i :: 0 <= i < |cols| ==> (cols[i] !in names <==> i in positions))
  }

  /** The positions in `cols` of the names absent from `names`: the witness for `MissingInOrder`. */
  ghost function AbsentPositions(names: seq<string>, cols: seq<string>): seq<nat> {
    if |cols| == 0 then []
    else
      AbsentPositions(names, cols[..|cols| - 1])
      + (if cols[|cols| - 1] in names then [] else [|cols| - 1])
  }

  /** `Missing` keeps the order of `cols`: it selects the absent entries at increasing positions. */
  lemma {:induction false} MissingInOrder(names: seq<string>, cols: seq<string>)
    ensures SelectsAbsent(names, cols, Missing(names, cols), AbsentPositions(names, cols))
  {
    if |cols| > 0 {
      var n := |cols| - 1;
      var front := cols[..n];
      var last := cols[n];
      MissingInOrder(names, front);
      var absent, positions := Missing(names, front), AbsentPositions(names, front);
      var tailAbsent := if last in names then [] else [last];
      var tailPositions := if last in names then [] else [n];
      assert Missing(names, cols) == absent + tailAbsent;
      assert AbsentPositions(names, cols) == positions + tailPositions;
      assert forall i :: 0 <= i < n ==> front[i] == cols[i];
      SelectsAbsentExtend(names, cols, absent, positions, tailAbsent, tailPositions);
    }
  }

  /** The inductive step of `MissingInOrder`: the last entry is selected iff it is absent. */
  lemma SelectsAbsentExtend(
    names: seq<string>, cols: seq<string>, absent: seq<string>, positions: seq<nat>,
    tailAbsent: seq<string>, tailPositions: seq<nat>
  )
    requires |cols| > 0
    requires SelectsAbsent(names, cols[..|cols| - 1], absent, positions)
    requires forall i :: 0 <= i < |cols| - 1 ==> cols[..|cols| - 1][i] == cols[i]
    requires cols[|cols| - 1] !in names ==> tailAbsent == [cols[|cols| - 1]] && tailPositions == [|cols| - 1]
    requires cols[|cols| - 1] in names ==> tailAbsent == [] && tailPositions == []
    ensures SelectsAbsent(names, cols, absent + tailAbsent, positions + tailPositions)
  {
  }

  /** The names of `cols` absent from `names`, in the order of `cols` (see `MissingInOrder`). */
  function Missing(names: seq<string>, cols: seq<string>): (r: seq<string>)
    ensures |r| <= |cols|
    ensures forall x :: x in r <==> x in cols && x !in names
    ensures Distinct(cols) ==> Distinct(r)
  {
    if |cols| == 0 then []
    else
      var last := cols[|cols| - 1];
      var front := cols[..|cols| - 1];
      assert cols == front + [last];
      Missing(names, front) + (if last in names then [] else [last])
  }

  /**
   * Over distinct names the loop keeps the frame's columns untouched and in
   * place, and appends one `Null` column for each name that was absent, in
   * loop order. Because the names are distinct, a column the loop appended
   * never makes a later name look present.
   */
  lemma {:induction false} CompleteWithAppendsMissing(t: Table, cols: seq<string>)
    requires Distinct(cols)
    ensures CompleteWith(t, cols).rows == t.rows
    ensures CompleteWith(t, cols).columns == t.columns + NullColumns(Missing(Names(t), cols), t.rows)
  {
    if |cols| > 0 {
      var front := cols[..|cols| - 1];
      var last := cols[|cols| - 1];
      CompleteWithAppendsMissing(t, front);
      var added := Missing(Names(t), front);
      NamesAfterNullColumns(t, added);
      assert last !in front by {
        assert forall i :: 0 <= i < |front| ==> front[i] == cols[i];
      }
      if last !in Names(t) {
        NullColumnsSnoc(added, last, t.rows);
      }
    }
  }

  /** Appending `Null` columns appends their names. */
  lemma NamesAfterNullColumns(t: Table, extra: seq<string>)
    ensures Names(Table(t.columns + NullColumns(extra, t.rows), t.rows)) == Names(t) + extra
  {
    var r := Table(t.columns + NullColumns(extra, t.rows), t.rows);
    assert |Names(r)| == |Names(t) + extra|;
    forall i | 0 <= i < |Names(r)|
      ensures Names(r)[i] == (Names(t) + extra)[i]
    {
      if i >= |t.columns| {
        assert r.columns[i] == NullColumn(extra[i - |t.columns|], t.rows);
      }
    }
  }

  lemma NullColumnsSnoc(names: seq<string>, name: string, rows: nat)
    ensures NullColumns(names, rows) + [NullColumn(name, rows)] == NullColumns(names + [name], rows)
  {
  }

  /** The names of a completed frame: the frame's own, then the missing ones. */
  lemma CompleteWithNames(t: Table, cols: seq<string>)
    requires Distinct(cols)
    ensures Names(CompleteWith(t, cols)) == Names(t) + Missing(Names(t), cols)
  {
    CompleteWithAppendsMissing(t, cols);
    var added := Missing(Names(t), cols);
    NamesAfterNullColumns(t, added);
    assert CompleteWith(t, cols) == Table(t.columns + NullColumns(added, t.rows), t.rows);
  }

  /** The columns the loop appends are absent names of `cols`, each all `Null`. */
  lemma CompleteWithAppended(t: Table, cols: seq<string>)
    requires Distinct(cols)
    ensures |t.columns| <= |CompleteWith(t, cols).columns|
    ensures forall i :: |t.columns| <= i < |CompleteWith(t, cols).columns| ==>
      var c := CompleteWith(t, cols).columns[i];
      c.name in cols && c.name !in Names(t) && |c.cells| == t.rows && AllNull(c.cells)
  {
    CompleteWithAppendsMissing(t, cols);
    var added := Missing(Names(t), cols);
    var r := CompleteWith(t, cols);
    forall i | |t.columns| <= i < |r.columns|
      ensures r.columns[i].name in cols && r.columns[i].name !in Names(t)
      ensures |r.columns[i].cells| == t.rows && AllNull(r.columns[i].cells)
    {
      assert r.columns[i] == NullColumn(added[i - |t.columns|], t.rows);
      assert added[i - |t.columns|] in added;
    }
  }

  /**
   * The completion loop over the schema: afterwards every schema column is
   * present; the frame's own columns keep their position and contents; the
   * appended columns are exactly the schema columns that were absent, in
   * schema order, each filled with `Null`; the row count is unchanged.
   */
  function CompleteColumns(t: Table): (r: Table)
    ensures r.rows == t.rows
    ensures forall c :: c in SchemaColumns ==> c in Names(r)
    ensures |t.columns| <= |r.columns| && r.columns[..|t.columns|] == t.columns
    ensures Names(r) == Names(t) + Missing(Names(t), SchemaColumns)
    ensures SelectsAbsent(Names(t), SchemaColumns, Names(r)[|t.columns|..], AbsentPositions(Names(t), SchemaColumns))
    ensures forall i :: |t.columns| <= i < |r.columns| ==>
      r.columns[i].name in SchemaColumns && r.columns[i].name !in Names(t)
      && |r.columns[i].cells| == t.rows && AllNull(r.columns[i].cells)
    ensures WellFormed(t) ==> WellFormed(r)
  {
    SchemaColumnsDistinct();
    CompleteWithAppendsMissing(t, SchemaColumns);
    CompleteWithNames(t, SchemaColumns);
    CompleteWithAppended(t, SchemaColumns);
    MissingInOrder(Names(t), SchemaColumns);
    var r := CompleteWith(t, SchemaColumns);
    assert Names(r)[|t.columns|..] == Missing(Names(t), SchemaColumns);
    r
  }

  /** Nothing is missing when every name of `cols` is already present. */
  lemma {:induction false} MissingNone(names: seq<string>, cols: seq<string>)
    requires forall c :: c in cols ==> c in names
    ensures Missing(names, cols) == []
  {
    if |cols| > 0 {
      var front := cols[..|cols| - 1];
      assert forall c :: c in front ==> c in cols;
      MissingNone(names, front);
      assert cols[|cols| - 1] in cols;
    }
  }

  /** Running the completion on a frame that already has every schema column changes nothing. */
  lemma CompleteColumnsIdempotent(t: Table)
    ensures CompleteColumns(CompleteColumns(t)) == CompleteColumns(t)
  {
    var r := CompleteColumns(t);
    MissingNone(Names(r), SchemaColumns);
    var rr := CompleteColumns(r);
    assert |rr.columns| == |r.columns|;
    assert rr.columns == rr.columns[..|r.columns|];
  }

  /** The test `set(df.columns) == {"recovered"}`. */
  predicate RecoveredOnly(t: Table)
    ensures RecoveredOnly(t) <==>
      |t.columns| > 0 && forall i :: 0 <= i < |t.columns| ==> t.columns[i].name == "recovered"
  {
    RecoveredOnlyByNames(Names(t));
    (set n | n in Names(t)) == {"recovered"}
  }

  /** A name sequence has the single name `recovered` as its set iff it is non-empty and all `recovered`. */
  lemma RecoveredOnlyByNames(names: seq<string>)
    ensures (set n | n in names) == {"recovered"} <==>
      |names| > 0 && forall i :: 0 <= i < |names| ==> names[i] == "recovered"
  {
    var nameSet := set n | n in names;
    if |names| > 0 && forall i :: 0 <= i < |names| ==> names[i] == "recovered" {
      assert names[0] in nameSet;
      assert nameSet == {"recovered"};
    }
    if nameSet == {"recovered"} {
      assert "recovered" in nameSet;
      assert |names| > 0;
      forall i | 0 <= i < |names|
        ensures names[i] == "recovered"
      {
        assert names[i] in nameSet;
      }
    }
  }

  /** A distinct sequence has as many distinct elements as it has entries. */
  lemma {:induction false} DistinctCardinality(s: seq<string>)
    requires Distinct(s)
    ensures |set x | x in s| == |s|
  {
    if |s| > 0 {
      var front := s[..|s| - 1];
      var last := s[|s| - 1];
      assert s == front + [last];
      DistinctCardinality(front);
      assert (set x | x in s) == (set x | x in front) + {last};
      assert last !in (set x | x in front);
    }
  }

  /**
   * Once completed, a frame has at least fourteen distinct column names, so
   * the recovered-only test is false and its early return cannot be taken.
   */
  lemma CompletedIsNeverRecoveredOnly(t: Table)
    ensures |set n | n in Names(CompleteColumns(t))| >= 14
    ensures !RecoveredOnly(CompleteColumns(t))
  {
    var r := CompleteColumns(t);
    SchemaColumnsDistinct();
    DistinctCardinality(SchemaColumns);
    var schema := set x | x in SchemaColumns;
    var names := set n | n in Names(r);
    assert schema <= names;
    SubsetCardinality(schema, names);
    assert "fips" in names;
  }

  lemma {:induction false} SubsetCardinality(a: set<string>, b: set<string>)
    requires a <= b
    ensures |a| <= |b|
    decreases |a|
  {
    if a != {} {
      var x :| x in a;
      SubsetCardinality(a - {x}, b - {x});
    }
  }
}
