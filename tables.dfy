/**
  The data model behind the pandas frames: an ordered list of column labels,
  a declared kind per column (what `select_dtypes` sees) and rows of cells
  aligned with the labels. Labels may repeat once they have been normalised,
  so rows are positional; a lookup by label uses the first column of that label.
 */
module Tables {
  import opened Sequences

  /** A cell: a missing value (NaN/NaT/None), a number, a string or a parsed date. */
  datatype Value = Null | Num(n: int) | Text(s: string) | Instant(t: int)

  /** The dtype family of a column: numeric, `object` (strings), datetime, or anything else. */
  datatype ColumnKind = NumericColumn | ObjectColumn | DatetimeColumn | OtherColumn

  type Row = seq<Value>

  datatype Table = Table(columns: seq<string>, kinds: seq<ColumnKind>, rows: seq<Row>)

  /** One kind per column and one cell per column in every row. */
  predicate WellFormed(t: Table) {
    |t.kinds| == |t.columns| && forall i :: 0 <= i < |t.rows| ==> |t.rows[i]| == |t.columns|
  }

  /** `df[c].iloc[i]`, reading the first column labelled `c`, or a missing value when there is none. */
  function Lookup(t: Table, i: nat, c: string): Value
    requires WellFormed(t) && i < |t.rows|
  {
    if c in t.columns then t.rows[i][IndexOf(t.columns, c)] else Null
  }

  /** The cells of column `j`, top to bottom. */
  function ColumnValues(t: Table, j: nat): (vals: seq<Value>)
    requires WellFormed(t) && j < |t.columns|
    ensures |vals| == |t.rows|
    ensures forall i :: 0 <= i < |vals| ==> vals[i] == t.rows[i][j]
  {
    seq(|t.rows|, i requires 0 <= i < |t.rows| => t.rows[i][j])
  }

  /**
    `df[name] = v` for a scalar `v`: every column labelled `name` is overwritten
    with `v` on every row and takes the kind of `v`; when there is none, a new
    column is appended at the right.
   */
  function WithColumn(t: Table, name: string, v: Value, k: ColumnKind): (r: Table)
    requires WellFormed(t)
    ensures WellFormed(r) && |r.rows| == |t.rows|
    ensures r.columns == if name in t.columns then t.columns else t.columns + [name]
  {
    if name in t.columns then
      Table(t.columns,
            seq(|t.kinds|, j requires 0 <= j < |t.kinds| => if t.columns[j] == name then k else t.kinds[j]),
            seq(|t.rows|, i requires 0 <= i < |t.rows| =>
              seq(|t.columns|, j requires 0 <= j < |t.columns| => if t.columns[j] == name then v else t.rows[i][j])))
    else
      Table(t.columns + [name], t.kinds + [k], seq(|t.rows|, i requires 0 <= i < |t.rows| => t.rows[i] + [v]))
  }

  /**
    After `df[name] = v`, every cell and kind of a column labelled `name` is
    `v` and its kind, and every other column keeps its cells and its kind.
   */
  lemma {:induction false} WithColumnCells(t: Table, name: string, v: Value, k: ColumnKind)
    requires WellFormed(t)
    ensures var r := WithColumn(t, name, v, k);
            forall i, j :: 0 <= i < |r.rows| && 0 <= j < |r.columns| ==>
              r.rows[i][j] == if r.columns[j] == name then v else t.rows[i][j]
    ensures var r := WithColumn(t, name, v, k);
            forall j :: 0 <= j < |r.columns| ==>
              r.kinds[j] == if r.columns[j] == name then k else t.kinds[j]
  {
  }

  /** After `df[name] = v`, reading `name` on any row gives `v`. */
  lemma {:induction false} WithColumnLookup(t: Table, name: string, v: Value, k: ColumnKind, i: nat)
    requires WellFormed(t) && i < |t.rows|
    ensures Lookup(WithColumn(t, name, v, k), i, name) == v
  {
    var r := WithColumn(t, name, v, k);
    WithColumnCells(t, name, v, k);
    var j := IndexOf(r.columns, name);
    assert r.rows[i][j] == v;
  }

  /** `df[name] = v` leaves what any other label reads unchanged. */
  lemma {:induction false} WithColumnLookupOther(t: Table, name: string, v: Value, k: ColumnKind, i: nat, c: string)
    requires WellFormed(t) && i < |t.rows| && c != name
    ensures Lookup(WithColumn(t, name, v, k), i, c) == Lookup(t, i, c)
  {
    var r := WithColumn(t, name, v, k);
    WithColumnCells(t, name, v, k);
    if c in t.columns {
      var j := IndexOf(t.columns, c);
      assert r.columns[..j] == t.columns[..j];
      IndexOfUnique(r.columns, c, j);
    }
  }

  /** `df[name] = v` keeps every label in place and appends `name` at the right when it is new. */
  lemma {:induction false} WithColumnLabel(t: Table, name: string, v: Value, k: ColumnKind, j: nat)
    requires WellFormed(t) && j < |WithColumn(t, name, v, k).columns|
    ensures WithColumn(t, name, v, k).columns[j] == if j < |t.columns| then t.columns[j] else name
  {
  }
}
