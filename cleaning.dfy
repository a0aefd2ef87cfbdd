/**
  `limpiar_datos`: rename every column, drop repeated rows, convert the date
  columns and fill the missing values of numeric and text columns.

  The pure functions give the table after each step; the `DataFrame` class
  performs the same steps in place, as pandas does, and is proved against them.
 */
module Cleaning {
  import opened Optional
  import opened Sequences
  import opened Strings
  import opened ColumnNames
  import opened Tables

  /** What `pd.to_datetime(..., errors='coerce')` makes of one cell; `parse` is the date parser. */
  function ToDatetime(v: Value, parse: Value -> Option<int>): (r: Value)
    ensures r.Null? || r.Instant?
    ensures v.Null? ==> r.Null?
    ensures r.Instant? <==> !v.Null? && parse(v).Some?
  {
    if v.Null? then Null
    else match parse(v)
      case Some(instant) => Instant(instant)
      case None => Null
  }

  /** Line 50: a column is a date column when its label contains `fecha`. */
  predicate IsDateLabel(name: string) {
    Contains(name, "fecha")
  }

  /** `[limpiar_nombre_columna(col) for col in labels]`. */
  function NormalizedLabels(labels: seq<string>): (r: seq<string>)
    ensures |r| == |labels|
  {
    seq(|labels|, j requires 0 <= j < |labels| => Normalize(labels[j]))
  }

  /** Line 40. */
  function Renamed(t: Table): (r: Table)
    requires WellFormed(t)
    ensures WellFormed(r)
  {
    t.(columns := NormalizedLabels(t.columns))
  }

  /** Line 44: `drop_duplicates()` keeps the first of every set of equal rows. */
  function Deduplicated(t: Table): (r: Table)
    requires WellFormed(t)
    ensures WellFormed(r)
  {
    t.(rows := Distinct(t.rows))
  }

  /** Lines 50-55: every date column is parsed and becomes a datetime column. */
  function DatesConverted(t: Table, parse: Value -> Option<int>): (r: Table)
    requires WellFormed(t)
    ensures WellFormed(r)
  {
    Table(t.columns,
          seq(|t.kinds|, j requires 0 <= j < |t.kinds| =>
            if IsDateLabel(t.columns[j]) then DatetimeColumn else t.kinds[j]),
          seq(|t.rows|, i requires 0 <= i < |t.rows| =>
            seq(|t.columns|, j requires 0 <= j < |t.columns| =>
              if IsDateLabel(t.columns[j]) then ToDatetime(t.rows[i][j], parse) else t.rows[i][j])))
  }

  /** Lines 58-59 and 62-63: `df[cols] = df[cols].fillna(fill)` for the columns of one kind. */
  function NullsFilled(t: Table, kind: ColumnKind, fill: Value): (r: Table)
    requires WellFormed(t)
    ensures WellFormed(r)
  {
    t.(rows := seq(|t.rows|, i requires 0 <= i < |t.rows| =>
            seq(|t.columns|, j requires 0 <= j < |t.columns| =>
              if t.kinds[j] == kind && t.rows[i][j].Null? then fill else t.rows[i][j])))
  }

  /** The frame `limpiar_datos` returns. */
  function Cleaned(t: Table, parse: Value -> Option<int>): (r: Table)
    requires WellFormed(t)
    ensures WellFormed(r)
  {
    var converted := DatesConverted(Deduplicated(Renamed(t)), parse);
    NullsFilled(NullsFilled(converted, NumericColumn, Num(0)), ObjectColumn, Text("N/A"))
  }

  /** A pandas frame, updated in place. */
  class DataFrame {
    var columns: seq<string>
    var kinds: seq<ColumnKind>
    var rows: seq<Row>

    function Snapshot(): Table
      reads this
    {
      Table(columns, kinds, rows)
    }

    predicate Valid()
      reads this
    {
      WellFormed(Snapshot())
    }

    /** The frame `pd.read_csv` builds. */
    constructor (t: Table)
      requires WellFormed(t)
      ensures Valid() && Snapshot() == t
    {
      columns, kinds, rows := t.columns, t.kinds, t.rows;
    }

    /** `df[name] = v`. */
    method SetColumn(name: string, v: Value, k: ColumnKind)
      requires Valid()
      modifies this
      ensures Valid() && Snapshot() == WithColumn(old(Snapshot()), name, v, k)
    {
      var r := WithColumn(Snapshot(), name, v, k);
      columns, kinds, rows := r.columns, r.kinds, r.rows;
    }

    /** Line 40: `df.columns = [limpiar_nombre_columna(col) for col in df.columns]`. */
    method RenameColumns()
      requires Valid()
      modifies this
      ensures Valid() && Snapshot() == Renamed(old(Snapshot()))
    {
      var renamed := [];
      for j := 0 to |columns|
        invariant |renamed| == j
        invariant forall k :: 0 <= k < j ==> renamed[k] == Normalize(columns[k])
      {
        renamed := renamed + [Normalize(columns[j])];
      }
      columns := renamed;
    }

    /** Line 44: `drop_duplicates()` builds a new frame; this one is left as it is. */
    method DropDuplicates() returns (deduplicated: DataFrame)
      requires Valid()
      ensures fresh(deduplicated) && deduplicated.Valid()
      ensures deduplicated.Snapshot() == Deduplicated(Snapshot())
    {
      deduplicated := new DataFrame(Deduplicated(Snapshot()));
    }

    /** Lines 50-55: the loop over the date columns. */
    method ConvertDates(parse: Value -> Option<int>)
      requires Valid()
      modifies this
      ensures Valid() && Snapshot() == DatesConverted(old(Snapshot()), parse)
    {
      for j := 0 to |columns|
        invariant columns == old(columns) && |kinds| == |columns| && |rows| == |old(rows)|
        invariant forall i :: 0 <= i < |rows| ==> |rows[i]| == |columns|
        invariant forall k :: 0 <= k < |columns| ==>
                    kinds[k] == if k < j && IsDateLabel(columns[k]) then DatetimeColumn else old(kinds)[k]
        invariant forall i, k {:trigger rows[i][k]} :: 0 <= i < |rows| && 0 <= k < |columns| ==>
                    rows[i][k] == if k < j && IsDateLabel(columns[k]) then ToDatetime(old(rows)[i][k], parse)
                                  else old(rows)[i][k]
      {
        if IsDateLabel(columns[j]) {
          var current := rows;
          rows := seq(|current|, i requires 0 <= i < |current| => current[i][j := ToDatetime(current[i][j], parse)]);
          kinds := kinds[j := DatetimeColumn];
        }
      }
      ghost var expected := DatesConverted(old(Snapshot()), parse);
      assert forall i :: 0 <= i < |rows| ==> rows[i] == expected.rows[i];
    }

    /** `df[cols] = df[cols].fillna(fill)` for the columns of kind `kind`. */
    method FillNulls(kind: ColumnKind, fill: Value)
      requires Valid()
      modifies this
      ensures Valid() && Snapshot() == NullsFilled(old(Snapshot()), kind, fill)
    {
      rows := NullsFilled(Snapshot(), kind, fill).rows;
    }
  }

  /**
    `limpiar_datos(df)`: the caller's frame gets the new labels (line 40
    assigns `df.columns`), and the cleaned frame is a new one. `removed` is
    the count logged at line 47.
   */
  method Clean(df: DataFrame, parse: Value -> Option<int>) returns (cleaned: DataFrame, removed: nat)
    requires df.Valid()
    modifies df
    ensures df.Valid() && df.Snapshot() == Renamed(old(df.Snapshot()))
    ensures fresh(cleaned) && cleaned.Valid() && cleaned.Snapshot() == Cleaned(old(df.Snapshot()), parse)
    ensures removed == |old(df.rows)| - |cleaned.rows|
  {
    df.RenameColumns();
    var before := |df.rows|;
    cleaned := df.DropDuplicates();
    removed := before - |cleaned.rows|;
    cleaned.ConvertDates(parse);
    cleaned.FillNulls(NumericColumn, Num(0));
    cleaned.FillNulls(ObjectColumn, Text("N/A"));
  }

  // ---------------------------------------------------------------------------
  // What cleaning guarantees

  /** Every label of a cleaned table is a normalised name, in the order of the original labels. */
  lemma {:induction false} CleanedLabels(t: Table, parse: Value -> Option<int>)
    requires WellFormed(t)
    ensures |Cleaned(t, parse).columns| == |t.columns|
    ensures forall j :: 0 <= j < |t.columns| ==> Cleaned(t, parse).columns[j] == Normalize(t.columns[j])
    ensures forall j :: 0 <= j < |t.columns| ==> IsNormalized(Cleaned(t, parse).columns[j])
  {
    forall j | 0 <= j < |t.columns|
      ensures Cleaned(t, parse).columns[j] == Normalize(t.columns[j]) && IsNormalized(Normalize(t.columns[j]))
    {
      NormalizeIsNormalized(t.columns[j]);
    }
  }

  /**
    The cleaned table has one row per distinct input row, and the removed count
    is zero exactly when the input had no repeated row.
   */
  lemma {:induction false} CleanedRowCount(t: Table, parse: Value -> Option<int>)
    requires WellFormed(t)
    ensures |Cleaned(t, parse).rows| == |Distinct(t.rows)| <= |t.rows|
    ensures |t.rows| - |Cleaned(t, parse).rows| == 0 <==> NoDuplicates(t.rows)
  {
    DistinctRemovesNothingIff(t.rows);
  }

  /**
    Filling one kind: the row count is unchanged, a missing cell of a column
    of that kind becomes `fill`, and every other cell is unchanged.
   */
  lemma {:induction false} NullsFilledCells(t: Table, kind: ColumnKind, fill: Value)
    requires WellFormed(t)
    ensures |NullsFilled(t, kind, fill).rows| == |t.rows|
    ensures NullsFilled(t, kind, fill).columns == t.columns && NullsFilled(t, kind, fill).kinds == t.kinds
    ensures forall i, j :: 0 <= i < |t.rows| && 0 <= j < |t.columns| && t.rows[i][j] != Null ==>
              NullsFilled(t, kind, fill).rows[i][j] == t.rows[i][j]
    ensures forall i, j :: 0 <= i < |t.rows| && 0 <= j < |t.columns| && t.rows[i][j] == Null ==>
              NullsFilled(t, kind, fill).rows[i][j] == if t.kinds[j] == kind then fill else Null
  {
  }

  /**
    Lines 57-63: after cleaning, numeric and text columns hold no missing
    value; a former missing value is `0` in a numeric column and `'N/A'` in a
    text column; every present value is the one the date step left there; and
    a column of any other kind keeps its missing values.
   */
  lemma {:induction false} CleanedFillsOnlyMissingCells(t: Table, parse: Value -> Option<int>)
    requires WellFormed(t)
    ensures var before := DatesConverted(Deduplicated(Renamed(t)), parse);
            var after := Cleaned(t, parse);
            && after.kinds == before.kinds
            && |after.rows| == |before.rows|
            && (forall i, j :: 0 <= i < |after.rows| && 0 <= j < |after.columns| ==>
                 after.rows[i][j] == if before.rows[i][j] != Null then before.rows[i][j]
                                     else if before.kinds[j] == NumericColumn then Num(0)
                                     else if before.kinds[j] == ObjectColumn then Text("N/A")
                                     else Null)
  {
    var before := DatesConverted(Deduplicated(Renamed(t)), parse);
    var numeric := NullsFilled(before, NumericColumn, Num(0));
    NullsFilledCells(before, NumericColumn, Num(0));
    NullsFilledCells(numeric, ObjectColumn, Text("N/A"));
  }

  /** No numeric or text column of a cleaned table holds a missing value. */
  lemma {:induction false} CleanedHasNoMissingNumbersOrText(t: Table, parse: Value -> Option<int>)
    requires WellFormed(t)
    ensures var r := Cleaned(t, parse);
            forall i, j ::
              0 <= i < |r.rows| && 0 <= j < |r.columns| && (r.kinds[j] == NumericColumn || r.kinds[j] == ObjectColumn)
              ==> r.rows[i][j] != Null
  {
    CleanedFillsOnlyMissingCells(t, parse);
  }

  /**
    Lines 50-55: every column whose new label contains `fecha` is a datetime
    column holding only parsed instants and missing values (an unparseable
    value becomes missing), and `fillna` does not touch it; every other
    column's cells pass through the conversion unchanged.
   */
  lemma {:induction false} CleanedDateColumns(t: Table, parse: Value -> Option<int>)
    requires WellFormed(t)
    ensures var deduped := Deduplicated(Renamed(t));
            var r := Cleaned(t, parse);
            forall i, j :: 0 <= i < |r.rows| && 0 <= j < |r.columns| ==>
              if IsDateLabel(r.columns[j]) then
                r.kinds[j] == DatetimeColumn && r.rows[i][j] == ToDatetime(deduped.rows[i][j], parse)
                && (r.rows[i][j].Null? || r.rows[i][j].Instant?)
              else
                r.kinds[j] == t.kinds[j]
                && (deduped.rows[i][j] != Null ==> r.rows[i][j] == deduped.rows[i][j])
  {
    CleanedFillsOnlyMissingCells(t, parse);
  }

  /**
    A column that holds the same present value on every row, under a label
    that does not normalise to a date label, still holds it on every row of the
    cleaned table (cleaning keeps column positions).
   */
  lemma {:induction false} CleanedKeepsConstantColumn(t: Table, parse: Value -> Option<int>, j: nat, v: Value)
    requires WellFormed(t) && j < |t.columns| && v != Null
    requires !IsDateLabel(Normalize(t.columns[j]))
    requires forall i :: 0 <= i < |t.rows| ==> t.rows[i][j] == v
    ensures forall i :: 0 <= i < |Cleaned(t, parse).rows| ==> Cleaned(t, parse).rows[i][j] == v
  {
    var deduped := Deduplicated(Renamed(t));
    CleanedDateColumns(t, parse);
    forall i | 0 <= i < |deduped.rows| ensures deduped.rows[i][j] == v {
      assert deduped.rows[i] in t.rows;
    }
  }
}

