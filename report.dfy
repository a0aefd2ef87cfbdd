/**
  The lines `generar_reporte_estadisticas` writes (lines 178-202): a header
  with the row and column counts, one line per year value of `año_datos`
  when the frame has that column, and the list of column labels.
 */
module Report {
  import opened Sequences
  import opened Strings
  import opened Tables
  import opened Merging

  /** One entry of `value_counts()`: a value and how many rows hold it. */
  datatype Tally = Tally(value: Value, count: nat)

  predicate IsPresent(v: Value) {
    v != Null
  }

  predicate CountsDescending(s: seq<Tally>) {
    forall i, j :: 0 <= i < j < |s| ==> s[i].count >= s[j].count
  }

  /** The present values of `vals` in order of first appearance, each with its count. */
  function Tallies(vals: seq<Value>): seq<Tally> {
    var present := Filter(vals, IsPresent);
    var distinct := Distinct(present);
    seq(|distinct|, k requires 0 <= k < |distinct| => Tally(distinct[k], multiset(present)[distinct[k]]))
  }

  /** Puts `e` after every entry whose count is at least its own. */
  function InsertByCount(sorted: seq<Tally>, e: Tally): (r: seq<Tally>)
    ensures multiset(r) == multiset(sorted) + multiset{e}
  {
    if sorted == [] || sorted[|sorted| - 1].count >= e.count then sorted + [e]
    else
      var init, last := sorted[..|sorted| - 1], sorted[|sorted| - 1];
      assert sorted == init + [last];
      InsertByCount(init, e) + [last]
  }

  /** A stable sort by decreasing count. */
  function SortByCount(s: seq<Tally>): (r: seq<Tally>)
    ensures multiset(r) == multiset(s)
  {
    if s == [] then []
    else
      assert s == s[..|s| - 1] + [s[|s| - 1]];
      InsertByCount(SortByCount(s[..|s| - 1]), s[|s| - 1])
  }

  /** `series.value_counts()`: missing values dropped, the most frequent first. */
  function ValueCounts(vals: seq<Value>): seq<Tally> {
    SortByCount(Tallies(vals))
  }

  /** Inserting an entry above a bound into entries above that bound keeps every entry above it. */
  lemma {:induction false} InsertKeepsBound(s: seq<Tally>, e: Tally, bound: nat)
    requires forall m :: 0 <= m < |s| ==> s[m].count >= bound
    requires e.count >= bound
    ensures forall k :: 0 <= k < |InsertByCount(s, e)| ==> InsertByCount(s, e)[k].count >= bound
  {
    var r := InsertByCount(s, e);
    forall k | 0 <= k < |r| ensures r[k].count >= bound {
      assert r[k] in multiset(r);
      if r[k] != e {
        assert r[k] in multiset(s);
        var m :| 0 <= m < |s| && s[m] == r[k];
      }
    }
  }

  lemma {:induction false} InsertKeepsDescending(sorted: seq<Tally>, e: Tally)
    requires CountsDescending(sorted)
    ensures CountsDescending(InsertByCount(sorted, e))
  {
    if !(sorted == [] || sorted[|sorted| - 1].count >= e.count) {
      var init, last := sorted[..|sorted| - 1], sorted[|sorted| - 1];
      assert forall m :: 0 <= m < |init| ==> init[m] == sorted[m];
      InsertKeepsDescending(init, e);
      InsertKeepsBound(init, e, last.count);
      var front := InsertByCount(init, e);
      var r := front + [last];
      assert InsertByCount(sorted, e) == r;
      forall i, j | 0 <= i < j < |r| ensures r[i].count >= r[j].count {
        assert r[i] == front[i];
        if j < |front| { assert r[j] == front[j]; }
      }
    }
  }

  lemma {:induction false} SortByCountDescending(s: seq<Tally>)
    ensures CountsDescending(SortByCount(s))
  {
    if s != [] {
      SortByCountDescending(s[..|s| - 1]);
      InsertKeepsDescending(SortByCount(s[..|s| - 1]), s[|s| - 1]);
    }
  }

  /** Every tally holds a present value and the number of rows holding it. */
  lemma {:induction false} TalliesAreCounts(vals: seq<Value>)
    ensures forall e :: e in Tallies(vals) ==> e.value != Null && e.count == multiset(vals)[e.value] && e.count >= 1
  {
    var present := Filter(vals, IsPresent);
    var distinct := Distinct(present);
    var tallies := Tallies(vals);
    forall e | e in tallies
      ensures e.value != Null && e.count == multiset(vals)[e.value] && e.count >= 1
    {
      var m :| 0 <= m < |tallies| && tallies[m] == e;
      assert distinct[m] in present;
      FilterCounts(vals, IsPresent, distinct[m]);
    }
  }

  /** Every present value has a tally. */
  lemma {:induction false} TalliesCoverPresent(vals: seq<Value>)
    ensures forall v :: v in vals && v != Null ==> exists e :: e in Tallies(vals) && e.value == v
  {
    var present := Filter(vals, IsPresent);
    var distinct := Distinct(present);
    var tallies := Tallies(vals);
    forall v | v in vals && v != Null
      ensures exists e :: e in tallies && e.value == v
    {
      FilterCounts(vals, IsPresent, v);
      assert v in present;
      DistinctMembers(present);
      var m :| 0 <= m < |distinct| && distinct[m] == v;
      assert tallies[m] in tallies;
    }
  }

  /**
    `value_counts()` lists every present value exactly once with the number of
    rows holding it, most frequent first, and nothing else.
   */
  lemma {:induction false} ValueCountsAreExact(vals: seq<Value>)
    ensures CountsDescending(ValueCounts(vals))
    ensures |ValueCounts(vals)| == |Distinct(Filter(vals, IsPresent))|
    ensures forall k :: 0 <= k < |ValueCounts(vals)| ==>
              var e := ValueCounts(vals)[k];
              e.value != Null && e.count == multiset(vals)[e.value] && e.count >= 1
    ensures forall v :: v in vals && v != Null ==> exists k :: 0 <= k < |ValueCounts(vals)| && ValueCounts(vals)[k].value == v
  {
    var tallies := Tallies(vals);
    var r := ValueCounts(vals);
    SortByCountDescending(tallies);
    assert |r| == |tallies| by {
      assert |r| == |multiset(r)| == |multiset(tallies)| == |tallies|;
    }
    TalliesAreCounts(vals);
    TalliesCoverPresent(vals);
    forall k | 0 <= k < |r|
      ensures r[k].value != Null && r[k].count == multiset(vals)[r[k].value] && r[k].count >= 1
    {
      assert r[k] in multiset(tallies);
    }
    forall v | v in vals && v != Null
      ensures exists k :: 0 <= k < |r| && r[k].value == v
    {
      var e :| e in tallies && e.value == v;
      assert e in multiset(r);
    }
  }

  // ---------------------------------------------------------------------------
  // The lines

  const Title := "REPORTE DE ESTADÍSTICAS"
  const RowsPrefix := "\nTotal de registros: "
  const ColumnsPrefix := "Total de columnas: "
  const YearsHeading := "\nRegistros por año:"
  const ColumnsHeading := "\nColumnas en el dataset:"

  /** `"=" * 50`. */
  function Rule(): (r: string)
    ensures |r| == 50 && forall i :: 0 <= i < |r| ==> r[i] == '='
  {
    seq(50, i => '=')
  }

  /** `str(v)` for the values a year column holds. */
  function Render(v: Value): string {
    match v
    case Null => "nan"
    case Num(n) => if n < 0 then "-" + NatToString(-n) else NatToString(n)
    case Text(s) => s
    case Instant(t) => if t < 0 then "-" + NatToString(-t) else NatToString(t)
  }

  /** Line 190. */
  function YearLine(e: Tally): string {
    "- " + Render(e.value) + ": " + NatToString(e.count) + " registros"
  }

  /** Lines 181-184 and 187. */
  function Header(t: Table): seq<string> {
    [Title, Rule(), RowsPrefix + NatToString(|t.rows|), ColumnsPrefix + NatToString(|t.columns|), YearsHeading]
  }

  /** The counts the year section lists, when the frame has a column named exactly `año_datos`. */
  function YearCounts(t: Table): seq<Tally>
    requires WellFormed(t)
  {
    if YearColumn in t.columns then ValueCounts(ColumnValues(t, IndexOf(t.columns, YearColumn))) else []
  }

  /** One line per tally, in order (line 190). */
  function YearLinesOf(counts: seq<Tally>): seq<string> {
    seq(|counts|, k requires 0 <= k < |counts| => YearLine(counts[k]))
  }

  /** Lines 188-190. */
  function YearLines(t: Table): seq<string>
    requires WellFormed(t)
  {
    YearLinesOf(YearCounts(t))
  }

  /** One line `- label` per label, in order (line 195). */
  function ColumnEntries(columns: seq<string>): seq<string> {
    seq(|columns|, j requires 0 <= j < |columns| => "- " + columns[j])
  }

  /** Lines 193-195. */
  function ColumnLines(t: Table): seq<string> {
    [ColumnsHeading] + ColumnEntries(t.columns)
  }

  /** The list `reporte`. */
  function ReportLines(t: Table): seq<string>
    requires WellFormed(t)
  {
    Header(t) + YearLines(t) + ColumnLines(t)
  }

  /** Line 202: what is written to the report file. */
  function ReportText(t: Table): string
    requires WellFormed(t)
  {
    Join(ReportLines(t), "\n")
  }

  /** Lines 189-190: one `append` per tally. */
  method AppendYearLines(reporte: seq<string>, counts: seq<Tally>) returns (r: seq<string>)
    ensures r == reporte + YearLinesOf(counts)
  {
    ghost var lines := YearLinesOf(counts);
    r := reporte;
    for k := 0 to |counts|
      invariant r == reporte + lines[..k]
    {
      assert lines[..k + 1] == lines[..k] + [YearLine(counts[k])];
      r := r + [YearLine(counts[k])];
    }
    assert lines[..|counts|] == lines;
  }

  /** Lines 194-195: one `append` per label. */
  method AppendColumnEntries(reporte: seq<string>, columns: seq<string>) returns (r: seq<string>)
    ensures r == reporte + ColumnEntries(columns)
  {
    ghost var lines := ColumnEntries(columns);
    r := reporte;
    for j := 0 to |columns|
      invariant r == reporte + lines[..j]
    {
      assert lines[..j + 1] == lines[..j] + ["- " + columns[j]];
      r := r + ["- " + columns[j]];
    }
    assert lines[..|columns|] == lines;
  }

  /** Lines 180-195: `reporte` grown by `append`. */
  method BuildReport(t: Table) returns (reporte: seq<string>)
    requires WellFormed(t)
    ensures reporte == ReportLines(t)
  {
    var rowsLine, columnsLine := RowsPrefix + NatToString(|t.rows|), ColumnsPrefix + NatToString(|t.columns|);
    reporte := [];
    reporte := reporte + [Title];
    reporte := reporte + [Rule()];
    reporte := reporte + [rowsLine];
    reporte := reporte + [columnsLine];
    reporte := reporte + [YearsHeading];
    assert reporte == Header(t);
    if YearColumn in t.columns {
      var counts := ValueCounts(ColumnValues(t, IndexOf(t.columns, YearColumn)));
      reporte := AppendYearLines(reporte, counts);
    }
    assert reporte == Header(t) + YearLines(t);
    reporte := reporte + [ColumnsHeading];
    reporte := AppendColumnEntries(reporte, t.columns);
  }

  // ---------------------------------------------------------------------------
  // What the report says

  /** Lines 181-184: the title, a rule of fifty `=`, then the row and column counts so that they read back as those numbers. */
  lemma {:induction false} HeaderStatesCounts(t: Table)
    ensures var h := Header(t);
            && |h| == 5 && h[0] == Title && h[1] == Rule() && h[4] == YearsHeading
            && ReadsAs(h[2], RowsPrefix, |t.rows|)
            && ReadsAs(h[3], ColumnsPrefix, |t.columns|)
  {
    LabelledCountReadsBack(RowsPrefix, |t.rows|);
    LabelledCountReadsBack(ColumnsPrefix, |t.columns|);
  }

  /**
    The report opens with the header, so its third and fourth lines read back
    as the row count and the column count, and at least one line follows it.
   */
  lemma {:induction false} ReportStatesCounts(t: Table)
    requires WellFormed(t)
    ensures var lines := ReportLines(t);
            && |lines| >= 6
            && lines[0] == Title && lines[1] == Rule() && lines[4] == YearsHeading
            && ReadsAs(lines[2], RowsPrefix, |t.rows|)
            && ReadsAs(lines[3], ColumnsPrefix, |t.columns|)
  {
    HeaderStatesCounts(t);
    var h, rest := Header(t), YearLines(t) + ColumnLines(t);
    assert ReportLines(t) == h + rest;
    assert |rest| >= 1;
  }

  /** After the year section, the report lists every label once, in table order, and ends there. */
  lemma {:induction false} ReportListsLabels(t: Table)
    requires WellFormed(t)
    ensures var lines := ReportLines(t);
            var years := |YearLines(t)|;
            && |lines| == 6 + years + |t.columns|
            && lines[5 + years] == ColumnsHeading
            && forall j :: 0 <= j < |t.columns| ==> lines[6 + years + j] == "- " + t.columns[j]
  {
    var lines := ReportLines(t);
    var front := Header(t) + YearLines(t);
    var c := ColumnLines(t);
    assert lines == front + c;
    assert |front| == 5 + |YearLines(t)|;
    assert forall j :: 0 <= j < |c| ==> lines[|front| + j] == c[j];
  }

  /**
    Lines 188-190: the year section is empty unless the frame has a column
    named exactly `año_datos`; then it has one line per present value of that
    column, with the number of rows holding it, most frequent first.
   */
  lemma {:induction false} YearSectionListsYearCounts(t: Table)
    requires WellFormed(t)
    ensures YearColumn !in t.columns ==> YearLines(t) == []
    ensures |YearLines(t)| == |YearCounts(t)|
    ensures forall k :: 0 <= k < |YearLines(t)| ==> YearLines(t)[k] == YearLine(YearCounts(t)[k])
    ensures CountsDescending(YearCounts(t))
    ensures YearColumn in t.columns ==>
              var column := ColumnValues(t, IndexOf(t.columns, YearColumn));
              && (forall k :: 0 <= k < |YearCounts(t)| ==>
                    YearCounts(t)[k].value != Null && YearCounts(t)[k].count == multiset(column)[YearCounts(t)[k].value])
              && (forall i :: 0 <= i < |t.rows| && column[i] != Null ==>
                    exists k :: 0 <= k < |YearCounts(t)| && YearCounts(t)[k].value == column[i])
  {
    if YearColumn in t.columns {
      var column := ColumnValues(t, IndexOf(t.columns, YearColumn));
      var counts := YearCounts(t);
      assert counts == ValueCounts(column);
      ValueCountsAreExact(column);
      forall i | 0 <= i < |t.rows| && column[i] != Null
        ensures exists k :: 0 <= k < |counts| && counts[k].value == column[i]
      {
        assert column[i] in column;
      }
    }
  }

  /** A present value under `año_datos` on any row gets a line with a count of at least one. */
  lemma {:induction false} YearRowIsCounted(t: Table, row: nat)
    requires WellFormed(t) && YearColumn in t.columns && row < |t.rows| && Lookup(t, row, YearColumn) != Null
    ensures |YearLines(t)| >= 1
    ensures exists e :: e in YearCounts(t) && e.value == Lookup(t, row, YearColumn) && e.count >= 1
  {
    var column := ColumnValues(t, IndexOf(t.columns, YearColumn));
    YearSectionListsYearCounts(t);
    assert column[row] == Lookup(t, row, YearColumn);
    var c :| 0 <= c < |YearCounts(t)| && YearCounts(t)[c].value == column[row];
    assert YearCounts(t)[c] in YearCounts(t);
  }
}
