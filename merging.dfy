/**
  The loop of `combinar_y_limpiar_archivos_csv` (lines 113-141): every
  `Datos_*.csv` file that could be read is stamped with its year and name,
  cleaned and kept; the kept frames are then stacked with `pd.concat`.
 */
module Merging {
  import opened Optional
  import opened Sequences
  import opened Strings
  import opened ColumnNames
  import opened Tables
  import opened Cleaning

  const YearColumn := "año" + "_datos"
  const SourceColumn := "archivo" + "_origen"
  /** The label `limpiar_nombre_columna` gives `año_datos`. */
  const RenamedYearColumn := "a_o" + "_datos"
  const UnknownYear := "Desconocido"
  const FilePrefix := "Datos_"

  // ---------------------------------------------------------------------------
  // Year extraction (lines 119-120)

  /** `Datos_(\d{4})` matches at position `i` of `name`. */
  predicate YearAt(name: string, i: nat) {
    i + 10 <= |name| && name[i..i + 6] == FilePrefix && forall k :: i + 6 <= k < i + 10 ==> IsDigit(name[k])
  }

  /** The leftmost match at or after `from`, the one `re.search` reports. */
  function FindYear(name: string, from: nat): (r: Option<nat>)
    decreases |name| - from
    ensures r.Some? ==> from <= r.value && YearAt(name, r.value)
    ensures r.Some? ==> forall i: nat :: from <= i < r.value ==> !YearAt(name, i)
    ensures r.None? ==> forall i: nat :: from <= i ==> !YearAt(name, i)
  {
    if |name| < from + 10 then None
    else if YearAt(name, from) then Some(from)
    else FindYear(name, from + 1)
  }

  /** `match.group(1) if match else 'Desconocido'`. */
  function ExtractYear(name: string): string {
    match FindYear(name, 0)
    case Some(i) => name[i + 6..i + 10]
    case None => UnknownYear
  }

  /**
    The year is the four digits of the leftmost `Datos_dddd` in the name, and
    'Desconocido' exactly when the name has none.
   */
  lemma {:induction false} ExtractYearIsLeftmostMatch(name: string)
    ensures ExtractYear(name) == UnknownYear <==> forall i: nat :: !YearAt(name, i)
    ensures forall i: nat :: YearAt(name, i) && (forall i': nat :: i' < i ==> !YearAt(name, i')) ==>
              ExtractYear(name) == name[i + 6..i + 10]
  {
    match FindYear(name, 0)
    case Some(i) =>
      var year := name[i + 6..i + 10];
      assert IsDigit(year[0]) && !IsDigit(UnknownYear[0]);
      forall j: nat | YearAt(name, j) && (forall i': nat :: i' < j ==> !YearAt(name, i'))
        ensures ExtractYear(name) == name[j + 6..j + 10]
      {
      }
    case None =>
  }

  /** `Datos_2021_export.csv` gives `2021`. */
  lemma {:induction false} ExtractYearExample(name: string)
    requires name == "Datos_2021_export.csv"
    ensures ExtractYear(name) == "2021"
  {
    assert name[..6] == FilePrefix;
    assert YearAt(name, 0);
  }

  /** `Datos_export.csv` has no four digits after `Datos_` and gives 'Desconocido'. */
  lemma {:induction false} ExtractYearNoMatchExample(name: string)
    requires name == "Datos_export.csv"
    ensures ExtractYear(name) == UnknownYear
  {
    assert forall k :: 6 <= k < |name| ==> !IsDigit(name[k]);
    forall i: nat ensures !YearAt(name, i) {
      if i + 10 <= |name| {
        assert !IsDigit(name[i + 6]);
      }
    }
    ExtractYearIsLeftmostMatch(name);
  }

  // ---------------------------------------------------------------------------
  // Stamping and preparing one file (lines 116-129)

  /** Lines 123-124: `df['año_datos'] = año`, then `df['archivo_origen'] = archivo.name`. */
  function Stamped(t: Table, fileName: string): (r: Table)
    requires WellFormed(t)
    ensures WellFormed(r)
  {
    var withYear := WithColumn(t, YearColumn, Text(ExtractYear(fileName)), ObjectColumn);
    WithColumn(withYear, SourceColumn, Text(fileName), ObjectColumn)
  }

  /** A file found by the glob: its name and the frame `pd.read_csv` gave, or `None` when reading raised. */
  datatype CsvFile = CsvFile(name: string, contents: Option<Table>)

  predicate IsRead(f: CsvFile) {
    f.contents.Some?
  }

  predicate ReadFramesWellFormed(files: seq<CsvFile>) {
    forall k :: 0 <= k < |files| && files[k].contents.Some? ==> WellFormed(files[k].contents.value)
  }

  predicate AllWellFormed(ts: seq<Table>) {
    forall k :: 0 <= k < |ts| ==> WellFormed(ts[k])
  }

  /** The frame appended to `dfs` for a file that was read: stamped, then cleaned. */
  function Prepared(f: CsvFile, parse: Value -> Option<int>): (t: Table)
    requires f.contents.Some? && WellFormed(f.contents.value)
    ensures WellFormed(t)
  {
    Cleaned(Stamped(f.contents.value, f.name), parse)
  }

  /**
    The list `dfs` after the loop over `files`: the prepared frame of every
    file that was read, in file order; a file whose reading raised adds nothing.
   */
  function PreparedTables(files: seq<CsvFile>, parse: Value -> Option<int>): (ts: seq<Table>)
    requires ReadFramesWellFormed(files)
    ensures |ts| == |Filter(files, IsRead)| && AllWellFormed(ts)
  {
    if files == [] then []
    else
      var init, f := files[..|files| - 1], files[|files| - 1];
      PreparedTables(init, parse) + (if IsRead(f) then [Prepared(f, parse)] else [])
  }

  // ---------------------------------------------------------------------------
  // pd.concat(dfs, ignore_index=True) (line 141)

  /** Every frame's labels, frame after frame. */
  function AllColumns(ts: seq<Table>): seq<string> {
    if ts == [] then [] else AllColumns(ts[..|ts| - 1]) + ts[|ts| - 1].columns
  }

  function TotalRows(ts: seq<Table>): nat {
    if ts == [] then 0 else TotalRows(ts[..|ts| - 1]) + |ts[|ts| - 1].rows|
  }

  /** A frame's rows laid out on the merged labels; a label the frame lacks gets a missing value. */
  function Realigned(t: Table, columns: seq<string>): seq<Row>
    requires WellFormed(t)
  {
    seq(|t.rows|, i requires 0 <= i < |t.rows| =>
      seq(|columns|, j requires 0 <= j < |columns| => Lookup(t, i, columns[j])))
  }

  function StackedRows(ts: seq<Table>, columns: seq<string>): (rows: seq<Row>)
    requires AllWellFormed(ts)
    ensures |rows| == TotalRows(ts)
    ensures forall i :: 0 <= i < |rows| ==> |rows[i]| == |columns|
  {
    if ts == [] then [] else StackedRows(ts[..|ts| - 1], columns) + Realigned(ts[|ts| - 1], columns)
  }

  /** The kinds the frames that have label `c` give it, frame after frame. */
  function KindsOf(ts: seq<Table>, c: string): seq<ColumnKind>
    requires AllWellFormed(ts)
  {
    if ts == [] then []
    else
      var last := ts[|ts| - 1];
      KindsOf(ts[..|ts| - 1], c) + (if c in last.columns then [last.kinds[IndexOf(last.columns, c)]] else [])
  }

  /** The kind of a merged column: the common kind when the frames agree, otherwise `object`. */
  function MergedKind(ts: seq<Table>, c: string): ColumnKind
    requires AllWellFormed(ts)
  {
    var ks := KindsOf(ts, c);
    if ks != [] && forall k :: 0 <= k < |ks| ==> ks[k] == ks[0] then ks[0] else ObjectColumn
  }

  /**
    The merged frame: the labels in order of first appearance, each once, and
    the frames' rows one frame after the other.
   */
  function Concat(ts: seq<Table>): (r: Table)
    requires AllWellFormed(ts)
    ensures WellFormed(r)
  {
    var columns := Distinct(AllColumns(ts));
    Table(columns,
          seq(|columns|, j requires 0 <= j < |columns| => MergedKind(ts, columns[j])),
          StackedRows(ts, columns))
  }

  // ---------------------------------------------------------------------------
  // The loop

  /** How the merge part of `combinar_y_limpiar_archivos_csv` ends. */
  datatype MergeOutcome =
    | NoCsvFiles             // line 103: the glob found nothing
    | NoneProcessed          // line 136: no file could be read
    | Merged(table: Table)   // line 141

  function MergeSpec(files: seq<CsvFile>, parse: Value -> Option<int>): MergeOutcome
    requires ReadFramesWellFormed(files)
  {
    if files == [] then NoCsvFiles
    else
      var ts := PreparedTables(files, parse);
      if ts == [] then NoneProcessed else Merged(Concat(ts))
  }

  /** The frames held in `dfs`. */
  function Frames(dfs: seq<DataFrame>): seq<Table>
    reads set m | 0 <= m < |dfs| :: dfs[m]
  {
    if dfs == [] then [] else Frames(dfs[..|dfs| - 1]) + [dfs[|dfs| - 1].Snapshot()]
  }

  /** The frames of `files` kept by the loop, extended by one more file. */
  lemma {:induction false} PreparedTablesStep(files: seq<CsvFile>, k: nat, parse: Value -> Option<int>)
    requires ReadFramesWellFormed(files) && k < |files|
    ensures PreparedTables(files[..k + 1], parse) ==
              PreparedTables(files[..k], parse) + (if IsRead(files[k]) then [Prepared(files[k], parse)] else [])
  {
    assert files[..k + 1][..k] == files[..k];
  }

  /** Lines 116-127 for one file that was read: a new frame, stamped in place, then cleaned. */
  method PrepareFile(file: CsvFile, parse: Value -> Option<int>) returns (cleaned: DataFrame)
    requires file.contents.Some? && WellFormed(file.contents.value)
    ensures fresh(cleaned) && cleaned.Valid() && cleaned.Snapshot() == Prepared(file, parse)
  {
    var df := new DataFrame(file.contents.value);
    df.SetColumn(YearColumn, Text(ExtractYear(file.name)), ObjectColumn);
    df.SetColumn(SourceColumn, Text(file.name), ObjectColumn);
    var removed;
    cleaned, removed := Clean(df, parse);
  }

  /**
    Lines 114-134 for one file: a file that was read is prepared and appended
    to `dfs`; a file whose reading raised is skipped.
   */
  method KeepFile(dfs: seq<DataFrame>, file: CsvFile, parse: Value -> Option<int>) returns (kept: seq<DataFrame>)
    requires forall m :: 0 <= m < |dfs| ==> dfs[m].Valid()
    requires file.contents.Some? ==> WellFormed(file.contents.value)
    ensures forall m :: 0 <= m < |kept| ==> kept[m].Valid()
    ensures Frames(kept) == old(Frames(dfs)) + (if IsRead(file) then [Prepared(file, parse)] else [])
  {
    kept := dfs;
    if file.contents.Some? {
      var cleaned := PrepareFile(file, parse);
      assert (dfs + [cleaned])[..|dfs|] == dfs;
      kept := dfs + [cleaned];
    }
  }

  /** Lines 113-133: the loop that fills `dfs`, one frame per file that could be read, in file order. */
  method KeepReadFiles(files: seq<CsvFile>, parse: Value -> Option<int>) returns (dfs: seq<DataFrame>)
    requires ReadFramesWellFormed(files)
    ensures forall m :: 0 <= m < |dfs| ==> dfs[m].Valid()
    ensures Frames(dfs) == PreparedTables(files, parse)
  {
    dfs := [];
    for k := 0 to |files|
      invariant forall m :: 0 <= m < |dfs| ==> dfs[m].Valid()
      invariant Frames(dfs) == PreparedTables(files[..k], parse)
    {
      dfs := KeepFile(dfs, files[k], parse);
      PreparedTablesStep(files, k, parse);
    }
    assert files[..|files|] == files;
  }

  /** Lines 101-141, with the files already globbed and read. */
  method MergeFiles(files: seq<CsvFile>, parse: Value -> Option<int>) returns (outcome: MergeOutcome)
    requires ReadFramesWellFormed(files)
    ensures outcome == MergeSpec(files, parse)
  {
    if |files| == 0 {
      return NoCsvFiles;
    }
    var dfs := KeepReadFiles(files, parse);
    if |dfs| == 0 {
      return NoneProcessed;
    }
    outcome := Merged(Concat(Frames(dfs)));
  }

  // ---------------------------------------------------------------------------
  // What the merged frame holds

  /**
    Lines 103 and 136: the merge reports "no files" exactly when the glob found
    none and "none processed" exactly when no file could be read; otherwise the
    merged frame holds as many rows as the kept frames together.
   */
  lemma {:induction false} MergeOutcomeCases(files: seq<CsvFile>, parse: Value -> Option<int>)
    requires ReadFramesWellFormed(files)
    ensures MergeSpec(files, parse) == NoCsvFiles <==> files == []
    ensures MergeSpec(files, parse) == NoneProcessed <==>
              files != [] && forall k :: 0 <= k < |files| ==> !IsRead(files[k])
    ensures MergeSpec(files, parse).Merged? ==>
              MergeSpec(files, parse).table == Concat(PreparedTables(files, parse))
              && |MergeSpec(files, parse).table.rows| == TotalRows(PreparedTables(files, parse))
  {
    FilterEmpty(files, IsRead);
  }

  lemma {:induction false} AllColumnsHas(ts: seq<Table>, c: string)
    ensures c in AllColumns(ts) <==> exists k :: 0 <= k < |ts| && c in ts[k].columns
  {
    if ts != [] {
      var init := ts[..|ts| - 1];
      AllColumnsHas(init, c);
      if exists k :: 0 <= k < |init| && c in init[k].columns {
        var k :| 0 <= k < |init| && c in init[k].columns;
        assert ts[k] == init[k];
      }
      if exists k :: 0 <= k < |ts| && c in ts[k].columns {
        var k :| 0 <= k < |ts| && c in ts[k].columns;
        if k < |init| {
          assert init[k] == ts[k];
        }
      }
    }
  }

  /** The merged labels are taken once each. */
  lemma {:induction false} ConcatColumnsAreDistinct(ts: seq<Table>)
    requires AllWellFormed(ts)
    ensures NoDuplicates(Concat(ts).columns)
  {
    DistinctHasNoDuplicates(AllColumns(ts));
  }

  /** The merged labels are the union of the frames' labels. */
  lemma {:induction false} ConcatColumnsAreUnion(ts: seq<Table>)
    requires AllWellFormed(ts)
    ensures forall c :: c in Concat(ts).columns <==> exists k :: 0 <= k < |ts| && c in ts[k].columns
  {
    DistinctMembers(AllColumns(ts));
    forall c ensures c in Concat(ts).columns <==> exists k :: 0 <= k < |ts| && c in ts[k].columns {
      AllColumnsHas(ts, c);
    }
  }

  /** Row `i` of frame `k` is row `TotalRows(ts[..k]) + i` of the stack. */
  lemma {:induction false} StackedRowsAt(ts: seq<Table>, columns: seq<string>, k: nat, i: nat)
    requires AllWellFormed(ts) && k < |ts| && i < |ts[k].rows|
    ensures TotalRows(ts[..k]) + i < TotalRows(ts)
    ensures StackedRows(ts, columns)[TotalRows(ts[..k]) + i] == Realigned(ts[k], columns)[i]
  {
    var init := ts[..|ts| - 1];
    if k == |ts| - 1 {
      assert ts[..k] == init;
    } else {
      StackedRowsAt(init, columns, k, i);
      assert init[..k] == ts[..k] && init[k] == ts[k];
    }
  }

  /**
    `pd.concat(dfs, ignore_index=True)`: the merged frame has as many rows as
    the frames together, frame after frame and row after row; reading any label
    on the merged row of row `i` of frame `k` gives what frame `k` has there,
    which is a missing value (left unfilled) when frame `k` lacks that label.
   */
  lemma {:induction false} ConcatCells(ts: seq<Table>, k: nat, i: nat, c: string)
    requires AllWellFormed(ts) && k < |ts| && i < |ts[k].rows|
    ensures |Concat(ts).rows| == TotalRows(ts)
    ensures TotalRows(ts[..k]) + i < |Concat(ts).rows|
    ensures Lookup(Concat(ts), TotalRows(ts[..k]) + i, c) == Lookup(ts[k], i, c)
    ensures c !in ts[k].columns ==> Lookup(Concat(ts), TotalRows(ts[..k]) + i, c) == Null
  {
    var r := Concat(ts);
    StackedRowsAt(ts, r.columns, k, i);
    ConcatColumnsAreUnion(ts);
    if c in r.columns {
      var j := IndexOf(r.columns, c);
      assert r.rows[TotalRows(ts[..k]) + i][j] == Lookup(ts[k], i, r.columns[j]);
    }
  }

  // ---------------------------------------------------------------------------
  // The provenance labels

  /** `limpiar_nombre_columna('año_datos')` is `'a_o_datos'`: the `ñ` is a separator. */
  lemma {:induction false} YearColumnRenamed(name: string)
    requires name == YearColumn
    ensures Normalize(name) == RenamedYearColumn
  {
    var lowered := Lower(name);
    YearColumnSeparatorsReplaced(name, lowered);
    SqueezeAfterReplaceIsIdentity(lowered);
    RenamedYearColumnHasNoEdgeUnderscore(ReplaceSeparators(lowered));
  }

  lemma {:induction false} YearColumnSeparatorsReplaced(name: string, lowered: string)
    requires name == YearColumn && lowered == Lower(name)
    ensures ReplaceSeparators(lowered) == RenamedYearColumn
  {
    assert lowered == name;
    var w1, r1, w2, r2, w3 := "a", "ñ", "o", "_", "datos";
    assert lowered == w1 + (r1 + (w2 + (r2 + w3)));
    assert forall i :: 0 <= i < |w3| ==> IsLowerAlnum(w3[i]);
    ReplaceSeparatorsThreeWords(lowered, w1, r1, w2, r2, w3);
  }

  lemma {:induction false} ReplaceSeparatorsThreeWords(s: string, w1: string, r1: string, w2: string, r2: string, w3: string)
    requires w1 != [] && w2 != [] && w3 != [] && r1 != [] && r2 != []
    requires forall i :: 0 <= i < |w1| ==> IsLowerAlnum(w1[i])
    requires forall i :: 0 <= i < |w2| ==> IsLowerAlnum(w2[i])
    requires forall i :: 0 <= i < |w3| ==> IsLowerAlnum(w3[i])
    requires forall i :: 0 <= i < |r1| ==> IsSeparator(r1[i])
    requires forall i :: 0 <= i < |r2| ==> IsSeparator(r2[i])
    requires s == w1 + (r1 + (w2 + (r2 + w3)))
    ensures ReplaceSeparators(s) == w1 + "_" + w2 + "_" + w3
  {
    ReplaceRunsWord(w3, "", IsSeparator, true);
    assert w3 + "" == w3;
    ReplaceRunsRun(r2, w3, IsSeparator, false);
    ReplaceRunsWord(w2, r2 + w3, IsSeparator, true);
    ReplaceRunsRun(r1, w2 + (r2 + w3), IsSeparator, false);
    ReplaceRunsWord(w1, r1 + (w2 + (r2 + w3)), IsSeparator, false);
  }

  lemma {:induction false} RenamedYearColumnHasNoEdgeUnderscore(s: string)
    requires s == RenamedYearColumn
    ensures TrimEnd(TrimStart(s)) == s
  {
  }

  /** `archivo_origen` is already a normalised name and keeps it. */
  lemma {:induction false} SourceColumnKept(name: string)
    requires name == SourceColumn
    ensures Normalize(name) == name
  {
    assert IsNormalized(name);
    NormalizedIsFixpoint(name);
  }

  /** No label can normalise to `año_datos`: `ñ` is not in `[a-z0-9_]`. */
  lemma {:induction false} NoLabelNormalizesToYearColumn(name: string, other: string)
    requires name == YearColumn
    ensures Normalize(other) != name
  {
    NormalizeIsNormalized(other);
    assert !IsNameChar(name[1]);
  }

  /**
    The labels of a prepared frame: all normalised, with `a_o_datos` and
    `archivo_origen` among them and never `año_datos`.
   */
  lemma {:induction false} PreparedLabels(f: CsvFile, parse: Value -> Option<int>)
    requires f.contents.Some? && WellFormed(f.contents.value)
    ensures RenamedYearColumn in Prepared(f, parse).columns && SourceColumn in Prepared(f, parse).columns
    ensures YearColumn !in Prepared(f, parse).columns
    ensures forall j :: 0 <= j < |Prepared(f, parse).columns| ==> IsNormalized(Prepared(f, parse).columns[j])
  {
    var s := Stamped(f.contents.value, f.name);
    var cols := Prepared(f, parse).columns;
    CleanedLabels(s, parse);
    YearColumnRenamed(YearColumn);
    SourceColumnKept(SourceColumn);
    var y, o := IndexOf(s.columns, YearColumn), IndexOf(s.columns, SourceColumn);
    assert cols[y] == RenamedYearColumn && cols[o] == SourceColumn;
    forall j | 0 <= j < |cols| ensures cols[j] != YearColumn {
      NoLabelNormalizesToYearColumn(YearColumn, s.columns[j]);
    }
  }

  /** The kept frames are the prepared frames of the readable files, in file order. */
  lemma {:induction false} PreparedTablesOfReadFiles(files: seq<CsvFile>, parse: Value -> Option<int>)
    requires ReadFramesWellFormed(files)
    ensures |PreparedTables(files, parse)| == |Filter(files, IsRead)|
    ensures forall k :: 0 <= k < |Filter(files, IsRead)| ==>
              Filter(files, IsRead)[k].contents.Some? && WellFormed(Filter(files, IsRead)[k].contents.value)
              && PreparedTables(files, parse)[k] == Prepared(Filter(files, IsRead)[k], parse)
  {
    if files != [] {
      var init, f := files[..|files| - 1], files[|files| - 1];
      PreparedTablesOfReadFiles(init, parse);
      var read0, read := Filter(init, IsRead), Filter(files, IsRead);
      assert read == read0 + (if IsRead(f) then [f] else []);
      forall k | 0 <= k < |read|
        ensures read[k].contents.Some? && WellFormed(read[k].contents.value)
                && PreparedTables(files, parse)[k] == Prepared(read[k], parse)
      {
        if k < |read0| {
          assert read[k] == read0[k];
        }
      }
    }
  }

  /**
    Finding: cleaning runs after the stamp (lines 123, 127), so the merged
    frame never has a column `año_datos`; the year sits under `a_o_datos`.
   */
  lemma {:induction false} MergedFrameLacksYearColumn(files: seq<CsvFile>, parse: Value -> Option<int>)
    requires ReadFramesWellFormed(files) && MergeSpec(files, parse).Merged?
    ensures YearColumn !in MergeSpec(files, parse).table.columns
    ensures RenamedYearColumn in MergeSpec(files, parse).table.columns && SourceColumn in MergeSpec(files, parse).table.columns
  {
    var read := Filter(files, IsRead);
    var ts := PreparedTables(files, parse);
    assert MergeSpec(files, parse).table == Concat(ts);
    PreparedTablesOfReadFiles(files, parse);
    ConcatColumnsAreUnion(ts);
    forall k | 0 <= k < |ts| ensures YearColumn !in ts[k].columns {
      PreparedLabels(read[k], parse);
    }
    PreparedLabels(read[0], parse);
    assert RenamedYearColumn in ts[0].columns && SourceColumn in ts[0].columns;
  }

  /**
    No label of the frame as read normalises to a provenance label, except the
    provenance labels themselves (which the stamp overwrites).
   */
  predicate KeepsProvenanceLabels(t: Table) {
    forall j {:trigger Normalize(t.columns[j])} :: 0 <= j < |t.columns| ==>
      (Normalize(t.columns[j]) == SourceColumn ==> t.columns[j] == SourceColumn) &&
      (Normalize(t.columns[j]) == RenamedYearColumn ==> t.columns[j] == YearColumn)
  }

  /** No frame as read has a label that cleaning would turn into a provenance label. */
  predicate ReadFramesKeepProvenance(files: seq<CsvFile>) {
    forall m :: 0 <= m < |files| && files[m].contents.Some? ==> KeepsProvenanceLabels(files[m].contents.value)
  }

  lemma {:induction false} ProvenanceLabelsAreNotDates(source: string, year: string)
    requires source == SourceColumn && year == RenamedYearColumn
    ensures !IsDateLabel(source) && !IsDateLabel(year)
  {
    assert forall k :: 0 <= k < |source| ==> source[k] != 'f';
    assert forall k :: 0 <= k < |year| ==> year[k] != 'f';
    MissingFirstCharNotContained(source, "fecha");
    MissingFirstCharNotContained(year, "fecha");
  }

  /** The stamp keeps the labels as read and may append `año_datos` and `archivo_origen`. */
  lemma {:induction false} StampedLabel(t: Table, fileName: string, j: nat)
    requires WellFormed(t) && j < |Stamped(t, fileName).columns|
    ensures j < |t.columns| ==> Stamped(t, fileName).columns[j] == t.columns[j]
    ensures j >= |t.columns| ==> Stamped(t, fileName).columns[j] == YearColumn || Stamped(t, fileName).columns[j] == SourceColumn
  {
    var w := WithColumn(t, YearColumn, Text(ExtractYear(fileName)), ObjectColumn);
    WithColumnLabel(w, SourceColumn, Text(fileName), ObjectColumn, j);
    if j < |w.columns| {
      WithColumnLabel(t, YearColumn, Text(ExtractYear(fileName)), ObjectColumn, j);
    }
  }

  /** A stamped column whose name normalises to `archivo_origen` is the name stamp. */
  lemma {:induction false} StampedSourceColumn(t: Table, fileName: string, j: nat)
    requires WellFormed(t) && KeepsProvenanceLabels(t)
    requires j < |Stamped(t, fileName).columns| && Normalize(Stamped(t, fileName).columns[j]) == SourceColumn
    ensures Stamped(t, fileName).columns[j] == SourceColumn
    ensures forall i :: 0 <= i < |Stamped(t, fileName).rows| ==> Stamped(t, fileName).rows[i][j] == Text(fileName)
  {
    var s := Stamped(t, fileName);
    var name := s.columns[j];
    StampedLabel(t, fileName, j);
    if name == YearColumn {
      YearColumnRenamed(name);
    }
    var w := WithColumn(t, YearColumn, Text(ExtractYear(fileName)), ObjectColumn);
    WithColumnCells(w, SourceColumn, Text(fileName), ObjectColumn);
  }

  /** A stamped column whose name normalises to `a_o_datos` is the year stamp. */
  lemma {:induction false} StampedYearColumn(t: Table, fileName: string, j: nat)
    requires WellFormed(t) && KeepsProvenanceLabels(t)
    requires j < |Stamped(t, fileName).columns| && Normalize(Stamped(t, fileName).columns[j]) == RenamedYearColumn
    ensures Stamped(t, fileName).columns[j] == YearColumn
    ensures forall i :: 0 <= i < |Stamped(t, fileName).rows| ==> Stamped(t, fileName).rows[i][j] == Text(ExtractYear(fileName))
  {
    var w := WithColumn(t, YearColumn, Text(ExtractYear(fileName)), ObjectColumn);
    var s := Stamped(t, fileName);
    var name := s.columns[j];
    StampedLabel(t, fileName, j);
    if name == SourceColumn {
      SourceColumnKept(name);
    }
    assert name == YearColumn;
    WithColumnLabel(w, SourceColumn, Text(fileName), ObjectColumn, j);
    assert w.columns[j] == YearColumn;
    WithColumnCells(t, YearColumn, Text(ExtractYear(fileName)), ObjectColumn);
    WithColumnCells(w, SourceColumn, Text(fileName), ObjectColumn);
  }

  /** Column `j` of `t` is labelled `heading` and holds `v` on every row. */
  predicate ConstantColumnAt(t: Table, j: nat, heading: string, v: Value) {
    WellFormed(t) && j < |t.columns| && t.columns[j] == heading && forall i :: 0 <= i < |t.rows| ==> t.rows[i][j] == v
  }

  /**
    Lines 123-124, whatever labels the file had: the stamped frame has a column
    `año_datos` holding the year and a column `archivo_origen` holding the file
    name (a column the file already had under one of those labels is overwritten).
   */
  lemma {:induction false} StampedHasStampColumns(t: Table, fileName: string) returns (y: nat, o: nat)
    requires WellFormed(t)
    ensures ConstantColumnAt(Stamped(t, fileName), y, YearColumn, Text(ExtractYear(fileName)))
    ensures ConstantColumnAt(Stamped(t, fileName), o, SourceColumn, Text(fileName))
  {
    var year := Text(ExtractYear(fileName));
    var w := WithColumn(t, YearColumn, year, ObjectColumn);
    var s := Stamped(t, fileName);
    y, o := IndexOf(w.columns, YearColumn), IndexOf(s.columns, SourceColumn);
    WithColumnCells(t, YearColumn, year, ObjectColumn);
    WithColumnCells(w, SourceColumn, Text(fileName), ObjectColumn);
    WithColumnLabel(w, SourceColumn, Text(fileName), ObjectColumn, y);
    assert |YearColumn| != |SourceColumn|;
  }

  /**
    Lines 119-127, whatever labels the file had: the prepared frame has a
    column `archivo_origen` holding the file name on every row and a column
    `a_o_datos` holding its year on every row. When the file had its own column
    with a label that normalises to one of these, the prepared frame has two
    columns under that label, and this is the one the stamp filled.
   */
  lemma {:induction false} PreparedKeepsStamps(f: CsvFile, parse: Value -> Option<int>)
    requires f.contents.Some? && WellFormed(f.contents.value)
    ensures exists j :: ConstantColumnAt(Prepared(f, parse), j, SourceColumn, Text(f.name))
    ensures exists j :: ConstantColumnAt(Prepared(f, parse), j, RenamedYearColumn, Text(ExtractYear(f.name)))
  {
    var s := Stamped(f.contents.value, f.name);
    var y, o := StampedHasStampColumns(f.contents.value, f.name);
    CleanedLabels(s, parse);
    YearColumnRenamed(YearColumn);
    SourceColumnKept(SourceColumn);
    ProvenanceLabelsAreNotDates(SourceColumn, RenamedYearColumn);
    CleanedKeepsConstantColumn(s, parse, o, Text(f.name));
    CleanedKeepsConstantColumn(s, parse, y, Text(ExtractYear(f.name)));
    assert ConstantColumnAt(Prepared(f, parse), o, SourceColumn, Text(f.name));
    assert ConstantColumnAt(Prepared(f, parse), y, RenamedYearColumn, Text(ExtractYear(f.name)));
  }

  /** Every row of a prepared frame reads its file's name under `archivo_origen`. */
  lemma {:induction false} PreparedSourceColumn(f: CsvFile, parse: Value -> Option<int>)
    requires f.contents.Some? && WellFormed(f.contents.value) && KeepsProvenanceLabels(f.contents.value)
    ensures forall i :: 0 <= i < |Prepared(f, parse).rows| ==> Lookup(Prepared(f, parse), i, SourceColumn) == Text(f.name)
  {
    var s := Stamped(f.contents.value, f.name);
    var p := Prepared(f, parse);
    PreparedLabels(f, parse);
    CleanedLabels(s, parse);
    var j := IndexOf(p.columns, SourceColumn);
    StampedSourceColumn(f.contents.value, f.name, j);
    ProvenanceLabelsAreNotDates(SourceColumn, RenamedYearColumn);
    SourceColumnKept(SourceColumn);
    CleanedKeepsConstantColumn(s, parse, j, Text(f.name));
  }

  /** Every row of a prepared frame reads its file's year under `a_o_datos`. */
  lemma {:induction false} PreparedYearColumn(f: CsvFile, parse: Value -> Option<int>)
    requires f.contents.Some? && WellFormed(f.contents.value) && KeepsProvenanceLabels(f.contents.value)
    ensures forall i :: 0 <= i < |Prepared(f, parse).rows| ==> Lookup(Prepared(f, parse), i, RenamedYearColumn) == Text(ExtractYear(f.name))
  {
    var s := Stamped(f.contents.value, f.name);
    var p := Prepared(f, parse);
    PreparedLabels(f, parse);
    CleanedLabels(s, parse);
    var j := IndexOf(p.columns, RenamedYearColumn);
    StampedYearColumn(f.contents.value, f.name, j);
    ProvenanceLabelsAreNotDates(SourceColumn, RenamedYearColumn);
    YearColumnRenamed(YearColumn);
    CleanedKeepsConstantColumn(s, parse, j, Text(ExtractYear(f.name)));
  }

  /** Once some frame is kept, the merge ends with the concatenation of the kept frames. */
  lemma {:induction false} MergeSpecOfKept(files: seq<CsvFile>, parse: Value -> Option<int>)
    requires ReadFramesWellFormed(files) && PreparedTables(files, parse) != []
    ensures MergeSpec(files, parse).Merged? && MergeSpec(files, parse).table == Concat(PreparedTables(files, parse))
  {
  }

  /** The `k`-th kept frame is the prepared frame of the `k`-th readable file, whose labels do not clash. */
  lemma {:induction false} ReadFileFrame(files: seq<CsvFile>, parse: Value -> Option<int>, k: nat)
    requires ReadFramesWellFormed(files)
    requires ReadFramesKeepProvenance(files)
    requires k < |Filter(files, IsRead)|
    ensures Filter(files, IsRead)[k].contents.Some? && WellFormed(Filter(files, IsRead)[k].contents.value)
    ensures KeepsProvenanceLabels(Filter(files, IsRead)[k].contents.value)
    ensures k < |PreparedTables(files, parse)|
    ensures PreparedTables(files, parse)[k] == Prepared(Filter(files, IsRead)[k], parse)
  {
    PreparedTablesOfReadFiles(files, parse);
    assert Filter(files, IsRead)[k] in files;
  }

  /** Row `i` of a prepared frame reads its file's name and year. */
  lemma {:induction false} PreparedRowStamps(f: CsvFile, parse: Value -> Option<int>, i: nat)
    requires f.contents.Some? && WellFormed(f.contents.value) && KeepsProvenanceLabels(f.contents.value)
    requires i < |Prepared(f, parse).rows|
    ensures Lookup(Prepared(f, parse), i, SourceColumn) == Text(f.name)
    ensures Lookup(Prepared(f, parse), i, RenamedYearColumn) == Text(ExtractYear(f.name))
  {
    PreparedSourceColumn(f, parse);
    PreparedYearColumn(f, parse);
  }

  /** Row `i` of the `k`-th kept frame reads the name and year of the `k`-th readable file. */
  lemma {:induction false} KeptFrameStamps(files: seq<CsvFile>, parse: Value -> Option<int>, k: nat, i: nat)
    requires ReadFramesWellFormed(files)
    requires ReadFramesKeepProvenance(files)
    requires k < |Filter(files, IsRead)| && i < |PreparedTables(files, parse)[k].rows|
    ensures CarriesStamps(PreparedTables(files, parse)[k], i, RenamedYearColumn,
                          Filter(files, IsRead)[k].name, ExtractYear(Filter(files, IsRead)[k].name))
  {
    ReadFileFrame(files, parse, k);
    PreparedRowStamps(Filter(files, IsRead)[k], parse, i);
  }

  /** A stamped row of the `k`-th kept frame is row `TotalRows(ts[..k]) + i` of the merged frame, with its stamps. */
  lemma {:induction false} MergedRowStamps(files: seq<CsvFile>, parse: Value -> Option<int>, k: nat, i: nat, name: string, year: string)
    requires ReadFramesWellFormed(files)
    requires k < |PreparedTables(files, parse)| && CarriesStamps(PreparedTables(files, parse)[k], i, RenamedYearColumn, name, year)
    ensures MergeSpec(files, parse).Merged?
    ensures CarriesStamps(MergeSpec(files, parse).table, TotalRows(PreparedTables(files, parse)[..k]) + i, RenamedYearColumn, name, year)
  {
    MergeSpecOfKept(files, parse);
    ConcatKeepsStamps(PreparedTables(files, parse), MergeSpec(files, parse).table, k, i, RenamedYearColumn, name, year);
  }

  /**
    Lines 113-141: when the labels of the frames as read do not clash with
    the provenance labels, row `i` of the `k`-th readable file is row
    `TotalRows(ts[..k]) + i` of the merged frame and carries that file's name
    and year.
   */
  lemma {:induction false} MergedRowProvenance(files: seq<CsvFile>, parse: Value -> Option<int>, k: nat, i: nat)
    requires ReadFramesWellFormed(files)
    requires ReadFramesKeepProvenance(files)
    requires k < |Filter(files, IsRead)| && i < |PreparedTables(files, parse)[k].rows|
    ensures MergeSpec(files, parse).Merged?
    ensures CarriesStamps(MergeSpec(files, parse).table, TotalRows(PreparedTables(files, parse)[..k]) + i, RenamedYearColumn,
                          Filter(files, IsRead)[k].name, ExtractYear(Filter(files, IsRead)[k].name))
  {
    KeptFrameStamps(files, parse, k, i);
    MergedRowStamps(files, parse, k, i, Filter(files, IsRead)[k].name, ExtractYear(Filter(files, IsRead)[k].name));
  }

  // ---------------------------------------------------------------------------
  // Corrected merge: stamp after cleaning

  /** The evidently intended preparation: clean first, then stamp, so both provenance labels survive. */
  function PreparedFixed(f: CsvFile, parse: Value -> Option<int>): (t: Table)
    requires f.contents.Some? && WellFormed(f.contents.value)
    ensures WellFormed(t)
  {
    Stamped(Cleaned(f.contents.value, parse), f.name)
  }

  /** The list `dfs` after the corrected loop: the corrected preparation of every file that was read. */
  function PreparedTablesFixed(files: seq<CsvFile>, parse: Value -> Option<int>): (ts: seq<Table>)
    requires ReadFramesWellFormed(files)
    ensures |ts| == |Filter(files, IsRead)| && AllWellFormed(ts)
  {
    if files == [] then []
    else
      var init, f := files[..|files| - 1], files[|files| - 1];
      PreparedTablesFixed(init, parse) + (if IsRead(f) then [PreparedFixed(f, parse)] else [])
  }

  function MergeSpecFixed(files: seq<CsvFile>, parse: Value -> Option<int>): MergeOutcome
    requires ReadFramesWellFormed(files)
  {
    if files == [] then NoCsvFiles
    else
      var ts := PreparedTablesFixed(files, parse);
      if ts == [] then NoneProcessed else Merged(Concat(ts))
  }

  /** Once some frame is kept, the corrected merge ends with the concatenation of the kept frames. */
  lemma {:induction false} MergeSpecFixedOfKept(files: seq<CsvFile>, parse: Value -> Option<int>)
    requires ReadFramesWellFormed(files) && PreparedTablesFixed(files, parse) != []
    ensures MergeSpecFixed(files, parse).Merged? && MergeSpecFixed(files, parse).table == Concat(PreparedTablesFixed(files, parse))
  {
  }

  lemma {:induction false} PreparedTablesFixedOfReadFiles(files: seq<CsvFile>, parse: Value -> Option<int>)
    requires ReadFramesWellFormed(files)
    ensures |PreparedTablesFixed(files, parse)| == |Filter(files, IsRead)|
    ensures forall k :: 0 <= k < |Filter(files, IsRead)| ==>
              Filter(files, IsRead)[k].contents.Some? && WellFormed(Filter(files, IsRead)[k].contents.value)
              && PreparedTablesFixed(files, parse)[k] == PreparedFixed(Filter(files, IsRead)[k], parse)
  {
    if files != [] {
      var init, f := files[..|files| - 1], files[|files| - 1];
      PreparedTablesFixedOfReadFiles(init, parse);
      var read0, read := Filter(init, IsRead), Filter(files, IsRead);
      assert read == read0 + (if IsRead(f) then [f] else []);
      forall k | 0 <= k < |read|
        ensures read[k].contents.Some? && WellFormed(read[k].contents.value)
                && PreparedTablesFixed(files, parse)[k] == PreparedFixed(read[k], parse)
      {
        if k < |read0| {
          assert read[k] == read0[k];
        }
      }
    }
  }

  /** The `k`-th frame of the corrected merge is the corrected preparation of the `k`-th readable file. */
  lemma {:induction false} FixedFileFrame(files: seq<CsvFile>, parse: Value -> Option<int>, k: nat)
    requires ReadFramesWellFormed(files) && k < |Filter(files, IsRead)|
    ensures Filter(files, IsRead)[k].contents.Some? && WellFormed(Filter(files, IsRead)[k].contents.value)
    ensures k < |PreparedTablesFixed(files, parse)|
    ensures PreparedTablesFixed(files, parse)[k] == PreparedFixed(Filter(files, IsRead)[k], parse)
  {
    PreparedTablesFixedOfReadFiles(files, parse);
  }

  /** With the stamp after cleaning, every row reads its file's name and year. */
  lemma {:induction false} PreparedFixedProvenance(f: CsvFile, parse: Value -> Option<int>, i: nat)
    requires f.contents.Some? && WellFormed(f.contents.value) && i < |PreparedFixed(f, parse).rows|
    ensures YearColumn in PreparedFixed(f, parse).columns
    ensures Lookup(PreparedFixed(f, parse), i, SourceColumn) == Text(f.name)
    ensures Lookup(PreparedFixed(f, parse), i, YearColumn) == Text(ExtractYear(f.name))
  {
    var c := Cleaned(f.contents.value, parse);
    var w := WithColumn(c, YearColumn, Text(ExtractYear(f.name)), ObjectColumn);
    WithColumnLookup(w, SourceColumn, Text(f.name), ObjectColumn, i);
    WithColumnLookup(c, YearColumn, Text(ExtractYear(f.name)), ObjectColumn, i);
    assert |YearColumn| != |SourceColumn|;
    WithColumnLookupOther(w, SourceColumn, Text(f.name), ObjectColumn, i, YearColumn);
  }

  /** Row `i` of the `k`-th frame of the corrected merge reads the name and year of the `k`-th readable file. */
  lemma {:induction false} FixedFrameStamps(files: seq<CsvFile>, parse: Value -> Option<int>, k: nat, i: nat)
    requires ReadFramesWellFormed(files)
    requires k < |Filter(files, IsRead)| && i < |PreparedTablesFixed(files, parse)[k].rows|
    ensures CarriesStamps(PreparedTablesFixed(files, parse)[k], i, YearColumn,
                          Filter(files, IsRead)[k].name, ExtractYear(Filter(files, IsRead)[k].name))
  {
    FixedFileFrame(files, parse, k);
    PreparedFixedProvenance(Filter(files, IsRead)[k], parse, i);
  }

  /** Row `row` of `t` reads `name` under `archivo_origen` and `year` under `yearLabel`. */
  predicate CarriesStamps(t: Table, row: nat, yearLabel: string, name: string, year: string) {
    && WellFormed(t) && row < |t.rows|
    && Lookup(t, row, SourceColumn) == Text(name)
    && Lookup(t, row, yearLabel) == Text(year)
  }

  /** The stamps a row of frame `k` carries, the name and the year under `yearLabel`, are read on its merged row. */
  lemma {:induction false} ConcatKeepsStamps(ts: seq<Table>, merged: Table, k: nat, i: nat, yearLabel: string, fileName: string, year: string)
    requires AllWellFormed(ts) && merged == Concat(ts)
    requires k < |ts| && CarriesStamps(ts[k], i, yearLabel, fileName, year)
    ensures CarriesStamps(merged, TotalRows(ts[..k]) + i, yearLabel, fileName, year)
  {
    ConcatCells(ts, k, i, SourceColumn);
    ConcatCells(ts, k, i, yearLabel);
  }

  /**
    With the stamp after cleaning, every merged row reads its file's name
    under `archivo_origen` and its year under `año_datos`, whatever labels the
    files had.
   */
  lemma {:induction false} FixedMergeKeepsProvenance(files: seq<CsvFile>, parse: Value -> Option<int>, k: nat, i: nat)
    requires ReadFramesWellFormed(files)
    requires k < |Filter(files, IsRead)| && i < |PreparedTablesFixed(files, parse)[k].rows|
    ensures MergeSpecFixed(files, parse).Merged?
    ensures CarriesStamps(MergeSpecFixed(files, parse).table, TotalRows(PreparedTablesFixed(files, parse)[..k]) + i, YearColumn,
                          Filter(files, IsRead)[k].name, ExtractYear(Filter(files, IsRead)[k].name))
  {
    FixedFrameStamps(files, parse, k, i);
    FixedMergedRowStamps(files, parse, k, i, Filter(files, IsRead)[k].name, ExtractYear(Filter(files, IsRead)[k].name));
  }

  /** A stamped row of the `k`-th frame of the corrected merge is row `TotalRows(ts[..k]) + i` of its result, with its stamps. */
  lemma {:induction false} FixedMergedRowStamps(files: seq<CsvFile>, parse: Value -> Option<int>, k: nat, i: nat, name: string, year: string)
    requires ReadFramesWellFormed(files)
    requires k < |PreparedTablesFixed(files, parse)| && CarriesStamps(PreparedTablesFixed(files, parse)[k], i, YearColumn, name, year)
    ensures MergeSpecFixed(files, parse).Merged?
    ensures CarriesStamps(MergeSpecFixed(files, parse).table, TotalRows(PreparedTablesFixed(files, parse)[..k]) + i, YearColumn, name, year)
  {
    MergeSpecFixedOfKept(files, parse);
    ConcatKeepsStamps(PreparedTablesFixed(files, parse), MergeSpecFixed(files, parse).table, k, i, YearColumn, name, year);
  }
}
