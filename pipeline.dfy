/**
  The whole run of `combinar_y_limpiar_archivos_csv` (lines 95-167) after
  the merge: the output names, the merged file, the Valle del Cauca segment
  and the two reports. The clock reading `datetime.now()` is a parameter
  `now` (already formatted as `%Y%m%d_%H%M%S`); what the run writes is
  returned as values.
 */
module Pipeline {
  import opened Optional
  import opened Sequences
  import opened Tables
  import opened Merging
  import opened Segmentation
  import opened Report

  const MergedPrefix := "datos_combinados_limpios_"
  const VallePrefix := "datos_valle_cauca_"
  const CsvSuffix := ".csv"

  /** Line 146. */
  function MergedFileName(now: string): string {
    MergedPrefix + now + CsvSuffix
  }

  /** Line 154. */
  function ValleFileName(now: string): string {
    VallePrefix + now + CsvSuffix
  }

  /** How a run ends, with what it has written by then. */
  datatype RunOutcome =
    | NoFiles                              // line 103: nothing written
    | NothingProcessed                     // line 136: nothing written
    | Aborted(outputName: string, merged: Table)
        // line 154 raises `NameError` after line 150 wrote the merged file; the
        // handler at line 166 logs it and nothing else is written
    | Completed(outputName: string, merged: Table, valleName: string, valle: Table,
                mergedReport: seq<string>, valleReport: seq<string>)

  /**
    Lines 101-163 as written: `timestamp` is assigned only on the branch that
    builds the default output name, and line 154 reads it whatever the branch.
   */
  function RunSpec(files: seq<CsvFile>, outputName: Option<string>, now: string, parse: Value -> Option<int>): RunOutcome
    requires ReadFramesWellFormed(files)
  {
    match MergeSpec(files, parse)
    case NoCsvFiles => NoFiles
    case NoneProcessed => NothingProcessed
    case Merged(m) =>
      if outputName.Some? then Aborted(outputName.value, m)
      else
        var valle := SegmentValle(m);
        Completed(MergedFileName(now), m, ValleFileName(now), valle, ReportLines(m), ReportLines(valle))
  }

  /** Lines 101-163, with the files already globbed and read and the clock read once. */
  method RunPipeline(files: seq<CsvFile>, outputName: Option<string>, now: string, parse: Value -> Option<int>)
    returns (outcome: RunOutcome)
    requires ReadFramesWellFormed(files)
    ensures outcome == RunSpec(files, outputName, now, parse)
  {
    var merge := MergeFiles(files, parse);
    if merge.NoCsvFiles? {
      return NoFiles;
    }
    if merge.NoneProcessed? {
      return NothingProcessed;
    }
    var merged := merge.table;
    var timestamp: Option<string> := None;
    var name: string;
    if outputName.None? {
      timestamp := Some(now);
      name := MergedFileName(now);
    } else {
      name := outputName.value;
    }
    // line 150 has written `merged` to `name`
    if timestamp.None? {
      return Aborted(name, merged);
    }
    var valle := SegmentValle(merged);
    var valleName := ValleFileName(timestamp.value);
    var mergedReport := BuildReport(merged);
    var valleReport := BuildReport(valle);
    outcome := Completed(name, merged, valleName, valle, mergedReport, valleReport);
  }

  // ---------------------------------------------------------------------------
  // What a run produces, as written

  /**
    Finding: with an output name of the caller's choosing, a run that merged
    something always aborts at line 154, after writing the merged file under
    that name and before the segment and the reports; with the default name
    it completes.
   */
  lemma {:induction false} CustomOutputNameAborts(files: seq<CsvFile>, outputName: Option<string>, now: string, parse: Value -> Option<int>)
    requires ReadFramesWellFormed(files) && MergeSpec(files, parse).Merged?
    ensures var outcome := RunSpec(files, outputName, now, parse);
            && (outcome.Aborted? <==> outputName.Some?)
            && (outcome.Completed? <==> outputName.None?)
            && (outputName.Some? ==>
                  outcome.outputName == outputName.value && outcome.merged == MergeSpec(files, parse).table)
  {
  }

  /** Every file name the default run writes carries the same timestamp. */
  lemma {:induction false} DefaultRunNames(files: seq<CsvFile>, now: string, parse: Value -> Option<int>)
    requires ReadFramesWellFormed(files) && MergeSpec(files, parse).Merged?
    ensures var outcome := RunSpec(files, None, now, parse);
            && outcome.Completed?
            && outcome.outputName[|MergedPrefix|..|MergedPrefix| + |now|] == now
            && outcome.valleName[|VallePrefix|..|VallePrefix| + |now|] == now
  {
    var outcome := RunSpec(files, None, now, parse);
    assert outcome.outputName == MergedPrefix + now + CsvSuffix;
    assert outcome.valleName == VallePrefix + now + CsvSuffix;
  }

  /** A segment of a frame without `año_datos` has no `año_datos` either. */
  lemma {:induction false} SegmentKeepsYearColumnAbsent(t: Table)
    requires WellFormed(t) && YearColumn !in t.columns
    ensures YearColumn !in SegmentValle(t).columns
  {
    if DepartmentColumn in t.columns {
      assert |RegionColumn| != |YearColumn|;
    }
  }

  /**
    Finding: the merged frame and its segment both lack `año_datos` (cleaning
    renamed it to `a_o_datos`), so both reports of a completed run have an
    empty year section: the heading at line 187 is followed directly by the
    column heading.
   */
  lemma {:induction false} CompletedReportsHaveNoYearLines(files: seq<CsvFile>, now: string, parse: Value -> Option<int>)
    requires ReadFramesWellFormed(files) && MergeSpec(files, parse).Merged?
    ensures var outcome := RunSpec(files, None, now, parse);
            && outcome.Completed?
            && YearLines(outcome.merged) == [] && YearLines(outcome.valle) == []
            && outcome.mergedReport[4] == YearsHeading && outcome.mergedReport[5] == ColumnsHeading
            && outcome.valleReport[4] == YearsHeading && outcome.valleReport[5] == ColumnsHeading
  {
    var m := MergeSpec(files, parse).table;
    MergedFrameLacksYearColumn(files, parse);
    SegmentKeepsYearColumnAbsent(m);
    var valle := SegmentValle(m);
    YearSectionListsYearCounts(m);
    YearSectionListsYearCounts(valle);
    ReportStatesCounts(m);
    ReportStatesCounts(valle);
    ReportListsLabels(m);
    ReportListsLabels(valle);
  }

  // ---------------------------------------------------------------------------
  // Corrected run: the timestamp is always taken, the stamp comes after cleaning

  /** The evidently intended run: the clock is read before the output name is chosen. */
  function RunSpecFixed(files: seq<CsvFile>, outputName: Option<string>, now: string, parse: Value -> Option<int>): RunOutcome
    requires ReadFramesWellFormed(files)
  {
    match MergeSpecFixed(files, parse)
    case NoCsvFiles => NoFiles
    case NoneProcessed => NothingProcessed
    case Merged(m) =>
      var name := if outputName.Some? then outputName.value else MergedFileName(now);
      var valle := SegmentValle(m);
      Completed(name, m, ValleFileName(now), valle, ReportLines(m), ReportLines(valle))
  }

  /**
    The corrected run never aborts: once something is merged it completes,
    writing the merged frame under the caller's name when one is given and
    naming the segment with the same timestamp as the default name.
   */
  lemma {:induction false} FixedRunCompletes(files: seq<CsvFile>, outputName: Option<string>, now: string, parse: Value -> Option<int>)
    requires ReadFramesWellFormed(files) && MergeSpecFixed(files, parse).Merged?
    ensures RunSpecFixed(files, outputName, now, parse).Completed?
    ensures RunSpecFixed(files, outputName, now, parse).outputName == if outputName.Some? then outputName.value else MergedFileName(now)
    ensures RunSpecFixed(files, outputName, now, parse).merged == MergeSpecFixed(files, parse).table
    ensures RunSpecFixed(files, outputName, now, parse).valleName == ValleFileName(now)
  {
  }

  /**
    In the corrected merge, row `i` of the `k`-th file that was read puts its
    year into the merged frame's report: the year section lists that year with
    a count of at least one.
   */
  lemma {:induction false} FixedReportListsYears(files: seq<CsvFile>, parse: Value -> Option<int>, k: nat, i: nat)
    requires ReadFramesWellFormed(files)
    requires k < |Filter(files, IsRead)| && i < |PreparedTablesFixed(files, parse)[k].rows|
    ensures MergeSpecFixed(files, parse).Merged?
    ensures var m := MergeSpecFixed(files, parse).table;
            var year := Text(ExtractYear(Filter(files, IsRead)[k].name));
            && |YearLines(m)| >= 1
            && exists e :: e in YearCounts(m) && e.value == year && e.count >= 1
  {
    FixedMergeKeepsProvenance(files, parse, k, i);
    var m := MergeSpecFixed(files, parse).table;
    var row := TotalRows(PreparedTablesFixed(files, parse)[..k]) + i;
    assert YearColumn in m.columns;
    YearRowIsCounted(m, row);
  }
}
