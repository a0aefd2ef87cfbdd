# Cleaning and merging the yearly `Datos_*.csv` files

`limpieza-union-datos.py` runs a small pandas pipeline over a directory of yearly CSV files:

1. It reads every `Datos_*.csv` file.
2. It stamps each frame with the year taken from the file name (`año_datos`) and with the file name (`archivo_origen`).
3. It cleans each frame:
   - it normalises the column labels;
   - it drops repeated rows;
   - it parses the `fecha` columns as dates;
   - it fills missing numbers with `0` and missing text with `'N/A'`.
4. It stacks the frames with `pd.concat`.
5. It writes the merged frame.
6. It cuts out the rows of department 76 (Valle del Cauca) and adds a `region` column.
7. It writes a statistics report for both frames.

This project models that core in Dafny.

A frame is a `Tables.Table`. Its parts are:
- an ordered list of column labels;
- a declared kind per column (numeric, `object`, datetime, other);
- rows of cells, where a cell is missing, a number, a string or a parsed instant.

Pure code is modelled as functions:
- label normalisation (`ColumnNames`);
- year extraction (`Merging.ExtractYear`);
- the region cut (`Segmentation`);
- the pandas operations, as one function per step.

Code that changes state is modelled imperatively:
- `Cleaning.DataFrame` is a class whose methods update the frame in place, as `limpiar_datos` does;
- the loop that fills `dfs` is a method over a sequence of frames (`Merging.KeepReadFiles`);
- the report is a list grown by `append` (`Report.BuildReport`).

Each method is proved equal to the function that specifies it. The properties of the script are proved as lemmas about those functions.

The file system, `pd.read_csv`, the clock and the date parser are inputs:
- a file is a name plus the frame it was read into, or `None` when reading raised;
- `now` is the formatted timestamp;
- `parse` is the date parser.

## Model

| member | source | states |
|---|---|---|
| ColumnNames.Lower | limpieza-union-datos.py:25 | lower-casing keeps the length and leaves no upper-case ASCII letter |
| ColumnNames.ReplaceRuns | limpieza-union-datos.py:27-29 | defines `re.sub(P + '+', '_', s)` for a class P: each maximal run of P becomes one `_` and every other character is kept; the result is never longer than its input |
| ColumnNames.ReplaceRunsEmits | limpieza-union-datos.py:27 | a run substitution emits only `_` and characters outside its class |
| ColumnNames.ReplaceRunsNoDouble | limpieza-union-datos.py:27 | replacing runs of a class that contains `_` never leaves two adjacent underscores |
| ColumnNames.SqueezeAfterReplaceIsIdentity | limpieza-union-datos.py:27-29 | the `_+` substitution at line 29 returns its input unchanged after line 27 |
| ColumnNames.TrimStartShape | limpieza-union-datos.py:31 | the left strip removes only a prefix of underscores and leaves no leading `_` |
| ColumnNames.TrimEndShape | limpieza-union-datos.py:31 | the right strip removes only a suffix of underscores and leaves no trailing `_` |
| ColumnNames.Normalize | limpieza-union-datos.py:20-32 | defines `limpiar_nombre_columna`: ASCII lower-casing, runs of `[^a-z0-9]` to `_`, runs of `_` to `_`, then stripping `_` at both ends |
| ColumnNames.NormalizeIsNormalized | limpieza-union-datos.py:20-32 | every normalised label holds only `[a-z0-9_]`; no normalised label starts or ends with `_`; no normalised label has two adjacent underscores |
| ColumnNames.NormalizedIsFixpoint | limpieza-union-datos.py:20-32 | a label that already has the normalised shape is returned unchanged |
| ColumnNames.NormalizeIdempotent | limpieza-union-datos.py:20-32 | normalising twice gives the same label as normalising once |
| ColumnNames.NormalizeKeepsAlphanumerics | limpieza-union-datos.py:25-31 | the `[a-z0-9]` characters of the lower-cased label survive, in order, and nothing else alphanumeric appears |
| ColumnNames.NormalizeThreeWords | limpieza-union-datos.py:20-32 | three words separated and followed by separator runs normalise to the words joined by `_` |
| ColumnNames.NormalizeExample | limpieza-union-datos.py:20-32 | `"Fecha Reporte (2020)!!"` normalises to `"fecha_reporte_2020"` |
| Merging.ExtractYear | limpieza-union-datos.py:119-120 | defines the year: the four digits of the leftmost `Datos_dddd`, or 'Desconocido' |
| Merging.FindYear | limpieza-union-datos.py:119 | the scan returns the leftmost position at or after `from` where `Datos_` and four digits start, and `None` only when there is no such position |
| Merging.ExtractYearIsLeftmostMatch | limpieza-union-datos.py:119-120 | the year is the four digits after the leftmost `Datos_dddd`; the year is 'Desconocido' exactly when the name has no `Datos_dddd` |
| Merging.ExtractYearExample | limpieza-union-datos.py:119-120 | `Datos_2021_export.csv` gives `2021` |
| Merging.ExtractYearNoMatchExample | limpieza-union-datos.py:119-120 | `Datos_export.csv` gives 'Desconocido' |
| Sequences.Distinct | limpieza-union-datos.py:44 | defines the rows `drop_duplicates()` keeps: each row after its first occurrence is removed; the result is no longer than the input and holds only input rows |
| Sequences.DistinctHasNoDuplicates | limpieza-union-datos.py:44 | after `drop_duplicates` no two rows are equal |
| Sequences.DistinctMembers | limpieza-union-datos.py:44 | the deduplicated rows are exactly the distinct input rows |
| Sequences.DistinctKeepsFirstOccurrenceOrder | limpieza-union-datos.py:44 | the kept rows appear in the order of their first occurrence in the input |
| Sequences.DistinctRemovesNothingIff | limpieza-union-datos.py:43-47 | deduplication removes nothing exactly when the rows are already pairwise distinct, and then it returns them unchanged |
| Sequences.Filter | limpieza-union-datos.py:83 | defines the boolean row mask `df[mask]`: the rows that pass, in their order; the result is no longer than the input and every row in it passes the test |
| Tables.WithColumn | limpieza-union-datos.py:123-124 | defines `df[name] = v` for a scalar (also used at line 86): every column labelled `name` is overwritten, or a new column is appended at the right when there is none; the row count is kept |
| Tables.WithColumnCells | limpieza-union-datos.py:123-124 | after `df[name] = v`, every cell and kind of a column labelled `name` is `v` and its kind, and every other column keeps its cells and kind |
| Tables.WithColumnLookup | limpieza-union-datos.py:123-124 | after `df[name] = v`, reading `name` on any row gives `v` |
| Tables.WithColumnLookupOther | limpieza-union-datos.py:123-124 | after `df[name] = v`, reading any other label on any row gives what it gave before |
| Tables.WithColumnLabel | limpieza-union-datos.py:123-124 | after `df[name] = v`, the existing labels keep their positions and a new label comes last |
| Cleaning.Renamed | limpieza-union-datos.py:40 | defines the rename: every label replaced by its normalised form; the result is a well-formed table |
| Cleaning.Deduplicated | limpieza-union-datos.py:44 | defines `drop_duplicates()`: the distinct rows, first occurrences in order |
| Cleaning.ToDatetime | limpieza-union-datos.py:53 | `pd.to_datetime(..., errors='coerce')` on one cell: the result is missing or an instant; a missing cell stays missing; the result is an instant exactly when the cell is present and parses |
| Cleaning.DatesConverted | limpieza-union-datos.py:50-55 | defines the date step: every column whose label contains `fecha` becomes datetime, each cell parsed or missing |
| Cleaning.NullsFilled | limpieza-union-datos.py:57-63 | defines one `fillna`: the missing cells of the columns of one kind get the fill value |
| Cleaning.Cleaned | limpieza-union-datos.py:34-65 | defines the frame `limpiar_datos` returns: rename, deduplicate, convert dates, fill numbers with `0`, fill text with `'N/A'` |
| Cleaning.DataFrame.constructor | limpieza-union-datos.py:116 | a new frame holds the table read from the file |
| Cleaning.DataFrame.SetColumn | limpieza-union-datos.py:123-124 | `df[name] = v` overwrites or appends the column in place |
| Cleaning.DataFrame.RenameColumns | limpieza-union-datos.py:40 | the loop replaces every label by its normalised form and leaves kinds and rows alone |
| Cleaning.DataFrame.DropDuplicates | limpieza-union-datos.py:44 | a fresh frame holds the distinct rows, and the receiver is unchanged |
| Cleaning.DataFrame.ConvertDates | limpieza-union-datos.py:50-55 | the loop over the `fecha` columns parses their cells and makes them datetime columns |
| Cleaning.DataFrame.FillNulls | limpieza-union-datos.py:57-63 | every missing cell of a column of the given kind becomes the fill value, in place |
| Cleaning.Clean | limpieza-union-datos.py:34-65 | the caller's frame gets the new labels; the returned fresh frame is the cleaned table; the removed count is the row count before minus the row count after |
| Cleaning.CleanedLabels | limpieza-union-datos.py:40 | the cleaned labels are the normalised input labels in order, each of normalised shape |
| Cleaning.CleanedRowCount | limpieza-union-datos.py:43-47 | the cleaned frame has one row per distinct input row; the removed count is zero exactly when no input row repeats |
| Cleaning.NullsFilledCells | limpieza-union-datos.py:57-63 | one `fillna` step keeps the labels, the kinds and the row count; one `fillna` step keeps every present cell; one `fillna` step fills exactly the missing cells of the chosen kind |
| Cleaning.CleanedFillsOnlyMissingCells | limpieza-union-datos.py:57-63 | a former missing cell holds `0` in a numeric column, `'N/A'` in an `object` column, and stays missing otherwise; every present cell keeps its value, and the row count is unchanged by the filling |
| Cleaning.CleanedHasNoMissingNumbersOrText | limpieza-union-datos.py:57-63 | no numeric or `object` column of a cleaned frame holds a missing value |
| Cleaning.CleanedDateColumns | limpieza-union-datos.py:50-55 | a column whose label contains `fecha` becomes datetime, holding the parse of each cell or a missing value; every other column keeps its kind and its present cells |
| Cleaning.CleanedKeepsConstantColumn | limpieza-union-datos.py:34-65 | a column holding one present value on every row, under a non-date label, still holds it after cleaning |
| Merging.Stamped | limpieza-union-datos.py:123-124 | defines the stamp: `año_datos` set to the year, then `archivo_origen` set to the file name |
| Merging.Prepared | limpieza-union-datos.py:116-127 | defines the frame kept for a file that was read: stamped, then cleaned |
| Merging.PreparedTables | limpieza-union-datos.py:113-134 | defines `dfs` after the loop: one prepared frame per readable file, in file order, as many as the readable files |
| Merging.Concat | limpieza-union-datos.py:141 | defines `pd.concat(dfs, ignore_index=True)`: the labels in order of first appearance, each once, and the frames' rows stacked in order, realigned on those labels |
| Merging.MergeSpec | limpieza-union-datos.py:101-141 | defines how the merge ends: no files, none processed, or the concatenation of the kept frames |
| Merging.PrepareFile | limpieza-union-datos.py:116-127 | a read frame is stamped with year and name in place, then cleaned |
| Merging.KeepFile | limpieza-union-datos.py:114-134 | one iteration appends the prepared frame of a file that was read and skips one whose reading raised |
| Merging.KeepReadFiles | limpieza-union-datos.py:113-134 | after the loop, `dfs` holds the prepared frames of the readable files, in file order |
| Merging.MergeFiles | limpieza-union-datos.py:101-141 | the merge returns "no files", "none processed" or the concatenation of the kept frames, as its specification says |
| Merging.MergeOutcomeCases | limpieza-union-datos.py:101-141 | the merge says "no files" exactly when the list is empty; the merge says "none processed" exactly when no file was read; a successful merge has as many rows as the kept frames together |
| Merging.PreparedTablesOfReadFiles | limpieza-union-datos.py:113-134 | the `k`-th kept frame is the prepared frame of the `k`-th readable file |
| Merging.ConcatColumnsAreDistinct | limpieza-union-datos.py:141 | the merged labels are taken once each |
| Merging.ConcatColumnsAreUnion | limpieza-union-datos.py:141 | the merged labels are exactly the union of the frames' labels |
| Merging.StackedRowsAt | limpieza-union-datos.py:141 | row `i` of frame `k` is row `TotalRows(ts[..k]) + i` of the stacked rows |
| Merging.ConcatCells | limpieza-union-datos.py:141 | the merged row of row `i` of frame `k` reads, under any label, what frame `k` has there; a label frame `k` lacks reads as a missing value that nothing fills |
| Merging.YearColumnRenamed | limpieza-union-datos.py:40 | cleaning turns the label `año_datos`, stamped at line 123, into `a_o_datos` |
| Merging.SourceColumnKept | limpieza-union-datos.py:40 | cleaning keeps the label `archivo_origen` |
| Merging.NoLabelNormalizesToYearColumn | limpieza-union-datos.py:40 | no label normalises to `año_datos` |
| Merging.PreparedLabels | limpieza-union-datos.py:123-127 | a prepared frame has normalised labels, including `a_o_datos` and `archivo_origen` but never `año_datos` |
| Merging.PreparedSourceColumn | limpieza-union-datos.py:124-127 | every row of a prepared frame reads its file name under `archivo_origen` (for a file whose own labels do not clash with the stamps) |
| Merging.PreparedYearColumn | limpieza-union-datos.py:119-127 | every row of a prepared frame reads its file's year under `a_o_datos` (for a file whose own labels do not clash with the stamps) |
| Merging.StampedHasStampColumns | limpieza-union-datos.py:123-124 | whatever labels the frame had, the stamped frame has a column `año_datos` holding the file's year and a column `archivo_origen` holding the file name, on every row |
| Merging.PreparedKeepsStamps | limpieza-union-datos.py:119-127 | whatever labels the file had, the prepared frame has a column `archivo_origen` holding the file name on every row and a column `a_o_datos` holding its year on every row |
| Merging.MergedRowProvenance | limpieza-union-datos.py:113-141 | row `i` of the cleaned frame of the `k`-th readable file (counted after duplicate rows were dropped) is row `TotalRows(ts[..k]) + i` of the merged frame and carries that file's name and year |
| Merging.MergedFrameLacksYearColumn | limpieza-union-datos.py:123-141 | since line 127 cleans (and line 40 renames) after the stamp, the merged frame has `a_o_datos` and `archivo_origen` but no column `año_datos` |
| Merging.PreparedFixed | limpieza-union-datos.py:116-127 | defines the corrected preparation: cleaned first, then stamped |
| Merging.PreparedTablesFixed | limpieza-union-datos.py:113-134 | defines `dfs` after the corrected loop |
| Merging.MergeSpecFixed | limpieza-union-datos.py:101-141 | defines how the corrected merge ends |
| Merging.FixedMergeKeepsProvenance | limpieza-union-datos.py:113-141 | with the stamp after cleaning, row `i` of the cleaned frame of the `k`-th readable file is row `TotalRows(ts[..k]) + i` of the merged frame and reads that file's name and its year under `año_datos`, whatever labels the files had |
| Segmentation.SegmentValle | limpieza-union-datos.py:81-93 | without `cod_dpto_o` the frame is returned unchanged; with `cod_dpto_o` the segment has at most as many rows and has a `region` column |
| Segmentation.SegmentValleSelectsValleRows | limpieza-union-datos.py:83 | the segment's rows come from increasing positions of the frame; a row is selected exactly when its `cod_dpto_o` is 76 |
| Segmentation.SegmentValleKeepsCells | limpieza-union-datos.py:83-86 | each segment row keeps the cells of the row it was selected from, except that `region` holds 'Valle del Cauca'; `region` is appended unless it already existed |
| Segmentation.SegmentValleRowsAreLabelled | limpieza-union-datos.py:83-86 | every segment row has code 76 and `region = 'Valle del Cauca'` |
| Report.ValueCounts | limpieza-union-datos.py:189 | defines `value_counts()`: the present values, each with its count, stably sorted by decreasing count |
| Report.SortByCount | limpieza-union-datos.py:189 | defines the ordering inside `value_counts()` (by decreasing count; `SortByCountDescending` proves the order): the result is a permutation of its input |
| Report.InsertKeepsDescending | limpieza-union-datos.py:189 | inserting a tally by count keeps the counts non-increasing |
| Report.SortByCountDescending | limpieza-union-datos.py:189 | the tallies come out with non-increasing counts |
| Report.ValueCountsAreExact | limpieza-union-datos.py:189 | `value_counts()` lists each present value once, with the number of rows holding it, and no missing value; `value_counts()` orders the values most frequent first |
| Report.AppendYearLines | limpieza-union-datos.py:189-190 | the loop appends one line per tally, in order |
| Report.AppendColumnEntries | limpieza-union-datos.py:194-195 | the loop appends one `- label` line per label, in order |
| Report.BuildReport | limpieza-union-datos.py:180-195 | the `reporte` grown by `append` is the specified list of lines |
| Report.ReportLines | limpieza-union-datos.py:180-195 | defines the list `reporte`: header, year lines, column heading and one line per label |
| Report.ReportText | limpieza-union-datos.py:202 | defines the text written: the lines joined with `\n` |
| Report.HeaderStatesCounts | limpieza-union-datos.py:181-187 | the header has the title, a rule of fifty `=`, then lines that read back as the row count and the column count, then the year heading |
| Report.ReportStatesCounts | limpieza-union-datos.py:180-195 | the report's third and fourth lines read back as the row count and the column count |
| Report.ReportListsLabels | limpieza-union-datos.py:193-195 | after the year section, the report lists every label once, in table order, and ends there |
| Report.YearSectionListsYearCounts | limpieza-union-datos.py:187-190 | the year section is empty unless a column named exactly `año_datos` exists; when the column exists, the section has one line per present year with its exact count, in non-increasing count order |
| Report.YearRowIsCounted | limpieza-union-datos.py:188-190 | a present value under `año_datos` on any row gets a line with a count of at least one |
| Strings.NatToStringRoundTrip | limpieza-union-datos.py:183-184 | the decimal form of a count reads back as that count |
| Pipeline.MergedFileName | limpieza-union-datos.py:146 | defines the default output name `datos_combinados_limpios_<timestamp>.csv` |
| Pipeline.ValleFileName | limpieza-union-datos.py:154 | defines the segment file name `datos_valle_cauca_<timestamp>.csv` |
| Pipeline.RunSpec | limpieza-union-datos.py:101-163 | defines how a run ends and what it has written: no files, nothing processed, aborted at line 154 with a custom name, or completed with the merged frame, the segment and both reports |
| Pipeline.RunPipeline | limpieza-union-datos.py:101-163 | the run ends as its specification says, including the abort at line 154 |
| Pipeline.CustomOutputNameAborts | limpieza-union-datos.py:144-167 | once something is merged, a run aborts exactly when an output name is given; an aborted run has already written the merged frame under the given name |
| Pipeline.DefaultRunNames | limpieza-union-datos.py:144-154 | the default run completes, and the merged file and the segment file carry the same timestamp |
| Pipeline.CompletedReportsHaveNoYearLines | limpieza-union-datos.py:153-159 | since the merged frame lacks `año_datos` (lines 40, 123, 127), in a completed run both reports (lines 187-193) have an empty year section: the column heading directly follows the year heading |
| Pipeline.RunSpecFixed | limpieza-union-datos.py:101-163 | defines the corrected run: the timestamp is read whatever the output name, and the corrected merge is used |
| Pipeline.FixedRunCompletes | limpieza-union-datos.py:144-154 | the corrected run always completes once something is merged; the corrected run writes the merged frame under the caller's name or the default name, and names the segment with the timestamp |
| Pipeline.FixedReportListsYears | limpieza-union-datos.py:119-190 | with the stamp after cleaning, the year of every readable file with a row left after cleaning appears in the merged report with a count of at least one |

## Left out

- ASCII only:
  - `Lower` lower-cases ASCII letters only, where `str.lower` is Unicode-aware.
  - `IsDigit` accepts ASCII digits only, where Python's `\d` matches any Unicode decimal digit.
  - The one non-ASCII character that matters here, `ñ` in `año_datos`, is already lower case, so both models are exact for it.
- Duplicate labels. Normalisation at line 40 can make two labels equal (`Nombre` and `nombre ` both become `nombre`). The model keeps the columns positional. A lookup by label (`Tables.Lookup`) reads the first column with that label, where pandas returns a sub-frame. With a repeated label the model therefore departs from the script:
  - `Merging.Concat` lays every frame out on the distinct labels, so a frame labelled `a`, `a` keeps only its first `a` column. `pd.concat` at line 141 keeps both columns when every frame has the same labels. It raises when the label sets differ, and the handler at lines 166-167 then ends the run before line 150 writes anything. The model reports a merge in both cases.
  - `Cleaning.DatesConverted` converts every column whose label contains `fecha`. With a repeated date label, `df[col]` at line 53 is a sub-frame, `pd.to_datetime` raises on it, and the handler at lines 54-55 leaves those columns unconverted.
  - How `select_dtypes` and `fillna` at lines 58-63 treat repeated labels is not modelled. The model fills each column by its own kind.
- Numbers are integers (`Num(int)`). A CSV cell such as `3.5`, a float column or NaN arithmetic has no model value. The equality tests at lines 44 and 83 do not depend on this.
- Column kinds are an input of the model. The model does not infer them from the CSV text, and does not model the dtype changes that `fillna` or `concat` may cause.
- `Merging.Concat`: a merged column takes the frames' common kind when they agree and `object` otherwise. This simplifies pandas' dtype promotion.
- Date parsing: `pd.to_datetime(..., errors='coerce')` is the parameter `parse`. A value it cannot parse becomes missing. The model parses cell by cell. Recent pandas infers one format per column from its first present value, so the same string can parse in one column and become missing in another; that inference is not modelled. The per-column `try` at lines 52-55 never fires in the model.
- `Report.Render`: `str()` of a value is the string itself, or the decimal form of a number or an instant. pandas' own formatting of floats and timestamps is left out. It is used only for the text of a year line, and the years the script stamps are strings.
- `Report.ValueCountsAreExact`: values with equal counts keep their order of first appearance (a stable sort). pandas does not promise an order among ties, so the lemma states only the non-increasing order and the exact counts.
- File I/O is left out:
  - the `Path.glob` discovery and its order (the files are a given sequence);
  - `pd.read_csv` (each file carries its frame, or `None` when reading raised);
  - the `to_csv` writes at lines 150 and 155, which the run outcome returns as values;
  - the report file write at lines 201-202;
  - the `os.path.join` paths;
  - logging.
- The report file names and their second `datetime.now()` (lines 198-199) are left out. `Report.ReportText` gives the text written, the lines joined with `\n`.
- The exception handlers of `limpiar_datos` (67-69) and `generar_reporte_estadisticas` (206-207) are left out. The modelled steps do not raise on frames whose labels are distinct after normalisation. On repeated labels pandas may raise where the model does not (see "Duplicate labels"). The outer handler at 166-167 is the `Aborted` outcome. The handler at 132-134 is the `None` contents of a file.
- `main` (lines 209-216) is left out: it only passes the working directory.
- The Excel converter `Transformacion a csv.py` is not part of this model. It wraps spreadsheet libraries.
- Merging.MergedRowProvenance: requires `ReadFramesKeepProvenance`. A file whose own labels already normalise to `archivo_origen` or `a_o_datos` (say `Archivo Origen`) gets a second column with that label after cleaning. Which value a reader sees then depends on column order, so the lemma leaves those files out.
- Merging.PreparedSourceColumn: requires `KeepsProvenanceLabels`. A file whose own label normalises to `archivo_origen` (say `Archivo Origen`) ends up with two columns under that label, and a lookup by label then reads the file's own column. `Merging.PreparedKeepsStamps` states what holds for every file: the stamp column exists and holds the file name.
- Merging.PreparedYearColumn: requires `KeepsProvenanceLabels`, for the same reason, for a file whose own label normalises to `a_o_datos` (say `A-O Datos`). `Merging.PreparedKeepsStamps` states that the stamped year column exists for every file.
- Pipeline.FixedRunCompletes: states the outcome, the output names and the merged frame. The segment and the reports of the corrected run follow from the same definitions as the original run's and are not restated.

## Findings

| source | as written | input that shows it | evidently intended | confidence | as-written member | corrected member |
|---|---|---|---|---|---|---|
| limpieza-union-datos.py:123-127 | the stamp `año_datos` is added before `limpiar_datos`, whose line 40 renames it to `a_o_datos`, so the merged frame and its segment never have `año_datos` and both reports' year sections are empty | any readable file, e.g. `Datos_2021.csv` with one row: the report goes straight from the year heading to the column heading | the report lists the number of rows per year | not executed | Merging.MergedFrameLacksYearColumn, Pipeline.CompletedReportsHaveNoYearLines | Merging.FixedMergeKeepsProvenance, Pipeline.FixedReportListsYears |
| limpieza-union-datos.py:144-154 | `timestamp` is bound only when no output name is given, and line 154 reads it either way, so `NameError` aborts the run after the merged file was written, with no segment file and no reports | `combinar_y_limpiar_archivos_csv(".", "salida.csv")` with one readable `Datos_2021.csv` | the timestamp is taken whatever the output name, and the run completes | not executed | Pipeline.CustomOutputNameAborts | Pipeline.FixedRunCompletes |
