/**
  `segmentar_valle_cauca`: the rows of department 76 (Valle del Cauca), on a
  copy of the frame that gets a constant `region` column.
 */
module Segmentation {
  import opened Sequences
  import opened Tables

  const DepartmentColumn := "cod_dpto_o"
  const ValleCode := 76
  const RegionColumn := "region"
  const ValleName := "Valle del Cauca"

  /** The row test of line 83, for the department code in column `j`. */
  function InValle(j: nat): Row -> bool {
    row => j < |row| && row[j] == Num(ValleCode)
  }

  /**
    Lines 81-93. Without a `cod_dpto_o` column the lookup raises, the handler
    logs it, and the input frame is returned as it is.
   */
  function SegmentValle(t: Table): (r: Table)
    requires WellFormed(t)
    ensures WellFormed(r)
    ensures DepartmentColumn !in t.columns ==> r == t
    ensures DepartmentColumn in t.columns ==> |r.rows| <= |t.rows| && RegionColumn in r.columns
  {
    if DepartmentColumn !in t.columns then t
    else
      var selected := t.(rows := Filter(t.rows, InValle(IndexOf(t.columns, DepartmentColumn))));
      WithColumn(selected, RegionColumn, Text(ValleName), ObjectColumn)
  }

  /**
    With a `cod_dpto_o` column, the segment holds exactly the rows whose code
    is 76, in their original order: `p` lists their positions, increasing,
    and a position is listed exactly when its row has code 76.
   */
  lemma {:induction false} SegmentValleSelectsValleRows(t: Table)
    requires WellFormed(t) && DepartmentColumn in t.columns
    ensures var p := KeptPositions(t.rows, InValle(IndexOf(t.columns, DepartmentColumn)));
            && |SegmentValle(t).rows| == |p|
            && (forall k :: 0 <= k < |p| ==> p[k] < |t.rows|)
            && (forall k, l :: 0 <= k < l < |p| ==> p[k] < p[l])
            && (forall i :: 0 <= i < |t.rows| ==> (Lookup(t, i, DepartmentColumn) == Num(ValleCode) <==> i in p))
  {
    var keep := InValle(IndexOf(t.columns, DepartmentColumn));
    FilterSelectsKeptPositions(t.rows, keep);
  }

  /**
    Each row of the segment keeps the cells of the row it was selected from;
    `region` is appended as a new column unless the frame already had one,
    which is then overwritten with 'Valle del Cauca'.
   */
  lemma {:induction false} SegmentValleKeepsCells(t: Table)
    requires WellFormed(t) && DepartmentColumn in t.columns
    ensures var r := SegmentValle(t);
            var p := KeptPositions(t.rows, InValle(IndexOf(t.columns, DepartmentColumn)));
            && r.columns == (if RegionColumn in t.columns then t.columns else t.columns + [RegionColumn])
            && |r.rows| == |p|
            && (forall k, j :: 0 <= k < |p| && 0 <= j < |t.columns| ==>
                  p[k] < |t.rows| &&
                  r.rows[k][j] == if t.columns[j] == RegionColumn then Text(ValleName) else t.rows[p[k]][j])
  {
    var keep := InValle(IndexOf(t.columns, DepartmentColumn));
    var p := KeptPositions(t.rows, keep);
    var selected := t.(rows := Filter(t.rows, keep));
    var r := SegmentValle(t);
    FilterSelectsKeptPositions(t.rows, keep);
    WithColumnCells(selected, RegionColumn, Text(ValleName), ObjectColumn);
    forall k, j | 0 <= k < |p| && 0 <= j < |t.columns|
      ensures p[k] < |t.rows| && r.rows[k][j] == if t.columns[j] == RegionColumn then Text(ValleName) else t.rows[p[k]][j]
    {
      assert selected.rows[k] == t.rows[p[k]] && r.columns[j] == t.columns[j];
    }
  }

  /** Every row of the segment has code 76 and `region = 'Valle del Cauca'`. */
  lemma {:induction false} SegmentValleRowsAreLabelled(t: Table)
    requires WellFormed(t) && DepartmentColumn in t.columns
    ensures var r := SegmentValle(t);
            forall k :: 0 <= k < |r.rows| ==>
              Lookup(r, k, RegionColumn) == Text(ValleName) && Lookup(r, k, DepartmentColumn) == Num(ValleCode)
  {
    var r := SegmentValle(t);
    forall k | 0 <= k < |r.rows|
      ensures Lookup(r, k, RegionColumn) == Text(ValleName) && Lookup(r, k, DepartmentColumn) == Num(ValleCode)
    {
      SegmentRowLabelled(t, k);
    }
  }

  lemma {:induction false} SegmentRowLabelled(t: Table, k: nat)
    requires WellFormed(t) && DepartmentColumn in t.columns && k < |SegmentValle(t).rows|
    ensures Lookup(SegmentValle(t), k, RegionColumn) == Text(ValleName)
    ensures Lookup(SegmentValle(t), k, DepartmentColumn) == Num(ValleCode)
  {
    var j := IndexOf(t.columns, DepartmentColumn);
    var selected := t.(rows := Filter(t.rows, InValle(j)));
    assert SegmentValle(t) == WithColumn(selected, RegionColumn, Text(ValleName), ObjectColumn);
    WithColumnLookup(selected, RegionColumn, Text(ValleName), ObjectColumn, k);
    assert |RegionColumn| != |DepartmentColumn|;
    WithColumnLookupOther(selected, RegionColumn, Text(ValleName), ObjectColumn, k, DepartmentColumn);
    assert InValle(j)(selected.rows[k]);
  }
}
