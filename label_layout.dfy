/**
 * The integer layout of a pseudonym label: the Schema table with its
 * per-row span flags, the column widths and row heights its fields need,
 * and where each field is drawn on the label canvas.
 *
 * Text extents come from font metrics and barcode extents from the
 * rendered barcode image; both are inputs of a field here.
 */
module LabelLayout {

  /** The narrowest a label column may be. */
  const COLUMN_MIN_WIDTH := 140

  datatype FieldType = Text | Matrix | Pdf417 | Code39

  datatype FieldAlign = Left | Right | Center

  /** A padding tuple, in the source's (top, right, bottom, left) order. */
  datatype Padding = Padding(top: int, right: int, bottom: int, left: int)

  /**
   * One cell of the label. contentWidth and contentHeight are the measured
   * text box (width of the glyph box; its height plus the font's descent)
   * or the rendered barcode's shape; codeSize is the width requested for a
   * barcode, which is what alignment uses for it.
   */
  datatype Field = Field(col: nat, row: nat, colspan: int, rowspan: int, fieldType: FieldType,
                         align: FieldAlign, padding: Padding,
                         contentWidth: int, contentHeight: int, codeSize: int)

  function PaddedWidth(f: Field): int
  {
    f.contentWidth + f.padding.left + f.padding.right
  }

  function PaddedHeight(f: Field): int
  {
    f.contentHeight + f.padding.top + f.padding.bottom
  }

  /** Sizing runs once over columns (byColumns) and once over rows. */
  function Index(f: Field, byColumns: bool): nat
  {
    if byColumns then f.col else f.row
  }

  function Span(f: Field, byColumns: bool): int
  {
    if byColumns then f.colspan else f.rowspan
  }

  function Extent(f: Field, byColumns: bool): int
  {
    if byColumns then PaddedWidth(f) else PaddedHeight(f)
  }

  /** Sum of a sequence of integers (np.sum). */
  function Total(s: seq<int>): int
  {
    if s == [] then 0 else Total(s[..|s| - 1]) + s[|s| - 1]
  }

  function Min(a: int, b: int): int
  {
    if a < b then a else b
  }

  /** math.ceil(a / b) for a positive divisor. */
  function CeilDiv(a: int, b: int): (r: int)
    requires b > 0
    ensures (r - 1) * b < a <= r * b
    ensures a > 0 ==> r >= 1
  {
    var q := a / b;
    if a % b == 0 then q else q + 1
  }

  // ---------------------------------------------------------------------
  // The schema and its span flags
  // ---------------------------------------------------------------------

  /**
   * The flag table a schema keeps for its n rows: 1 at each row where a
   * field spanning more than one column (byColumns) or row was added.
   */
  function SpanFlags(fields: seq<Field>, n: nat, byColumns: bool): (r: seq<int>)
    ensures |r| == n
  {
    if fields == [] then seq(n, _ => 0)
    else
      var prev := SpanFlags(fields[..|fields| - 1], n, byColumns);
      var f := fields[|fields| - 1];
      if Span(f, byColumns) > 1 && f.row < n then prev[f.row := 1] else prev
  }

  /** A row is flagged exactly when one of its fields spans, and the flags are 0 or 1. */
  lemma {:induction false} SpanFlagsMeaning(fields: seq<Field>, n: nat, byColumns: bool, row: nat)
    requires row < n
    ensures SpanFlags(fields, n, byColumns)[row] == 1
            <==> exists i :: 0 <= i < |fields| && fields[i].row == row && Span(fields[i], byColumns) > 1
    ensures SpanFlags(fields, n, byColumns)[row] == 0 || SpanFlags(fields, n, byColumns)[row] == 1
  {
    if fields != [] {
      var init := fields[..|fields| - 1];
      SpanFlagsMeaning(init, n, byColumns, row);
      var f := fields[|fields| - 1];
      if exists i :: 0 <= i < |init| && init[i].row == row && Span(init[i], byColumns) > 1 {
        var i :| 0 <= i < |init| && init[i].row == row && Span(init[i], byColumns) > 1;
        assert fields[i] == init[i];
      }
      if exists i :: 0 <= i < |fields| && fields[i].row == row && Span(fields[i], byColumns) > 1 {
        var i :| 0 <= i < |fields| && fields[i].row == row && Span(fields[i], byColumns) > 1;
        if i < |init| {
          assert init[i] == fields[i];
        }
      }
    }
  }

  /** Table of contents of a label (class Schema). */
  class Schema {
    const columnNumber: nat
    const rowNumber: nat
    var data: seq<Field>
    const colspanRows: array<int>
    const rowspanRows: array<int>

    /** The flag tables always describe the fields added so far. */
    predicate Valid()
      reads this, colspanRows, rowspanRows
    {
      && colspanRows != rowspanRows
      && colspanRows[..] == SpanFlags(data, rowNumber, true)
      && rowspanRows[..] == SpanFlags(data, rowNumber, false)
    }

    constructor(columnNumber: nat, rowNumber: nat)
      ensures Valid() && this.columnNumber == columnNumber && this.rowNumber == rowNumber && data == []
      ensures fresh(colspanRows) && fresh(rowspanRows)
    {
      this.columnNumber := columnNumber;
      this.rowNumber := rowNumber;
      data := [];
      colspanRows := new int[rowNumber](_ => 0);
      rowspanRows := new int[rowNumber](_ => 0);
    }

    /** add_cell: flag the field's row when it spans, then append the field. */
    method AddCell(field: Field)
      requires Valid() && field.row < rowNumber
      modifies this, colspanRows, rowspanRows
      ensures Valid() && data == old(data) + [field]
      ensures colspanRows[..] == if field.colspan > 1 then old(colspanRows[..])[field.row := 1] else old(colspanRows[..])
      ensures rowspanRows[..] == if field.rowspan > 1 then old(rowspanRows[..])[field.row := 1] else old(rowspanRows[..])
    {
      if field.colspan > 1 {
        colspanRows[field.row] := 1;
      }
      if field.rowspan > 1 {
        rowspanRows[field.row] := 1;
      }
      data := data + [field];
      assert data[..|data| - 1] == old(data);
    }
  }

  // ---------------------------------------------------------------------
  // Column widths and row heights
  // ---------------------------------------------------------------------

  /** Every field lies in the table, and spans are at least one cell. */
  predicate FieldsFit(fields: seq<Field>, columns: nat, rows: nat)
  {
    forall i :: 0 <= i < |fields| ==>
      fields[i].col < columns && fields[i].row < rows && fields[i].colspan >= 1 && fields[i].rowspan >= 1
  }

  /** (start, span, size) of a field in a row with spanning fields. */
  datatype SpanEntry = SpanEntry(start: nat, span: int, size: int)

  predicate EntriesFit(es: seq<SpanEntry>, n: nat)
  {
    forall k :: 0 <= k < |es| ==> es[k].start < n && es[k].span >= 1
  }

  function EntryOf(f: Field, byColumns: bool): SpanEntry
  {
    SpanEntry(Index(f, byColumns), Span(f, byColumns), Extent(f, byColumns))
  }

  /**
   * The first pass over the fields, for the n columns (byColumns) or rows:
   * a field in a row whose flag is 0 raises its own column or row to its
   * padded size.
   */
  function BaseSizes(fields: seq<Field>, flags: seq<int>, n: nat, byColumns: bool): (r: seq<int>)
    requires forall i :: 0 <= i < |fields| ==> Index(fields[i], byColumns) < n && fields[i].row < |flags|
    ensures |r| == n
  {
    if fields == [] then seq(n, _ => 0)
    else
      var prev := BaseSizes(fields[..|fields| - 1], flags, n, byColumns);
      var f := fields[|fields| - 1];
      if flags[f.row] == 0 && prev[Index(f, byColumns)] < Extent(f, byColumns)
      then prev[Index(f, byColumns) := Extent(f, byColumns)]
      else prev
  }

  /** The same pass collects, in order, the fields of flagged rows. */
  function SpanEntries(fields: seq<Field>, flags: seq<int>, byColumns: bool): (r: seq<SpanEntry>)
    requires forall i :: 0 <= i < |fields| ==> fields[i].row < |flags|
  {
    if fields == [] then []
    else
      var prev := SpanEntries(fields[..|fields| - 1], flags, byColumns);
      var f := fields[|fields| - 1];
      if flags[f.row] == 0 then prev else prev + [EntryOf(f, byColumns)]
  }

  /**
   * One spanning entry: when its columns (clipped to the table, as a numpy
   * slice is) add up to less than its size, each of them grows by
   * ceil(gap / span).
   */
  function WidenOne(sizes: seq<int>, e: SpanEntry): (r: seq<int>)
    requires e.start < |sizes| && e.span >= 1
    ensures |r| == |sizes|
  {
    var end := Min(e.start + e.span, |sizes|);
    var have := Total(sizes[e.start .. end]);
    if have < e.size then
      var gap := CeilDiv(e.size - have, e.span);
      seq(|sizes|, i requires 0 <= i < |sizes| => if e.start <= i < end then sizes[i] + gap else sizes[i])
    else sizes
  }

  /** The spanning entries, applied in the order they were collected. */
  function Widen(sizes: seq<int>, es: seq<SpanEntry>): (r: seq<int>)
    requires EntriesFit(es, |sizes|)
    ensures |r| == |sizes|
  {
    if es == [] then sizes else WidenOne(Widen(sizes, es[..|es| - 1]), es[|es| - 1])
  }

  /** width_arr[width_arr < m] = m */
  function AtLeast(sizes: seq<int>, m: int): (r: seq<int>)
    ensures |r| == |sizes|
    ensures forall i :: 0 <= i < |r| ==> r[i] >= m && r[i] >= sizes[i] && (r[i] == m || r[i] == sizes[i])
  {
    seq(|sizes|, i requires 0 <= i < |sizes| => if sizes[i] < m then m else sizes[i])
  }

  /** Sizes after both passes over the fields, before the column minimum. */
  function Sizes(fields: seq<Field>, flags: seq<int>, n: nat, byColumns: bool): (r: seq<int>)
    requires forall i :: 0 <= i < |fields| ==>
      Index(fields[i], byColumns) < n && fields[i].row < |flags| && Span(fields[i], byColumns) >= 1
    ensures |r| == n
  {
    SpanEntriesFit(fields, flags, n, byColumns);
    Widen(BaseSizes(fields, flags, n, byColumns), SpanEntries(fields, flags, byColumns))
  }

  lemma {:induction false} SpanEntriesFit(fields: seq<Field>, flags: seq<int>, n: nat, byColumns: bool)
    requires forall i :: 0 <= i < |fields| ==>
      Index(fields[i], byColumns) < n && fields[i].row < |flags| && Span(fields[i], byColumns) >= 1
    ensures EntriesFit(SpanEntries(fields, flags, byColumns), n)
  {
    if fields != [] {
      SpanEntriesFit(fields[..|fields| - 1], flags, n, byColumns);
    }
  }

  /** The column widths of a label: at least COLUMN_MIN_WIDTH each. */
  function ColumnWidths(fields: seq<Field>, colspanFlags: seq<int>, columns: nat): (r: seq<int>)
    requires FieldsFit(fields, columns, |colspanFlags|)
    ensures |r| == columns
  {
    AtLeast(Sizes(fields, colspanFlags, columns, true), COLUMN_MIN_WIDTH)
  }

  /** The row heights of a label; rows have no minimum. */
  function RowHeights(fields: seq<Field>, rowspanFlags: seq<int>): (r: seq<int>)
    requires forall i :: 0 <= i < |fields| ==> fields[i].row < |rowspanFlags| && fields[i].rowspan >= 1
    ensures |r| == |rowspanFlags|
  {
    Sizes(fields, rowspanFlags, |rowspanFlags|, false)
  }

  // ---------------------------------------------------------------------
  // What the sizing guarantees
  // ---------------------------------------------------------------------

  lemma {:induction false} TotalAddEach(s: seq<int>, t: seq<int>, g: int)
    requires |s| == |t| && forall i :: 0 <= i < |s| ==> t[i] == s[i] + g
    ensures Total(t) == Total(s) + |s| * g
  {
    if s != [] {
      TotalAddEach(s[..|s| - 1], t[..|t| - 1], g);
    }
  }

  lemma {:induction false} TotalMonotone(s: seq<int>, t: seq<int>)
    requires |s| == |t| && forall i :: 0 <= i < |s| ==> t[i] >= s[i]
    ensures Total(t) >= Total(s)
  {
    if s != [] {
      TotalMonotone(s[..|s| - 1], t[..|t| - 1]);
    }
  }

  /** The span cells from start add up to at least size. */
  predicate Covers(sizes: seq<int>, start: nat, span: int, size: int)
    requires start + span <= |sizes| && span >= 0
  {
    Total(sizes[start .. start + span]) >= size
  }

  /** A spanning entry never shrinks a column or row. */
  lemma WidenOneGrows(sizes: seq<int>, e: SpanEntry)
    requires e.start < |sizes| && e.span >= 1
    ensures forall i :: 0 <= i < |sizes| ==> WidenOne(sizes, e)[i] >= sizes[i]
  {
  }

  /** After a spanning entry that lies in the table, its cells add up to at least its size. */
  lemma WidenOneCovers(sizes: seq<int>, e: SpanEntry)
    requires e.start < |sizes| && e.span >= 1 && e.start + e.span <= |sizes|
    ensures Covers(WidenOne(sizes, e), e.start, e.span, e.size)
  {
    var end := e.start + e.span;
    var have := Total(sizes[e.start .. end]);
    if have < e.size {
      var gap := CeilDiv(e.size - have, e.span);
      TotalAddEach(sizes[e.start .. end], WidenOne(sizes, e)[e.start .. end], gap);
    }
  }

  /** Growing every cell keeps any run of cells covered. */
  lemma CoversGrows(before: seq<int>, after: seq<int>, start: nat, span: int, size: int)
    requires |before| == |after| && span >= 0 && start + span <= |before| && Covers(before, start, span, size)
    requires forall i :: 0 <= i < |before| ==> after[i] >= before[i]
    ensures Covers(after, start, span, size)
  {
    TotalMonotone(before[start .. start + span], after[start .. start + span]);
  }

  lemma {:induction false} WidenGrows(sizes: seq<int>, es: seq<SpanEntry>, i: nat)
    requires EntriesFit(es, |sizes|) && i < |sizes|
    ensures Widen(sizes, es)[i] >= sizes[i]
  {
    if es != [] {
      WidenGrows(sizes, es[..|es| - 1], i);
      WidenOneGrows(Widen(sizes, es[..|es| - 1]), es[|es| - 1]);
    }
  }

  /** Every spanning entry that lies in the table is covered once all entries are applied. */
  lemma {:induction false} WidenCovers(sizes: seq<int>, es: seq<SpanEntry>, k: nat, a: nat, span: int, size: int)
    requires EntriesFit(es, |sizes|) && k < |es| && es[k] == SpanEntry(a, span, size) && a + span <= |sizes|
    ensures Covers(Widen(sizes, es), a, span, size)
  {
    var init := es[..|es| - 1];
    var before := Widen(sizes, init);
    if k == |es| - 1 {
      WidenOneCovers(before, es[k]);
    } else {
      assert init[k] == es[k];
      WidenCovers(sizes, init, k, a, span, size);
      WidenOneGrows(before, es[|es| - 1]);
      CoversGrows(before, Widen(sizes, es), a, span, size);
    }
  }

  lemma {:induction false} BaseCovers(fields: seq<Field>, flags: seq<int>, n: nat, byColumns: bool, i: nat)
    requires forall j :: 0 <= j < |fields| ==> Index(fields[j], byColumns) < n && fields[j].row < |flags|
    requires i < |fields| && flags[fields[i].row] == 0
    ensures BaseSizes(fields, flags, n, byColumns)[Index(fields[i], byColumns)] >= Extent(fields[i], byColumns)
  {
    var init := fields[..|fields| - 1];
    if i < |init| {
      assert init[i] == fields[i];
      BaseCovers(init, flags, n, byColumns, i);
    }
  }

  lemma {:induction false} SpanEntryOf(fields: seq<Field>, flags: seq<int>, byColumns: bool, i: nat) returns (k: nat)
    requires forall j :: 0 <= j < |fields| ==> fields[j].row < |flags|
    requires i < |fields| && flags[fields[i].row] != 0
    ensures k < |SpanEntries(fields, flags, byColumns)| && SpanEntries(fields, flags, byColumns)[k] == EntryOf(fields[i], byColumns)
  {
    var init := fields[..|fields| - 1];
    if i < |init| {
      assert init[i] == fields[i];
      k := SpanEntryOf(init, flags, byColumns, i);
    } else {
      k := |SpanEntries(init, flags, byColumns)|;
    }
  }

  /**
   * A field in a row without spanning fields gets a column (row) at least
   * as wide (high) as the field with its padding.
   */
  lemma SizeCoversField(fields: seq<Field>, flags: seq<int>, n: nat, byColumns: bool, i: nat)
    requires forall j :: 0 <= j < |fields| ==>
      Index(fields[j], byColumns) < n && fields[j].row < |flags| && Span(fields[j], byColumns) >= 1
    requires i < |fields| && flags[fields[i].row] == 0
    ensures Sizes(fields, flags, n, byColumns)[Index(fields[i], byColumns)] >= Extent(fields[i], byColumns)
  {
    BaseCovers(fields, flags, n, byColumns, i);
    SpanEntriesFit(fields, flags, n, byColumns);
    WidenGrows(BaseSizes(fields, flags, n, byColumns), SpanEntries(fields, flags, byColumns), Index(fields[i], byColumns));
  }

  /**
   * A field in a row with spanning fields, whose span lies in the table,
   * gets columns (rows) that together are at least its padded size, from
   * whatever sizes the first pass left.
   */
  lemma SpanCovered(base: seq<int>, fields: seq<Field>, flags: seq<int>, byColumns: bool, i: nat)
    requires forall j :: 0 <= j < |fields| ==>
      Index(fields[j], byColumns) < |base| && fields[j].row < |flags| && Span(fields[j], byColumns) >= 1
    requires i < |fields| && flags[fields[i].row] != 0
    requires Index(fields[i], byColumns) + Span(fields[i], byColumns) <= |base|
    ensures EntriesFit(SpanEntries(fields, flags, byColumns), |base|)
    ensures Covers(Widen(base, SpanEntries(fields, flags, byColumns)), Index(fields[i], byColumns), Span(fields[i], byColumns),
                   Extent(fields[i], byColumns))
  {
    var k := SpanEntryOf(fields, flags, byColumns, i);
    SpanEntriesFit(fields, flags, |base|, byColumns);
    WidenCovers(base, SpanEntries(fields, flags, byColumns), k,
                Index(fields[i], byColumns), Span(fields[i], byColumns), Extent(fields[i], byColumns));
  }

  /**
   * The label's columns: each at least COLUMN_MIN_WIDTH, at least the padded
   * width of each field of a non-spanning row in it, and, for a field of a
   * spanning row whose span lies in the table, adding up to its padded width.
   */
  lemma ColumnWidthsCover(fields: seq<Field>, colspanFlags: seq<int>, columns: nat, i: nat)
    requires FieldsFit(fields, columns, |colspanFlags|) && i < |fields|
    ensures ColumnWidths(fields, colspanFlags, columns)[fields[i].col] >= COLUMN_MIN_WIDTH
    ensures colspanFlags[fields[i].row] == 0 ==>
      ColumnWidths(fields, colspanFlags, columns)[fields[i].col] >= PaddedWidth(fields[i])
    ensures colspanFlags[fields[i].row] != 0 && fields[i].col + fields[i].colspan <= columns ==>
      Total(ColumnWidths(fields, colspanFlags, columns)[fields[i].col .. fields[i].col + fields[i].colspan]) >= PaddedWidth(fields[i])
  {
    var f := fields[i];
    var sizes := Sizes(fields, colspanFlags, columns, true);
    if colspanFlags[f.row] == 0 {
      SizeCoversField(fields, colspanFlags, columns, true, i);
    } else if f.col + f.colspan <= columns {
      SpanCovered(BaseSizes(fields, colspanFlags, columns, true), fields, colspanFlags, true, i);
      var widths := ColumnWidths(fields, colspanFlags, columns);
      TotalMonotone(sizes[f.col .. f.col + f.colspan], widths[f.col .. f.col + f.colspan]);
    }
  }

  /**
   * The label's rows: at least the padded height of each field of a row
   * without row-spanning fields, and, for a field of a row with one whose
   * span lies in the table, adding up to its padded height.
   */
  lemma RowHeightsCover(fields: seq<Field>, rowspanFlags: seq<int>, i: nat)
    requires forall j :: 0 <= j < |fields| ==> fields[j].row < |rowspanFlags| && fields[j].rowspan >= 1
    requires i < |fields|
    ensures rowspanFlags[fields[i].row] == 0 ==> RowHeights(fields, rowspanFlags)[fields[i].row] >= PaddedHeight(fields[i])
    ensures rowspanFlags[fields[i].row] != 0 && fields[i].row + fields[i].rowspan <= |rowspanFlags| ==>
      Total(RowHeights(fields, rowspanFlags)[fields[i].row .. fields[i].row + fields[i].rowspan]) >= PaddedHeight(fields[i])
  {
    if rowspanFlags[fields[i].row] == 0 {
      SizeCoversField(fields, rowspanFlags, |rowspanFlags|, false, i);
    } else if fields[i].row + fields[i].rowspan <= |rowspanFlags| {
      SpanCovered(BaseSizes(fields, rowspanFlags, |rowspanFlags|, false), fields, rowspanFlags, false, i);
    }
  }

  // ---------------------------------------------------------------------
  // The sizing loops of create_pseudo_label
  // ---------------------------------------------------------------------

  /** One spanning entry applied in place to width_arr or height_arr. */
  method WidenSpan(sizes: array<int>, e: SpanEntry)
    requires e.start < sizes.Length && e.span >= 1
    modifies sizes
    ensures sizes[..] == WidenOne(old(sizes[..]), e)
  {
    var end := Min(e.start + e.span, sizes.Length);
    var have := Total(sizes[e.start .. end]);
    if have < e.size {
      var gap := CeilDiv(e.size - have, e.span);
      var j := e.start;
      while j < end
        invariant e.start <= j <= end
        invariant forall i :: 0 <= i < sizes.Length ==>
          sizes[i] == if e.start <= i < j then old(sizes[i]) + gap else old(sizes[i])
      {
        sizes[j] := sizes[j] + gap;
        j := j + 1;
      }
    }
  }

  /** Every spanning entry, in order, applied in place. */
  method WidenAll(sizes: array<int>, es: seq<SpanEntry>)
    requires EntriesFit(es, sizes.Length)
    modifies sizes
    ensures sizes[..] == Widen(old(sizes[..]), es)
  {
    var k := 0;
    while k < |es|
      invariant 0 <= k <= |es|
      invariant sizes[..] == Widen(old(sizes[..]), es[..k])
    {
      assert es[..k + 1][..k] == es[..k];
      WidenSpan(sizes, es[k]);
      k := k + 1;
    }
    assert es[..k] == es;
  }

  /** width_arr[width_arr < column_min_width] = column_min_width */
  method RaiseToMinimum(widths: array<int>)
    modifies widths
    ensures widths[..] == AtLeast(old(widths[..]), COLUMN_MIN_WIDTH)
  {
    var c := 0;
    while c < widths.Length
      invariant 0 <= c <= widths.Length
      invariant forall i :: 0 <= i < widths.Length ==>
        widths[i] == if i < c && old(widths[i]) < COLUMN_MIN_WIDTH then COLUMN_MIN_WIDTH else old(widths[i])
    {
      if widths[c] < COLUMN_MIN_WIDTH {
        widths[c] := COLUMN_MIN_WIDTH;
      }
      c := c + 1;
    }
  }

  /**
   * The first loop of create_pseudo_label: non-spanning rows raise their
   * cells, spanning rows are collected for later.
   */
  method MeasureFields(schema: Schema) returns (widths: array<int>, heights: array<int>,
                                                colspans: seq<SpanEntry>, rowspans: seq<SpanEntry>)
    requires schema.Valid() && FieldsFit(schema.data, schema.columnNumber, schema.rowNumber)
    ensures fresh(widths) && fresh(heights) && widths != heights
    ensures widths[..] == BaseSizes(schema.data, schema.colspanRows[..], schema.columnNumber, true)
    ensures heights[..] == BaseSizes(schema.data, schema.rowspanRows[..], schema.rowNumber, false)
    ensures colspans == SpanEntries(schema.data, schema.colspanRows[..], true)
    ensures rowspans == SpanEntries(schema.data, schema.rowspanRows[..], false)
  {
    var fields := schema.data;
    ghost var colFlags := schema.colspanRows[..];
    ghost var rowFlags := schema.rowspanRows[..];
    widths := new int[schema.columnNumber](_ => 0);
    heights := new int[schema.rowNumber](_ => 0);
    colspans := [];
    rowspans := [];
    var n := 0;
    while n < |fields|
      invariant 0 <= n <= |fields|
      invariant widths[..] == BaseSizes(fields[..n], colFlags, schema.columnNumber, true)
      invariant heights[..] == BaseSizes(fields[..n], rowFlags, schema.rowNumber, false)
      invariant colspans == SpanEntries(fields[..n], colFlags, true)
      invariant rowspans == SpanEntries(fields[..n], rowFlags, false)
    {
      var field := fields[n];
      assert fields[..n + 1][..n] == fields[..n];
      var w := PaddedWidth(field);
      var h := PaddedHeight(field);
      if schema.colspanRows[field.row] == 0 {
        if widths[field.col] < w {
          widths[field.col] := w;
        }
      } else {
        colspans := colspans + [SpanEntry(field.col, field.colspan, w)];
      }
      if schema.rowspanRows[field.row] == 0 {
        if heights[field.row] < h {
          heights[field.row] := h;
        }
      } else {
        rowspans := rowspans + [SpanEntry(field.row, field.rowspan, h)];
      }
      n := n + 1;
    }
    assert fields[..n] == fields;
  }

  /**
   * The sizing part of create_pseudo_label: the width and height tables,
   * and the canvas they make.
   */
  method LabelSize(schema: Schema) returns (widths: array<int>, heights: array<int>, canvasWidth: int, canvasHeight: int)
    requires schema.Valid() && FieldsFit(schema.data, schema.columnNumber, schema.rowNumber)
    ensures fresh(widths) && fresh(heights)
    ensures widths[..] == ColumnWidths(schema.data, schema.colspanRows[..], schema.columnNumber)
    ensures heights[..] == RowHeights(schema.data, schema.rowspanRows[..])
    ensures canvasWidth == Total(widths[..]) && canvasHeight == Total(heights[..])
  {
    var colspans, rowspans;
    widths, heights, colspans, rowspans := MeasureFields(schema);
    SpanEntriesFit(schema.data, schema.colspanRows[..], schema.columnNumber, true);
    SpanEntriesFit(schema.data, schema.rowspanRows[..], schema.rowNumber, false);
    WidenAll(widths, colspans);
    WidenAll(heights, rowspans);
    RaiseToMinimum(widths);
    canvasWidth := Total(widths[..]);
    canvasHeight := Total(heights[..]);
  }

  // ---------------------------------------------------------------------
  // Where each field is drawn
  // ---------------------------------------------------------------------

  /** Offset of cell index: the sum of the cells before it. */
  function CellStart(sizes: seq<int>, index: nat): int
    requires index <= |sizes|
  {
    Total(sizes[..index])
  }

  /** What alignment measures: the text's width, or the barcode's requested size. */
  function AlignmentWidth(f: Field): int
  {
    if f.fieldType == Text then f.contentWidth else f.codeSize
  }

  /** The width a field is aligned in: its columns (clipped to the table) when it spans. */
  function CellWidth(widths: seq<int>, f: Field): int
    requires f.col < |widths|
  {
    if f.colspan > 1 then Total(widths[f.col .. Min(f.col + f.colspan, |widths|)]) else widths[f.col]
  }

  /**
   * Horizontal drawing position of a field: its column's offset, moved by
   * the alignment (a spanning field is always centred), then by the left
   * padding when left-aligned or back by the right padding when
   * right-aligned. Division by 2 floors, as Python's // does.
   */
  function FieldX(widths: seq<int>, f: Field): int
    requires f.col < |widths|
  {
    var start := CellStart(widths, f.col);
    var shifted :=
      if f.align != Left || f.colspan > 1 then
        var textX := CellWidth(widths, f) - AlignmentWidth(f);
        start + (if f.align == Center || f.colspan > 1 then textX / 2 else textX)
      else start;
    match f.align
    case Left => shifted + f.padding.left
    case Right => shifted - f.padding.right
    case Center => shifted
  }

  /** Vertical drawing position of a field: its row's offset plus its top padding. */
  function FieldY(heights: seq<int>, f: Field): int
    requires f.row < |heights|
  {
    CellStart(heights, f.row) + f.padding.top
  }

  lemma {:induction false} TotalSplit(s: seq<int>, i: nat)
    requires i <= |s|
    ensures Total(s) == Total(s[..i]) + Total(s[i..])
  {
    if i < |s| {
      TotalSplit(s[..|s| - 1], i);
      assert s[..|s| - 1][..i] == s[..i];
      assert s[i..][..|s[i..]| - 1] == s[..|s| - 1][i..];
    } else {
      assert s[..i] == s;
    }
  }

  /** Each column (row) starts where the one before it ends. */
  lemma CellStartStep(sizes: seq<int>, index: nat)
    requires index < |sizes|
    ensures CellStart(sizes, index + 1) == CellStart(sizes, index) + sizes[index]
  {
    assert sizes[..index + 1][..index] == sizes[..index];
  }

  /** With no negative sizes, every cell lies inside the canvas. */
  lemma CellInCanvas(sizes: seq<int>, index: nat)
    requires index < |sizes| && forall i :: 0 <= i < |sizes| ==> sizes[i] >= 0
    ensures 0 <= CellStart(sizes, index)
    ensures CellStart(sizes, index) + sizes[index] <= Total(sizes)
  {
    TotalSplit(sizes, index + 1);
    CellStartStep(sizes, index);
    TotalMonotone(seq(index, _ => 0), sizes[..index]);
    TotalMonotone(seq(|sizes| - index - 1, _ => 0), sizes[index + 1..]);
    ZerosTotal(index);
    ZerosTotal(|sizes| - index - 1);
  }

  lemma {:induction false} ZerosTotal(n: nat)
    ensures Total(seq(n, _ => 0)) == 0
  {
    if n > 0 {
      ZerosTotal(n - 1);
      assert seq(n, _ => 0)[..n - 1] == seq(n - 1, _ => 0);
    }
  }

  /**
   * How a field sits in its cell horizontally. Left-aligned, its content
   * starts one left padding after the column's left edge; right-aligned,
   * it ends one right padding before the column's right edge; centred or
   * spanning, the room left on either side differs by at most one pixel,
   * the odd one going to the right.
   */
  lemma FieldXPlacement(widths: seq<int>, f: Field)
    requires f.col < |widths|
    ensures f.align == Left && f.colspan <= 1 ==> FieldX(widths, f) - f.padding.left == CellStart(widths, f.col)
    ensures f.align == Right && f.colspan <= 1 ==>
      FieldX(widths, f) + f.padding.right + AlignmentWidth(f) == CellStart(widths, f.col) + widths[f.col]
    ensures f.align == Center || f.colspan > 1 ==>
      var content := match f.align
                     case Left => FieldX(widths, f) - f.padding.left
                     case Right => FieldX(widths, f) + f.padding.right
                     case Center => FieldX(widths, f);
      var before := content - CellStart(widths, f.col);
      var after := CellStart(widths, f.col) + CellWidth(widths, f) - (content + AlignmentWidth(f));
      before + after == CellWidth(widths, f) - AlignmentWidth(f) && 0 <= after - before <= 1
  {
  }
}
