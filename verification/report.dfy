/**
  The table part of `create_pdf`: column widths are computed from the table,
  the header row is drawn with transliterated column names, and every data
  row is drawn with transliterated, truncated cell texts, repeating the
  header row after each page break.
 */
module Report {
  import opened CleanText
  import opened ColumnWidths
  import opened Truncation
  import opened Pagination

  /** One header cell: the column name cleaned, never cut. */
  function HeaderCell(name: string, width: real): (c: Cell)
    ensures c.width == width
    ensures c.text == Clean(name)
    ensures |c.text| == |name| && AllLatin1(c.text)
  {
    CleanIsPointwise(name);
    Cell(width, Clean(name))
  }

  /** One data cell: the value cleaned, then cut to the cell's character budget. */
  function DataCell(value: string, width: real): (c: Cell)
    ensures c.width == width
    ensures AllLatin1(c.text)
    ensures width >= 0.0 ==> |c.text| <= MaxChar(width)
    ensures |value| <= MaxChar(width) ==> c.text == Clean(value)
    ensures |value| > MaxChar(width) && width >= 0.0 ==> |c.text| == MaxChar(width)
    ensures |value| > MaxChar(width) && width >= 0.0 ==> c.text == Clean(value)[..MaxChar(width) - 2] + Ellipsis
  {
    CleanIsPointwise(value);
    TruncateKeepsLatin1(Clean(value), width);
    Cell(width, Truncate(Clean(value), width))
  }

  /** The header row, one cell per column. */
  function HeaderCells(columns: seq<string>, widths: seq<real>): (cells: seq<Cell>)
    requires |widths| == |columns|
    ensures RowFits(cells, widths)
    ensures forall i :: 0 <= i < |cells| ==> cells[i] == HeaderCell(columns[i], widths[i])
  {
    seq(|columns|, i requires 0 <= i < |columns| => HeaderCell(columns[i], widths[i]))
  }

  /** A data row, one cell per column. */
  function RowCells(row: seq<string>, widths: seq<real>): (cells: seq<Cell>)
    requires |widths| == |row|
    ensures RowFits(cells, widths)
    ensures forall i :: 0 <= i < |cells| ==> cells[i] == DataCell(row[i], widths[i])
  {
    seq(|row|, i requires 0 <= i < |row| => DataCell(row[i], widths[i]))
  }

  /** Truncation keeps text in Latin-1: it only cuts and appends "..". */
  lemma TruncateKeepsLatin1(text: string, w: real)
    requires AllLatin1(text)
    ensures AllLatin1(Truncate(text, w))
  {
    var r := Truncate(text, w);
    if |text| > MaxChar(w) {
      forall i | 0 <= i < |r|
        ensures IsLatin1(r[i])
      {
        if i < |r| - 2 {
          assert r[i] == r[..|r| - 2][i] == text[i];
        } else {
          assert r[i] == r[|r| - 2..][i - (|r| - 2)] == '.';
        }
      }
    }
  }

  /** Every column's header is empty and so is each of its first 50 values. */
  predicate NothingToMeasure(columns: seq<string>, rows: seq<seq<string>>)
    requires Rectangular(columns, rows)
  {
    && (forall i :: 0 <= i < |columns| ==> |columns[i]| == 0)
    && (forall i, k :: 0 <= i < |columns| && 0 <= k < Min(SampleSize, |rows|) ==> |rows[k][i]| == 0)
  }

  /** The width computation fails exactly on a table with columns but
      nothing to measure in them. */
  lemma WidthsFailExactly(columns: seq<string>, rows: seq<seq<string>>)
    requires Rectangular(columns, rows)
    ensures ComputeWidths(MaxLens(columns, rows)).Failure? <==> |columns| > 0 && NothingToMeasure(columns, rows)
  {
    var lens := MaxLens(columns, rows);
    if NothingToMeasure(columns, rows) {
      assert forall i :: 0 <= i < |columns| ==> lens[i] == 0;
    } else {
      if exists i :: 0 <= i < |columns| && |columns[i]| != 0 {
        var i :| 0 <= i < |columns| && |columns[i]| != 0;
        assert lens[i] != 0;
      } else {
        var i, k :| 0 <= i < |columns| && 0 <= k < Min(SampleSize, |rows|) && |rows[k][i]| != 0;
        assert lens[i] != 0;
      }
    }
  }

  /** The widths of a table that can be laid out. */
  function Widths(columns: seq<string>, rows: seq<seq<string>>): (widths: seq<real>)
    requires Rectangular(columns, rows)
    requires !(|columns| > 0 && NothingToMeasure(columns, rows))
    ensures |widths| == |columns|
    ensures forall i :: 0 <= i < |widths| ==> widths[i] > 0.0
    ensures |columns| > 0 ==> SumReals(widths) == AvailableWidth
  {
    WidthsFailExactly(columns, rows);
    ComputeWidths(MaxLens(columns, rows)).value
  }

  /** The data rows as drawn, before pagination. */
  function Body(columns: seq<string>, rows: seq<seq<string>>, widths: seq<real>): (body: seq<seq<Cell>>)
    requires Rectangular(columns, rows) && |widths| == |columns|
    ensures |body| == |rows|
    ensures forall k :: 0 <= k < |rows| ==> body[k] == RowCells(rows[k], widths)
  {
    seq(|rows|, k requires 0 <= k < |rows| => RowCells(rows[k], widths))
  }

  /** Every cell of every row is Latin-1 and within its character budget. */
  predicate RowsPrintable(body: seq<seq<Cell>>) {
    forall k, i :: 0 <= k < |body| && 0 <= i < |body[k]| ==>
      AllLatin1(body[k][i].text) && |body[k][i].text| <= MaxChar(body[k][i].width)
  }

  /** Every cell is Latin-1, and every data cell is within its character budget. */
  predicate LinesPrintableIn(lines: seq<Line>) {
    forall j, i :: 0 <= j < |lines| && 0 <= i < |lines[j].cells| ==>
      && AllLatin1(lines[j].cells[i].text)
      && (lines[j].kind == DataLine ==> |lines[j].cells[i].text| <= MaxChar(lines[j].cells[i].width))
  }

  /** Drawn rows are printable in Latin-1 and within their character budgets. */
  lemma BodyPrintable(columns: seq<string>, rows: seq<seq<string>>, widths: seq<real>)
    requires Rectangular(columns, rows) && |widths| == |columns|
    requires forall i :: 0 <= i < |widths| ==> widths[i] > 0.0
    ensures RowsPrintable(Body(columns, rows, widths))
  {
    var body: seq<seq<Cell>> := Body(columns, rows, widths);
    forall k: int, i: int | 0 <= k < |body| && 0 <= i < |body[k]|
      ensures AllLatin1(body[k][i].text) && |body[k][i].text| <= MaxChar(body[k][i].width)
    {
      assert body[k][i] == DataCell(rows[k][i], widths[i]);
    }
  }

  /** Laying out the table: `Failure` is the division by zero of a table
      that has columns whose headers and first 50 values are all empty. */
  function Layout(columns: seq<string>, rows: seq<seq<string>>, top: real): (r: Result<seq<Line>>)
    requires Rectangular(columns, rows)
    ensures r.Failure? <==> |columns| > 0 && NothingToMeasure(columns, rows)
  {
    WidthsFailExactly(columns, rows);
    var computed := ComputeWidths(MaxLens(columns, rows));
    if computed.Failure? then Failure(computed.error)
    else
      var widths := Widths(columns, rows);
      Success(Paginate(HeaderCells(columns, widths), Body(columns, rows, widths), top, DataAdvance(|columns|)))
  }

  /** A table that can be laid out is paginated from its cleaned header
      row and its drawn rows. */
  lemma LayoutSucceeds(columns: seq<string>, rows: seq<seq<string>>, top: real)
    requires Rectangular(columns, rows)
    requires !(|columns| > 0 && NothingToMeasure(columns, rows))
    ensures var widths := Widths(columns, rows);
      Layout(columns, rows, top)
        == Success(Paginate(HeaderCells(columns, widths), Body(columns, rows, widths), top, DataAdvance(|columns|)))
  {
    WidthsFailExactly(columns, rows);
  }

  /** A laid-out table repeats the header row at the top of every page,
      hands on every row once and in order, and gives every cell its
      column's width. */
  lemma LayoutShape(columns: seq<string>, rows: seq<seq<string>>, top: real)
    requires Rectangular(columns, rows)
    requires !(|columns| > 0 && NothingToMeasure(columns, rows))
    ensures Layout(columns, rows, top).Success?
    ensures var widths := Widths(columns, rows);
      var lines := Layout(columns, rows, top).value;
      && WellPaginated(lines, HeaderCells(columns, widths), top, DataAdvance(|columns|))
      && DataCells(lines) == Body(columns, rows, widths)
      && (forall j :: 0 <= j < |lines| ==> RowFits(lines[j].cells, widths))
  {
    var widths := Widths(columns, rows);
    var header := HeaderCells(columns, widths);
    var body := Body(columns, rows, widths);
    var advance := DataAdvance(|columns|);
    LayoutSucceeds(columns, rows, top);
    PaginateWellPaginated(header, body, top, advance);
    PaginateLossless(header, body, top, advance);
    PaginateKeepsWidths(header, body, top, advance, widths);
  }

  /** Lines drawn from printable rows are printable. */
  lemma LinesPrintable(lines: seq<Line>, header: seq<Cell>, body: seq<seq<Cell>>, top: real, advance: real)
    requires WellPaginated(lines, header, top, advance)
    requires DataCells(lines) == body
    requires forall i :: 0 <= i < |header| ==> AllLatin1(header[i].text)
    requires RowsPrintable(body)
    ensures LinesPrintableIn(lines)
  {
    LinesDrawnFrom(lines, header, body, top, advance);
  }

  /** Paginating a Latin-1 header row and printable rows draws only
      printable lines. */
  lemma PaginatePrintable(header: seq<Cell>, body: seq<seq<Cell>>, top: real, advance: real)
    requires forall i :: 0 <= i < |header| ==> AllLatin1(header[i].text)
    requires RowsPrintable(body)
    ensures LinesPrintableIn(Paginate(header, body, top, advance))
  {
    PaginateWellPaginated(header, body, top, advance);
    PaginateLossless(header, body, top, advance);
    LinesPrintable(Paginate(header, body, top, advance), header, body, top, advance);
  }

  /** Every cell of a laid-out table is printable in Latin-1, and no data
      cell holds more characters than its width allows. */
  lemma LayoutCellsPrintable(columns: seq<string>, rows: seq<seq<string>>, top: real)
    requires Rectangular(columns, rows)
    requires !(|columns| > 0 && NothingToMeasure(columns, rows))
    ensures Layout(columns, rows, top).Success?
    ensures LinesPrintableIn(Layout(columns, rows, top).value)
  {
    var widths := Widths(columns, rows);
    var header := HeaderCells(columns, widths);
    LayoutSucceeds(columns, rows, top);
    BodyPrintable(columns, rows, widths);
    PaginatePrintable(header, Body(columns, rows, widths), top, DataAdvance(|columns|));
  }
}
