/**
  Row pagination of the report table. The table is drawn as one forward pass
  over its rows with a vertical cursor `y` (millimetres from the top of the
  page). The header row is drawn first; before each data row a cursor below
  180 mm starts a new page, on which the header row is drawn again before
  the data row. Rows are never split and never reordered.

  The drawing calls are abstracted to the lines they emit: each line records
  whether it is a header or a data row, the page it lands on, the `y` at
  which it is drawn, and its cells. The `y` at which the table resumes on a
  fresh page (below the page heading) is the parameter `top`.
 */
module Pagination {

  /** One drawn cell: its width in millimetres and its text. */
  datatype Cell = Cell(width: real, text: string)

  datatype Kind = HeaderLine | DataLine

  /** One drawn row of cells. */
  datatype Line = Line(kind: Kind, page: nat, y: real, cells: seq<Cell>)

  /** Height of a header cell, and the cursor advance after a header row. */
  const HeaderHeight: real := 10.0

  /** Height of a data cell. */
  const DataHeight: real := 8.0

  /** A cursor strictly below this starts a new page before the next data row. */
  const BreakY: real := 180.0

  /** Cursor advance of the line break after a data row. The break moves down
      by the height of the last cell drawn: a data cell, or, in a table with
      no columns, the 10 mm page-title cell of the page heading. */
  function DataAdvance(columnCount: nat): (a: real)
    ensures a > 0.0
    ensures columnCount > 0 ==> a == DataHeight
    ensures columnCount == 0 ==> a == HeaderHeight
  {
    if columnCount == 0 then HeaderHeight else DataHeight
  }

  /** The cursor after drawing `l`. */
  function Bottom(l: Line, advance: real): (y: real)
    ensures advance > 0.0 ==> y > l.y
    ensures l.kind == HeaderLine ==> y == l.y + HeaderHeight
    ensures l.kind == DataLine ==> y == l.y + advance
  {
    l.y + (if l.kind == HeaderLine then HeaderHeight else advance)
  }

  /** The data-row loop, from page `page` with the cursor at `y`. */
  function Flow(header: seq<Cell>, body: seq<seq<Cell>>, top: real, advance: real,
                page: nat, y: real): (out: seq<Line>)
    ensures |body| <= |out| <= 2 * |body|
    decreases |body|
  {
    if body == [] then []
    else if y > BreakY then
      var resume := top + HeaderHeight;
      [Line(HeaderLine, page + 1, top, header), Line(DataLine, page + 1, resume, body[0])]
        + Flow(header, body[1..], top, advance, page + 1, resume + advance)
    else
      [Line(DataLine, page, y, body[0])] + Flow(header, body[1..], top, advance, page, y + advance)
  }

  /** The whole table: the header row on page 1, then the data-row loop. */
  function Paginate(header: seq<Cell>, body: seq<seq<Cell>>, top: real, advance: real): (lines: seq<Line>)
    ensures |body| + 1 <= |lines| <= 2 * |body| + 1
    ensures lines[0] == Line(HeaderLine, 1, top, header)
  {
    [Line(HeaderLine, 1, top, header)] + Flow(header, body, top, advance, 1, top + HeaderHeight)
  }

  /** The cells of the data lines, in order. */
  function DataCells(lines: seq<Line>): seq<seq<Cell>> {
    if lines == [] then []
    else (if lines[0].kind == DataLine then [lines[0].cells] else []) + DataCells(lines[1..])
  }

  // ---------------------------------------------------------------------
  // What a correctly paginated table looks like
  // ---------------------------------------------------------------------

  /** Line `b` drawn right after line `a`. `aChecked` says whether the page
      check runs after `a`: it runs after the first header row and after
      every data row, but not after a header row that a page break drew. */
  predicate Follows(a: Line, b: Line, aChecked: bool, header: seq<Cell>, top: real, advance: real) {
    && (b.kind == HeaderLine <==> aChecked && Bottom(a, advance) > BreakY)
    && (b.kind == HeaderLine ==> b.page == a.page + 1 && b.y == top && b.cells == header)
    && (b.kind == DataLine ==> b.page == a.page && b.y == Bottom(a, advance))
  }

  /** The header row opens page 1; every later line follows its predecessor
      under the page-break rule; a table never ends on a repeated header. */
  predicate WellPaginated(lines: seq<Line>, header: seq<Cell>, top: real, advance: real) {
    && |lines| > 0
    && lines[0] == Line(HeaderLine, 1, top, header)
    && (forall j :: 0 < j < |lines| ==>
          Follows(lines[j - 1], lines[j], j == 1 || lines[j - 1].kind == DataLine, header, top, advance))
    && (|lines| > 1 ==> lines[|lines| - 1].kind == DataLine)
  }

  /** Every row has one cell per column, cell `i` being `widths[i]` wide. */
  predicate RowFits(cells: seq<Cell>, widths: seq<real>) {
    |cells| == |widths| && forall i :: 0 <= i < |cells| ==> cells[i].width == widths[i]
  }

  // ---------------------------------------------------------------------
  // Properties
  // ---------------------------------------------------------------------

  lemma {:induction false} DataCellsAppend(a: seq<Line>, b: seq<Line>)
    ensures DataCells(a + b) == DataCells(a) + DataCells(b)
  {
    if a != [] {
      var x := if a[0].kind == DataLine then [a[0].cells] else [];
      assert (a + b)[0] == a[0] && (a + b)[1..] == a[1..] + b;
      DataCellsAppend(a[1..], b);
      calc {
        DataCells(a + b);
        x + DataCells(a[1..] + b);
        x + (DataCells(a[1..]) + DataCells(b));
        (x + DataCells(a[1..])) + DataCells(b);
      }
    } else {
      assert a + b == b;
    }
  }

  /** The lines drawn by one step of the loop, and where the loop resumes. */
  function Step(header: seq<Cell>, row: seq<Cell>, top: real, page: nat, y: real): (chunk: seq<Line>)
    ensures |chunk| > 0 && chunk[|chunk| - 1].kind == DataLine && chunk[|chunk| - 1].cells == row
    ensures DataCells(chunk) == [row]
    ensures |chunk| == (if y > BreakY then 2 else 1)
    ensures y > BreakY ==>
      chunk[0] == Line(HeaderLine, page + 1, top, header) && chunk[1].page == page + 1 && chunk[1].y == top + HeaderHeight
    ensures y <= BreakY ==> chunk[0].page == page && chunk[0].y == y
    ensures forall j :: 0 <= j < |chunk| - 1 ==> chunk[j].kind == HeaderLine && chunk[j].cells == header
  {
    if y > BreakY then
      var chunk := [Line(HeaderLine, page + 1, top, header), Line(DataLine, page + 1, top + HeaderHeight, row)];
      assert chunk[1..][1..] == [];
      assert DataCells(chunk[1..]) == [row];
      chunk
    else
      var chunk := [Line(DataLine, page, y, row)];
      assert chunk[1..] == [];
      chunk
  }

  lemma FlowUnfold(header: seq<Cell>, body: seq<seq<Cell>>, top: real, advance: real, page: nat, y: real)
    requires body != []
    ensures var chunk := Step(header, body[0], top, page, y);
      var d := chunk[|chunk| - 1];
      Flow(header, body, top, advance, page, y)
        == chunk + Flow(header, body[1..], top, advance, d.page, Bottom(d, advance))
  {
  }

  /** The loop continues correctly from any data line or first header `prev`
      that leaves the cursor at `y`. */
  lemma {:induction false} FlowFollows(header: seq<Cell>, body: seq<seq<Cell>>, top: real, advance: real,
                                       prev: Line, page: nat, y: real)
    requires prev.page == page && Bottom(prev, advance) == y
    ensures var out := Flow(header, body, top, advance, page, y);
      && (|out| > 0 ==> Follows(prev, out[0], true, header, top, advance))
      && (forall j :: 0 < j < |out| ==>
            Follows(out[j - 1], out[j], out[j - 1].kind == DataLine, header, top, advance))
      && (|out| > 0 ==> out[|out| - 1].kind == DataLine)
    decreases |body|
  {
    if body != [] {
      var out := Flow(header, body, top, advance, page, y);
      var chunk := Step(header, body[0], top, page, y);
      var d := chunk[|chunk| - 1];
      var rest := Flow(header, body[1..], top, advance, d.page, Bottom(d, advance));
      FlowUnfold(header, body, top, advance, page, y);
      FlowFollows(header, body[1..], top, advance, d, d.page, Bottom(d, advance));
      forall j | 0 < j < |out|
        ensures Follows(out[j - 1], out[j], out[j - 1].kind == DataLine, header, top, advance)
      {
        if j >= |chunk| + 1 {
          assert out[j - 1] == rest[j - 1 - |chunk|] && out[j] == rest[j - |chunk|];
        } else if j == |chunk| {
          assert out[j - 1] == d;
          if |rest| > 0 {
            assert out[j] == rest[0];
          }
        }
      }
      if |rest| > 0 {
        assert out[|out| - 1] == rest[|rest| - 1];
      }
    }
  }

  /** The loop hands on every row, once each and in order. */
  lemma {:induction false} FlowData(header: seq<Cell>, body: seq<seq<Cell>>, top: real, advance: real,
                                    page: nat, y: real)
    ensures DataCells(Flow(header, body, top, advance, page, y)) == body
    decreases |body|
  {
    if body != [] {
      var chunk := Step(header, body[0], top, page, y);
      var d := chunk[|chunk| - 1];
      var rest := Flow(header, body[1..], top, advance, d.page, Bottom(d, advance));
      FlowUnfold(header, body, top, advance, page, y);
      FlowData(header, body[1..], top, advance, d.page, Bottom(d, advance));
      DataCellsAppend(chunk, rest);
      assert body == [body[0]] + body[1..];
    }
  }

  /** Every line the loop draws is the header row or one of the rows given. */
  lemma {:induction false} FlowCells(header: seq<Cell>, body: seq<seq<Cell>>, top: real, advance: real,
                                     page: nat, y: real)
    ensures forall l :: l in Flow(header, body, top, advance, page, y) ==> l.cells == header || l.cells in body
    decreases |body|
  {
    if body != [] {
      var chunk := Step(header, body[0], top, page, y);
      var d := chunk[|chunk| - 1];
      FlowUnfold(header, body, top, advance, page, y);
      FlowCells(header, body[1..], top, advance, d.page, Bottom(d, advance));
      assert forall r :: r in body[1..] ==> r in body;
    }
  }

  /** The whole table is the first header line followed by the loop's lines. */
  lemma PaginateUnfold(header: seq<Cell>, body: seq<seq<Cell>>, top: real, advance: real)
    ensures var lines := Paginate(header, body, top, advance);
      var rest := Flow(header, body, top, advance, 1, top + HeaderHeight);
      && |lines| == |rest| + 1
      && lines[0] == Line(HeaderLine, 1, top, header)
      && (forall j :: 0 < j < |lines| ==> lines[j] == rest[j - 1])
  {
  }

  /** The whole table obeys the page-break rule line by line. */
  lemma PaginateWellPaginated(header: seq<Cell>, body: seq<seq<Cell>>, top: real, advance: real)
    ensures WellPaginated(Paginate(header, body, top, advance), header, top, advance)
  {
    var first := Line(HeaderLine, 1, top, header);
    var rest := Flow(header, body, top, advance, 1, top + HeaderHeight);
    var lines := Paginate(header, body, top, advance);
    PaginateUnfold(header, body, top, advance);
    FlowFollows(header, body, top, advance, first, 1, top + HeaderHeight);
    forall j | 1 < j < |lines|
      ensures Follows(lines[j - 1], lines[j], lines[j - 1].kind == DataLine, header, top, advance)
    {
      assert lines[j - 1] == rest[j - 2];
    }
  }

  /** Pagination hands on every row, once each and in order. */
  lemma PaginateLossless(header: seq<Cell>, body: seq<seq<Cell>>, top: real, advance: real)
    ensures DataCells(Paginate(header, body, top, advance)) == body
  {
    var first := Line(HeaderLine, 1, top, header);
    var rest := Flow(header, body, top, advance, 1, top + HeaderHeight);
    FlowData(header, body, top, advance, 1, top + HeaderHeight);
    DataCellsAppend([first], rest);
  }

  /** Every drawn line keeps its cells at their columns' widths. */
  lemma PaginateKeepsWidths(header: seq<Cell>, body: seq<seq<Cell>>, top: real, advance: real, widths: seq<real>)
    requires RowFits(header, widths)
    requires forall k :: 0 <= k < |body| ==> RowFits(body[k], widths)
    ensures var lines := Paginate(header, body, top, advance);
      forall j :: 0 <= j < |lines| ==> RowFits(lines[j].cells, widths)
  {
    var rest := Flow(header, body, top, advance, 1, top + HeaderHeight);
    var lines := Paginate(header, body, top, advance);
    PaginateUnfold(header, body, top, advance);
    FlowCells(header, body, top, advance, 1, top + HeaderHeight);
    forall j | 0 < j < |lines|
      ensures RowFits(lines[j].cells, widths)
    {
      assert lines[j] in rest;
    }
  }

  /** The header row begins every page: a line opens a new page exactly
      when it is a header row, and each page's first line is a header. */
  lemma HeaderOpensEveryPage(lines: seq<Line>, header: seq<Cell>, top: real, advance: real)
    requires WellPaginated(lines, header, top, advance)
    ensures forall j :: 0 < j < |lines| ==>
      (lines[j].kind == HeaderLine <==> lines[j].page == lines[j - 1].page + 1)
    ensures forall j :: 0 < j < |lines| ==>
      lines[j].page == lines[j - 1].page || lines[j].page == lines[j - 1].page + 1
    ensures forall j :: 0 <= j < |lines| && lines[j].kind == HeaderLine ==> lines[j].cells == header
  {
    forall j | 0 < j < |lines|
      ensures lines[j].kind == HeaderLine <==> lines[j].page == lines[j - 1].page + 1
      ensures lines[j].kind == HeaderLine ==> lines[j].cells == header
    {
      assert Follows(lines[j - 1], lines[j], j == 1 || lines[j - 1].kind == DataLine, header, top, advance);
    }
  }

  /** The header lines draw the header row and the data lines draw rows
      that were handed on. */
  lemma LinesDrawnFrom(lines: seq<Line>, header: seq<Cell>, body: seq<seq<Cell>>, top: real, advance: real)
    requires WellPaginated(lines, header, top, advance)
    requires DataCells(lines) == body
    ensures forall j :: 0 <= j < |lines| && lines[j].kind == HeaderLine ==> lines[j].cells == header
    ensures forall j :: 0 <= j < |lines| && lines[j].kind == DataLine ==> lines[j].cells in body
  {
    HeaderOpensEveryPage(lines, header, top, advance);
    forall j | 0 <= j < |lines| && lines[j].kind == DataLine
      ensures lines[j].cells in body
    {
      DataLineInDataCells(lines, j);
    }
  }

  /** A data line's cells are among the data rows handed on. */
  lemma {:induction false} DataLineInDataCells(lines: seq<Line>, j: nat)
    requires j < |lines| && lines[j].kind == DataLine
    ensures lines[j].cells in DataCells(lines)
  {
    if j > 0 {
      DataLineInDataCells(lines[1..], j - 1);
    }
  }

  /** No data row starts below the break line, except the first row of a
      page, which sits right under the repeated header. */
  lemma DataRowsStayAboveBreak(lines: seq<Line>, header: seq<Cell>, top: real, advance: real)
    requires WellPaginated(lines, header, top, advance)
    ensures forall j :: 0 <= j < |lines| && lines[j].kind == DataLine ==>
      lines[j].y <= BreakY || lines[j].y == top + HeaderHeight
  {
    forall j | 0 <= j < |lines| && lines[j].kind == DataLine
      ensures lines[j].y <= BreakY || lines[j].y == top + HeaderHeight
    {
      assert j > 0;
      assert Follows(lines[j - 1], lines[j], j == 1 || lines[j - 1].kind == DataLine, header, top, advance);
      if j > 1 && lines[j - 1].kind == HeaderLine {
        assert Follows(lines[j - 2], lines[j - 1], j == 2 || lines[j - 2].kind == DataLine, header, top, advance);
      }
    }
  }

  /** The cursor after `k` data rows drawn from `y` without a break. */
  function Cursor(y: real, advance: real, k: nat): real
    decreases k
  {
    if k == 0 then y else Cursor(y + advance, advance, k - 1)
  }

  /** The cursor moves down by `advance` per data row. */
  lemma {:induction false} CursorIsLinear(y: real, advance: real, k: nat)
    ensures Cursor(y, advance, k) == y + k as real * advance
    decreases k
  {
    if k > 0 {
      CursorIsLinear(y + advance, advance, k - 1);
      assert (y + advance) + (k - 1) as real * advance == y + k as real * advance;
    }
  }

  /** While the cursor stays at or above the break line, the loop draws
      data rows on the current page, one `advance` apart, and then carries
      on exactly as a loop started on the remaining rows would. */
  lemma {:induction false} FlowPageRun(header: seq<Cell>, body: seq<seq<Cell>>, top: real, advance: real,
                                       page: nat, y: real, n: nat)
    requires advance >= 0.0
    requires n <= |body|
    requires n > 0 ==> Cursor(y, advance, n - 1) <= BreakY
    ensures var out := Flow(header, body, top, advance, page, y);
      && |out| >= n
      && (forall k :: 0 <= k < n ==> out[k] == Line(DataLine, page, Cursor(y, advance, k), body[k]))
      && out[n..] == Flow(header, body[n..], top, advance, page, Cursor(y, advance, n))
    decreases n
  {
    if n > 0 {
      var out := Flow(header, body, top, advance, page, y);
      var rest := Flow(header, body[1..], top, advance, page, y + advance);
      CursorIsLinear(y, advance, n - 1);
      assert (n - 1) as real * advance >= 0.0;
      assert y <= BreakY;
      assert out == [Line(DataLine, page, y, body[0])] + rest;
      FlowPageRun(header, body[1..], top, advance, page, y + advance, n - 1);
      forall k | 1 <= k < n
        ensures out[k] == Line(DataLine, page, Cursor(y, advance, k), body[k])
      {
        assert out[k] == rest[k - 1];
        assert body[1..][k - 1] == body[k];
      }
      assert body[1..][n - 1..] == body[n..];
      assert out[n..] == rest[n - 1..];
    } else {
      assert body[0..] == body;
    }
  }

  /** The first page holds the header row and then exactly the data rows
      whose top stays at or above the break line: with `n` such rows, row
      `n + 1` opens page 2 under a repeated header. */
  lemma FirstPageRun(header: seq<Cell>, body: seq<seq<Cell>>, top: real, advance: real, n: nat)
    requires advance >= 0.0
    requires n < |body|
    requires n > 0 ==> top + HeaderHeight + (n - 1) as real * advance <= BreakY
    requires top + HeaderHeight + n as real * advance > BreakY
    ensures var lines := Paginate(header, body, top, advance);
      && |lines| >= n + 3
      && (forall k :: 1 <= k <= n ==> lines[k].kind == DataLine && lines[k].page == 1 && lines[k].cells == body[k - 1])
      && lines[n + 1] == Line(HeaderLine, 2, top, header)
      && lines[n + 2] == Line(DataLine, 2, top + HeaderHeight, body[n])
  {
    var y := top + HeaderHeight;
    if n > 0 {
      CursorIsLinear(y, advance, n - 1);
    }
    CursorIsLinear(y, advance, n);
    FlowFirstBreak(header, body, top, advance, 1, y, n);
    PaginateUnfold(header, body, top, advance);
  }

  /** The loop's first page break comes before the first row whose top
      would lie below the break line. */
  lemma FlowFirstBreak(header: seq<Cell>, body: seq<seq<Cell>>, top: real, advance: real,
                       page: nat, y: real, n: nat)
    requires advance >= 0.0
    requires n < |body|
    requires n > 0 ==> Cursor(y, advance, n - 1) <= BreakY
    requires Cursor(y, advance, n) > BreakY
    ensures var out := Flow(header, body, top, advance, page, y);
      && |out| >= n + 2
      && (forall k :: 0 <= k < n ==> out[k] == Line(DataLine, page, Cursor(y, advance, k), body[k]))
      && out[n] == Line(HeaderLine, page + 1, top, header)
      && out[n + 1] == Line(DataLine, page + 1, top + HeaderHeight, body[n])
  {
    FlowPageRun(header, body, top, advance, page, y, n);
    assert body[n..][0] == body[n];
  }

  /** With data rows 8 mm apart and the table resuming at 32 mm on every
      page, the first page carries 18 data rows: the 18th starts at 178 mm
      and the 19th would start at 186 mm. */
  lemma EighteenRowsOnFirstPage(header: seq<Cell>, body: seq<seq<Cell>>)
    requires |body| > 18
    ensures var lines := Paginate(header, body, 32.0, DataHeight);
      && |lines| > 20
      && lines[18] == Line(DataLine, 1, 178.0, body[17])
      && lines[19] == Line(HeaderLine, 2, 32.0, header)
  {
    CursorIsLinear(42.0, DataHeight, 17);
    FirstPageRun(header, body, 32.0, DataHeight, 18);
    FlowPageRun(header, body, 32.0, DataHeight, 1, 42.0, 18);
  }
}
