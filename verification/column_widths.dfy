/**
  Proportional column widths of the report table (landscape A4 page, 275 mm
  of usable width). Each column's longest text, looked for in its header and
  its first 50 values, earns it a share of the page width; a share below
  15 mm is raised to 15 mm, and when those raises overflow the page every
  width is scaled back so that the widths fill the page exactly.

  Widths are `real`: the arithmetic is exact where the source uses floats.
 */
module ColumnWidths {

  /** Usable page width in millimetres. */
  const AvailableWidth: real := 275.0

  /** Narrowest width a proportional share is raised to. */
  const MinWidth: real := 15.0

  /** Only this many leading rows are scanned for the longest value. */
  const SampleSize: nat := 50

  /** The one failure of the width computation: `l / total_len` with a zero total. */
  datatype WidthError = DivisionByZero

  datatype Result<T> = Success(value: T) | Failure(error: WidthError)

  /** A table is a header row and data rows with one cell per column,
      every cell already converted to text. */
  predicate Rectangular(columns: seq<string>, rows: seq<seq<string>>) {
    forall k :: 0 <= k < |rows| ==> |rows[k]| == |columns|
  }

  function Min(a: int, b: int): int {
    if a <= b then a else b
  }

  /** `df.head(50)`: the rows that are scanned. */
  function Sample(rows: seq<seq<string>>): (s: seq<seq<string>>)
    ensures |s| == Min(SampleSize, |rows|)
    ensures s <= rows
  {
    rows[..Min(SampleSize, |rows|)]
  }

  // ---------------------------------------------------------------------
  // Longest text per column
  // ---------------------------------------------------------------------

  /** The inner scan: starting from `acc`, keep the longest value seen in
      column `i` of `sample`. */
  function LongestFrom(acc: nat, sample: seq<seq<string>>, i: nat): (m: nat)
    requires forall k :: 0 <= k < |sample| ==> i < |sample[k]|
    ensures acc <= m
    ensures forall k :: 0 <= k < |sample| ==> |sample[k][i]| <= m
    ensures m == acc || exists k :: 0 <= k < |sample| && m == |sample[k][i]|
    decreases |sample|
  {
    if sample == [] then acc
    else
      var acc' := if |sample[0][i]| > acc then |sample[0][i]| else acc;
      var m := LongestFrom(acc', sample[1..], i);
      assert m == acc' || exists k :: 1 <= k < |sample| && m == |sample[k][i]| by {
        if m != acc' {
          var k :| 0 <= k < |sample[1..]| && m == |sample[1..][k][i]|;
          assert m == |sample[k + 1][i]|;
        }
      }
      m
  }

  /** `max_lens`: for each column, the length of its header or of the
      longest of its first 50 values, whichever is greater. */
  function MaxLens(columns: seq<string>, rows: seq<seq<string>>): (lens: seq<nat>)
    requires Rectangular(columns, rows)
    ensures |lens| == |columns|
    ensures forall i :: 0 <= i < |columns| ==> |columns[i]| <= lens[i]
    ensures forall i, k :: 0 <= i < |columns| && 0 <= k < Min(SampleSize, |rows|) ==>
      |rows[k][i]| <= lens[i]
    ensures forall i :: 0 <= i < |columns| ==>
      lens[i] == |columns[i]| ||
      exists k :: 0 <= k < Min(SampleSize, |rows|) && lens[i] == |rows[k][i]|
  {
    var sample := Sample(rows);
    seq(|columns|, i requires 0 <= i < |columns| => LongestFrom(|columns[i]|, sample, i))
  }

  /** Rows after the 50th never influence the widths. */
  lemma MaxLensIgnoresLaterRows(columns: seq<string>, rows: seq<seq<string>>, more: seq<seq<string>>)
    requires |rows| >= SampleSize
    requires Rectangular(columns, rows) && Rectangular(columns, more)
    ensures Rectangular(columns, rows + more)
    ensures MaxLens(columns, rows + more) == MaxLens(columns, rows)
  {
    assert Sample(rows + more) == Sample(rows);
  }

  // ---------------------------------------------------------------------
  // Sums
  // ---------------------------------------------------------------------

  /** `sum(max_lens)`. */
  function Total(lens: seq<nat>): (t: nat)
    ensures forall i :: 0 <= i < |lens| ==> lens[i] <= t
  {
    if lens == [] then 0
    else
      var t := lens[0] + Total(lens[1..]);
      assert forall i :: 1 <= i < |lens| ==> lens[i] == lens[1..][i - 1];
      t
  }

  /** `sum(col_widths)`. */
  function SumReals(ws: seq<real>): real {
    if ws == [] then 0.0 else ws[0] + SumReals(ws[1..])
  }

  lemma {:induction false} TotalZero(lens: seq<nat>)
    ensures Total(lens) == 0 <==> forall i :: 0 <= i < |lens| ==> lens[i] == 0
  {
    if lens != [] {
      TotalZero(lens[1..]);
      assert forall i :: 1 <= i < |lens| ==> lens[i] == lens[1..][i - 1];
    }
  }

  /** Pointwise larger sequences have the larger sum. */
  lemma {:induction false} SumMonotone(a: seq<real>, b: seq<real>)
    requires |a| == |b|
    requires forall i :: 0 <= i < |a| ==> a[i] <= b[i]
    ensures SumReals(a) <= SumReals(b)
  {
    if a != [] {
      SumMonotone(a[1..], b[1..]);
    }
  }

  // ---------------------------------------------------------------------
  // Allocation
  // ---------------------------------------------------------------------

  /** `(l / total_len) * available_width`. */
  function Share(l: nat, total: nat): (w: real)
    requires total > 0
    ensures 0.0 <= w
    ensures w == 0.0 <==> l == 0
    ensures l <= total ==> w <= AvailableWidth
  {
    var f := l as real / total as real;
    assert 0.0 <= f;
    assert l <= total ==> f <= 1.0;
    f * AvailableWidth
  }

  /** The unfloored proportional shares. */
  function Shares(lens: seq<nat>, total: nat): (ws: seq<real>)
    requires total > 0
    ensures |ws| == |lens|
    ensures total == Total(lens) ==> forall i :: 0 <= i < |ws| ==> 0.0 <= ws[i] <= AvailableWidth
  {
    seq(|lens|, i requires 0 <= i < |lens| => Share(lens[i], total))
  }

  /** `if w < 15: w = 15`. */
  function Floor15(w: real): (r: real)
    ensures MinWidth <= r && w <= r
    ensures r == w || r == MinWidth
  {
    if w < MinWidth then MinWidth else w
  }

  /** `col_widths` before normalisation. */
  function FlooredWidths(lens: seq<nat>, total: nat): (ws: seq<real>)
    requires total > 0
    ensures |ws| == |lens|
    ensures forall i :: 0 <= i < |ws| ==> ws[i] >= MinWidth && ws[i] >= Share(lens[i], total)
    ensures forall i :: 0 <= i < |ws| && Share(lens[i], total) >= MinWidth ==> ws[i] == Share(lens[i], total)
    ensures forall i :: 0 <= i < |ws| ==> ws[i] == Share(lens[i], total) || ws[i] == MinWidth
  {
    seq(|lens|, i requires 0 <= i < |lens| => Floor15(Share(lens[i], total)))
  }

  /** `[w * factor for w in col_widths]`. */
  function Scale(ws: seq<real>, factor: real): (r: seq<real>)
    ensures |r| == |ws|
    ensures forall i :: 0 <= i < |ws| ==> r[i] == ws[i] * factor
    ensures SumReals(r) == SumReals(ws) * factor
  {
    var r := seq(|ws|, i requires 0 <= i < |ws| => ws[i] * factor);
    SumScale(ws, r, factor);
    r
  }

  /** The normalisation step of lines 64-67. */
  function Normalize(ws: seq<real>): (r: seq<real>)
    ensures |r| == |ws|
    ensures SumReals(ws) >= AvailableWidth ==> SumReals(r) == AvailableWidth
    ensures SumReals(ws) <= AvailableWidth ==> r == ws
    ensures SumReals(ws) > AvailableWidth ==>
      forall i :: 0 <= i < |ws| ==> r[i] == ws[i] * (AvailableWidth / SumReals(ws))
  {
    var finalTotal := SumReals(ws);
    if finalTotal > AvailableWidth then Scale(ws, AvailableWidth / finalTotal) else ws
  }

  /** `col_widths` from `max_lens`; a zero total with at least one column
      is the division by zero of line 58. */
  function ComputeWidths(lens: seq<nat>): (r: Result<seq<real>>)
    ensures r.Failure? <==> |lens| > 0 && forall i :: 0 <= i < |lens| ==> lens[i] == 0
    ensures r.Success? ==> |r.value| == |lens|
    ensures r.Success? ==> forall i :: 0 <= i < |lens| ==> r.value[i] > 0.0
    ensures r.Success? && |lens| > 0 ==> SumReals(r.value) == AvailableWidth
    ensures r.Success? ==> forall i, j :: 0 <= i < |lens| && 0 <= j < |lens| && lens[i] <= lens[j] ==>
      r.value[i] <= r.value[j]
  {
    TotalZero(lens);
    var total := Total(lens);
    if total == 0 then
      if |lens| == 0 then Success([]) else Failure(DivisionByZero)
    else
      var ws := FlooredWidths(lens, total);
      WidthsPositive(lens, total);
      WidthsSum(lens, total);
      WidthsMonotone(lens, total);
      Success(Normalize(ws))
  }

  // ---------------------------------------------------------------------
  // Properties of the allocation
  // ---------------------------------------------------------------------

  /** The proportional shares add up to the page width times the fraction
      of the total they cover. */
  lemma {:induction false} SharesSum(lens: seq<nat>, total: nat)
    requires total > 0
    ensures SumReals(Shares(lens, total)) == (Total(lens) as real / total as real) * AvailableWidth
  {
    if lens != [] {
      var ws := Shares(lens, total);
      assert ws[1..] == Shares(lens[1..], total);
      SharesSum(lens[1..], total);
      ShareAdd(lens[0] as real, Total(lens[1..]) as real, total as real);
    }
  }

  lemma ShareAdd(a: real, b: real, t: real)
    requires t > 0.0
    ensures (a / t) * AvailableWidth + (b / t) * AvailableWidth == ((a + b) / t) * AvailableWidth
  {
    assert (a + b) / t == a / t + b / t;
  }

  /** With the true total, the unfloored shares fill the page exactly. */
  lemma SharesFillPage(lens: seq<nat>)
    requires Total(lens) > 0
    ensures SumReals(Shares(lens, Total(lens))) == AvailableWidth
  {
    SharesSum(lens, Total(lens));
    DivSelf(Total(lens) as real);
  }

  lemma DivSelf(t: real)
    requires t > 0.0
    ensures t / t == 1.0
  {
  }

  /** Flooring only widens, so the floored widths never underfill the page. */
  lemma FlooredAtLeastPage(lens: seq<nat>)
    requires Total(lens) > 0
    ensures SumReals(FlooredWidths(lens, Total(lens))) >= AvailableWidth
  {
    var total := Total(lens);
    SharesFillPage(lens);
    SumMonotone(Shares(lens, total), FlooredWidths(lens, total));
  }

  lemma {:induction false} SumScale(ws: seq<real>, r: seq<real>, factor: real)
    requires |r| == |ws|
    requires forall i :: 0 <= i < |ws| ==> r[i] == ws[i] * factor
    ensures SumReals(r) == SumReals(ws) * factor
  {
    if ws != [] {
      SumScale(ws[1..], r[1..], factor);
      assert SumReals(r) == ws[0] * factor + SumReals(ws[1..]) * factor;
    }
  }

  /** After normalisation the widths fill the page exactly. */
  lemma WidthsSum(lens: seq<nat>, total: nat)
    requires total == Total(lens) > 0
    ensures SumReals(Normalize(FlooredWidths(lens, total))) == AvailableWidth
  {
    FlooredAtLeastPage(lens);
  }

  lemma WidthsPositive(lens: seq<nat>, total: nat)
    requires total == Total(lens) > 0
    ensures forall i :: 0 <= i < |lens| ==> Normalize(FlooredWidths(lens, total))[i] > 0.0
  {
    FlooredAtLeastPage(lens);
    NormalizeKeepsOrder(FlooredWidths(lens, total));
  }

  /** Normalisation scales by a positive factor: signs and order survive. */
  lemma NormalizeKeepsOrder(ws: seq<real>)
    requires SumReals(ws) >= AvailableWidth
    ensures |Normalize(ws)| == |ws|
    ensures forall i :: 0 <= i < |ws| && ws[i] > 0.0 ==> Normalize(ws)[i] > 0.0
    ensures forall i, j :: 0 <= i < |ws| && 0 <= j < |ws| && ws[i] <= ws[j] ==>
      Normalize(ws)[i] <= Normalize(ws)[j]
  {
    var s := SumReals(ws);
    if s > AvailableWidth {
      var f := AvailableWidth / s;
      assert f > 0.0;
      ScaleKeepsOrder(ws, f);
    }
  }

  /** Scaling by a positive factor keeps signs and order. */
  lemma ScaleKeepsOrder(ws: seq<real>, f: real)
    requires f > 0.0
    ensures forall i :: 0 <= i < |ws| && ws[i] > 0.0 ==> Scale(ws, f)[i] > 0.0
    ensures forall i, j :: 0 <= i < |ws| && 0 <= j < |ws| && ws[i] <= ws[j] ==>
      Scale(ws, f)[i] <= Scale(ws, f)[j]
  {
    var n := Scale(ws, f);
    forall i, j | 0 <= i < |ws| && 0 <= j < |ws| && ws[i] <= ws[j]
      ensures n[i] <= n[j]
    {
      ScaleMonotone(ws[i], ws[j], f);
    }
    forall i | 0 <= i < |ws| && ws[i] > 0.0
      ensures n[i] > 0.0
    {
      ScalePositive(ws[i], f);
    }
  }

  lemma ScalePositive(a: real, f: real)
    requires a > 0.0 && f > 0.0
    ensures a * f > 0.0
  {
  }

  /** A longer column never gets a narrower share. */
  lemma ShareMonotone(a: nat, b: nat, total: nat)
    requires total > 0 && a <= b
    ensures Share(a, total) <= Share(b, total)
  {
    var t := total as real;
    assert a as real / t <= b as real / t;
  }

  /** Widths are ordered like the longest texts of their columns. */
  lemma WidthsMonotone(lens: seq<nat>, total: nat)
    requires total == Total(lens) > 0
    ensures forall i, j :: 0 <= i < |lens| && 0 <= j < |lens| && lens[i] <= lens[j] ==>
      Normalize(FlooredWidths(lens, total))[i] <= Normalize(FlooredWidths(lens, total))[j]
  {
    var ws := FlooredWidths(lens, total);
    forall i, j | 0 <= i < |lens| && 0 <= j < |lens| && lens[i] <= lens[j]
      ensures ws[i] <= ws[j]
    {
      ShareMonotone(lens[i], lens[j], total);
    }
    FlooredAtLeastPage(lens);
    NormalizeKeepsOrder(ws);
  }

  lemma ScaleMonotone(a: real, b: real, f: real)
    requires a <= b && f > 0.0
    ensures a * f <= b * f
  {
  }

  /** When no share needs raising, the widths are exactly the proportional
      shares. */
  lemma NoFlooringKeepsShares(lens: seq<nat>)
    requires Total(lens) > 0
    requires forall i :: 0 <= i < |lens| ==> Share(lens[i], Total(lens)) >= MinWidth
    ensures ComputeWidths(lens) == Success(Shares(lens, Total(lens)))
  {
    var total := Total(lens);
    assert FlooredWidths(lens, total) == Shares(lens, total);
    SharesFillPage(lens);
  }

  /** Normalisation does not re-apply the 15 mm floor: with one very long
      and one very short column the short one ends narrower than 15 mm. */
  lemma MayEndBelowMinWidth()
    ensures ComputeWidths([1, 100]).Success?
    ensures ComputeWidths([1, 100]).value[0] < MinWidth
  {
    var lens: seq<nat> := [1, 100];
    assert Total(lens) == 101;
    var ws := FlooredWidths(lens, 101);
    assert ws[0] == MinWidth;
    assert ws[1] == 27500.0 / 101.0;
    var w2 := [MinWidth, 27500.0 / 101.0];
    assert ws == w2;
    assert w2[1..] == [27500.0 / 101.0] && w2[1..][1..] == [];
    assert SumReals(w2[1..]) == 27500.0 / 101.0;
    assert SumReals(w2) == 15.0 + 27500.0 / 101.0;
  }
}
