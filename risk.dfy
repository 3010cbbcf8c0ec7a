/** The risk raster of `compute_inundation_risk`: the raw ratio rslr / dem,
    the adaptive repair of negative ratios from growing windows of the
    untouched raw grid, and the final clip to [0, 1] and scale to 0..100. */
module InundationRisk {
  import opened Common

  /** Default arguments of compute_inundation_risk. */
  const DefaultMinValid: int := 5
  const DefaultMaxWindow: int := 9

  /** The raw ratio of one cell: defined only where rslr and dem are both
      defined and dem is non-zero. */
  function Ratio(rslr: Cell, dem: Cell): (r: Cell)
    ensures r.Defined? <==> rslr.Defined? && dem.Defined? && dem.value != 0.0
    ensures r.Defined? ==> r.value * dem.value == rslr.value
    ensures IsNegative(r) <==>
              rslr.Defined? && dem.Defined? &&
              ((rslr.value < 0.0 && dem.value > 0.0) || (rslr.value > 0.0 && dem.value < 0.0))
  {
    if rslr.Defined? && dem.Defined? && dem.value != 0.0 then
      QuotientSign(rslr.value, dem.value);
      Defined(rslr.value / dem.value)
    else
      Undetermined
  }

  lemma QuotientSign(x: real, y: real)
    requires y != 0.0
    ensures (x / y) * y == x
    ensures x / y < 0.0 <==> (x < 0.0 && y > 0.0) || (x > 0.0 && y < 0.0)
  {
    var q := x / y;
    assert q * y == x;
    if y > 0.0 {
      if q < 0.0 { assert q * y < 0.0; }
      if x < 0.0 { assert q < 0.0; }
    } else {
      if q < 0.0 { assert q * y > 0.0; }
      if x > 0.0 { assert q < 0.0; }
    }
  }

  /** The raw risk grid `risk_data`, computed once from the inputs. */
  function RawGrid(rslr: seq<seq<Cell>>, dem: seq<seq<Cell>>, rows: nat, cols: nat): (g: seq<seq<Cell>>)
    requires IsGrid(rslr, rows, cols) && IsGrid(dem, rows, cols)
    ensures IsGrid(g, rows, cols)
    ensures forall i, j :: 0 <= i < rows && 0 <= j < cols ==> g[i][j] == Ratio(rslr[i][j], dem[i][j])
  {
    seq(rows, i requires 0 <= i < rows =>
      seq(cols, j requires 0 <= j < cols => Ratio(rslr[i][j], dem[i][j])))
  }

  /** A rectangle of rows rmin..rmax-1 and columns cmin..cmax-1. */
  datatype Window = Window(rmin: int, rmax: int, cmin: int, cmax: int) {
    predicate Contains(r: int, c: int) {
      rmin <= r < rmax && cmin <= c < cmax
    }
  }

  /** Within `half` rows and `half` columns of (i, j). */
  predicate Near(i: int, j: int, r: int, c: int, half: int) {
    i - half <= r <= i + half && j - half <= c <= j + half
  }

  /** The w x w window centred on (i, j), clipped to the grid. */
  function WindowAt(i: int, j: int, w: nat, rows: nat, cols: nat): (win: Window)
    requires 0 <= i < rows && 0 <= j < cols
    ensures 0 <= win.rmin <= i < win.rmax <= rows
    ensures 0 <= win.cmin <= j < win.cmax <= cols
  {
    var half := w / 2;
    Window(if i - half > 0 then i - half else 0,
           if i + half + 1 < rows then i + half + 1 else rows,
           if j - half > 0 then j - half else 0,
           if j + half + 1 < cols then j + half + 1 else cols)
  }

  /** The window of size w around (i, j) holds exactly the grid cells within
      w / 2 rows and w / 2 columns of (i, j): it is clipped to the grid and
      never reaches outside it. */
  lemma WindowAtClipsToGrid(i: int, j: int, w: nat, rows: nat, cols: nat, r: int, c: int)
    requires 0 <= i < rows && 0 <= j < cols
    ensures WindowAt(i, j, w, rows, cols).Contains(r, c) <==>
              0 <= r < rows && 0 <= c < cols && Near(i, j, r, c, w / 2)
  {
  }

  /** The window fits inside a grid with `rows` rows and `cols` columns. */
  predicate InBounds(win: Window, rows: nat, cols: nat) {
    0 <= win.rmin <= win.rmax <= rows && 0 <= win.cmin <= win.cmax <= cols
  }

  /** The cells of the slice g[rmin:rmax, cmin:cmax], row by row: one
      entry per cell of the window. */
  function WindowCells(g: seq<seq<Cell>>, rows: nat, cols: nat, win: Window): (cells: seq<Cell>)
    requires IsGrid(g, rows, cols) && InBounds(win, rows, cols)
    ensures |cells| == (win.rmax - win.rmin) * (win.cmax - win.cmin)
    decreases win.rmax - win.rmin
  {
    if win.rmin == win.rmax then []
    else
      var width := win.cmax - win.cmin;
      assert (win.rmax - win.rmin) * width == width + (win.rmax - (win.rmin + 1)) * width;
      g[win.rmin][win.cmin..win.cmax] + WindowCells(g, rows, cols, win.(rmin := win.rmin + 1))
  }

  /** Each cell of the window sits in the slice at its row-major position
      within the window, so every cell is counted once. */
  lemma {:induction false} WindowCellAt(g: seq<seq<Cell>>, rows: nat, cols: nat, win: Window, r: int, c: int)
    requires IsGrid(g, rows, cols) && InBounds(win, rows, cols) && win.Contains(r, c)
    ensures RowMajor(r - win.rmin, c - win.cmin, win.cmax - win.cmin) < |WindowCells(g, rows, cols, win)|
    ensures WindowCells(g, rows, cols, win)[RowMajor(r - win.rmin, c - win.cmin, win.cmax - win.cmin)] == g[r][c]
    decreases win.rmax - win.rmin
  {
    var width := win.cmax - win.cmin;
    var next := win.(rmin := win.rmin + 1);
    var row := g[win.rmin][win.cmin..win.cmax];
    assert WindowCells(g, rows, cols, win) == row + WindowCells(g, rows, cols, next);
    if r > win.rmin {
      WindowCellAt(g, rows, cols, next, r, c);
      assert RowMajor(r - win.rmin, c - win.cmin, width) == width + RowMajor(r - next.rmin, c - win.cmin, width);
    }
  }

  /** The slice holds exactly the values of the grid cells inside the window. */
  lemma {:induction false} WindowCellsExact(g: seq<seq<Cell>>, rows: nat, cols: nat, win: Window, x: Cell)
    requires IsGrid(g, rows, cols) && InBounds(win, rows, cols)
    ensures x in WindowCells(g, rows, cols, win) <==> exists r, c :: win.Contains(r, c) && g[r][c] == x
    decreases win.rmax - win.rmin
  {
    if win.rmin < win.rmax {
      var next := win.(rmin := win.rmin + 1);
      WindowCellsExact(g, rows, cols, next, x);
      var row := g[win.rmin][win.cmin..win.cmax];
      assert WindowCells(g, rows, cols, win) == row + WindowCells(g, rows, cols, next);
      if x in row {
        var k :| 0 <= k < |row| && row[k] == x;
        assert win.Contains(win.rmin, win.cmin + k) && g[win.rmin][win.cmin + k] == x;
      }
      if exists r, c :: win.Contains(r, c) && g[r][c] == x {
        var r, c :| win.Contains(r, c) && g[r][c] == x;
        if r == win.rmin {
          assert row[c - win.cmin] == x;
        } else {
          assert next.Contains(r, c);
        }
      }
    }
  }

  /** `window[window > 0]`: the strictly positive values, in order. */
  function PositiveValues(cells: seq<Cell>): (p: seq<real>)
    ensures forall x :: x in p ==> x > 0.0
    ensures |p| <= |cells|
  {
    if cells == [] then []
    else
      var rest := PositiveValues(cells[1..]);
      if IsPositive(cells[0]) then [cells[0].value] + rest else rest
  }

  /** Each strictly positive value is kept as many times as it occurs among
      the cells, so the count and the mean see every occurrence. */
  lemma {:induction false} PositiveValuesMultiplicity(cells: seq<Cell>, x: real)
    requires x > 0.0
    ensures multiset(PositiveValues(cells))[x] == multiset(cells)[Defined(x)]
    decreases |cells|
  {
    if cells != [] {
      PositiveValuesMultiplicity(cells[1..], x);
      assert cells == [cells[0]] + cells[1..];
    }
  }

  /** Every strictly positive value among the cells is kept, and nothing else. */
  lemma {:induction false} PositiveValuesExact(cells: seq<Cell>, x: real)
    ensures x in PositiveValues(cells) <==> x > 0.0 && Defined(x) in cells
    decreases |cells|
  {
    if cells != [] {
      PositiveValuesExact(cells[1..], x);
      assert Defined(x) in cells <==> Defined(x) == cells[0] || Defined(x) in cells[1..];
    }
  }

  /** Filtering a concatenation filters each part. */
  lemma {:induction false} PositiveValuesAppend(a: seq<Cell>, b: seq<Cell>)
    ensures PositiveValues(a + b) == PositiveValues(a) + PositiveValues(b)
    decreases |a|
  {
    if a != [] {
      assert (a + b)[0] == a[0] && (a + b)[1..] == a[1..] + b;
      PositiveValuesAppend(a[1..], b);
      var rest := PositiveValues(a[1..]);
      if IsPositive(a[0]) {
        calc {
          PositiveValues(a + b);
          [a[0].value] + PositiveValues(a[1..] + b);
          [a[0].value] + (rest + PositiveValues(b));
          ([a[0].value] + rest) + PositiveValues(b);
        }
      }
    } else {
      assert a + b == b;
    }
  }

  /** The positive raw values in the w x w window around (i, j). */
  function WindowPositives(g: seq<seq<Cell>>, rows: nat, cols: nat, i: int, j: int, w: nat): seq<real>
    requires IsGrid(g, rows, cols) && 0 <= i < rows && 0 <= j < cols
  {
    PositiveValues(WindowCells(g, rows, cols, WindowAt(i, j, w, rows, cols)))
  }

  /** A value is among the window's positives iff it is strictly positive
      and some grid cell within w / 2 rows and columns of (i, j) holds it. */
  lemma WindowPositivesExact(g: seq<seq<Cell>>, rows: nat, cols: nat, i: int, j: int, w: nat, x: real)
    requires IsGrid(g, rows, cols) && 0 <= i < rows && 0 <= j < cols
    ensures x in WindowPositives(g, rows, cols, i, j, w) <==>
              x > 0.0 && exists r, c :: 0 <= r < rows && 0 <= c < cols && Near(i, j, r, c, w / 2) && g[r][c] == Defined(x)
  {
    var win := WindowAt(i, j, w, rows, cols);
    PositiveValuesExact(WindowCells(g, rows, cols, win), x);
    WindowCellsExact(g, rows, cols, win, Defined(x));
    forall r, c
      ensures win.Contains(r, c) <==> 0 <= r < rows && 0 <= c < cols && Near(i, j, r, c, w / 2)
    {
      WindowAtClipsToGrid(i, j, w, rows, cols, r, c);
    }
  }

  /** `positives.mean()`: NaN (undetermined) for an empty array. */
  function MeanOf(p: seq<real>): (r: Cell)
    ensures r.Defined? <==> |p| > 0
    ensures r.Defined? ==> r.value * |p| as real == Sum(p)
    ensures (forall x :: x in p ==> x > 0.0) && r.Defined? ==> r.value > 0.0
  {
    if |p| == 0 then Undetermined
    else
      assert (forall x :: x in p ==> x > 0.0) ==> Mean(p) > 0.0 by {
        if forall x :: x in p ==> x > 0.0 {
          MeanOfPositives(p);
        }
      }
      Defined(Mean(p))
  }

  /** The positive raw values of every window size around (i, j), as a
      function of the size. */
  function PositivesAround(g: seq<seq<Cell>>, rows: nat, cols: nat, i: int, j: int): (positives: nat -> seq<real>)
    requires IsGrid(g, rows, cols) && 0 <= i < rows && 0 <= j < cols
    ensures forall w :: positives(w) == WindowPositives(g, rows, cols, i, j, w)
  {
    (w: nat) => WindowPositives(g, rows, cols, i, j, w)
  }

  /** The window sizes w, w + 2, ... up to maxWindow, searched for the first
      one whose positive values number at least minValid; their mean is the
      result. Undetermined once the sizes are exhausted. */
  function Search(positives: nat -> seq<real>, minValid: int, maxWindow: int, w: nat): (r: Cell)
    ensures r.Defined? ==> w <= maxWindow
    decreases maxWindow - w
  {
    if w > maxWindow then Undetermined
    else if |positives(w)| >= minValid then MeanOf(positives(w))
    else Search(positives, minValid, maxWindow, w + 2)
  }

  /** Searching windows of positive values only gives a positive value or
      nothing. */
  lemma {:induction false} SearchYieldsPositive(positives: nat -> seq<real>, minValid: int, maxWindow: int, w: nat)
    requires forall v, x :: x in positives(v) ==> x > 0.0
    ensures Search(positives, minValid, maxWindow, w).Defined? ==> Search(positives, minValid, maxWindow, w).value > 0.0
    decreases maxWindow - w
  {
    if w <= maxWindow && |positives(w)| < minValid {
      SearchYieldsPositive(positives, minValid, maxWindow, w + 2);
    }
  }

  /** The repaired value of cell (i, j): a negative raw value is replaced by
      the result of the window search from 3 x 3 upward; every other cell
      keeps its raw value. */
  function Repaired(g: seq<seq<Cell>>, rows: nat, cols: nat, i: int, j: int,
                    minValid: int, maxWindow: int): (r: Cell)
    requires IsGrid(g, rows, cols) && 0 <= i < rows && 0 <= j < cols
    ensures !IsNegative(g[i][j]) ==> r == g[i][j]
    ensures IsNegative(g[i][j]) ==> r == Undetermined || r.value > 0.0
    ensures !IsNegative(r)
  {
    if IsNegative(g[i][j]) then
      var positives := PositivesAround(g, rows, cols, i, j);
      SearchYieldsPositive(positives, minValid, maxWindow, 3);
      Search(positives, minValid, maxWindow, 3)
    else g[i][j]
  }

  /** Every cell repaired from the same snapshot `g`: no negative value is
      left, and every cell that was not negative keeps its value. */
  function RepairGrid(g: seq<seq<Cell>>, rows: nat, cols: nat, minValid: int, maxWindow: int): (h: seq<seq<Cell>>)
    requires IsGrid(g, rows, cols)
    ensures IsGrid(h, rows, cols)
    ensures forall i, j :: 0 <= i < rows && 0 <= j < cols ==>
              h[i][j] == Repaired(g, rows, cols, i, j, minValid, maxWindow)
    ensures forall i, j :: 0 <= i < rows && 0 <= j < cols ==> !IsNegative(h[i][j])
    ensures forall i, j :: 0 <= i < rows && 0 <= j < cols && !IsNegative(g[i][j]) ==> h[i][j] == g[i][j]
  {
    seq(rows, i requires 0 <= i < rows =>
      seq(cols, j requires 0 <= j < cols => Repaired(g, rows, cols, i, j, minValid, maxWindow)))
  }

  /** The final score: clip to [0, 1], times 100, rounded half to even. */
  function Scale(c: Cell): (r: Cell)
    ensures r.Defined? <==> c.Defined?
    ensures r.Defined? ==> 0.0 <= r.value <= 100.0 && r.value == r.value.Floor as real
    ensures r.Defined? ==> r.value - 0.5 <= 100.0 * Clip(c.value, 0.0, 1.0) <= r.value + 0.5
    ensures r.Defined? && (r.value - 100.0 * Clip(c.value, 0.0, 1.0) == 0.5 || 100.0 * Clip(c.value, 0.0, 1.0) - r.value == 0.5)
            ==> r.value.Floor % 2 == 0
  {
    match c
    case Undetermined => Undetermined
    case Defined(x) =>
      var n := RoundHalfEven(100.0 * Clip(x, 0.0, 1.0));
      RoundWithin(100.0 * Clip(x, 0.0, 1.0), 0, 100);
      Defined(n as real)
  }

  /** The risk grid compute_inundation_risk returns. */
  function RiskGrid(rslr: seq<seq<Cell>>, dem: seq<seq<Cell>>, rows: nat, cols: nat,
                    minValid: int, maxWindow: int): (risk: seq<seq<Cell>>)
    requires IsGrid(rslr, rows, cols) && IsGrid(dem, rows, cols)
    ensures IsGrid(risk, rows, cols)
    ensures forall i, j :: 0 <= i < rows && 0 <= j < cols && risk[i][j].Defined? ==>
              0.0 <= risk[i][j].value <= 100.0 && risk[i][j].value == risk[i][j].value.Floor as real
    ensures forall i, j :: 0 <= i < rows && 0 <= j < cols && risk[i][j].Defined? ==>
              rslr[i][j].Defined? && dem[i][j].Defined? && dem[i][j].value != 0.0
  {
    var h := RepairGrid(RawGrid(rslr, dem, rows, cols), rows, cols, minValid, maxWindow);
    seq(rows, i requires 0 <= i < rows => seq(cols, j requires 0 <= j < cols => Scale(h[i][j])))
  }

  /** The window loop for one negative cell: sizes 3, 5, ... up to
      maxWindow, stopping at the first window with at least minValid
      positive values of the snapshot; undetermined if there is none. */
  method RepairNegativeCell(riskData: seq<seq<Cell>>, rows: nat, cols: nat, i: int, j: int,
                            minValid: int, maxWindow: int) returns (value: Cell)
    requires IsGrid(riskData, rows, cols) && 0 <= i < rows && 0 <= j < cols
    ensures value == Search(PositivesAround(riskData, rows, cols, i, j), minValid, maxWindow, 3)
  {
    var found := false;
    var w := 3;
    while w <= maxWindow
      invariant w >= 3 && !found
      invariant Search(PositivesAround(riskData, rows, cols, i, j), minValid, maxWindow, w)
                == Search(PositivesAround(riskData, rows, cols, i, j), minValid, maxWindow, 3)
      decreases maxWindow - w
    {
      var positives := WindowPositives(riskData, rows, cols, i, j, w);
      if |positives| >= minValid {
        value := MeanOf(positives);
        found := true;
        break;
      }
      w := w + 2;
    }
    if !found {
      value := Undetermined;
    }
  }

  /** The cell loop of compute_inundation_risk: every negative cell of the
      snapshot `riskData` gets the result of its window loop written to
      `output`, a copy of the snapshot; nothing else in `output` changes. */
  method RepairNegatives(riskData: seq<seq<Cell>>, output: array2<Cell>, rows: nat, cols: nat,
                         minValid: int, maxWindow: int)
    requires IsGrid(riskData, rows, cols) && output.Length0 == rows && output.Length1 == cols
    requires forall r, c :: 0 <= r < rows && 0 <= c < cols ==> output[r, c] == riskData[r][c]
    modifies output
    ensures forall r, c :: 0 <= r < rows && 0 <= c < cols ==>
              output[r, c] == Repaired(riskData, rows, cols, r, c, minValid, maxWindow)
  {
    for i := 0 to rows
      invariant forall r, c :: 0 <= r < rows && 0 <= c < cols ==>
                  output[r, c] == if r < i then Repaired(riskData, rows, cols, r, c, minValid, maxWindow)
                                  else riskData[r][c]
    {
      for j := 0 to cols
        invariant forall r, c :: 0 <= r < rows && 0 <= c < cols ==>
                    output[r, c] == if r < i || (r == i && c < j) then Repaired(riskData, rows, cols, r, c, minValid, maxWindow)
                                    else riskData[r][c]
      {
        var val := riskData[i][j];
        if val.Defined? && val.value < 0.0 {
          var repaired := RepairNegativeCell(riskData, rows, cols, i, j, minValid, maxWindow);
          output[i, j] := repaired;
        }
      }
    }
  }

  /** compute_inundation_risk. The raw grid `riskData` is an immutable value,
      so every window is read from the unrepaired snapshot; repairs are
      written to the separate array `output`. */
  method ComputeInundationRisk(rslr: seq<seq<Cell>>, dem: seq<seq<Cell>>, rows: nat, cols: nat,
                               minValid: int, maxWindow: int) returns (risk: array2<Cell>)
    requires IsGrid(rslr, rows, cols) && IsGrid(dem, rows, cols)
    ensures fresh(risk) && risk.Length0 == rows && risk.Length1 == cols
    ensures forall i, j :: 0 <= i < rows && 0 <= j < cols ==>
              risk[i, j] == RiskGrid(rslr, dem, rows, cols, minValid, maxWindow)[i][j]
  {
    var riskData := RawGrid(rslr, dem, rows, cols);
    var output := new Cell[rows, cols]((i, j) requires 0 <= i < rows && 0 <= j < cols => riskData[i][j]);
    RepairNegatives(riskData, output, rows, cols, minValid, maxWindow);
    risk := new Cell[rows, cols]((i, j) reads output requires 0 <= i < rows && 0 <= j < cols => Scale(output[i, j]));
  }

  /** The search stops at the first sufficient window size: if w0 holds
      enough positive values and every size before it (in steps of 2 from w)
      does not, the result is the mean of w0's positive values. */
  lemma {:induction false} SearchStopsAtFirstSufficient(positives: nat -> seq<real>, minValid: int, maxWindow: int,
                                                        w: nat, w0: nat)
    requires w <= w0 <= maxWindow && (w0 - w) % 2 == 0
    requires |positives(w0)| >= minValid
    requires forall v :: w <= v < w0 && (v - w) % 2 == 0 ==> |positives(v)| < minValid
    ensures Search(positives, minValid, maxWindow, w) == MeanOf(positives(w0))
    decreases w0 - w
  {
    if w < w0 {
      SearchStopsAtFirstSufficient(positives, minValid, maxWindow, w + 2, w0);
    }
  }

  /** A search in which no size from w up to maxWindow is sufficient ends
      undetermined. */
  lemma {:induction false} SearchExhausted(positives: nat -> seq<real>, minValid: int, maxWindow: int, w: nat)
    requires forall v :: w <= v <= maxWindow && (v - w) % 2 == 0 ==> |positives(v)| < minValid
    ensures Search(positives, minValid, maxWindow, w) == Undetermined
    decreases maxWindow - w
  {
    if w <= maxWindow {
      SearchExhausted(positives, minValid, maxWindow, w + 2);
    }
  }

  /** A defined search result comes from the first sufficient size. */
  lemma {:induction false} SearchResultHasWindow(positives: nat -> seq<real>, minValid: int, maxWindow: int, w: nat)
    returns (w0: nat)
    requires Search(positives, minValid, maxWindow, w).Defined?
    ensures w <= w0 <= maxWindow && (w0 - w) % 2 == 0 && |positives(w0)| >= minValid
    ensures forall v :: w <= v < w0 && (v - w) % 2 == 0 ==> |positives(v)| < minValid
    ensures Search(positives, minValid, maxWindow, w) == MeanOf(positives(w0))
    decreases maxWindow - w
  {
    if |positives(w)| >= minValid {
      w0 := w;
    } else {
      var next := Search(positives, minValid, maxWindow, w + 2);
      assert Search(positives, minValid, maxWindow, w) == next;
      w0 := SearchResultHasWindow(positives, minValid, maxWindow, w + 2);
      InsufficientBefore(positives, minValid, w, w0);
    }
  }

  /** An insufficient size w followed by insufficient sizes w + 2, w + 4, ...
      below w0 leaves every size from w below w0 insufficient. */
  lemma InsufficientBefore(positives: nat -> seq<real>, minValid: int, w: nat, w0: nat)
    requires w + 2 <= w0 && (w0 - (w + 2)) % 2 == 0 && |positives(w)| < minValid
    requires forall v :: w + 2 <= v < w0 && (v - (w + 2)) % 2 == 0 ==> |positives(v)| < minValid
    ensures (w0 - w) % 2 == 0
    ensures forall v :: w <= v < w0 && (v - w) % 2 == 0 ==> |positives(v)| < minValid
  {
    StepParity(w, w0);
    forall v | w <= v < w0 && (v - w) % 2 == 0
      ensures |positives(v)| < minValid
    {
      StepParity(w, v);
    }
  }

  /** Sizes reached from w + 2 in steps of 2 are those reached from w. */
  lemma StepParity(w: int, v: int)
    ensures (v - (w + 2)) % 2 == 0 <==> (v - w) % 2 == 0
  {
    assert v - w == (v - (w + 2)) + 2;
  }

  /** The search reads the window sizes w..maxWindow and nothing else. */
  lemma {:induction false} SearchReadsSizesUpToMax(p1: nat -> seq<real>, p2: nat -> seq<real>,
                                                   minValid: int, maxWindow: int, w: nat)
    requires forall v :: w <= v <= maxWindow ==> p1(v) == p2(v)
    ensures Search(p1, minValid, maxWindow, w) == Search(p2, minValid, maxWindow, w)
    decreases maxWindow - w
  {
    if w <= maxWindow {
      SearchReadsSizesUpToMax(p1, p2, minValid, maxWindow, w + 2);
    }
  }

  /** A negative cell takes the mean of the positive values of the smallest
      odd window 3, 5, ..., maxWindow holding at least minValid of them; no
      larger window is consulted. */
  lemma RepairUsesSmallestSufficientWindow(g: seq<seq<Cell>>, rows: nat, cols: nat, i: int, j: int,
                                           minValid: int, maxWindow: int, w0: nat)
    requires IsGrid(g, rows, cols) && 0 <= i < rows && 0 <= j < cols
    requires IsNegative(g[i][j])
    requires 3 <= w0 <= maxWindow && w0 % 2 == 1
    requires |WindowPositives(g, rows, cols, i, j, w0)| >= minValid
    requires forall v :: 3 <= v < w0 && v % 2 == 1 ==> |WindowPositives(g, rows, cols, i, j, v)| < minValid
    ensures Repaired(g, rows, cols, i, j, minValid, maxWindow) == MeanOf(WindowPositives(g, rows, cols, i, j, w0))
  {
    var positives := PositivesAround(g, rows, cols, i, j);
    assert forall v :: 3 <= v < w0 && (v - 3) % 2 == 0 ==> v % 2 == 1;
    SearchStopsAtFirstSufficient(positives, minValid, maxWindow, 3, w0);
  }

  /** A negative cell for which no odd window up to maxWindow is sufficient
      becomes undetermined, never a default value. */
  lemma RepairGivesUp(g: seq<seq<Cell>>, rows: nat, cols: nat, i: int, j: int, minValid: int, maxWindow: int)
    requires IsGrid(g, rows, cols) && 0 <= i < rows && 0 <= j < cols
    requires IsNegative(g[i][j])
    requires forall v :: 3 <= v <= maxWindow && v % 2 == 1 ==> |WindowPositives(g, rows, cols, i, j, v)| < minValid
    ensures Repaired(g, rows, cols, i, j, minValid, maxWindow) == Undetermined
  {
    var positives := PositivesAround(g, rows, cols, i, j);
    assert forall v :: 3 <= v <= maxWindow && (v - 3) % 2 == 0 ==> v % 2 == 1;
    SearchExhausted(positives, minValid, maxWindow, 3);
  }

  /** With maxWindow below 3 no window is searched and every negative cell
      becomes undetermined. */
  lemma NoWindowBelowThree(g: seq<seq<Cell>>, rows: nat, cols: nat, i: int, j: int, minValid: int, maxWindow: int)
    requires IsGrid(g, rows, cols) && 0 <= i < rows && 0 <= j < cols
    requires IsNegative(g[i][j]) && maxWindow < 3
    ensures Repaired(g, rows, cols, i, j, minValid, maxWindow) == Undetermined
  {
  }

  /** SearchResultHasWindow for the search from size 3, stated over odd sizes. */
  lemma OddSearchResultHasWindow(positives: nat -> seq<real>, minValid: int, maxWindow: int)
    returns (w0: nat)
    requires Search(positives, minValid, maxWindow, 3).Defined?
    ensures 3 <= w0 <= maxWindow && w0 % 2 == 1 && |positives(w0)| >= minValid
    ensures forall v :: 3 <= v < w0 && v % 2 == 1 ==> |positives(v)| < minValid
    ensures Search(positives, minValid, maxWindow, 3) == MeanOf(positives(w0))
  {
    w0 := SearchResultHasWindow(positives, minValid, maxWindow, 3);
    assert forall v :: v % 2 == 1 ==> (v - 3) % 2 == 0;
  }

  /** Conversely, a negative cell that is repaired to a value got it from
      the smallest sufficient odd window, as the mean of its positives. */
  lemma RepairedValueHasWindow(g: seq<seq<Cell>>, rows: nat, cols: nat, i: int, j: int, minValid: int, maxWindow: int)
    returns (w0: nat)
    requires IsGrid(g, rows, cols) && 0 <= i < rows && 0 <= j < cols
    requires IsNegative(g[i][j]) && Repaired(g, rows, cols, i, j, minValid, maxWindow).Defined?
    ensures 3 <= w0 <= maxWindow && w0 % 2 == 1
    ensures |WindowPositives(g, rows, cols, i, j, w0)| >= minValid
    ensures forall v :: 3 <= v < w0 && v % 2 == 1 ==> |WindowPositives(g, rows, cols, i, j, v)| < minValid
    ensures Repaired(g, rows, cols, i, j, minValid, maxWindow) == MeanOf(WindowPositives(g, rows, cols, i, j, w0))
  {
    var positives := PositivesAround(g, rows, cols, i, j);
    assert Search(positives, minValid, maxWindow, 3).Defined?;
    w0 := OddSearchResultHasWindow(positives, minValid, maxWindow);
  }

  lemma {:induction false} WindowCellsAgree(g1: seq<seq<Cell>>, g2: seq<seq<Cell>>, rows: nat, cols: nat, win: Window)
    requires IsGrid(g1, rows, cols) && IsGrid(g2, rows, cols) && InBounds(win, rows, cols)
    requires forall r, c :: win.Contains(r, c) ==> g1[r][c] == g2[r][c]
    ensures WindowCells(g1, rows, cols, win) == WindowCells(g2, rows, cols, win)
    decreases win.rmax - win.rmin
  {
    if win.rmin < win.rmax {
      WindowCellsAgree(g1, g2, rows, cols, win.(rmin := win.rmin + 1));
      assert g1[win.rmin][win.cmin..win.cmax] == g2[win.rmin][win.cmin..win.cmax];
    }
  }

  /** How far from its cell the repair may look. */
  function Reach(maxWindow: int): nat {
    if maxWindow > 0 then maxWindow / 2 else 0
  }

  /** The repaired value of a cell depends only on the raw snapshot within
      maxWindow / 2 rows and columns of it, never on any other cell's repair:
      the repair is independent of the order in which cells are visited. */
  lemma RepairIsLocal(g1: seq<seq<Cell>>, g2: seq<seq<Cell>>, rows: nat, cols: nat, i: int, j: int,
                      minValid: int, maxWindow: int)
    requires IsGrid(g1, rows, cols) && IsGrid(g2, rows, cols) && 0 <= i < rows && 0 <= j < cols
    requires forall r, c :: 0 <= r < rows && 0 <= c < cols && Near(i, j, r, c, Reach(maxWindow)) ==> g1[r][c] == g2[r][c]
    ensures Repaired(g1, rows, cols, i, j, minValid, maxWindow) == Repaired(g2, rows, cols, i, j, minValid, maxWindow)
  {
    assert Near(i, j, i, j, Reach(maxWindow));
    var p1 := PositivesAround(g1, rows, cols, i, j);
    var p2 := PositivesAround(g2, rows, cols, i, j);
    forall w: nat | w <= maxWindow
      ensures p1(w) == p2(w)
    {
      var win := WindowAt(i, j, w, rows, cols);
      assert w / 2 <= Reach(maxWindow);
      forall r, c | win.Contains(r, c)
        ensures g1[r][c] == g2[r][c]
      {
        WindowAtClipsToGrid(i, j, w, rows, cols, r, c);
      }
      WindowCellsAgree(g1, g2, rows, cols, win);
    }
    SearchReadsSizesUpToMax(p1, p2, minValid, maxWindow, 3);
  }

  /** Repairing an already repaired grid changes nothing: no negative value
      survives a repair. */
  lemma RepairIdempotent(g: seq<seq<Cell>>, rows: nat, cols: nat, minValid: int, maxWindow: int)
    requires IsGrid(g, rows, cols)
    ensures RepairGrid(RepairGrid(g, rows, cols, minValid, maxWindow), rows, cols, minValid, maxWindow)
            == RepairGrid(g, rows, cols, minValid, maxWindow)
  {
    var h := RepairGrid(g, rows, cols, minValid, maxWindow);
    var h2 := RepairGrid(h, rows, cols, minValid, maxWindow);
    forall i | 0 <= i < rows
      ensures h2[i] == h[i]
    {
      forall j | 0 <= j < cols
        ensures h2[i][j] == h[i][j]
      {
        assert !IsNegative(h[i][j]);
      }
    }
  }

  /** The grid of the worked example below. */
  function ExampleGrid(): (g: seq<seq<Cell>>)
    ensures IsGrid(g, 3, 3)
  {
    [[Defined(0.1), Defined(0.2), Defined(0.15)],
     [Defined(0.25), Defined(-0.3), Defined(0.3)],
     [Defined(-1.0), Undetermined, Defined(-1.0)]]
  }

  lemma ExampleWindowCells()
    ensures WindowCells(ExampleGrid(), 3, 3, WindowAt(1, 1, 3, 3, 3))
            == ExampleGrid()[0] + (ExampleGrid()[1] + (ExampleGrid()[2] + []))
  {
    var g := ExampleGrid();
    assert WindowAt(1, 1, 3, 3, 3) == Window(0, 3, 0, 3);
    assert g[0][0..3] == g[0] && g[1][0..3] == g[1] && g[2][0..3] == g[2];
    assert WindowCells(g, 3, 3, Window(3, 3, 0, 3)) == [];
    assert WindowCells(g, 3, 3, Window(2, 3, 0, 3)) == g[2] + [];
    assert WindowCells(g, 3, 3, Window(1, 3, 0, 3)) == g[1] + (g[2] + []);
  }

  lemma ExampleRowPositives()
    ensures PositiveValues(ExampleGrid()[0]) == [0.1, 0.2, 0.15]
    ensures PositiveValues(ExampleGrid()[1]) == [0.25, 0.3]
    ensures PositiveValues(ExampleGrid()[2]) == []
  {
    var g := ExampleGrid();
    assert g[0] == [Defined(0.1)] + ([Defined(0.2)] + [Defined(0.15)]);
    PositiveValuesAppend([Defined(0.2)], [Defined(0.15)]);
    PositiveValuesAppend([Defined(0.1)], [Defined(0.2), Defined(0.15)]);
    assert g[1] == [Defined(0.25)] + ([Defined(-0.3)] + [Defined(0.3)]);
    PositiveValuesAppend([Defined(-0.3)], [Defined(0.3)]);
    PositiveValuesAppend([Defined(0.25)], [Defined(-0.3), Defined(0.3)]);
    assert g[2] == [Defined(-1.0)] + ([Undetermined] + [Defined(-1.0)]);
    PositiveValuesAppend([Undetermined], [Defined(-1.0)]);
    PositiveValuesAppend([Defined(-1.0)], [Undetermined, Defined(-1.0)]);
  }

  lemma ExampleWindowPositives()
    ensures WindowPositives(ExampleGrid(), 3, 3, 1, 1, 3) == [0.1, 0.2, 0.15, 0.25, 0.3]
  {
    var g := ExampleGrid();
    ExampleWindowCells();
    ExampleRowPositives();
    PositiveValuesAppend(g[2], []);
    PositiveValuesAppend(g[1], g[2] + []);
    PositiveValuesAppend(g[0], g[1] + (g[2] + []));
  }

  /** The worked example: -0.3 whose 3 x 3 window holds the positives
      0.1, 0.2, 0.15, 0.25 and 0.3 becomes their mean 0.2. */
  lemma RepairExample()
    ensures Repaired(ExampleGrid(), 3, 3, 1, 1, DefaultMinValid, DefaultMaxWindow) == Defined(0.2)
  {
    var p := [0.1, 0.2, 0.15, 0.25, 0.3];
    ExampleWindowPositives();
    assert Sum([]) == 0.0;
    assert [0.1][..0] == [];
    assert Sum([0.1]) == 0.1;
    assert [0.1, 0.2][..1] == [0.1];
    assert Sum([0.1, 0.2]) == 0.3;
    assert [0.1, 0.2, 0.15][..2] == [0.1, 0.2];
    assert Sum([0.1, 0.2, 0.15]) == 0.45;
    assert [0.1, 0.2, 0.15, 0.25][..3] == [0.1, 0.2, 0.15];
    assert Sum([0.1, 0.2, 0.15, 0.25]) == 0.7;
    assert p[..4] == [0.1, 0.2, 0.15, 0.25];
    assert Sum(p) == 1.0;
    RepairUsesSmallestSufficientWindow(ExampleGrid(), 3, 3, 1, 1, DefaultMinValid, DefaultMaxWindow, 3);
  }
}
