/** Shared numeric vocabulary: grid cells with an explicit "undetermined" tag
    (the NaN of the original arrays), sums and means of real sequences, the
    clip / round / truncate operations numpy applies, and row-major
    flattening of grids. */
module Common {

  /** One raster cell. `Undetermined` stands for NaN: no value could be
      computed or recovered for the cell. */
  datatype Cell = Undetermined | Defined(value: real)

  predicate IsNegative(c: Cell) { c.Defined? && c.value < 0.0 }

  predicate IsPositive(c: Cell) { c.Defined? && c.value > 0.0 }

  /** `g` is a rows x cols grid (every row has the same length). */
  predicate IsGrid<T>(g: seq<seq<T>>, rows: nat, cols: nat) {
    |g| == rows && forall r :: 0 <= r < rows ==> |g[r]| == cols
  }

  function Sum(s: seq<real>): real {
    if s == [] then 0.0 else Sum(s[..|s| - 1]) + s[|s| - 1]
  }

  /** The arithmetic mean, as numpy's `mean` computes it on a non-empty array. */
  function Mean(s: seq<real>): real
    requires |s| > 0
  {
    Sum(s) / |s| as real
  }

  lemma {:induction false} SumBounds(s: seq<real>, lo: real, hi: real)
    requires forall k :: 0 <= k < |s| ==> lo <= s[k] <= hi
    ensures lo * |s| as real <= Sum(s) <= hi * |s| as real
    decreases |s|
  {
    if s != [] {
      var n := |s| - 1;
      SumBounds(s[..n], lo, hi);
      assert lo * (n + 1) as real == lo * n as real + lo;
      assert hi * (n + 1) as real == hi * n as real + hi;
    }
  }

  /** The mean lies between any lower and upper bound of the elements. */
  lemma MeanBetween(s: seq<real>, lo: real, hi: real)
    requires |s| > 0
    requires forall k :: 0 <= k < |s| ==> lo <= s[k] <= hi
    ensures lo <= Mean(s) <= hi
  {
    SumBounds(s, lo, hi);
    var n := |s| as real;
    assert lo * n <= Sum(s) <= hi * n;
    assert Mean(s) * n == Sum(s);
  }

  /** The mean of strictly positive values is strictly positive. */
  lemma {:induction false} MeanOfPositives(s: seq<real>)
    requires |s| > 0
    requires forall x :: x in s ==> x > 0.0
    ensures Mean(s) > 0.0
  {
    assert forall k :: 0 <= k < |s| ==> s[k] in s;
    SumPositive(s);
  }

  /** Sums respect pointwise order. */
  lemma {:induction false} SumMonotone(a: seq<real>, b: seq<real>)
    requires |a| == |b|
    requires forall k :: 0 <= k < |a| ==> a[k] <= b[k]
    ensures Sum(a) <= Sum(b)
    decreases |a|
  {
    if a != [] {
      SumMonotone(a[..|a| - 1], b[..|b| - 1]);
    }
  }

  lemma {:induction false} SumPositive(s: seq<real>)
    requires |s| > 0
    requires forall k :: 0 <= k < |s| ==> s[k] > 0.0
    ensures Sum(s) > 0.0
    decreases |s|
  {
    if |s| > 1 {
      SumPositive(s[..|s| - 1]);
    }
  }

  lemma ProductSign(u: real, v: real)
    requires 0.0 <= u && 0.0 <= v
    ensures 0.0 <= u * v
    ensures 0.0 < u && 0.0 < v ==> 0.0 < u * v
  {
  }

  /** numpy's `clip(x, lo, hi)`, i.e. `minimum(maximum(x, lo), hi)`. */
  function Clip(x: real, lo: real, hi: real): (r: real)
    requires lo <= hi
    ensures lo <= r <= hi
    ensures lo <= x <= hi ==> r == x
    ensures x < lo ==> r == lo
    ensures hi < x ==> r == hi
  {
    if x < lo then lo else if hi < x then hi else x
  }

  /** numpy's `round`: to the nearest integer, halves to the even neighbour. */
  function RoundHalfEven(x: real): (n: int)
    ensures x - 0.5 <= n as real <= x + 0.5
    ensures (n as real - x == 0.5 || x - n as real == 0.5) ==> n % 2 == 0
  {
    var f := x.Floor;
    var d := x - f as real;
    if d < 0.5 then f
    else if d > 0.5 then f + 1
    else if f % 2 == 0 then f
    else f + 1
  }

  /** The two clauses of RoundHalfEven's contract leave no choice: any
      integer within one half of `x`, even on a tie, is RoundHalfEven(x). */
  lemma RoundHalfEvenUnique(x: real, n: int)
    requires x - 0.5 <= n as real <= x + 0.5
    requires (n as real - x == 0.5 || x - n as real == 0.5) ==> n % 2 == 0
    ensures n == RoundHalfEven(x)
  {
  }

  /** Rounding maps [lo, hi] with integral bounds into [lo, hi]. */
  lemma RoundWithin(x: real, lo: int, hi: int)
    requires lo as real <= x <= hi as real
    ensures lo <= RoundHalfEven(x) <= hi
  {
  }

  /** Python's `int(x)` and numpy's cast of a float to an integer type:
      truncation toward zero. */
  function Trunc(x: real): (n: int)
    ensures 0.0 <= x ==> 0 <= n && n as real <= x < n as real + 1.0
    ensures x < 0.0 ==> n <= 0 && n as real - 1.0 < x <= n as real
  {
    if x >= 0.0 then x.Floor else -((-x).Floor)
  }

  /** Truncating a value between two non-negative integers stays between them. */
  lemma TruncWithin(x: real, lo: int, hi: int)
    requires 0 <= lo && lo as real <= x <= hi as real
    ensures lo <= Trunc(x) <= hi
  {
  }

  /** Position of cell (r, c) when the cells of a grid with `cols` columns
      are laid out row after row. Counted up one row at a time, so that
      proofs about positions stay linear; RowMajorIsProduct shows it is
      r * cols + c. */
  function RowMajor(r: nat, c: nat, cols: nat): nat
    decreases r
  {
    if r == 0 then c else cols + RowMajor(r - 1, c, cols)
  }

  /** The number of cells of a rows x cols grid. */
  function CellCount(rows: nat, cols: nat): nat {
    RowMajor(rows, 0, cols)
  }

  lemma {:induction false} RowMajorIsProduct(r: nat, c: nat, cols: nat)
    ensures RowMajor(r, c, cols) == r * cols + c
    decreases r
  {
    if r > 0 {
      RowMajorIsProduct(r - 1, c, cols);
      assert r * cols == cols + (r - 1) * cols;
    }
  }

  /** Every cell of a rows x cols grid has a position below the cell count. */
  lemma {:induction false} RowMajorBound(rows: nat, cols: nat, r: nat, c: nat)
    requires r < rows && c < cols
    ensures RowMajor(r, c, cols) < CellCount(rows, cols)
    decreases rows
  {
    if r < rows - 1 {
      RowMajorBound(rows - 1, cols, r, c);
    } else {
      RowMajorAt(r, c, cols);
    }
  }

  lemma {:induction false} RowMajorAt(r: nat, c: nat, cols: nat)
    ensures RowMajor(r, c, cols) == RowMajor(r, 0, cols) + c
    decreases r
  {
    if r > 0 {
      RowMajorAt(r - 1, c, cols);
    }
  }

  /** numpy's `ravel`: the rows of a grid laid end to end (row-major). */
  function Flatten<T>(g: seq<seq<T>>): seq<T> {
    if g == [] then [] else g[0] + Flatten(g[1..])
  }

  /** numpy's `reshape(rows, cols)` of a flat array of rows * cols values. */
  function Reshape<T>(flat: seq<T>, rows: nat, cols: nat): (g: seq<seq<T>>)
    requires |flat| == CellCount(rows, cols)
    ensures IsGrid(g, rows, cols)
    decreases rows
  {
    if rows == 0 then [] else [flat[..cols]] + Reshape(flat[cols..], rows - 1, cols)
  }

  /** In row-major order cell (r, c) of a rows x cols grid sits at r * cols + c. */
  lemma {:induction false} FlattenAt<T>(g: seq<seq<T>>, rows: nat, cols: nat, r: nat, c: nat)
    requires IsGrid(g, rows, cols) && r < rows && c < cols
    ensures |Flatten(g)| == CellCount(rows, cols)
    ensures RowMajor(r, c, cols) < CellCount(rows, cols)
    ensures Flatten(g)[RowMajor(r, c, cols)] == g[r][c]
    decreases rows
  {
    FlattenLength(g, rows, cols);
    RowMajorBound(rows, cols, r, c);
    if r > 0 {
      FlattenAt(g[1..], rows - 1, cols, r - 1, c);
    }
  }

  lemma {:induction false} FlattenLength<T>(g: seq<seq<T>>, rows: nat, cols: nat)
    requires IsGrid(g, rows, cols)
    ensures |Flatten(g)| == CellCount(rows, cols)
    decreases rows
  {
    if rows > 0 {
      FlattenLength(g[1..], rows - 1, cols);
    }
  }

  /** Reshape reads cell (r, c) from position r * cols + c. */
  lemma {:induction false} ReshapeAt<T>(flat: seq<T>, rows: nat, cols: nat, r: nat, c: nat)
    requires |flat| == CellCount(rows, cols) && r < rows && c < cols
    ensures RowMajor(r, c, cols) < |flat|
    ensures Reshape(flat, rows, cols)[r][c] == flat[RowMajor(r, c, cols)]
    decreases rows
  {
    RowMajorBound(rows, cols, r, c);
    var g := Reshape(flat, rows, cols);
    var rest := flat[cols..];
    assert g == [flat[..cols]] + Reshape(rest, rows - 1, cols);
    if r > 0 {
      ReshapeAt(rest, rows - 1, cols, r - 1, c);
      assert g[r] == Reshape(rest, rows - 1, cols)[r - 1];
      assert rest[RowMajor(r - 1, c, cols)] == flat[RowMajor(r, c, cols)];
    }
  }

  /** Reshaping a raveled grid gives the grid back. */
  lemma ReshapeFlatten<T>(g: seq<seq<T>>, rows: nat, cols: nat)
    requires IsGrid(g, rows, cols)
    ensures |Flatten(g)| == CellCount(rows, cols)
    ensures Reshape(Flatten(g), rows, cols) == g
  {
    FlattenLength(g, rows, cols);
    var h := Reshape(Flatten(g), rows, cols);
    forall r | 0 <= r < rows
      ensures h[r] == g[r]
    {
      forall c | 0 <= c < cols
        ensures h[r][c] == g[r][c]
      {
        ReshapeAt(Flatten(g), rows, cols, r, c);
        FlattenAt(g, rows, cols, r, c);
      }
    }
  }
}
