/** Inverse-distance-weighted interpolation of the per-point relative
    sea-level rise onto the elevation grid. The nearest-neighbour query is
    outside the model: for every grid point (in row-major order) it supplies
    the indices of the K nearest known points and their distances. Cells
    whose elevation is not below the coastal threshold are masked out. */
module Interpolation {
  import opened Common

  /** Number of neighbours combined per grid point. */
  const K: nat := 8
  /** Added to every distance so that a coincident point has a finite weight. */
  const Epsilon: real := 0.00000001
  /** Cells at or above this elevation are not coastal and get no value. */
  const CoastalThreshold: real := 5.0

  /** The inverse-distance weight of a neighbour. */
  function Weight(d: real): (w: real)
    requires d >= 0.0
    ensures w > 0.0
    ensures w * (d + Epsilon) == 1.0
  {
    1.0 / (d + Epsilon)
  }

  /** Nearer neighbours weigh more: the drop in weight between two
      distances is their difference times the product of the two weights. */
  lemma WeightAntitone(d1: real, d2: real)
    requires 0.0 <= d1 <= d2
    ensures Weight(d1) - Weight(d2) == (d2 - d1) * Weight(d1) * Weight(d2)
    ensures Weight(d2) <= Weight(d1)
    ensures d1 < d2 ==> Weight(d2) < Weight(d1)
  {
    var w1, w2 := Weight(d1), Weight(d2);
    calc {
      (d2 - d1) * w1 * w2;
      ((d2 + Epsilon) - (d1 + Epsilon)) * w1 * w2;
      (d2 + Epsilon) * w2 * w1 - (d1 + Epsilon) * w1 * w2;
      w1 - w2;
    }
    ProductSign(d2 - d1, w1);
    ProductSign((d2 - d1) * w1, w2);
  }

  predicate AllNonNegative(s: seq<real>) {
    forall k :: 0 <= k < |s| ==> s[k] >= 0.0
  }

  predicate AllPositive(s: seq<real>) {
    forall k :: 0 <= k < |s| ==> s[k] > 0.0
  }

  function Weights(distances: seq<real>): (ws: seq<real>)
    requires AllNonNegative(distances)
    ensures |ws| == |distances| && AllPositive(ws)
    ensures forall k :: 0 <= k < |ws| ==> ws[k] == Weight(distances[k])
  {
    seq(|distances|, k requires 0 <= k < |distances| => Weight(distances[k]))
  }

  function Divided(s: seq<real>, c: real): (t: seq<real>)
    requires c != 0.0
    ensures |t| == |s|
    ensures forall k :: 0 <= k < |s| ==> t[k] == s[k] / c
  {
    seq(|s|, k requires 0 <= k < |s| => s[k] / c)
  }

  lemma DivideStep(total: real, x: real, c: real)
    requires c != 0.0
    ensures (total + x) / c == total / c + x / c
  {
  }

  /** Dividing every term divides the sum. */
  lemma {:induction false} SumDivided(s: seq<real>, c: real)
    requires c != 0.0
    ensures Sum(Divided(s, c)) == Sum(s) / c
    decreases |s|
  {
    if s != [] {
      var n := |s| - 1;
      assert Divided(s, c)[..n] == Divided(s[..n], c);
      SumDivided(s[..n], c);
      DivideStep(Sum(s[..n]), s[n], c);
    }
  }

  lemma DivideByPositive(x: real, c: real)
    requires x > 0.0 && c > 0.0
    ensures (x / c) * c == x && x / c > 0.0
  {
  }

  lemma DividedByPositive(ws: seq<real>, total: real)
    requires AllPositive(ws) && total > 0.0
    ensures AllPositive(Divided(ws, total))
    ensures forall k :: 0 <= k < |ws| ==> Divided(ws, total)[k] * total == ws[k]
  {
    forall k | 0 <= k < |ws|
      ensures Divided(ws, total)[k] * total == ws[k] && Divided(ws, total)[k] > 0.0
    {
      DivideByPositive(ws[k], total);
    }
  }

  lemma NormalisedWeights(ws: seq<real>)
    requires |ws| > 0 && AllPositive(ws)
    ensures Sum(ws) > 0.0
    ensures AllPositive(Divided(ws, Sum(ws)))
    ensures Sum(Divided(ws, Sum(ws))) == 1.0
  {
    var total := Sum(ws);
    SumPositive(ws);
    SumDivided(ws, total);
    DividedByPositive(ws, total);
    SelfDivide(total);
  }

  lemma SelfDivide(x: real)
    requires x != 0.0
    ensures x / x == 1.0
  {
  }

  /** Each row of weights divided by its own total: still positive, and
      summing to one. */
  function Normalise(ws: seq<real>): (ns: seq<real>)
    requires |ws| > 0 && AllPositive(ws)
    ensures |ns| == |ws| && AllPositive(ns)
    ensures Sum(ns) == 1.0
  {
    NormalisedWeights(ws);
    Divided(ws, Sum(ws))
  }

  lemma CancelPositive(a: real, b: real, t: real)
    requires t > 0.0 && a * t <= b * t
    ensures a <= b
  {
  }

  lemma Reassociate(x: real, u: real, t: real)
    ensures (x * u) * t == (x * t) * u
  {
  }

  /** A neighbour that coincides with the grid point outweighs every
      neighbour at distance D or more by the factor (D + Epsilon) / Epsilon,
      after normalisation as before it. */
  lemma {:induction false} CoincidentOutweighs(distances: seq<real>, k: nat, j: nat, D: real)
    requires |distances| > 0 && AllNonNegative(distances)
    requires k < |distances| && j < |distances| && distances[k] == 0.0 && distances[j] >= D > 0.0
    ensures Normalise(Weights(distances))[j] * (D + Epsilon) <= Normalise(Weights(distances))[k] * Epsilon
  {
    var ws := Weights(distances);
    WeightBeyond(distances[j], D);
    assert ws[k] * Epsilon == 1.0 by { assert ws[k] == Weight(0.0); }
    NormalisedRatio(ws, k, j, D + Epsilon);
  }

  lemma {:induction false} NormalisedRatio(ws: seq<real>, k: nat, j: nat, u: real)
    requires |ws| > 0 && AllPositive(ws) && k < |ws| && j < |ws|
    requires ws[k] * Epsilon == 1.0 && ws[j] * u <= 1.0
    ensures Normalise(ws)[j] * u <= Normalise(ws)[k] * Epsilon
  {
    var ns, total := Normalise(ws), Sum(ws);
    NormalisedEntry(ws, j);
    NormalisedEntry(ws, k);
    var nj, nk, wj, wk := ns[j], ns[k], ws[j], ws[k];
    assert nj * total == wj && nk * total == wk;
    RatioBound(nj, nk, total, wj, wk, u);
  }

  /** Each normalised weight times the total is the weight it came from. */
  lemma {:induction false} NormalisedEntry(ws: seq<real>, i: nat)
    requires |ws| > 0 && AllPositive(ws) && i < |ws|
    ensures Sum(ws) > 0.0
    ensures Normalise(ws)[i] * Sum(ws) == ws[i]
  {
    SumPositive(ws);
    NormaliseDivides(ws);
    DivideByPositive(ws[i], Sum(ws));
  }

  lemma {:induction false} NormaliseDivides(ws: seq<real>)
    requires |ws| > 0 && AllPositive(ws)
    ensures Sum(ws) > 0.0
    ensures Normalise(ws) == Divided(ws, Sum(ws))
  {
    SumPositive(ws);
  }

  /** Beyond distance D the weight is at most 1 / (D + Epsilon). */
  lemma WeightBeyond(d: real, D: real)
    requires d >= D > 0.0
    ensures Weight(d) * (D + Epsilon) <= 1.0
  {
    ScaleMonotone(D + Epsilon, d + Epsilon, Weight(d));
  }

  lemma RatioBound(nj: real, nk: real, total: real, wj: real, wk: real, u: real)
    requires total > 0.0 && nj * total == wj && nk * total == wk
    requires wk * Epsilon == 1.0 && wj * u <= 1.0
    ensures nj * u <= nk * Epsilon
  {
    Reassociate(nj, u, total);
    Reassociate(nk, Epsilon, total);
    CancelPositive(nj * u, nk * Epsilon, total);
  }

  lemma {:induction false} CoincidentOutweighsAll(distances: seq<real>, k: nat, D: real, ns: seq<real>)
    requires |distances| > 0 && AllNonNegative(distances)
    requires k < |distances| && distances[k] == 0.0 && D > 0.0
    requires forall j :: 0 <= j < |distances| && j != k ==> distances[j] >= D
    requires ns == Normalise(Weights(distances))
    ensures |ns| == |distances| && Sum(ns) == 1.0
    ensures forall j :: 0 <= j < |ns| && j != k ==> ns[j] * (D + Epsilon) <= ns[k] * Epsilon
  {
    forall j | 0 <= j < |ns| && j != k
      ensures ns[j] * (D + Epsilon) <= ns[k] * Epsilon
    {
      CoincidentOutweighs(distances, k, j, D);
    }
  }

  /** A list that is b everywhere except a at index k. */
  function Spike(n: nat, k: nat, a: real, b: real): (s: seq<real>)
    ensures |s| == n
    ensures forall i :: 0 <= i < n ==> s[i] == if i == k then a else b
  {
    seq(n, i requires 0 <= i < n => if i == k then a else b)
  }

  lemma AddOneMore(m: nat, b: real)
    ensures (m as real) * b + b == ((m + 1) as real) * b
  {
  }

  lemma {:induction false} SumSpike(n: nat, k: nat, a: real, b: real)
    requires k < n
    ensures Sum(Spike(n, k, a, b)) == a + ((n - 1) as real) * b
    decreases n
  {
    var s := Spike(n, k, a, b);
    var prefix := s[..n - 1];
    if k == n - 1 {
      SumBounds(prefix, b, b);
      assert Sum(prefix) == b * ((n - 1) as real);
    } else {
      assert prefix == Spike(n - 1, k, a, b);
      SumSpike(n - 1, k, a, b);
      AddOneMore(n - 2, b);
    }
  }

  /** When every other neighbour is at least D away, a coincident neighbour
      takes at least (D + Epsilon) / (D + n * Epsilon) of the total weight,
      so the interpolated value is all but its own. */
  lemma {:induction false} CoincidentNeighbourDominates(distances: seq<real>, k: nat, D: real)
    requires |distances| > 0 && AllNonNegative(distances)
    requires k < |distances| && distances[k] == 0.0 && D > 0.0
    requires forall j :: 0 <= j < |distances| && j != k ==> distances[j] >= D
    ensures Normalise(Weights(distances))[k] * (D + |distances| as real * Epsilon) >= D + Epsilon
  {
    var ns := Normalise(Weights(distances));
    CoincidentOutweighsAll(distances, k, D, ns);
    ShareBound(ns, k, D);
  }

  lemma {:induction false} ShareBound(ns: seq<real>, k: nat, D: real)
    requires k < |ns| && Sum(ns) == 1.0
    requires forall j :: 0 <= j < |ns| && j != k ==> ns[j] * (D + Epsilon) <= ns[k] * Epsilon
    ensures ns[k] * (D + |ns| as real * Epsilon) >= D + Epsilon
  {
    DominantShare(ns, k, D + Epsilon, Epsilon);
    FactorSpike(ns[k], D, |ns|);
  }

  /** Weights summing to one, each but the k-th at most e / u of the k-th:
      the k-th weight times u plus the n - 1 others' bounds reach u. */
  lemma {:induction false} DominantShare(ns: seq<real>, k: nat, u: real, e: real)
    requires k < |ns| && Sum(ns) == 1.0
    requires forall j :: 0 <= j < |ns| && j != k ==> ns[j] * u <= ns[k] * e
    ensures u <= ns[k] * u + ((|ns| - 1) as real) * (ns[k] * e)
  {
    ScaledBelowSpike(ns, k, u, e);
    SumScaled(ns, u);
    TimesOne(u, Sum(ns));
  }

  lemma {:induction false} ScaledBelowSpike(ns: seq<real>, k: nat, u: real, e: real)
    requires k < |ns|
    requires forall j :: 0 <= j < |ns| && j != k ==> ns[j] * u <= ns[k] * e
    ensures Sum(Scaled(ns, u)) <= ns[k] * u + ((|ns| - 1) as real) * (ns[k] * e)
  {
    var n, a, b := |ns|, ns[k] * u, ns[k] * e;
    var bound := Spike(n, k, a, b);
    SumSpike(n, k, a, b);
    forall i | 0 <= i < n
      ensures Scaled(ns, u)[i] <= bound[i]
    {
    }
    SumMonotone(Scaled(ns, u), bound);
  }

  lemma FactorSpike(x: real, D: real, n: nat)
    requires n > 0
    ensures x * (D + Epsilon) + ((n - 1) as real) * (x * Epsilon) == x * (D + n as real * Epsilon)
  {
    var m := (n - 1) as real;
    assert n as real == m + 1.0;
  }

  function Products(vals: seq<real>, ws: seq<real>): (p: seq<real>)
    requires |vals| == |ws|
    ensures |p| == |vals|
    ensures forall k :: 0 <= k < |vals| ==> p[k] == vals[k] * ws[k]
  {
    seq(|vals|, k requires 0 <= k < |vals| => vals[k] * ws[k])
  }

  /** The sum of value times weight over a neighbour list. */
  function WeightedSum(vals: seq<real>, ws: seq<real>): real
    requires |vals| == |ws|
  {
    Sum(Products(vals, ws))
  }

  function Scaled(s: seq<real>, c: real): (t: seq<real>)
    ensures |t| == |s|
    ensures forall k :: 0 <= k < |s| ==> t[k] == c * s[k]
  {
    seq(|s|, k requires 0 <= k < |s| => c * s[k])
  }

  lemma Distribute(c: real, total: real, x: real)
    ensures c * (total + x) == c * total + c * x
  {
  }

  /** Scaling every term scales the sum. */
  lemma {:induction false} SumScaled(s: seq<real>, c: real)
    ensures Sum(Scaled(s, c)) == c * Sum(s)
    decreases |s|
  {
    if s != [] {
      var n := |s| - 1;
      assert forall k :: 0 <= k < n ==> Scaled(s, c)[..n][k] == Scaled(s[..n], c)[k];
      assert Scaled(s, c)[..n] == Scaled(s[..n], c);
      SumScaled(s[..n], c);
      Distribute(c, Sum(s[..n]), s[n]);
    }
  }

  lemma ScaleMonotone(x: real, y: real, w: real)
    requires x <= y && w >= 0.0
    ensures x * w <= y * w
  {
    assert (y - x) * w >= 0.0;
  }

  lemma ProductsBetween(vals: seq<real>, ws: seq<real>, lo: real, hi: real)
    requires |vals| == |ws| && AllNonNegative(ws)
    requires forall k :: 0 <= k < |vals| ==> lo <= vals[k] <= hi
    ensures forall k :: 0 <= k < |vals| ==> Scaled(ws, lo)[k] <= Products(vals, ws)[k] <= Scaled(ws, hi)[k]
  {
    forall k | 0 <= k < |vals|
      ensures Scaled(ws, lo)[k] <= Products(vals, ws)[k] <= Scaled(ws, hi)[k]
    {
      ScaleMonotone(lo, vals[k], ws[k]);
      ScaleMonotone(vals[k], hi, ws[k]);
    }
  }

  /** With non-negative weights the weighted sum lies between the smallest
      and the largest value, each scaled by the total weight. */
  lemma WeightedSumBounds(vals: seq<real>, ws: seq<real>, lo: real, hi: real)
    requires |vals| == |ws| && AllNonNegative(ws)
    requires forall k :: 0 <= k < |vals| ==> lo <= vals[k] <= hi
    ensures lo * Sum(ws) <= WeightedSum(vals, ws) <= hi * Sum(ws)
  {
    ProductsBetween(vals, ws, lo, hi);
    SumMonotone(Scaled(ws, lo), Products(vals, ws));
    SumMonotone(Products(vals, ws), Scaled(ws, hi));
    SumScaled(ws, lo);
    SumScaled(ws, hi);
  }

  /** Weights that are non-negative and sum to one make the weighted sum a
      convex combination: it lies between the least and the greatest value. */
  lemma ConvexCombination(vals: seq<real>, ws: seq<real>)
    requires |vals| == |ws| > 0 && AllNonNegative(ws) && Sum(ws) == 1.0
    ensures SeqMin(vals) <= WeightedSum(vals, ws) <= SeqMax(vals)
  {
    var lo, hi, total := SeqMin(vals), SeqMax(vals), Sum(ws);
    WeightedSumBounds(vals, ws, lo, hi);
    TimesOne(lo, total);
    TimesOne(hi, total);
  }

  lemma TimesOne(x: real, one: real)
    requires one == 1.0
    ensures x * one == x
  {
  }

  function Gather(values: seq<real>, indices: seq<nat>): (g: seq<real>)
    requires forall k :: 0 <= k < |indices| ==> indices[k] < |values|
    ensures |g| == |indices|
    ensures forall k :: 0 <= k < |indices| ==> g[k] == values[indices[k]]
  {
    seq(|indices|, k requires 0 <= k < |indices| => values[indices[k]])
  }

  /** The least and the greatest of the neighbour values. They are kept
      apart from Analysis.Earliest and Analysis.Latest, which work on integer
      day numbers: Dafny type parameters carry no ordering, so one generic
      minimum would need a trait. */
  function SeqMin(s: seq<real>): (m: real)
    requires |s| > 0
    ensures m in s
    ensures forall k :: 0 <= k < |s| ==> m <= s[k]
  {
    if |s| == 1 then s[0]
    else
      var rest := SeqMin(s[1..]);
      assert forall k :: 1 <= k < |s| ==> s[k] == s[1..][k - 1];
      if s[0] <= rest then s[0] else rest
  }

  function SeqMax(s: seq<real>): (m: real)
    requires |s| > 0
    ensures m in s
    ensures forall k :: 0 <= k < |s| ==> s[k] <= m
  {
    if |s| == 1 then s[0]
    else
      var rest := SeqMax(s[1..]);
      assert forall k :: 1 <= k < |s| ==> s[k] == s[1..][k - 1];
      if s[0] >= rest then s[0] else rest
  }

  /** A neighbour list as the query returns it: non-empty, one distance per
      index, indices into the known points, distances non-negative. */
  predicate ValidNeighbours(values: seq<real>, indices: seq<nat>, distances: seq<real>) {
    |indices| == |distances| > 0 &&
    (forall k :: 0 <= k < |indices| ==> indices[k] < |values|) &&
    AllNonNegative(distances)
  }

  /** The interpolated value at one grid point: a convex combination of its
      neighbours' values, so it lies between the least and the greatest. */
  function IdwValue(values: seq<real>, indices: seq<nat>, distances: seq<real>): (v: real)
    requires ValidNeighbours(values, indices, distances)
    ensures SeqMin(Gather(values, indices)) <= v <= SeqMax(Gather(values, indices))
  {
    var near := Gather(values, indices);
    var ws := Normalise(Weights(distances));
    ConvexCombination(near, ws);
    WeightedSum(near, ws)
  }

  /** Neighbours that all carry the same value give that value. */
  lemma IdwOfConstant(values: seq<real>, indices: seq<nat>, distances: seq<real>, v: real)
    requires ValidNeighbours(values, indices, distances)
    requires forall k :: 0 <= k < |indices| ==> values[indices[k]] == v
    ensures IdwValue(values, indices, distances) == v
  {
    var near := Gather(values, indices);
    assert near[0] == v;
    assert SeqMin(near) == v && SeqMax(near) == v;
  }

  /** The interpolated value of every grid point, in query order. */
  function InterpolatedPoints(values: seq<real>, indices: seq<seq<nat>>, distances: seq<seq<real>>): (vs: seq<real>)
    requires |indices| == |distances|
    requires forall q :: 0 <= q < |indices| ==> ValidNeighbours(values, indices[q], distances[q])
    ensures |vs| == |indices|
    ensures forall q :: 0 <= q < |indices| ==> vs[q] == IdwValue(values, indices[q], distances[q])
  {
    seq(|indices|, q requires 0 <= q < |indices| => IdwValue(values, indices[q], distances[q]))
  }

  /** The grid points of a raster with column coordinates xs and row
      coordinates ys, enumerated row by row (y outer, x inner). */
  function GridPoints(xs: seq<real>, ys: seq<real>): (pts: seq<(real, real)>)
    ensures |pts| == CellCount(|ys|, |xs|)
  {
    var rows := seq(|ys|, r requires 0 <= r < |ys| => seq(|xs|, c requires 0 <= c < |xs| => (xs[c], ys[r])));
    FlattenLength(rows, |ys|, |xs|);
    Flatten(rows)
  }

  /** Point r * |xs| + c of the enumeration is the centre of cell (r, c). */
  lemma GridPointAt(xs: seq<real>, ys: seq<real>, r: nat, c: nat)
    requires r < |ys| && c < |xs|
    ensures RowMajor(r, c, |xs|) < |GridPoints(xs, ys)|
    ensures GridPoints(xs, ys)[RowMajor(r, c, |xs|)] == (xs[c], ys[r])
  {
    var rows := seq(|ys|, r requires 0 <= r < |ys| => seq(|xs|, c requires 0 <= c < |xs| => (xs[c], ys[r])));
    FlattenAt(rows, |ys|, |xs|, r, c);
  }

  /** A cell is coastal when its elevation is known and below the threshold
      (a missing elevation compares false). */
  predicate Coastal(elevation: Cell) {
    elevation.Defined? && elevation.value < CoastalThreshold
  }

  /** The raster kept on coastal cells only (xarray's `where`). */
  function Mask(raster: seq<seq<real>>, elevation: seq<seq<Cell>>, rows: nat, cols: nat): (g: seq<seq<Cell>>)
    requires IsGrid(raster, rows, cols) && IsGrid(elevation, rows, cols)
    ensures IsGrid(g, rows, cols)
    ensures forall r, c :: 0 <= r < rows && 0 <= c < cols ==>
              g[r][c] == if Coastal(elevation[r][c]) then Defined(raster[r][c]) else Undetermined
  {
    seq(rows, r requires 0 <= r < rows =>
      seq(cols, c requires 0 <= c < cols =>
        if Coastal(elevation[r][c]) then Defined(raster[r][c]) else Undetermined))
  }

  /** The k-d tree's neighbour query, `nearest(x, y)`: the indices of the
      known points nearest to (x, y) and their distances. */
  type Query = (real, real) -> (seq<nat>, seq<real>)

  /** The query is answered for every point of `pts`: at least K known
      points, and for every point K valid neighbours. */
  predicate NeighbourQuery(values: seq<real>, nearest: Query, pts: seq<(real, real)>) {
    |values| >= K &&
    forall q :: 0 <= q < |pts| ==>
      |nearest(pts[q].0, pts[q].1).0| == K &&
      ValidNeighbours(values, nearest(pts[q].0, pts[q].1).0, nearest(pts[q].0, pts[q].1).1)
  }

  /** `tree.query(grid_points, k=8)`: the index rows and the distance rows of
      all points, in the order of the points. */
  function QueryAll(nearest: Query, pts: seq<(real, real)>): (rows: (seq<seq<nat>>, seq<seq<real>>))
    ensures |rows.0| == |rows.1| == |pts|
    ensures forall q :: 0 <= q < |pts| ==>
              rows.0[q] == nearest(pts[q].0, pts[q].1).0 && rows.1[q] == nearest(pts[q].0, pts[q].1).1
  {
    (seq(|pts|, q requires 0 <= q < |pts| => nearest(pts[q].0, pts[q].1).0),
     seq(|pts|, q requires 0 <= q < |pts| => nearest(pts[q].0, pts[q].1).1))
  }

  /** The interpolated relative sea-level rise raster: the neighbour query
      run on the grid points, the values of all grid points reshaped to |ys|
      rows of |xs| cells and kept on coastal cells only. A cell is defined
      exactly when it is coastal. */
  function InterpolateRslr(xs: seq<real>, ys: seq<real>, elevation: seq<seq<Cell>>, values: seq<real>,
                           nearest: Query): (g: seq<seq<Cell>>)
    requires IsGrid(elevation, |ys|, |xs|)
    requires NeighbourQuery(values, nearest, GridPoints(xs, ys))
    ensures IsGrid(g, |ys|, |xs|)
    ensures forall r, c :: 0 <= r < |ys| && 0 <= c < |xs| ==> (g[r][c].Defined? <==> Coastal(elevation[r][c]))
  {
    var rows := QueryAll(nearest, GridPoints(xs, ys));
    var flat := InterpolatedPoints(values, rows.0, rows.1);
    Mask(Reshape(flat, |ys|, |xs|), elevation, |ys|, |xs|)
  }

  /** A coastal cell (r, c) holds the value interpolated from the neighbours
      of its own centre (xs[c], ys[r]). */
  lemma InterpolatedCell(xs: seq<real>, ys: seq<real>, elevation: seq<seq<Cell>>, values: seq<real>,
                         nearest: Query, r: nat, c: nat)
    requires IsGrid(elevation, |ys|, |xs|)
    requires NeighbourQuery(values, nearest, GridPoints(xs, ys))
    requires r < |ys| && c < |xs| && Coastal(elevation[r][c])
    ensures ValidNeighbours(values, nearest(xs[c], ys[r]).0, nearest(xs[c], ys[r]).1)
    ensures InterpolateRslr(xs, ys, elevation, values, nearest)[r][c]
            == Defined(IdwValue(values, nearest(xs[c], ys[r]).0, nearest(xs[c], ys[r]).1))
  {
    var pts := GridPoints(xs, ys);
    GridPointAt(xs, ys, r, c);
    var q := RowMajor(r, c, |xs|);
    assert pts[q] == (xs[c], ys[r]);
    var rows := QueryAll(nearest, pts);
    MaskedReshapeAt(InterpolatedPoints(values, rows.0, rows.1), elevation, |ys|, |xs|, r, c);
  }

  /** Cell (r, c) of a masked, reshaped coastal raster holds flat value r * cols + c. */
  lemma MaskedReshapeAt(flat: seq<real>, elevation: seq<seq<Cell>>, rows: nat, cols: nat, r: nat, c: nat)
    requires |flat| == CellCount(rows, cols) && IsGrid(elevation, rows, cols)
    requires r < rows && c < cols && Coastal(elevation[r][c])
    ensures RowMajor(r, c, cols) < |flat|
    ensures Mask(Reshape(flat, rows, cols), elevation, rows, cols)[r][c] == Defined(flat[RowMajor(r, c, cols)])
  {
    ReshapeAt(flat, rows, cols, r, c);
  }

  /** Every defined cell of the raster lies between the least and the
      greatest value of the neighbours it was interpolated from. */
  lemma InterpolatedWithinNeighbours(xs: seq<real>, ys: seq<real>, elevation: seq<seq<Cell>>, values: seq<real>,
                                     nearest: Query, r: nat, c: nat)
    requires IsGrid(elevation, |ys|, |xs|)
    requires NeighbourQuery(values, nearest, GridPoints(xs, ys))
    requires r < |ys| && c < |xs| && Coastal(elevation[r][c])
    ensures ValidNeighbours(values, nearest(xs[c], ys[r]).0, nearest(xs[c], ys[r]).1)
    ensures var near := Gather(values, nearest(xs[c], ys[r]).0);
            var cell := InterpolateRslr(xs, ys, elevation, values, nearest)[r][c];
            cell.Defined? && SeqMin(near) <= cell.value <= SeqMax(near)
  {
    InterpolatedCell(xs, ys, elevation, values, nearest, r, c);
  }

  /** Where all known points carry the same value v, every coastal cell is v. */
  lemma UniformRslrInterpolatesUniformly(xs: seq<real>, ys: seq<real>, elevation: seq<seq<Cell>>, values: seq<real>,
                                         nearest: Query, r: nat, c: nat, v: real)
    requires IsGrid(elevation, |ys|, |xs|)
    requires NeighbourQuery(values, nearest, GridPoints(xs, ys))
    requires forall k :: 0 <= k < |values| ==> values[k] == v
    requires r < |ys| && c < |xs| && Coastal(elevation[r][c])
    ensures InterpolateRslr(xs, ys, elevation, values, nearest)[r][c] == Defined(v)
  {
    InterpolatedCell(xs, ys, elevation, values, nearest, r, c);
    var near, dist := nearest(xs[c], ys[r]).0, nearest(xs[c], ys[r]).1;
    assert forall k :: 0 <= k < |near| ==> values[near[k]] == v;
    IdwOfConstant(values, near, dist, v);
  }
}
