/** Export helpers: the north-up affine geotransform built from a raster's
    coordinate vectors, the conversion of the risk grid to 8-bit pixels with
    a no-data value, and the 101-entry colour table that ramps through five
    anchor colours. */
module Utils {
  import opened Common

  /** An affine map from (column, row) to map coordinates:
      x = a * col + b * row + c and y = d * col + e * row + f. */
  datatype Affine = Affine(a: real, b: real, c: real, d: real, e: real, f: real)

  function Apply(t: Affine, col: real, row: real): (real, real) {
    (t.a * col + t.b * row + t.c, t.d * col + t.e * row + t.f)
  }

  /** The transform of a north-up raster whose upper-left corner is at
      (west, north) and whose pixels are xsize wide and ysize high. */
  function FromOrigin(west: real, north: real, xsize: real, ysize: real): (t: Affine)
    ensures Apply(t, 0.0, 0.0) == (west, north)
    ensures t.b == 0.0 && t.d == 0.0
  {
    Affine(xsize, 0.0, west, 0.0, -ysize, north)
  }

  /** Column col lies col pixel widths east of the origin, row row lies row
      pixel heights south of it. */
  lemma FromOriginMaps(west: real, north: real, xsize: real, ysize: real, col: real, row: real)
    ensures Apply(FromOrigin(west, north, xsize, ysize), col, row) == (west + col * xsize, north - row * ysize)
  {
    var t := FromOrigin(west, north, xsize, ysize);
    assert t.a * col == col * xsize && t.b * row == 0.0;
    assert t.d * col == 0.0 && t.e * row == -(row * ysize);
    assert Apply(t, col, row).0 == west + col * xsize;
    assert Apply(t, col, row).1 == north - row * ysize;
  }

  function Abs(x: real): (r: real)
    ensures r >= 0.0 && (r == x || r == -x)
  {
    if x < 0.0 then -x else x
  }

  /** The transform for a raster with column coordinates xs and row
      coordinates ys: its origin is the first coordinate pair, its pixel
      sizes are the distances between the first two coordinates. */
  function BuildTransform(xs: seq<real>, ys: seq<real>): (t: Affine)
    requires |xs| >= 2 && |ys| >= 2
    ensures Apply(t, 0.0, 0.0) == (xs[0], ys[0])
    ensures t.b == 0.0 && t.d == 0.0
    ensures t.a >= 0.0 && t.e <= 0.0
    ensures Apply(t, 1.0, 1.0) == (xs[0] + Abs(xs[1] - xs[0]), ys[0] - Abs(ys[1] - ys[0]))
  {
    FromOrigin(xs[0], ys[0], Abs(xs[1] - xs[0]), Abs(ys[1] - ys[0]))
  }

  /** Coordinates that step by `step` from the first one. */
  predicate EvenlySpaced(s: seq<real>, step: real) {
    forall k :: 0 <= k < |s| ==> s[k] == s[0] + k as real * step
  }

  /** For a raster whose x coordinates rise and whose y coordinates fall
      evenly, the transform maps the pixel index (c, r) to (xs[c], ys[r]). */
  lemma TransformFollowsCoordinates(xs: seq<real>, ys: seq<real>, dx: real, dy: real, c: nat, r: nat)
    requires |xs| >= 2 && |ys| >= 2
    requires dx >= 0.0 && dy >= 0.0
    requires EvenlySpaced(xs, dx) && EvenlySpaced(ys, -dy)
    requires c < |xs| && r < |ys|
    ensures Apply(BuildTransform(xs, ys), c as real, r as real) == (xs[c], ys[r])
  {
    assert xs[1] - xs[0] == dx;
    assert ys[1] - ys[0] == -dy;
    assert BuildTransform(xs, ys) == FromOrigin(xs[0], ys[0], dx, dy);
    FromOriginMaps(xs[0], ys[0], dx, dy, c as real, r as real);
    assert xs[c] == xs[0] + c as real * dx;
    assert ys[r] == ys[0] - r as real * dy;
    var p := Apply(BuildTransform(xs, ys), c as real, r as real);
    assert p.0 == xs[c] && p.1 == ys[r];
  }

  /** The absolute values discard the direction of the coordinates: rising
      and falling coordinate vectors with the same first point and the same
      spacing give the same transform. */
  lemma TransformIgnoresDirection(x0: real, y0: real, dx: real, dy: real)
    ensures BuildTransform([x0, x0 + dx], [y0, y0 + dy]) == BuildTransform([x0, x0 - dx], [y0, y0 - dy])
  {
    assert Abs((x0 + dx) - x0) == Abs((x0 - dx) - x0);
    assert Abs((y0 + dy) - y0) == Abs((y0 - dy) - y0);
  }

  /** The default no-data value of save_colormapped_tif. */
  const DefaultNodata: int := 255

  /** One exported pixel: an undetermined cell becomes the no-data value; a
      defined value is rounded to the nearest whole number (halves to even)
      and clipped into 0..100, which the 8-bit cast keeps. */
  function ExportCell(c: Cell, nodata: int): (v: int)
    requires 0 <= nodata <= 255
    ensures 0 <= v <= 255
    ensures c.Undetermined? ==> v == nodata
    ensures c.Defined? ==> 0 <= v <= 100
    ensures c.Defined? && 0.0 <= c.value <= 100.0 ==> c.value - 0.5 <= v as real <= c.value + 0.5
    ensures c.Defined? && 0.0 <= c.value <= 100.0 && (v as real - c.value == 0.5 || c.value - v as real == 0.5)
            ==> v % 2 == 0
    ensures c.Defined? && c.value < 0.0 ==> v == 0
    ensures c.Defined? && c.value > 100.0 ==> v == 100
  {
    match c
    case Undetermined => nodata
    case Defined(x) => Clip(RoundHalfEven(x) as real, 0.0, 100.0).Floor
  }

  function ExportGrid(g: seq<seq<Cell>>, rows: nat, cols: nat, nodata: int): (data: seq<seq<int>>)
    requires IsGrid(g, rows, cols) && 0 <= nodata <= 255
    ensures IsGrid(data, rows, cols)
    ensures forall r, c :: 0 <= r < rows && 0 <= c < cols ==> data[r][c] == ExportCell(g[r][c], nodata)
  {
    seq(rows, r requires 0 <= r < rows => seq(cols, c requires 0 <= c < cols => ExportCell(g[r][c], nodata)))
  }

  /** A risk score, a whole number in 0..100, is exported unchanged. */
  lemma ExportKeepsScores(x: real, n: int, nodata: int)
    requires 0 <= nodata <= 255
    requires 0 <= n <= 100 && x == n as real
    ensures ExportCell(Defined(x), nodata) == n
  {
    RoundHalfEvenUnique(x, n);
  }

  /** With a no-data value above 100 (255 by default) an exported pixel is
      no-data exactly when the cell was undetermined: undetermined stays
      distinguishable from every score, zero included. */
  lemma NodataDistinguishable(c: Cell, nodata: int)
    requires 100 < nodata <= 255
    ensures ExportCell(c, nodata) == nodata <==> c.Undetermined?
    ensures ExportCell(c, DefaultNodata) == DefaultNodata <==> c.Undetermined?
  {
  }

  /** A colour-table entry. */
  datatype Rgb = Rgb(red: int, green: int, blue: int)

  /** Channel j (0 red, 1 green, 2 blue). */
  function Channel(c: Rgb, j: nat): int
    requires j < 3
  {
    if j == 0 then c.red else if j == 1 then c.green else c.blue
  }

  /** The colours given for 0, 25, 50, 75 and 100: white, yellow, orange,
      red and dark red. */
  function Anchors(): map<int, Rgb> {
    map[0 := Rgb(255, 255, 255), 25 := Rgb(255, 255, 0), 50 := Rgb(255, 165, 0),
        75 := Rgb(255, 0, 0), 100 := Rgb(128, 0, 0)]
  }

  /** The least anchor at or above i. */
  function NextAnchor(i: int): (a: int)
    requires 0 <= i <= 100
    ensures a in Anchors() && i <= a
    ensures forall b :: b in Anchors() && i <= b ==> a <= b
  {
    if i <= 0 then 0 else if i <= 25 then 25 else if i <= 50 then 50 else if i <= 75 then 75 else 100
  }

  /** The greatest anchor at or below i. */
  function PrevAnchor(i: int): (a: int)
    requires 0 <= i <= 100
    ensures a in Anchors() && a <= i
    ensures forall b :: b in Anchors() && b <= i ==> b <= a
  {
    if i >= 100 then 100 else if i >= 75 then 75 else if i >= 50 then 50 else if i >= 25 then 25 else 0
  }

  /** The greatest key at or below i. */
  function GreatestKeyAtMost(keys: set<int>, i: int): (k: int)
    requires 0 in keys && 0 <= i
    ensures k in keys && 0 <= k <= i
    ensures forall j :: k < j <= i ==> j !in keys
    decreases i
  {
    if i in keys then i else GreatestKeyAtMost(keys, i - 1)
  }

  /** The least key at or above i. */
  function LeastKeyAtLeast(keys: set<int>, i: int): (k: int)
    requires 100 in keys && i <= 100
    ensures k in keys && i <= k <= 100
    ensures forall j :: i <= j < k ==> j !in keys
    decreases 100 - i
  {
    if i in keys then i else LeastKeyAtLeast(keys, i + 1)
  }

  /** One channel f of the way from lo to hi, truncated as int() does. */
  function BlendChannel(lo: int, hi: int, f: real): int {
    Trunc(Lerp(lo as real, hi as real, f))
  }

  /** f of the way from a to b. */
  function Lerp(a: real, b: real, f: real): real {
    a * (1.0 - f) + b * f
  }

  /** The `tuple(... for j in range(3))`: each channel blended on its own. */
  function Blend(lo: Rgb, hi: Rgb, f: real): (c: Rgb)
    ensures forall j :: 0 <= j < 3 ==> Channel(c, j) == BlendChannel(Channel(lo, j), Channel(hi, j), f)
  {
    Rgb(BlendChannel(lo.red, hi.red, f), BlendChannel(lo.green, hi.green, f), BlendChannel(lo.blue, hi.blue, f))
  }

  /** Where i lies between lower and upper, as a fraction. */
  function Fraction(i: int, lower: int, upper: int): (f: real)
    requires lower <= i <= upper && lower < upper
    ensures 0.0 <= f <= 1.0
  {
    UnitFraction((i - lower) as real, (upper - lower) as real);
    (i - lower) as real / (upper - lower) as real
  }

  lemma UnitFraction(n: real, d: real)
    requires 0.0 <= n <= d && 0.0 < d
    ensures 0.0 <= n / d <= 1.0
  {
    assert n / d * d == n;
  }

  /** The colour of key i, defined independently of any table: an anchor
      keeps its colour, every other key is blended from the colour of key
      i - 1 towards the next anchor, 1 / (next - i + 1) of the way. */
  function Colour(i: int): Rgb
    requires 0 <= i <= 100
    decreases i
  {
    if i in Anchors() then Anchors()[i]
    else Blend(Colour(i - 1), Anchors()[NextAnchor(i)], Fraction(i, i - 1, NextAnchor(i)))
  }

  /** An anchor keeps its colour; any other key i lies after key 0 and is
      the colour of key i - 1 moved 1 / (next anchor - i + 1) of the way
      towards the next anchor. */
  lemma ColourStep(i: int)
    requires 0 <= i <= 100
    ensures i in Anchors() ==> Colour(i) == Anchors()[i]
    ensures i !in Anchors() ==>
              0 < i && Colour(i) == Blend(Colour(i - 1), Anchors()[NextAnchor(i)], 1.0 / (NextAnchor(i) - i + 1) as real)
  {
    if i !in Anchors() {
      assert i - (i - 1) == 1 && NextAnchor(i) - (i - 1) == NextAnchor(i) - i + 1;
    }
  }

  /** While the loop is at key i, the table holds the anchors and the keys
      below i; for a key i it does not hold, the greatest key below is i - 1
      and the least key above is the next anchor. */
  lemma NeighbourKeys(keys: set<int>, i: int)
    requires 0 <= i <= 100 && i !in keys
    requires forall k :: k in keys <==> k in Anchors() || 0 <= k < i
    ensures GreatestKeyAtMost(keys, i) == i - 1
    ensures LeastKeyAtLeast(keys, i) == NextAnchor(i)
  {
    assert i - 1 in keys;
    assert NextAnchor(i) in keys;
  }

  /** The table as the loop leaves it before key i: the anchors and every
      key below i, each with its colour. */
  ghost predicate FilledBelow(colormap: map<int, Rgb>, i: int) {
    (forall k :: k in colormap <==> k in Anchors() || 0 <= k < i) &&
    (forall k :: k in colormap ==> 0 <= k <= 100 && colormap[k] == Colour(k))
  }

  /** Filling key i from the keys around it extends the table by one key. */
  lemma FillStep(colormap: map<int, Rgb>, i: int, lower: int, upper: int, f: real)
    requires 0 <= i <= 100 && i !in colormap && FilledBelow(colormap, i)
    requires lower == i - 1 && upper == NextAnchor(i)
    requires f == (i - lower) as real / (upper - lower) as real
    ensures lower in colormap && upper in colormap
    ensures FilledBelow(colormap[i := Blend(colormap[lower], colormap[upper], f)], i + 1)
  {
    assert lower in colormap && upper in colormap;
    assert i !in Anchors();
    assert colormap[upper] == Anchors()[upper];
    assert i - lower == 1 && upper - lower == NextAnchor(i) - i + 1;
    assert f == 1.0 / (NextAnchor(i) - i + 1) as real;
    ColourStep(i);
    var filled := colormap[i := Blend(colormap[lower], colormap[upper], f)];
    assert filled[i] == Colour(i);
    forall k | k in filled
      ensures 0 <= k <= 100 && filled[k] == Colour(k)
    {
      if k != i {
        assert k in colormap;
      }
    }
  }

  /** Before the loop the table holds exactly the anchors, with their colours. */
  lemma AnchorsFilled()
    ensures FilledBelow(Anchors(), 0)
  {
    forall k | k in Anchors()
      ensures 0 <= k <= 100 && Anchors()[k] == Colour(k)
    {
    }
  }

  /** A key the table already holds is left as it is. */
  lemma SkipStep(colormap: map<int, Rgb>, i: int)
    requires 0 <= i <= 100 && i in colormap && FilledBelow(colormap, i)
    ensures FilledBelow(colormap, i + 1)
  {
  }

  /** After key 100 the table holds every key 0..100 with its colour. */
  lemma FilledAll(colormap: map<int, Rgb>)
    requires FilledBelow(colormap, 101)
    ensures forall i :: i in colormap <==> 0 <= i <= 100
    ensures forall i :: 0 <= i <= 100 ==> colormap[i] == Colour(i)
  {
  }

  /** The colour-table loop: for keys 0..100 in order, a key not yet in the
      table is interpolated between the greatest key below it and the least
      key above it that the table holds at that moment. */
  method BuildColormap() returns (colormap: map<int, Rgb>)
    ensures forall i :: i in colormap <==> 0 <= i <= 100
    ensures forall i :: 0 <= i <= 100 ==> colormap[i] == Colour(i)
    ensures forall a :: a in Anchors() ==> colormap[a] == Anchors()[a]
  {
    colormap := Anchors();
    AnchorsFilled();
    for i := 0 to 101
      invariant FilledBelow(colormap, i)
    {
      if i in colormap {
        SkipStep(colormap, i);
      } else {
        var lower := GreatestKeyAtMost(colormap.Keys, i);
        var upper := LeastKeyAtLeast(colormap.Keys, i);
        NeighbourKeys(colormap.Keys, i);
        if lower == upper {
          assert false;
        } else {
          var f := (i - lower) as real / (upper - lower) as real;
          FillStep(colormap, i, lower, upper, f);
          colormap := colormap[i := Blend(colormap[lower], colormap[upper], f)];
        }
      }
    }
    FilledAll(colormap);
  }

  /** x lies between a and b, whichever of the two is larger. */
  predicate Between(x: int, a: int, b: int) {
    (a <= b ==> a <= x <= b) && (b <= a ==> b <= x <= a)
  }

  /** A blended channel lies between the two channels it blends. */
  lemma BlendChannelBetween(lo: int, hi: int, f: real)
    requires 0 <= lo && 0 <= hi && 0.0 <= f <= 1.0
    ensures Between(BlendChannel(lo, hi, f), lo, hi)
  {
    LerpWithin(lo as real, hi as real, f);
    if lo <= hi {
      TruncWithin(Lerp(lo as real, hi as real, f), lo, hi);
    } else {
      TruncWithin(Lerp(lo as real, hi as real, f), hi, lo);
    }
  }

  /** How far a blend lies from either end. */
  lemma LerpGaps(a: real, b: real, f: real)
    ensures Lerp(a, b, f) - a == (b - a) * f
    ensures b - Lerp(a, b, f) == (b - a) * (1.0 - f)
  {
  }

  /** A blend with a fraction in [0, 1] lies between its two ends. */
  lemma LerpWithin(a: real, b: real, f: real)
    requires 0.0 <= f <= 1.0
    ensures a <= b ==> a <= Lerp(a, b, f) <= b
    ensures b <= a ==> b <= Lerp(a, b, f) <= a
  {
    LerpGaps(a, b, f);
    if a <= b {
      ProductSign(b - a, f);
      ProductSign(b - a, 1.0 - f);
    } else {
      ProductSign(a - b, 1.0 - f);
      ProductSign(a - b, f);
    }
  }

  /** Going from key i - 1 to key i stays between the same two anchors,
      unless key i - 1 is itself the lower anchor. */
  lemma AnchorStep(i: int)
    requires 0 < i <= 100 && i !in Anchors()
    ensures PrevAnchor(i - 1) == PrevAnchor(i)
    ensures NextAnchor(i - 1) == NextAnchor(i) || NextAnchor(i - 1) == i - 1 == PrevAnchor(i)
  {
  }

  /** Key i - 1 lies between the anchors around key i as it does between
      its own: either they are the same anchors, or key i - 1 is itself the
      lower anchor. */
  lemma StillBetween(i: int, j: nat)
    requires 0 < i <= 100 && i !in Anchors() && j < 3
    ensures Between(Channel(Colour(i - 1), j), Channel(Anchors()[PrevAnchor(i - 1)], j), Channel(Anchors()[NextAnchor(i - 1)], j))
            ==> Between(Channel(Colour(i - 1), j), Channel(Anchors()[PrevAnchor(i)], j), Channel(Anchors()[NextAnchor(i)], j))
  {
    AnchorStep(i);
    if NextAnchor(i - 1) != NextAnchor(i) {
      ColourStep(i - 1);
    }
  }

  lemma AnchorChannel(a: int, j: nat)
    requires a in Anchors() && j < 3
    ensures 0 <= Channel(Anchors()[a], j) <= 255
  {
  }

  /** Every channel of a non-anchor key lies between the same channel of
      the anchors around it. */
  lemma {:induction false} ColourBetweenAnchors(i: int, j: nat)
    requires 0 <= i <= 100 && j < 3
    ensures Between(Channel(Colour(i), j), Channel(Anchors()[PrevAnchor(i)], j), Channel(Anchors()[NextAnchor(i)], j))
    decreases i
  {
    if i !in Anchors() {
      var lo := Channel(Anchors()[PrevAnchor(i)], j);
      var hi := Channel(Anchors()[NextAnchor(i)], j);
      ColourStep(i);
      var before := Channel(Colour(i - 1), j);
      ColourBetweenAnchors(i - 1, j);
      StillBetween(i, j);
      AnchorChannel(PrevAnchor(i), j);
      AnchorChannel(NextAnchor(i), j);
      var f := 1.0 / (NextAnchor(i) - i + 1) as real;
      UnitFraction(1.0, (NextAnchor(i) - i + 1) as real);
      assert Channel(Colour(i), j) == BlendChannel(before, hi, f);
      BlendChannelBetween(before, hi, f);
    }
  }

  /** Every channel of the table is a valid 8-bit value. */
  lemma ColourChannelRange(i: int, j: nat)
    requires 0 <= i <= 100 && j < 3
    ensures 0 <= Channel(Colour(i), j) <= 255
  {
    ColourBetweenAnchors(i, j);
  }

  /** The colour a key would get by blending its two anchors directly. */
  function DirectColour(i: int): Rgb
    requires 0 <= i <= 100
  {
    if i in Anchors() then Anchors()[i]
    else Blend(Anchors()[PrevAnchor(i)], Anchors()[NextAnchor(i)], Fraction(i, PrevAnchor(i), NextAnchor(i)))
  }

  /** Blending from the previous key truncates at every step, so the table
      departs from direct blending between anchors: key 28 gets green 243
      where direct blending gives 244. */
  lemma ChainedBlendDiffersFromDirect()
    ensures Colour(28).green == 243
    ensures DirectColour(28).green == 244
  {
    assert Colour(25) == Rgb(255, 255, 0);
    assert BlendChannel(255, 165, 1.0 / 25.0) == 251;
    assert Colour(26).green == 251;
    assert BlendChannel(251, 165, 1.0 / 24.0) == 247;
    assert Colour(27).green == 247;
    assert BlendChannel(247, 165, 1.0 / 23.0) == 243;
    assert BlendChannel(255, 165, 3.0 / 25.0) == 244;
  }
}
