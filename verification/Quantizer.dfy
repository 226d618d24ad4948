/**
 `quantize`, `reconstruct` and the error bound of bench/rabitq_sim.py: a symmetric uniform grid
 on the rotated, centred residual, with one scale per vector.
 */
module Quantizer {
  import opened Collections
  import opened Wrappers
  import opened Sums
  import opened Rotations

  /** A quantised corpus; level vectors are indexed like the corpus. */
  datatype Code = Code(levels: seq<map<int, int>>, scale: seq<real>, centroid: Vector, rotation: Matrix, bits: nat)

  function Pow2(n: nat): (r: nat)
    ensures r >= 1
  {
    if n == 0 then 1 else 2 * Pow2(n - 1)
  }

  /** `_grid_levels`: the number of intervals of the grid. */
  function GridLevels(bits: nat): (g: nat)
    ensures bits >= 1 ==> g >= 1
  {
    Pow2(bits) - 1
  }

  /** `np.rint`: to the nearest integer, halves to the even one. */
  function Rint(x: real): (r: int)
    ensures r as real - 0.5 <= x <= r as real + 0.5
    ensures x == r as real - 0.5 || x == r as real + 0.5 ==> r % 2 == 0
  {
    var f := x.Floor;
    var d := x - f as real;
    if d < 0.5 then f
    else if d > 0.5 then f + 1
    else if f % 2 == 0 then f else f + 1
  }

  function Clip(v: int, lo: int, hi: int): int {
    if v < lo then lo else if v > hi then hi else v
  }

  const TINY: real := 0.000000000001

  function MaxAbs(r: Vector, n: nat): (m: real)
    ensures m >= 0.0 && forall j :: 0 <= j < n ==> Abs(Get(r, j)) <= m
    ensures m == 0.0 || exists j :: 0 <= j < n && Abs(Get(r, j)) == m
  {
    if n == 0 then 0.0
    else
      var rest := MaxAbs(r, n - 1);
      if Abs(Get(r, n - 1)) > rest then Abs(Get(r, n - 1)) else rest
  }

  /** The absolute value of some component, or 10^-12 where all are smaller. */
  ghost predicate IsScale(s: real, r: Vector, dim: nat) {
    && s >= 0.000000000001 && (forall j :: 0 <= j < dim ==> Abs(Get(r, j)) <= s)
    && (s == 0.000000000001 || exists j :: 0 <= j < dim && Abs(Get(r, j)) == s)
  }

  /** The largest component, kept away from zero. */
  function Scale(r: Vector, dim: nat): (s: real)
    ensures s > 0.0 && forall j :: 0 <= j < dim ==> Abs(Get(r, j)) <= s
    ensures IsScale(s, r, dim)
  {
    if MaxAbs(r, dim) > TINY then MaxAbs(r, dim) else TINY
  }

  /** Where a normalised component in [-1, 1] lies on the grid [0, g]. */
  function GridPoint(norm: real, g: nat): real {
    (norm + 1.0) * 0.5 * g as real
  }

  /** The grid index of one residual component, before clipping. */
  function RawLevel(r: real, scale: real, g: nat): int
    requires scale > 0.0
  {
    Rint(GridPoint(r / scale, g))
  }

  function Levels(r: Vector, scale: real, g: nat, dim: nat): map<int, int>
    requires scale > 0.0
  {
    map j | j in UpTo(dim) :: Clip(RawLevel(Get(r, j), scale, g), 0, g)
  }

  function Minus(x: Vector, y: Vector, dim: nat): Vector {
    map j | j in UpTo(dim) :: Get(x, j) - Get(y, j)
  }

  function Plus(x: Vector, y: Vector, dim: nat): Vector {
    map j | j in UpTo(dim) :: Get(x, j) + Get(y, j)
  }

  ghost function VectorSum(xs: seq<Vector>, j: int): real {
    if xs == [] then 0.0 else VectorSum(xs[..|xs| - 1], j) + Get(xs[|xs| - 1], j)
  }

  /** `x.mean(axis=0)`. */
  ghost function Centroid(xs: seq<Vector>, dim: nat): Vector
    requires xs != []
  {
    map j | j in UpTo(dim) :: VectorSum(xs, j) / |xs| as real
  }

  /** The rotated residual of one vector. */
  ghost function Residual(x: Vector, centroid: Vector, p: Matrix, dim: nat): Vector {
    Rotate(p, Minus(x, centroid, dim), dim)
  }

  /** The codes fit the corpus: one level vector with every coordinate, and one scale, per vector. */
  ghost predicate CodeFits(xs: seq<Vector>, code: Code, dim: nat) {
    && code.bits >= 1 && |code.levels| == |xs| == |code.scale|
    && (forall i :: 0 <= i < |xs| ==> code.scale[i] > 0.0)
    && (forall i, j :: 0 <= i < |xs| && j in UpTo(dim) ==> j in code.levels[i])
  }

  /** `quantize`: fewer than one bit is refused. */
  ghost function Quantize(xs: seq<Vector>, bits: int, p: Matrix, dim: nat): (r: Option<Code>)
    requires xs != []
    ensures r.None? <==> bits < 1
    ensures r.Some? ==> CodeFits(xs, r.value, dim) && r.value.bits == bits
  {
    if bits < 1 then None
    else
      var c := Centroid(xs, dim);
      var g := GridLevels(bits);
      Some(Code(
             seq(|xs|, i requires 0 <= i < |xs| =>
               var r := Residual(xs[i], c, p, dim);
               Levels(r, Scale(r, dim), g, dim)),
             seq(|xs|, i requires 0 <= i < |xs| => Scale(Residual(xs[i], c, p, dim), dim)),
             c, p, bits))
  }

  function Decoded(level: int, scale: real, g: nat): real
    requires g > 0
  {
    (level as real / g as real * 2.0 - 1.0) * scale
  }

  function DecodedVector(levels: map<int, int>, scale: real, g: nat, dim: nat): Vector
    requires g > 0 && forall j :: j in UpTo(dim) ==> j in levels
  {
    map j | j in UpTo(dim) :: Decoded(levels[j], scale, g)
  }

  /** `reconstruct` of vector `i`. */
  ghost function Reconstruct(code: Code, i: nat, dim: nat): Vector
    requires code.bits >= 1 && i < |code.levels| && i < |code.scale|
    requires forall j :: j in UpTo(dim) ==> j in code.levels[i]
  {
    Plus(RotateBack(code.rotation, DecodedVector(code.levels[i], code.scale[i], GridLevels(code.bits), dim), dim),
         code.centroid, dim)
  }

  /** `grid_error_bound`. */
  function GridErrorBound(bits: nat, dim: nat): real
    requires bits >= 1
  {
    var step := 2.0 / GridLevels(bits) as real;
    dim as real * ((step / 2.0) * (step / 2.0))
  }

  /** Half the width of a grid cell, in units of the residual. */
  function HalfCell(scale: real, g: nat): real
    requires g > 0
  {
    scale / g as real
  }

  ghost function Square(x: real): real {
    Times(x, x)
  }

  ghost function Normalised(e: real, scale: real): real
    requires scale > 0.0
  {
    SquarePositive(scale);
    e / Square(scale)
  }

  // ----- one component -----

  /** Components are at most `scale`, so the grid index is in range and the clip never fires. */
  lemma LevelInRange(r: real, scale: real, g: nat)
    requires scale > 0.0 && Abs(r) <= scale
    ensures 0 <= RawLevel(r, scale, g) <= g
  {
    NormalisedRange(r, scale);
    HalfGrid(r / scale, g);
  }

  lemma NormalisedRange(r: real, scale: real)
    requires scale > 0.0 && Abs(r) <= scale
    ensures -1.0 <= r / scale <= 1.0
  {
  }

  lemma HalfGrid(norm: real, g: nat)
    requires -1.0 <= norm <= 1.0
    ensures 0.0 <= GridPoint(norm, g) <= g as real
  {
    TimesMonotone(0.0, (norm + 1.0) * 0.5, g as real);
    TimesMonotone((norm + 1.0) * 0.5, 1.0, g as real);
  }

  /** Decoding a level misses the component by at most scale / g. */
  lemma ComponentError(r: real, scale: real, g: nat)
    requires scale > 0.0 && g > 0 && Abs(r) <= scale
    ensures Abs(r - Decoded(Clip(RawLevel(r, scale, g), 0, g), scale, g)) <= HalfCell(scale, g)
  {
    hide GridPoint;
    LevelInRange(r, scale, g);
    NormTimesScale(r, scale);
    ErrorFromLevel(r, r / scale, scale, g, RawLevel(r, scale, g));
  }

  lemma NormTimesScale(r: real, scale: real)
    requires scale > 0.0
    ensures (r / scale) * scale == r
  {
  }

  lemma ErrorFromLevel(r: real, norm: real, scale: real, g: nat, level: int)
    requires scale > 0.0 && g > 0 && norm * scale == r
    requires Abs(GridPoint(norm, g) - level as real) <= 0.5
    ensures Abs(r - Decoded(level, scale, g)) <= HalfCell(scale, g)
  {
    var unit, l := scale / g as real, level as real / g as real;
    var d := GridPoint(norm, g) - level as real;
    assert -0.5 <= d <= 0.5;
    assert unit * g as real == scale && l * g as real == level as real;
    OffGrid(norm, l, g as real, d);
    Unscaled(norm, l, scale, unit, g as real, d);
    assert r - Decoded(level, scale, g) == (norm + 1.0 - l * 2.0) * scale;
    SignOfProduct(unit, g as real);
    TimesMonotone(2.0 * d, 1.0, unit);
    TimesMonotone(-1.0, 2.0 * d, unit);
  }

  lemma OffGrid(norm: real, l: real, g: real, d: real)
    requires d == (norm + 1.0) * 0.5 * g - l * g
    ensures (norm + 1.0 - l * 2.0) * g == 2.0 * d
  {
  }

  lemma Unscaled(norm: real, l: real, scale: real, unit: real, g: real, d: real)
    requires unit * g == scale && (norm + 1.0 - l * 2.0) * g == 2.0 * d
    ensures (norm + 1.0 - l * 2.0) * scale == 2.0 * d * unit
  {
  }

  // ----- one vector -----

  /** `resid - resid_hat` as `empirical_reconstruction_error` forms it. */
  ghost function ErrorVector(x: Vector, recon: Vector, centroid: Vector, dim: nat): Vector {
    Minus(Minus(x, centroid, dim), Minus(recon, centroid, dim), dim)
  }

  /** Squared reconstruction error of vector `i`, normalised by its scale. */
  ghost function NormalisedError(xs: seq<Vector>, code: Code, i: nat, dim: nat): real
    requires code.bits >= 1 && i < |xs| && i < |code.levels| && i < |code.scale| && code.scale[i] > 0.0
    requires forall j :: j in UpTo(dim) ==> j in code.levels[i]
  {
    Normalised(Norm2(ErrorVector(xs[i], Reconstruct(code, i, dim), code.centroid, dim), dim), code.scale[i])
  }

  /** In rotated space the error is residual minus decoded residual, and rotation keeps its norm. */
  lemma ErrorIsRotated(x: Vector, c: Vector, p: Matrix, dim: nat, hat: Vector)
    requires Orthonormal(p, dim)
    ensures Norm2(ErrorVector(x, Plus(RotateBack(p, hat, dim), c, dim), c, dim), dim)
         == Norm2(Minus(Residual(x, c, p, dim), hat, dim), dim)
  {
    hide Dot, Column, Rotate, Orthonormal;
    var y := Minus(x, c, dim);
    var r := Rotate(p, y, dim);
    var delta := Minus(r, hat, dim);
    var e := ErrorVector(x, Plus(RotateBack(p, hat, dim), c, dim), c, dim);
    var back := RotateBack(p, delta, dim);
    forall i | i in UpTo(dim) ensures Get(e, i) == Get(back, i) {
      BackAgain(p, y, dim, i);
      DotDifference(r, hat, delta, Row(p, i), UpTo(dim));
    }
    DotCong(e, e, back, back, UpTo(dim));
    NormKept(p, delta, dim);
  }

  lemma DotDifference(x: Vector, y: Vector, z: Vector, w: Vector, s: set<int>)
    requires forall u :: u in s ==> Get(z, u) == Get(x, u) - Get(y, u)
    ensures Dot(z, w, s) == Dot(x, w, s) - Dot(y, w, s)
  {
    DotLinear(1.0, x, -1.0, y, z, w, s);
  }

  lemma NormFromComponents(z: Vector, bound: real, dim: nat)
    requires bound >= 0.0 && forall j :: j in UpTo(dim) ==> Abs(Get(z, j)) <= bound
    ensures Norm2(z, dim) <= Times(Square(bound), dim as real)
  {
    hide Times, Square;
    forall j | j in UpTo(dim) ensures Get(Products(z, z, UpTo(dim)), j) <= Square(bound) {
      SquareBound(Get(z, j), bound);
    }
    SumUpTo(Products(z, z, UpTo(dim)), UpTo(dim), Square(bound));
  }

  lemma SquareBound(x: real, bound: real)
    requires Abs(x) <= bound
    ensures Times(x, x) <= Square(bound)
  {
  }

  /** Per coordinate at most scale / g, over `dim` coordinates, normalised by the scale: the closed-form bound. */
  lemma VectorBound(x: Vector, c: Vector, p: Matrix, bits: nat, dim: nat)
    requires Orthonormal(p, dim) && bits >= 1
    ensures var r := Residual(x, c, p, dim);
            var s, g := Scale(r, dim), GridLevels(bits);
            var hat := DecodedVector(Levels(r, s, g, dim), s, g, dim);
            Normalised(Norm2(ErrorVector(x, Plus(RotateBack(p, hat, dim), c, dim), c, dim), dim), s)
              <= GridErrorBound(bits, dim)
  {
    hide Norm2, Residual, Orthonormal, RotateBack, Decoded, RawLevel, GridLevels, Plus, ErrorVector, GridErrorBound, Scale,
         Times, Normalised, Square, HalfCell;
    var r := Residual(x, c, p, dim);
    var s, g := Scale(r, dim), GridLevels(bits);
    var hat := DecodedVector(Levels(r, s, g, dim), s, g, dim);
    ErrorIsRotated(x, c, p, dim, hat);
    DecodedDistance(r, s, g, dim);
    Normalise(s, bits, dim, Norm2(Minus(r, hat, dim), dim));
  }

  lemma DecodedDistance(r: Vector, s: real, g: nat, dim: nat)
    requires s > 0.0 && g > 0 && forall j :: 0 <= j < dim ==> Abs(Get(r, j)) <= s
    ensures Norm2(Minus(r, DecodedVector(Levels(r, s, g, dim), s, g, dim), dim), dim)
         <= Times(Square(HalfCell(s, g)), dim as real)
  {
    hide Decoded, RawLevel, Norm2, HalfCell, Square, Times;
    var delta := Minus(r, DecodedVector(Levels(r, s, g, dim), s, g, dim), dim);
    UnitPositive(s, g);
    forall j | j in UpTo(dim) ensures Abs(Get(delta, j)) <= HalfCell(s, g) {
      ComponentError(Get(r, j), s, g);
    }
    NormFromComponents(delta, HalfCell(s, g), dim);
  }

  lemma UnitPositive(s: real, g: nat)
    requires s > 0.0 && g > 0
    ensures HalfCell(s, g) > 0.0
  {
  }

  lemma Normalise(s: real, bits: nat, dim: nat, e: real)
    requires s > 0.0 && bits >= 1 && e <= Times(Square(HalfCell(s, GridLevels(bits))), dim as real)
    ensures Normalised(e, s) <= GridErrorBound(bits, dim)
  {
  }

  lemma SquarePositive(s: real)
    requires s > 0.0
    ensures Square(s) > 0.0
  {
    TimesPositive(s, s);
  }

  // ----- the corpus -----

  lemma {:induction false} SumOfAtMost(es: seq<real>, bound: real)
    requires forall i :: 0 <= i < |es| ==> es[i] <= bound
    ensures SumOf(es) <= Times(|es| as real, bound)
  {
    if es == [] {
    } else {
      SumOfAtMost(es[..|es| - 1], bound);
      TimesAdds((|es| - 1) as real, 1.0, bound);
      TimesOne(bound, 0.0);
    }
  }

  /** `empirical_reconstruction_error`: the mean of the normalised errors. */
  ghost function EmpiricalError(xs: seq<Vector>, code: Code, dim: nat): real
    requires xs != [] && CodeFits(xs, code, dim)
  {
    SumOf(seq(|xs|, i requires 0 <= i < |xs| => NormalisedError(xs, code, i, dim))) / |xs| as real
  }

  lemma CodeError(xs: seq<Vector>, bits: int, p: Matrix, dim: nat, i: nat)
    requires xs != [] && bits >= 1 && Orthonormal(p, dim) && i < |xs|
    ensures NormalisedError(xs, Quantize(xs, bits, p, dim).value, i, dim) <= GridErrorBound(bits, dim)
  {
    hide Norm2, Residual, Orthonormal, RotateBack, RawLevel, Plus, ErrorVector, GridErrorBound, Scale, Times, Normalised,
         DecodedVector, Centroid;
    VectorBound(xs[i], Quantize(xs, bits, p, dim).value.centroid, p, bits, dim);
  }

  /**
   For every corpus, every number of bits >= 1 and every orthonormal rotation, the mean
   reconstruction error of the quantised corpus stays under the closed-form bound.
   */
  lemma EmpiricalUnderBound(xs: seq<Vector>, bits: int, p: Matrix, dim: nat)
    requires xs != [] && bits >= 1 && Orthonormal(p, dim)
    ensures CodeFits(xs, Quantize(xs, bits, p, dim).value, dim)
    ensures EmpiricalError(xs, Quantize(xs, bits, p, dim).value, dim) <= GridErrorBound(bits, dim)
  {
    hide Quantize, NormalisedError, GridErrorBound;
    var code := Quantize(xs, bits, p, dim).value;
    forall i | 0 <= i < |xs| ensures NormalisedError(xs, code, i, dim) <= GridErrorBound(bits, dim) {
      CodeError(xs, bits, p, dim, i);
    }
    var es := seq(|xs|, i requires 0 <= i < |xs| => NormalisedError(xs, code, i, dim));
    SumOfAtMost(es, GridErrorBound(bits, dim));
    MeanAtMost(SumOf(es), |xs|, GridErrorBound(bits, dim));
  }

  lemma MeanAtMost(sum: real, n: nat, bound: real)
    requires n > 0 && sum <= Times(n as real, bound)
    ensures sum / n as real <= bound
  {
  }

  /** Whatever the residual, the clip of `quantize` never changes a level. */
  lemma ClipNeverFires(r: Vector, bits: nat, dim: nat, j: int)
    requires bits >= 1 && j in UpTo(dim)
    ensures var s, g := Scale(r, dim), GridLevels(bits);
            Levels(r, s, g, dim)[j] == RawLevel(Get(r, j), s, g)
  {
    hide RawLevel, Scale, GridLevels;
    LevelInRange(Get(r, j), Scale(r, dim), GridLevels(bits));
  }

  /** One coordinate of every vector. */
  ghost function Entries(xs: seq<Vector>, j: int): (r: seq<real>)
    ensures |r| == |xs| && forall i :: 0 <= i < |xs| ==> r[i] == Get(xs[i], j)
  {
    seq(|xs|, i requires 0 <= i < |xs| => Get(xs[i], j))
  }

  /** As many times the mean as there are vectors is their sum. */
  ghost predicate IsMean(c: Vector, xs: seq<Vector>, dim: nat) {
    forall j :: j in UpTo(dim) ==> Times(Get(c, j), |xs| as real) == SumOf(Entries(xs, j))
  }

  lemma {:induction false} ColumnSum(xs: seq<Vector>, j: int)
    ensures VectorSum(xs, j) == SumOf(Entries(xs, j))
  {
    if xs == [] {
    } else {
      var init := xs[..|xs| - 1];
      ColumnSum(init, j);
      assert Entries(xs, j)[..|xs| - 1] == Entries(init, j);
    }
  }

  lemma CentroidIsMean(xs: seq<Vector>, dim: nat)
    requires xs != []
    ensures IsMean(Centroid(xs, dim), xs, dim)
  {
    hide Times, SumOf, VectorSum, Entries;
    var c := Centroid(xs, dim);
    forall j | j in UpTo(dim) ensures Times(Get(c, j), |xs| as real) == SumOf(Entries(xs, j)) {
      ColumnSum(xs, j);
      Undivide(VectorSum(xs, j), |xs| as real);
    }
  }

  lemma Undivide(x: real, n: real)
    requires n != 0.0
    ensures Times(x / n, n) == x
  {
  }

  lemma GridDoubles(bits: nat)
    ensures GridLevels(1) == 1 && GridLevels(bits + 1) == 2 * GridLevels(bits) + 1
  {
    assert Pow2(1) == 2 * Pow2(0);
  }

  lemma StoredParts(xs: seq<Vector>, bits: int, p: Matrix, dim: nat, i: nat)
    requires xs != [] && bits >= 1 && i < |xs|
    ensures var code := Quantize(xs, bits, p, dim).value;
            && code.centroid == Centroid(xs, dim) && code.rotation == p
            && code.scale[i] == Scale(Residual(xs[i], code.centroid, p, dim), dim)
            && code.levels[i] == Levels(Residual(xs[i], code.centroid, p, dim), code.scale[i], GridLevels(bits), dim)
  {
    hide Scale, Levels, Residual, Centroid, GridLevels;
  }

  /** The grid itself: centred at the mean, scaled to the largest component, of 1, 3, 7, ... cells. */
  lemma StoredGrid(xs: seq<Vector>, bits: int, p: Matrix, dim: nat, i: nat)
    requires xs != [] && bits >= 1 && i < |xs|
    ensures var code := Quantize(xs, bits, p, dim).value;
            && code.rotation == p && IsMean(code.centroid, xs, dim)
            && IsScale(code.scale[i], Residual(xs[i], code.centroid, p, dim), dim)
    ensures GridLevels(1) == 1 && GridLevels(bits + 1) == 2 * GridLevels(bits) + 1
  {
    hide Residual, Scale, GridLevels, Quantize, Centroid, IsMean, IsScale;
    GridDoubles(bits);
    StoredParts(xs, bits, p, dim, i);
    CentroidIsMean(xs, dim);
  }

  /**
   What `quantize` stores: every level is on the grid, is the one before clipping, and decodes to within half a
   cell of the rotated residual it stands for.
   */
  lemma QuantizedCode(xs: seq<Vector>, bits: int, p: Matrix, dim: nat, i: nat, j: int)
    requires xs != [] && bits >= 1 && i < |xs| && j in UpTo(dim)
    ensures var code, g := Quantize(xs, bits, p, dim).value, GridLevels(bits);
            var r := Residual(xs[i], code.centroid, p, dim);
            && g > 0 && 0 <= code.levels[i][j] <= g && code.levels[i][j] == RawLevel(Get(r, j), code.scale[i], g)
            && Abs(Get(r, j) - Decoded(code.levels[i][j], code.scale[i], g)) <= HalfCell(code.scale[i], g)
            && IsMean(code.centroid, xs, dim) && IsScale(code.scale[i], r, dim)
            && GridLevels(1) == 1 && GridLevels(bits + 1) == 2 * g + 1
  {
    hide IsMean, IsScale, Residual, RawLevel, Centroid, Scale, Decoded, HalfCell, GridLevels, Levels, Quantize;
    StoredGrid(xs, bits, p, dim, i);
    StoredParts(xs, bits, p, dim, i);
    var c, g := Centroid(xs, dim), GridLevels(bits);
    var r := Residual(xs[i], c, p, dim);
    ClipNeverFires(r, bits, dim, j);
    LevelInRange(Get(r, j), Scale(r, dim), g);
    LevelError(r, Scale(r, dim), g, dim, j);
  }

  lemma LevelError(r: Vector, scale: real, g: nat, dim: nat, j: int)
    requires scale > 0.0 && g > 0 && j in UpTo(dim) && Abs(Get(r, j)) <= scale
    ensures Abs(Get(r, j) - Decoded(Levels(r, scale, g, dim)[j], scale, g)) <= HalfCell(scale, g)
  {
    hide RawLevel, Decoded, HalfCell;
    ComponentError(Get(r, j), scale, g);
  }

  // ----- the extreme component is exact -----

  lemma EndsExact(r: real, scale: real, g: nat)
    requires scale > 0.0 && g > 0 && Abs(r) == scale
    ensures RawLevel(r, scale, g) == (if r > 0.0 then g else 0) && Decoded(RawLevel(r, scale, g), scale, g) == r
  {
    var norm := r / scale;
    assert norm * scale == r;
    QuotientEnds(r, scale);
    assert GridPoint(1.0, g) == g as real && GridPoint(-1.0, g) == 0.0;
    assert g as real / g as real == 1.0;
  }

  lemma QuotientEnds(r: real, scale: real)
    requires scale > 0.0
    ensures (r == scale ==> r / scale == 1.0) && (r == -scale ==> r / scale == -1.0)
  {
  }

  /** Unless the scale is the floor, one component of every vector is stored without error, at level 0 or g. */
  lemma ExtremeLevelUsed(xs: seq<Vector>, bits: int, p: Matrix, dim: nat, i: nat) returns (j: int)
    requires xs != [] && bits >= 1 && i < |xs| && Quantize(xs, bits, p, dim).value.scale[i] > 0.000000000001
    ensures j in UpTo(dim)
    ensures var code, g := Quantize(xs, bits, p, dim).value, GridLevels(bits);
            && (code.levels[i][j] == 0 || code.levels[i][j] == g)
            && Decoded(code.levels[i][j], code.scale[i], g) == Get(Residual(xs[i], code.centroid, p, dim), j)
  {
    hide Residual, Scale, RawLevel, GridLevels, Decoded;
    var code, g := Quantize(xs, bits, p, dim).value, GridLevels(bits);
    StoredGrid(xs, bits, p, dim, i);
    var r := Residual(xs[i], code.centroid, p, dim);
    j :| 0 <= j < dim && Abs(Get(r, j)) == code.scale[i];
    QuantizedCode(xs, bits, p, dim, i, j);
    EndsExact(Get(r, j), code.scale[i], g);
  }

  /** That component costs nothing, so the error stays under the closed form with one coordinate less. */
  lemma SharperBound(xs: seq<Vector>, bits: int, p: Matrix, dim: nat, i: nat)
    requires xs != [] && bits >= 1 && Orthonormal(p, dim) && i < |xs|
    requires Quantize(xs, bits, p, dim).value.scale[i] > 0.000000000001
    ensures Times(NormalisedError(xs, Quantize(xs, bits, p, dim).value, i, dim), Square(GridLevels(bits) as real))
         <= (dim - 1) as real
  {
    hide Residual, Scale, GridLevels, Quantize, Orthonormal, Norm2, Times, Square, Normalised, HalfCell, Levels, Decoded,
         ErrorVector, RotateBack, Plus, Centroid, IsMean, IsScale, RawLevel, Minus;
    var code, g := Quantize(xs, bits, p, dim).value, GridLevels(bits);
    StoredParts(xs, bits, p, dim, i);
    var m := ExtremeLevelUsed(xs, bits, p, dim, i);
    var r := Residual(xs[i], code.centroid, p, dim);
    var hat := DecodedVector(code.levels[i], code.scale[i], g, dim);
    ErrorIsRotated(xs[i], code.centroid, p, dim, hat);
    forall j | j in UpTo(dim) ensures Abs(Get(r, j) - Get(hat, j)) <= HalfCell(code.scale[i], g) {
      QuantizedCode(xs, bits, p, dim, i, j);
    }
    OneExact(r, hat, dim, m, HalfCell(code.scale[i], g));
    HalfCells(Norm2(Minus(r, hat, dim), dim), code.scale[i], g, dim - 1);
  }

  lemma OneExact(r: Vector, hat: Vector, dim: nat, m: int, bound: real)
    requires m in UpTo(dim) && Get(r, m) == Get(hat, m)
    requires forall j :: j in UpTo(dim) ==> Abs(Get(r, j) - Get(hat, j)) <= bound
    ensures Norm2(Minus(r, hat, dim), dim) <= Times(Square(bound), (dim - 1) as real)
  {
    hide Times, Square, Sum;
    var z, rest := Minus(r, hat, dim), UpTo(dim) - {m};
    var zz := Products(z, z, UpTo(dim));
    SumPick(zz, UpTo(dim), m);
    TimesZero(0.0);
    forall j | j in rest ensures Get(zz, j) <= Square(bound) {
      SquareBound(Get(z, j), bound);
    }
    SumUpTo(zz, rest, Square(bound));
  }

  lemma HalfCells(e: real, s: real, g: nat, n: nat)
    requires s > 0.0 && g > 0 && e <= Times(Square(HalfCell(s, g)), n as real)
    ensures Times(Normalised(e, s), Square(g as real)) <= n as real
  {
    SquarePositive(s);
    SquarePositive(g as real);
    Undivide(s, g as real);
    ScaledUp(e, Square(HalfCell(s, g)), n as real, Square(g as real), Square(s)) by {
      SquareOfProduct(HalfCell(s, g), g as real, s);
    }
    QuotientAtMost(Times(e, Square(g as real)), Square(s), n as real, e, Square(g as real));
  }

  lemma SquareOfProduct(h: real, g: real, s: real)
    requires Times(h, g) == s
    ensures Times(Square(h), Square(g)) == Square(s)
  {
    assert (h * h) * (g * g) == (h * g) * (h * g);
  }

  lemma ScaledUp(e: real, hh: real, n: real, gg: real, ss: real)
    requires e <= Times(hh, n) && gg > 0.0 && Times(hh, gg) == ss
    ensures Times(e, gg) <= Times(n, ss)
  {
    TimesMonotone(e, Times(hh, n), gg);
    assert (hh * n) * gg == n * (hh * gg);
  }

  lemma QuotientAtMost(x: real, ss: real, n: real, e: real, gg: real)
    requires ss > 0.0 && x == Times(e, gg) && x <= Times(n, ss)
    ensures Times(e / ss, gg) <= n
  {
    var q := e / ss;
    assert q * ss == e;
    assert (q * gg) * ss == x;
    if q * gg > n {
      SignOfProduct(q * gg - n, ss);
      assert false;
    }
  }

  /** `grid_error_bound` in closed form: one over the square of the number of cells, for every coordinate. */
  lemma BoundClosedForm(bits: nat, dim: nat)
    requires bits >= 1
    ensures Times(GridErrorBound(bits, dim), Square(GridLevels(bits) as real)) == dim as real
  {
    hide GridLevels;
    var g := GridLevels(bits) as real;
    var half := 2.0 / g / 2.0;
    assert half * g == 1.0;
    assert (dim as real * (half * half)) * (g * g) == dim as real * ((half * g) * (half * g));
  }

  lemma SameNorm(x: Vector, y: Vector, dim: nat)
    requires forall j :: j in UpTo(dim) ==> Get(x, j) == -Get(y, j)
    ensures Norm2(x, dim) == Norm2(y, dim)
  {
    hide Sum;
    SumCong(Products(x, x, UpTo(dim)), Products(y, y, UpTo(dim)), UpTo(dim));
  }

  /** `empirical_reconstruction_error` on vectors and reconstructions: the mean of squared distance over squared scale. */
  lemma EmpiricalIsMean(xs: seq<Vector>, code: Code, dim: nat) returns (es: seq<real>)
    requires xs != [] && CodeFits(xs, code, dim)
    ensures |es| == |xs| && forall i :: 0 <= i < |es| ==>
              Times(es[i], Square(code.scale[i])) == Norm2(Minus(Reconstruct(code, i, dim), xs[i], dim), dim)
    ensures Times(EmpiricalError(xs, code, dim), |xs| as real) == SumOf(es)
  {
    hide Norm2, Reconstruct, Times, Square, SumOf;
    es := seq(|xs|, i requires 0 <= i < |xs| => NormalisedError(xs, code, i, dim));
    forall i | 0 <= i < |es|
      ensures Times(es[i], Square(code.scale[i])) == Norm2(Minus(Reconstruct(code, i, dim), xs[i], dim), dim)
    {
      var recon := Reconstruct(code, i, dim);
      var error := ErrorVector(xs[i], recon, code.centroid, dim);
      SquarePositive(code.scale[i]);
      Undivide(Norm2(error, dim), Square(code.scale[i]));
      SameNorm(error, Minus(recon, xs[i], dim), dim);
    }
    Undivide(SumOf(es), |xs| as real);
  }
}
