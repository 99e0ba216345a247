/** The fog ("black layer") of the map: a per-pixel alpha raster that hides
    the image where it is opaque. The module gives the raster as a value
    (`Mask`), the three things the application does to it (fill, paint a disc,
    rescale) as functions on that value, and the same three operations as
    methods over the `array2` that holds the pixels. */
module FogLayer {

  /** The alpha channel of one fog pixel: 0 shows the map, 255 hides it. */
  type Alpha = a: int | 0 <= a <= 255

  const Transparent: Alpha := 0
  const Opaque: Alpha := 255

  /** A raster of `width` columns and `height` rows; `alpha[x][y]` is the
      pixel in column x, row y. */
  datatype Raster = Raster(width: nat, height: nat, alpha: seq<seq<Alpha>>)
  {
    predicate WellFormed() {
      |alpha| == width && forall x :: 0 <= x < |alpha| ==> |alpha[x]| == height
    }
  }

  /** A raster whose pixel table has the dimensions it claims. */
  type Mask = m: Raster | m.WellFormed() witness Raster(0, 0, [])

  predicate InBounds(m: Mask, x: int, y: int) {
    0 <= x < m.width && 0 <= y < m.height
  }

  /** Every pixel of `m` has alpha `a`. */
  ghost predicate Uniform(m: Mask, a: Alpha) {
    forall x, y :: InBounds(m, x, y) ==> m.alpha[x][y] == a
  }

  /** Two masks with the same dimensions and the same pixels are equal. */
  lemma {:induction false} MaskExtensionality(m1: Mask, m2: Mask)
    requires m1.width == m2.width && m1.height == m2.height
    requires forall x, y :: InBounds(m1, x, y) ==> m1.alpha[x][y] == m2.alpha[x][y]
    ensures m1 == m2
  {
    forall x | 0 <= x < m1.width
      ensures m1.alpha[x] == m2.alpha[x]
    {
      assert forall y :: 0 <= y < m1.height ==> InBounds(m1, x, y);
    }
  }

  /** A raster of the given size with every pixel at alpha `a`
      (a fresh surface followed by `fill`). */
  function Filled(width: nat, height: nat, a: Alpha): (m: Mask)
    ensures m.width == width && m.height == height
    ensures Uniform(m, a)
  {
    Raster(width, height, seq(width, x => seq(height, y => a)))
  }

  // ---------------------------------------------------------------------------
  // Brush strokes

  /** The ideal Euclidean disc that a brush stroke covers. The centre is in
      fog coordinates and need not be a pixel, nor lie on the raster. */
  datatype Disc = Disc(cx: real, cy: real, radius: nat)

  predicate Covers(d: Disc, x: int, y: int) {
    (x as real - d.cx) * (x as real - d.cx) + (y as real - d.cy) * (y as real - d.cy)
      <= (d.radius * d.radius) as real
  }

  /** The raster after a filled circle of colour alpha `a` is drawn over `m`:
      the drawing writes `a`, it does not blend, and parts of the disc that
      fall outside the raster are clipped. */
  function Brush(m: Mask, d: Disc, a: Alpha): (r: Mask)
    ensures r.width == m.width && r.height == m.height
  {
    Raster(m.width, m.height,
      seq(m.width, x requires 0 <= x < m.width =>
        seq(m.height, y requires 0 <= y < m.height =>
          if Covers(d, x, y) then a else m.alpha[x][y])))
  }

  /** One pixel of a stroke: inside the disc the pen colour, elsewhere the
      old pixel. */
  lemma BrushPixel(m: Mask, d: Disc, a: Alpha, x: int, y: int)
    requires InBounds(m, x, y)
    ensures Brush(m, d, a).alpha[x][y] == if Covers(d, x, y) then a else m.alpha[x][y]
  {
  }

  /** A second stroke over the same disc erases the first one entirely:
      whatever was drawn there first, the disc ends up in the colour of the
      last stroke, and the pixels outside are those of `m`. */
  lemma {:induction false} LastStrokeWins(m: Mask, d: Disc, a: Alpha, b: Alpha)
    ensures Brush(Brush(m, d, a), d, b) == Brush(m, d, b)
  {
    var once := Brush(m, d, a);
    forall x, y | InBounds(m, x, y)
      ensures Brush(once, d, b).alpha[x][y] == Brush(m, d, b).alpha[x][y]
    {
      BrushPixel(once, d, b, x, y);
      BrushPixel(m, d, b, x, y);
    }
    MaskExtensionality(Brush(once, d, b), Brush(m, d, b));
  }

  /** Painting the same disc twice gives the same mask as painting it once. */
  lemma {:induction false} BrushIdempotent(m: Mask, d: Disc, a: Alpha)
    ensures Brush(Brush(m, d, a), d, a) == Brush(m, d, a)
  {
    LastStrokeWins(m, d, a, a);
  }

  // ---------------------------------------------------------------------------
  // Rescaling

  /** The source coordinate a nearest-neighbour scale reads for destination
      coordinate `i`, when `srcLen` pixels are stretched to `dstLen`. */
  function SourceIndex(i: nat, dstLen: nat, srcLen: nat): (k: nat)
    requires i < dstLen && 0 < srcLen
    ensures k < srcLen
  {
    SourceIndexBound(i, dstLen, srcLen);
    i * srcLen / dstLen
  }

  lemma SourceIndexBound(i: nat, dstLen: nat, srcLen: nat)
    requires i < dstLen && 0 < srcLen
    ensures i * srcLen / dstLen < srcLen
  {
    var q := i * srcLen / dstLen;
    assert q * dstLen <= i * srcLen;
    assert i * srcLen < dstLen * srcLen;
  }

  /** A rescale is possible unless it asks for pixels out of an empty raster. */
  predicate CanResample(m: Mask, width: nat, height: nat) {
    width == 0 || height == 0 || (0 < m.width && 0 < m.height)
  }

  /** The raster `pygame.transform.scale` produces: the new size, and every
      pixel copied from its nearest-neighbour source pixel. */
  function Resampled(m: Mask, width: nat, height: nat): (r: Mask)
    requires CanResample(m, width, height)
    ensures r.width == width && r.height == height
  {
    Raster(width, height,
      seq(width, x requires 0 <= x < width =>
        seq(height, y requires 0 <= y < height =>
          m.alpha[SourceIndex(x, width, m.width)][SourceIndex(y, height, m.height)])))
  }

  /** Rescaling only copies pixels, so a fully hidden fog stays fully hidden
      and a fully revealed one stays fully revealed, at any new size. */
  lemma {:induction false} ResampledUniform(m: Mask, a: Alpha, width: nat, height: nat)
    requires CanResample(m, width, height)
    requires Uniform(m, a)
    ensures Uniform(Resampled(m, width, height), a)
  {
    var r := Resampled(m, width, height);
    forall x, y | InBounds(r, x, y)
      ensures r.alpha[x][y] == a
    {
      var i, j := SourceIndex(x, width, m.width), SourceIndex(y, height, m.height);
      assert InBounds(m, i, j);
    }
  }

  // ---------------------------------------------------------------------------
  // The fog surface in memory: array2 with fog[x, y] at column x, row y.

  /** The mask an `array2` currently holds. */
  ghost function MaskOf(a: array2<Alpha>): (m: Mask)
    reads a
    ensures m.width == a.Length0 && m.height == a.Length1
  {
    Raster(a.Length0, a.Length1,
      seq(a.Length0, x requires 0 <= x < a.Length0 reads a =>
        seq(a.Length1, y requires 0 <= y < a.Length1 reads a => a[x, y])))
  }

  lemma MaskOfPixel(a: array2<Alpha>, x: int, y: int)
    requires 0 <= x < a.Length0 && 0 <= y < a.Length1
    ensures MaskOf(a).alpha[x][y] == a[x, y]
  {
  }

  /** `Surface.fill`: every pixel of the surface gets alpha `v`. */
  method Fill(a: array2<Alpha>, v: Alpha)
    modifies a
    ensures MaskOf(a) == Filled(a.Length0, a.Length1, v)
  {
    var x := 0;
    while x < a.Length0
      invariant 0 <= x <= a.Length0
      invariant forall i, j :: 0 <= i < x && 0 <= j < a.Length1 ==> a[i, j] == v
    {
      var y := 0;
      while y < a.Length1
        invariant 0 <= y <= a.Length1
        invariant forall i, j :: 0 <= i < x && 0 <= j < a.Length1 ==> a[i, j] == v
        invariant forall j :: 0 <= j < y ==> a[x, j] == v
      {
        a[x, y] := v;
        y := y + 1;
      }
      x := x + 1;
    }
    forall x, y | InBounds(MaskOf(a), x, y)
      ensures MaskOf(a).alpha[x][y] == Filled(a.Length0, a.Length1, v).alpha[x][y]
    {
      MaskOfPixel(a, x, y);
    }
    MaskExtensionality(MaskOf(a), Filled(a.Length0, a.Length1, v));
  }

  /** `pygame.draw.circle` with a filled disc: writes alpha `v` into every
      pixel of the surface that the disc covers. */
  method Paint(a: array2<Alpha>, d: Disc, v: Alpha)
    modifies a
    ensures MaskOf(a) == Brush(old(MaskOf(a)), d, v)
  {
    ghost var before := MaskOf(a);
    var x := 0;
    while x < a.Length0
      invariant 0 <= x <= a.Length0
      invariant forall i, j :: 0 <= i < a.Length0 && 0 <= j < a.Length1 ==>
        a[i, j] == if i < x && Covers(d, i, j) then v else before.alpha[i][j]
    {
      var y := 0;
      while y < a.Length1
        invariant 0 <= y <= a.Length1
        invariant forall i, j :: 0 <= i < a.Length0 && 0 <= j < a.Length1 ==>
          a[i, j] == if (i < x || (i == x && j < y)) && Covers(d, i, j) then v else before.alpha[i][j]
      {
        if Covers(d, x, y) {
          a[x, y] := v;
        }
        y := y + 1;
      }
      x := x + 1;
    }
    forall x, y | InBounds(MaskOf(a), x, y)
      ensures MaskOf(a).alpha[x][y] == Brush(before, d, v).alpha[x][y]
    {
      MaskOfPixel(a, x, y);
      BrushPixel(before, d, v, x, y);
    }
    MaskExtensionality(MaskOf(a), Brush(before, d, v));
  }

  /** `pygame.transform.scale`: a new surface of the requested size, filled
      by nearest-neighbour sampling of `a`; `a` itself is left as it was. */
  method Resample(a: array2<Alpha>, width: nat, height: nat) returns (b: array2<Alpha>)
    requires CanResample(MaskOf(a), width, height)
    ensures fresh(b)
    ensures MaskOf(b) == Resampled(MaskOf(a), width, height)
  {
    ghost var src := MaskOf(a);
    b := new Alpha[width, height];
    var x := 0;
    while x < width
      invariant 0 <= x <= width
      invariant forall i, j :: 0 <= i < x && 0 <= j < height ==>
        b[i, j] == src.alpha[SourceIndex(i, width, a.Length0)][SourceIndex(j, height, a.Length1)]
    {
      var y := 0;
      while y < height
        invariant 0 <= y <= height
        invariant forall i, j :: 0 <= i < x && 0 <= j < height ==>
          b[i, j] == src.alpha[SourceIndex(i, width, a.Length0)][SourceIndex(j, height, a.Length1)]
        invariant forall j :: 0 <= j < y ==>
          b[x, j] == src.alpha[SourceIndex(x, width, a.Length0)][SourceIndex(j, height, a.Length1)]
      {
        var i, j := SourceIndex(x, width, a.Length0), SourceIndex(y, height, a.Length1);
        MaskOfPixel(a, i, j);
        b[x, y] := a[i, j];
        y := y + 1;
      }
      x := x + 1;
    }
    forall x, y | InBounds(MaskOf(b), x, y)
      ensures MaskOf(b).alpha[x][y] == Resampled(src, width, height).alpha[x][y]
    {
      MaskOfPixel(b, x, y);
    }
    MaskExtensionality(MaskOf(b), Resampled(src, width, height));
  }
}
