/**
  The stroke compositor: decoded images as non-premultiplied RGBA grids with bounds,
  the per-pixel blend of an incoming drawing onto a room's canvas, and the in-place
  double loop that applies it to the decoded canvas buffer.

  Colour arithmetic is exact rational arithmetic truncated toward zero; the float32
  rounding of the original is abstracted away (alpha is exact either way).
*/
module Canvas {

  type uint8 = x: int | 0 <= x < 256

  const MaxUint8: int := 255

  /** One pixel of an NRGBA image: colour channels not premultiplied by alpha. */
  datatype Pixel = Pixel(r: uint8, g: uint8, b: uint8, a: uint8)

  /** An image rectangle: [minX, maxX) x [minY, maxY). */
  datatype Rect = Rect(minX: int, minY: int, maxX: int, maxY: int)

  /**
    A decoded image: its bounds and its rows of pixels; row `y - minY`, column
    `x - minX` holds the pixel at (x, y).
  */
  datatype Image = Image(bounds: Rect, rows: seq<seq<Pixel>>)

  function Width(r: Rect): int { r.maxX - r.minX }

  function Height(r: Rect): int { r.maxY - r.minY }

  predicate InBounds(r: Rect, x: int, y: int)
  {
    r.minX <= x < r.maxX && r.minY <= y < r.maxY
  }

  /** What a decoder hands over: the grid has exactly the size its bounds say. */
  predicate WellFormed(img: Image)
  {
    && 0 <= Width(img.bounds)
    && 0 <= Height(img.bounds)
    && |img.rows| == Height(img.bounds)
    && forall i :: 0 <= i < |img.rows| ==> |img.rows[i]| == Width(img.bounds)
  }

  /** The pixel at absolute coordinates (x, y). */
  function At(img: Image, x: int, y: int): Pixel
    requires WellFormed(img) && InBounds(img.bounds, x, y)
  {
    img.rows[y - img.bounds.minY][x - img.bounds.minX]
  }

  function Min(a: int, b: int): int { if a <= b then a else b }

  /**
    One colour channel of the blend: the incoming value weighted by the incoming
    alpha plus the existing value weighted by the existing alpha, clamped at 255
    and truncated to an integer.
  */
  function BlendChannel(pc: uint8, pa: uint8, ec: uint8, ea: uint8): uint8
  {
    Min((pc * pa + ec * ea) / MaxUint8, MaxUint8)
  }

  /** The colour of one side of the blend on its own: its value weighted by its alpha. */
  function Weighted(c: uint8, a: uint8): int
  {
    (c * a) / MaxUint8
  }

  /** The blend of incoming pixel `p` onto existing canvas pixel `e`. */
  function Blend(p: Pixel, e: Pixel): Pixel
  {
    Pixel(
      BlendChannel(p.r, p.a, e.r, e.a),
      BlendChannel(p.g, p.a, e.g, e.a),
      BlendChannel(p.b, p.a, e.b, e.a),
      Min(p.a + e.a, MaxUint8))
  }

  /**
    Alpha only accumulates: the result is the sum of the two alphas when that fits
    in a byte and saturates at 255 exactly when it does not.
  */
  lemma BlendAlpha(p: Pixel, e: Pixel)
    ensures Blend(p, e).a >= p.a && Blend(p, e).a >= e.a
    ensures p.a + e.a <= MaxUint8 ==> Blend(p, e).a == p.a + e.a
    ensures Blend(p, e).a == MaxUint8 <==> p.a + e.a >= MaxUint8
  {
  }

  /**
    A blended channel is never below either side's own weighted colour, never above
    their sum, and is clamped to 255 exactly when the weighted sum reaches 255.
  */
  lemma {:induction false} BlendChannelBounds(pc: uint8, pa: uint8, ec: uint8, ea: uint8)
    ensures Weighted(pc, pa) <= MaxUint8 && Weighted(ec, ea) <= MaxUint8
    ensures BlendChannel(pc, pa, ec, ea) >= Weighted(pc, pa)
    ensures BlendChannel(pc, pa, ec, ea) >= Weighted(ec, ea)
    ensures BlendChannel(pc, pa, ec, ea) <= Weighted(pc, pa) + Weighted(ec, ea) + 1
    ensures BlendChannel(pc, pa, ec, ea) == MaxUint8 <==> pc * pa + ec * ea >= MaxUint8 * MaxUint8
  {
    WeightedBound(pc, pa);
    WeightedBound(ec, ea);
    DivSumBounds(pc * pa, ec * ea);
  }

  lemma WeightedBound(c: uint8, a: uint8)
    ensures 0 <= c * a <= MaxUint8 * MaxUint8
    ensures 0 <= Weighted(c, a) <= MaxUint8
  {
    assert c * a <= MaxUint8 * a <= MaxUint8 * MaxUint8;
  }

  lemma DivSumBounds(u: nat, v: nat)
    ensures u / MaxUint8 + v / MaxUint8 <= (u + v) / MaxUint8 <= u / MaxUint8 + v / MaxUint8 + 1
    ensures (u + v) / MaxUint8 >= MaxUint8 <==> u + v >= MaxUint8 * MaxUint8
  {
  }

  /** The blend does not depend on which side is the incoming drawing. */
  lemma BlendSymmetric(p: Pixel, e: Pixel)
    ensures Blend(p, e) == Blend(e, p)
  {
  }

  /**
    Merging a fully transparent pixel is not neutral: the canvas keeps its alpha but
    each colour channel is scaled by that alpha once more.
  */
  lemma TransparentStrokeRescales(p: Pixel, e: Pixel)
    requires p.a == 0
    ensures Blend(p, e).a == e.a
    ensures Blend(p, e).r == Weighted(e.r, e.a) <= e.r
    ensures Blend(p, e).g == Weighted(e.g, e.a) <= e.g
    ensures Blend(p, e).b == Weighted(e.b, e.a) <= e.b
  {
    WeightedBelow(e.r, e.a);
    WeightedBelow(e.g, e.a);
    WeightedBelow(e.b, e.a);
  }

  lemma WeightedBelow(c: uint8, a: uint8)
    ensures Weighted(c, a) <= c
  {
    assert c * a <= c * MaxUint8;
  }

  /** A worked blend: half-transparent red onto half-transparent green saturates alpha. */
  lemma BlendExample()
    ensures Blend(Pixel(200, 0, 0, 128), Pixel(0, 200, 0, 128)) == Pixel(100, 100, 0, 255)
  {
  }

  /**
    The serial order of submissions matters: the first submission is stored verbatim
    and every later one re-weights the canvas by its alpha, so three one-pixel drawings
    merged as 1, 2, 3 and as 2, 3, 1 give different canvases.
  */
  lemma MergeOrderMatters()
    ensures var p1, p2, p3 := Pixel(255, 255, 255, 51), Pixel(0, 0, 0, 0), Pixel(0, 0, 0, 0);
      && Blend(p3, Blend(p2, p1)) == Pixel(10, 10, 10, 51)
      && Blend(p1, Blend(p3, p2)) == Pixel(51, 51, 51, 51)
  {
  }

  /**
    The composited canvas: the existing canvas's bounds, every pixel inside them the
    blend of the incoming pixel onto the existing one.
  */
  function Merge(p: Image, e: Image): (m: Image)
    requires WellFormed(p) && WellFormed(e) && p.bounds == e.bounds
    ensures WellFormed(m) && m.bounds == e.bounds
    ensures forall x, y :: InBounds(m.bounds, x, y) ==> At(m, x, y) == Blend(At(p, x, y), At(e, x, y))
  {
    var h, w := Height(e.bounds), Width(e.bounds);
    Image(e.bounds, seq(h, i requires 0 <= i < h =>
      seq(w, j requires 0 <= j < w => Blend(p.rows[i][j], e.rows[i][j]))))
  }

  /** The pixels of a decoded in-memory buffer, row by row. */
  function Contents(buf: array2<Pixel>): (s: seq<seq<Pixel>>)
    reads buf
    ensures |s| == buf.Length0
    ensures forall i :: 0 <= i < |s| ==> |s[i]| == buf.Length1
    ensures forall i, j :: 0 <= i < buf.Length0 && 0 <= j < buf.Length1 ==> s[i][j] == buf[i, j]
  {
    seq(buf.Length0, i requires 0 <= i < buf.Length0 reads buf =>
      seq(buf.Length1, j requires 0 <= j < buf.Length1 reads buf => buf[i, j]))
  }

  /** Decodes the stored canvas into a fresh pixel buffer of its size. */
  method Load(e: Image) returns (buf: array2<Pixel>)
    requires WellFormed(e)
    ensures fresh(buf)
    ensures buf.Length0 == Height(e.bounds) && buf.Length1 == Width(e.bounds)
    ensures Contents(buf) == e.rows
  {
    var h, w := Height(e.bounds), Width(e.bounds);
    buf := new Pixel[h, w]((i, j) requires 0 <= i < h && 0 <= j < w => e.rows[i][j]);
    forall i | 0 <= i < h
      ensures Contents(buf)[i] == e.rows[i]
    {
    }
  }

  /**
    The compositing double loop: for every (x, y) inside the bounds, the buffer pixel
    becomes the blend of the incoming pixel onto it. Nothing outside the bounds is
    touched, because the buffer is exactly the bounds' size.
  */
  method Composite(p: Image, buf: array2<Pixel>)
    requires WellFormed(p)
    requires buf.Length0 == Height(p.bounds) && buf.Length1 == Width(p.bounds)
    modifies buf
    ensures forall i, j :: 0 <= i < buf.Length0 && 0 <= j < buf.Length1 ==>
      buf[i, j] == Blend(p.rows[i][j], old(buf[i, j]))
  {
    var b := p.bounds;
    var y := b.minY;
    while y < b.maxY
      invariant b.minY <= y <= b.maxY
      invariant forall i, j :: 0 <= i < y - b.minY && 0 <= j < buf.Length1 ==>
        buf[i, j] == Blend(p.rows[i][j], old(buf[i, j]))
      invariant forall i, j :: y - b.minY <= i < buf.Length0 && 0 <= j < buf.Length1 ==>
        buf[i, j] == old(buf[i, j])
    {
      var row := y - b.minY;
      var x := b.minX;
      while x < b.maxX
        invariant b.minX <= x <= b.maxX
        invariant forall i, j :: 0 <= i < row && 0 <= j < buf.Length1 ==>
          buf[i, j] == Blend(p.rows[i][j], old(buf[i, j]))
        invariant forall j :: 0 <= j < x - b.minX ==>
          buf[row, j] == Blend(p.rows[row][j], old(buf[row, j]))
        invariant forall j :: x - b.minX <= j < buf.Length1 ==>
          buf[row, j] == old(buf[row, j])
        invariant forall i, j :: row < i < buf.Length0 && 0 <= j < buf.Length1 ==>
          buf[i, j] == old(buf[i, j])
      {
        var pp := p.rows[row][x - b.minX];
        var ep := buf[row, x - b.minX];
        buf[row, x - b.minX] := Blend(pp, ep);
        x := x + 1;
      }
      y := y + 1;
    }
  }

  /**
    Decoding the canvas, compositing in place and reading the buffer back gives the
    merged image.
  */
  method MergeInPlace(p: Image, e: Image) returns (m: Image)
    requires WellFormed(p) && WellFormed(e) && p.bounds == e.bounds
    ensures m == Merge(p, e)
  {
    var buf := Load(e);
    Composite(p, buf);
    m := Image(e.bounds, Contents(buf));
    forall i | 0 <= i < |m.rows|
      ensures m.rows[i] == Merge(p, e).rows[i]
    {
    }
  }
}
