/** The tiled call from bytes to bytes, for networks that treat every pixel by itself and
    repeat the result `scale` by `scale`: what comes out is written down in bytes, with no
    tile, padding or normalised value left in it. */
module TilingPixel {
  import opened Bits
  import opened Positions
  import opened TilingSpec
  import opened TilingPreproc
  import opened Tiling

  // ------------------------------------------------------------ values and bytes

  /** A byte is mapped to the interval from 0 to 1, and multiplying by 255 gives it back. */
  lemma NormaliseIs(b: byte)
    ensures Normalise(b) * 255.0 == b as real
    ensures Normalise(0) == 0.0 && Normalise(255) == 1.0
  {
  }

  /** A value is rounded to the nearest byte, halves upward, and cut off at 0 and 255. */
  lemma QuantizeIs(v: real, b: byte)
    ensures Quantize(v) == b <==> (b > 0 ==> b as real - 0.5 <= v) && (b < 255 ==> v < b as real + 0.5)
  {
    var f := (v + 0.5).Floor;
    assert f as real <= v + 0.5 < f as real + 1.0;
    if b > 0 {
      assert b as real - 0.5 <= v <==> f >= b;
    }
    if b < 255 {
      assert v < b as real + 0.5 <==> f < b + 1;
    }
  }

  lemma BytesSurvive(b: byte)
    ensures Quantize(Normalise(b) * 255.0) == b
  {
    NormaliseIs(b);
    QuantizeIs(b as real, b);
  }

  /** Coordinates beyond an edge are reflected about the edge pixel, which is not repeated. */
  lemma MirrorIs(x: int, n: nat)
    requires n > 0 && 0 - n < x < 2 * n - 1
    ensures Mirror(x, n) == if x < 0 then -x else if x < n then x else 2 * (n - 1) - x
  {
  }

  // ------------------------------------------------------------- the whole image

  /** Place of a stored byte in an image of `w` pixels a row. */
  function Place(w: nat, n: nat, y: nat, x: nat, k: nat): nat {
    n * (w * y + x) + k
  }

  /** Channel 0 is red, 1 green and 2 blue; an image in the other order stores blue first. */
  function Stored(bgr: bool, c: nat): nat {
    if c == 3 then 3 else if !bgr then c else if c == 0 then 2 else if c == 1 then 1 else 0
  }

  lemma PixelIs(job: Job, img: seq<byte>, y: nat, x: nat, c: nat)
    requires job.Valid() && IsImage(job, img) && y < job.h && x < job.w && c < job.channels
    ensures var k := Place(job.w, job.channels, y, x, Stored(job.bgr, c));
      k < |img| && Pixel(job, img, y, x, c) == img[k]
  {
    var k := ByteIndex(job, y, x, Stored(job.bgr, c));
  }

  /** The padded input of the whole image: byte by byte, reflected beyond the edges. */
  lemma WholeIsReflected(job: Job, img: seq<byte>, c: nat, y: nat, x: nat)
    requires Ready(job, img) && c < 3 && y < job.h + 2 * job.pad && x < job.w + 2 * job.pad
    ensures var yy := if y < job.pad then job.pad - y else if y - job.pad < job.h then y - job.pad
        else 2 * (job.h - 1) - (y - job.pad);
      var xx := if x < job.pad then job.pad - x else if x - job.pad < job.w then x - job.pad
        else 2 * (job.w - 1) - (x - job.pad);
      && 0 <= yy < job.h && 0 <= xx < job.w
      && var k := Place(job.w, job.channels, yy, xx, Stored(job.bgr, c));
        k < |img| && WholeBlob(job, img).At(c, y, x) * 255.0 == img[k] as real
  {
    hide TileBlob, Normalise, Blob.At, Pixel, Mirror;
    NextStart(WholeJob(job), 0);
    TileBlobAt(WholeJob(job), img, 0, 0, c, y, x);
    MirrorIs(y - job.pad, job.h);
    MirrorIs(x - job.pad, job.w);
    var yy, xx := Mirror(y - job.pad, job.h), Mirror(x - job.pad, job.w);
    PixelIs(WholeJob(job), img, yy, xx, c);
    NormaliseIs(Pixel(WholeJob(job), img, yy, xx, c));
  }

  // ------------------------------------------------------- networks pixel by pixel

  /** Output channel `c` from the red, green and blue value of a pixel. */
  type PixelFn = (nat, real, real, real) -> real

  lemma SubPixelInside(s: nat, b: Blob, w: nat, h: nat, k: nat)
    requires s > 0 && w == s * b.w && h == s * b.h && k < (w * h) * 3
    ensures var (c, y, x) := Unflatten(k, w, h); y / s < b.h && x / s < b.w
  {
    hide Flat;
    var (c, y, x) := Unflatten(k, w, h);
    DivInside(y, s, b.h);
    DivInside(x, s, b.w);
  }

  function PixelValue(f: PixelFn, s: nat, b: Blob, w: nat, h: nat, k: nat): real
    requires b.Valid() && s > 0 && w == s * b.w && h == s * b.h && k < (w * h) * 3
  {
    hide Flat, Unflatten, Blob.At;
    SubPixelInside(s, b, w, h, k);
    var (c, y, x) := Unflatten(k, w, h);
    f(c, b.At(0, y / s, x / s), b.At(1, y / s, x / s), b.At(2, y / s, x / s))
  }

  lemma DivInside(y: nat, s: nat, h: nat)
    requires s > 0 && y < s * h
    ensures y / s < h && y == Flat(y / s, y % s, s)
  {
    var i, j := FlatSurjective(y, h, s);
    FlatDivMod(i, j, s);
  }

  function PixelBlob(f: PixelFn, s: nat, b: Blob): (r: Blob)
    requires b.Valid() && s > 0
    ensures r.Valid() && r.w == s * b.w && r.h == s * b.h
  {
    var w, h := s * b.w, s * b.h;
    Blob(w, h, seq((w * h) * 3, k requires 0 <= k < (w * h) * 3 => PixelValue(f, s, b, w, h, k)))
  }

  function PixelNet(f: PixelFn, s: nat): Net
    requires s > 0
  {
    (b: Blob) => if b.Valid() then PixelBlob(f, s, b) else b
  }

  /** Sub-pixel (sy, sx) of pixel (y, x). */
  lemma PixelBlobAt(f: PixelFn, s: nat, b: Blob, c: nat, y: nat, x: nat, sy: nat, sx: nat)
    requires b.Valid() && c < 3 && y < b.h && x < b.w && sy < s && sx < s
    ensures Flat(y, sy, s) < s * b.h && Flat(x, sx, s) < s * b.w
    ensures PixelBlob(f, s, b).At(c, Flat(y, sy, s), Flat(x, sx, s)) == f(c, b.At(0, y, x), b.At(1, y, x), b.At(2, y, x))
  {
    hide Flat, Unflatten;
    var w, h, yy, xx := s * b.w, s * b.h, Flat(y, sy, s), Flat(x, sx, s);
    FlatBound(y, sy, b.h, s);
    FlatBound(x, sx, b.w, s);
    FlatBound(yy, xx, h, w);
    FlatBound(c, Flat(yy, xx, w), 3, w * h);
    var k := Flat(c, Flat(yy, xx, w), w * h);
    var (c', y', x') := Unflatten(k, w, h);
    FlatBound(y', x', h, w);
    FlatInjective(c, Flat(yy, xx, w), c', Flat(y', x', w), w * h);
    FlatInjective(yy, xx, y', x', w);
    FlatDivMod(y, sy, s);
    FlatDivMod(x, sx, s);
  }

  /** Such a network is local, for every padding. */
  lemma PixelNetLocal(f: PixelFn, s: nat, pad: nat)
    requires s > 0
    ensures Local(PixelNet(f, s), pad, s)
  {
    hide Flat, Blob.At, PixelBlob;
    var net := PixelNet(f, s);
    forall a: Blob, ya: nat, xa: nat, b: Blob, yb: nat, xb: nat, c: nat, sy: nat, sx: nat
      ensures LocalAt(net, pad, s, a, ya, xa, b, yb, xb, c, sy, sx)
    {
      if SameWindow(a, ya, xa, b, yb, xb, pad) && c < 3 && sy < s && sx < s {
        PixelBlobAt(f, s, a, c, ya, xa, sy, sx);
        PixelBlobAt(f, s, b, c, yb, xb, sy, sx);
        assert SamePixel(a, ya, xa, b, yb, xb, pad, 0, pad, pad);
        assert SamePixel(a, ya, xa, b, yb, xb, pad, 1, pad, pad);
        assert SamePixel(a, ya, xa, b, yb, xb, pad, 2, pad, pad);
      }
    }
  }

  // ------------------------------------------------------ alpha by repetition

  lemma SourceOf(s: nat, w: nat, h: nat, k: nat)
    requires s > 0 && k < (s * w) * (s * h)
    ensures var (y, x) := RowColumn(k, s * w, s * h); y / s < h && x / s < w
  {
    var (y, x) := RowColumn(k, s * w, s * h);
    DivInside(y, s, h);
    DivInside(x, s, w);
  }

  function PlaneValue(s: nat, p: Plane, w: nat, h: nat, k: nat): real
    requires p.Valid() && s > 0 && w == s * p.w && h == s * p.h && k < w * h
  {
    SourceOf(s, p.w, p.h, k);
    var (y, x) := RowColumn(k, w, h);
    p.At(y / s, x / s)
  }

  function RepeatedPlane(s: nat, p: Plane): (r: Plane)
    requires p.Valid() && s > 0
    ensures r.Valid() && r.w == s * p.w && r.h == s * p.h
  {
    var w, h := s * p.w, s * p.h;
    Plane(w, h, seq(w * h, k requires 0 <= k < w * h => PlaneValue(s, p, w, h, k)))
  }

  function Repeater(s: nat): Upscaler
    requires s > 0
  {
    (p: Plane) => if p.Valid() then RepeatedPlane(s, p) else p
  }

  lemma RepeatedAt(s: nat, p: Plane, y: nat, x: nat, sy: nat, sx: nat)
    requires p.Valid() && y < p.h && x < p.w && sy < s && sx < s
    ensures Flat(y, sy, s) < s * p.h && Flat(x, sx, s) < s * p.w
    ensures RepeatedPlane(s, p).At(Flat(y, sy, s), Flat(x, sx, s)) == p.At(y, x)
  {
    hide Flat;
    var w, h, yy, xx := s * p.w, s * p.h, Flat(y, sy, s), Flat(x, sx, s);
    FlatBound(y, sy, p.h, s);
    FlatBound(x, sx, p.w, s);
    FlatBound(yy, xx, h, w);
    var (y', x') := RowColumn(Flat(yy, xx, w), w, h);
    FlatInjective(yy, xx, y', x', w);
    FlatDivMod(y, sy, s);
    FlatDivMod(x, sx, s);
  }

  lemma RepeaterScales(s: nat)
    requires s > 0
    ensures forall p: Plane :: Upscaled(Repeater(s), p, s)
  {
  }

  // ---------------------------------------------------------------- the bytes

  /** What `f` is given for the pixel stored at offset `k`, and its output as a byte. */
  function PixelByte(f: PixelFn, img: seq<byte>, k: nat, bgr: bool, c: nat): byte
    requires k + 3 <= |img|
  {
    var red, blue := if bgr then img[k + 2] else img[k], if bgr then img[k] else img[k + 2];
    Quantize(f(c, red as real / 255.0, img[k + 1] as real / 255.0, blue as real / 255.0) * 255.0)
  }

  /** The pixel stored at `q` in `out` is what `f` makes of the pixel stored at `p` in `img`,
      in the same channel order and with the same alpha. */
  predicate BytesOk(f: PixelFn, img: seq<byte>, p: nat, out: seq<byte>, q: nat, n: nat, bgr: bool) {
    && 3 <= n <= 4 && p + n <= |img| && q + n <= |out|
    && out[q] == PixelByte(f, img, p, bgr, if bgr then 2 else 0)
    && out[q + 1] == PixelByte(f, img, p, bgr, 1)
    && out[q + 2] == PixelByte(f, img, p, bgr, if bgr then 0 else 2)
    && (n == 4 ==> out[q + 3] == img[p + 3])
  }

  /** Output pixel (y, x) is what `f` makes of image pixel (y / 4, x / 4). */
  predicate PixelOk(job: Job, img: seq<byte>, f: PixelFn, out: seq<byte>, y: nat, x: nat)
    requires job.w > 0 && y < 4 * job.h && x < 4 * job.w
  {
    var n := job.channels;
    BytesOk(f, img, Place(job.w, n, y / 4, x / 4, 0), out, Place(4 * job.w, n, y, x, 0), n, job.bgr)
  }

  /** One colour of it. */
  predicate ColourOk(f: PixelFn, img: seq<byte>, p: nat, out: seq<byte>, q: nat, n: nat, bgr: bool, c: nat)
    requires c < 3
  {
    3 <= n <= 4 && p + n <= |img| && q + n <= |out| && out[q + Swap(bgr, c)] == PixelByte(f, img, p, bgr, c)
  }

  lemma WholeValue(job: Job, img: seq<byte>, c: nat, y: nat, x: nat)
    requires Ready(job, img) && c < 3 && y < job.h && x < job.w
    ensures var k := Place(job.w, job.channels, y, x, Stored(job.bgr, c));
      k < |img| && WholeBlob(job, img).At(c, y + job.pad, x + job.pad) == img[k] as real / 255.0
  {
    hide WholeBlob, Blob.At, Place;
    WholeIsReflected(job, img, c, y + job.pad, x + job.pad);
  }

  /** A colour value of the output. */
  lemma ColourIs(job: Job, img: seq<byte>, f: PixelFn, y: nat, x: nat, c: nat, p: nat)
    requires Ready(job, img) && y < job.scale * job.h && x < job.scale * job.w && c < 3
    requires p == Place(job.w, job.channels, y / job.scale, x / job.scale, 0)
    ensures Local(PixelNet(f, job.scale), job.pad, job.scale) && p + 3 <= |img|
    ensures Quantize(ColourOut(job, img, PixelNet(f, job.scale), y, x, c) * 255.0) == PixelByte(f, img, p, job.bgr, c)
  {
    hide WholeBlob, Blob.At, Flat, Local, PixelBlob, Quantize, Place;
    var s, pad, b := job.scale, job.pad, WholeBlob(job, img);
    PixelNetLocal(f, s, pad);
    DivInside(y, s, job.h);
    DivInside(x, s, job.w);
    var yy, xx := y / s, x / s;
    FlatShift(yy, y % s, pad, s);
    FlatShift(xx, x % s, pad, s);
    PixelBlobAt(f, s, b, c, yy + pad, xx + pad, y % s, x % s);
    WholeCropFits(job, img, PixelNet(f, s), y, x);
    ThreeBytes(job, img, yy, xx);
    WholeValue(job, img, 0, yy, xx);
    WholeValue(job, img, 1, yy, xx);
    WholeValue(job, img, 2, yy, xx);
  }

  lemma ThreeBytes(job: Job, img: seq<byte>, y: nat, x: nat)
    requires Ready(job, img) && y < job.h && x < job.w
    ensures var k := Place(job.w, job.channels, y, x, 0);
      && k + job.channels <= |img|
      && forall c :: 0 <= c < job.channels ==> Place(job.w, job.channels, y, x, c) == k + c
  {
    PixelIs(job, img, y, x, job.channels - 1);
    CellInside(job.w, job.h, job.channels, y, x, job.channels - 1);
  }

  /** An alpha value of the output. */
  lemma AlphaIs(r: Run, y: nat, x: nat)
    requires r.Valid() && r.up == Repeater(r.job.scale) && r.job.channels == 4 && y < r.H() && x < r.W()
    ensures y / r.job.scale < r.job.h && x / r.job.scale < r.job.w
    ensures var k := Place(r.job.w, 4, y / r.job.scale, x / r.job.scale, 3);
      k < |r.img| && r.AlphaOut(y, x) == r.img[k] as real
  {
    hide Plane.At, Flat, RepeatedPlane, AlphaPlane, Job.Start, Foreign;
    var job, s := r.job, r.job.scale;
    var yi, xi := TileOf(job, y), TileOf(job, x);
    TileOfUnique(job, job.h, y, yi);
    TileOfUnique(job, job.w, x, xi);
    InsidePlane(job, yi, job.h, y);
    InsidePlane(job, xi, job.w, x);
    DivInside(y, s, job.h);
    DivInside(x, s, job.w);
    var yy, xx := y / s - job.Start(yi), x / s - job.Start(xi);
    var p := AlphaPlane(job, r.img, yi, xi);
    RepeatedAt(s, p, yy, xx, y % s, x % s);
    AlphaAt(job, r.img, yi, xi, yy, xx);
    PixelIs(job, r.img, y / s, x / s, 3);
  }

  lemma AlphaAt(job: Job, img: seq<byte>, yi: nat, xi: nat, y: nat, x: nat)
    requires OnTile(job, img, yi, xi) && job.channels == 4 && y < job.TileH(yi) && x < job.TileW(xi)
    ensures job.Start(yi) + y < job.h && job.Start(xi) + x < job.w
    ensures AlphaPlane(job, img, yi, xi).At(y, x) == Pixel(job, img, job.Start(yi) + y, job.Start(xi) + x, 3) as real
  {
    hide AlphaPlane, Pixel;
    AlphaPlaneAt(job, img, yi, xi, y, x);
  }

  /** Where output coordinate `k` lies in tile `i`, as a pixel and a sub-pixel of it. */
  lemma InsidePlane(job: Job, i: nat, n: nat, k: nat)
    requires job.scale > 0 && job.Start(i) < n && k < job.scale * n
    requires var e := if job.Start(i + 1) < n then job.Start(i + 1) else n; OutStart(job, i) <= k < job.scale * e
    ensures var e := if job.Start(i + 1) < n then job.Start(i + 1) else n; job.Start(i) <= k / job.scale < e
    ensures k - OutStart(job, i) == Flat(k / job.scale - job.Start(i), k % job.scale, job.scale)
  {
    var e := if job.Start(i + 1) < n then job.Start(i + 1) else n;
    var start := job.Start(i);
    hide Job.Start;
    SubPixel(job.scale, start, e, k);
  }

  lemma SubPixel(s: nat, a: nat, e: nat, k: nat)
    requires s > 0 && s * a <= k < s * e
    ensures a <= k / s < e && k - s * a == Flat(k / s - a, k % s, s)
  {
    DivInside(k, s, e);
    var q := k / s;
    if q < a {
      ScaledRow(s, q + 1, a);
    }
    assert s * (q - a) == s * q - s * a;
  }

  /** One output pixel. */
  lemma PixelProcessed(r: Run, f: PixelFn, out: seq<byte>, y: nat, x: nat)
    requires r.Valid() && r.job.scale == 4 && r.net == PixelNet(f, 4) && r.up == Repeater(4)
    requires ImageTo(r, out, r.H()) && y < 4 * r.job.h && x < 4 * r.job.w
    ensures PixelOk(r.job, r.img, f, out, y, x)
  {
    hide Run.Valid, ImageTo, PixelByte, Flat, Place, Run.Expected, Ready, Run.H, Run.W;
    var job, n := r.job, r.job.channels;
    StitchedColour(r, f, out, y, x, 0);
    StitchedColour(r, f, out, y, x, 1);
    StitchedColour(r, f, out, y, x, 2);
    if n == 4 {
      StitchedAlpha(r, out, y, x);
    }
    hide *;
    AllColours(f, r.img, Place(job.w, n, y / 4, x / 4, 0), out, Place(4 * job.w, n, y, x, 0), n, job.bgr);
  }

  lemma AllColours(f: PixelFn, img: seq<byte>, p: nat, out: seq<byte>, q: nat, n: nat, bgr: bool)
    requires forall c: nat :: c < 3 ==> ColourOk(f, img, p, out, q, n, bgr, c)
    requires n == 4 ==> p + 4 <= |img| && q + 4 <= |out| && out[q + 3] == img[p + 3]
    ensures BytesOk(f, img, p, out, q, n, bgr)
  {
    hide PixelByte;
    assert ColourOk(f, img, p, out, q, n, bgr, 0) && ColourOk(f, img, p, out, q, n, bgr, 1);
    assert ColourOk(f, img, p, out, q, n, bgr, 2);
  }

  lemma StitchedColour(r: Run, f: PixelFn, out: seq<byte>, y: nat, x: nat, c: nat)
    requires r.Valid() && r.job.scale == 4 && r.net == PixelNet(f, 4) && ImageTo(r, out, r.H())
    requires y < 4 * r.job.h && x < 4 * r.job.w && c < 3
    ensures var n := r.job.channels;
      ColourOk(f, r.img, Place(r.job.w, n, y / 4, x / 4, 0), out, Place(4 * r.job.w, n, y, x, 0), n, r.job.bgr, c)
  {
    hide ColourOut, Quantize, Local, Foreign, PixelByte, Flat;
    var job, n := r.job, r.job.channels;
    ColourIs(job, r.img, f, y, x, c, Place(job.w, n, y / 4, x / 4, 0));
    DivInside(y, 4, job.h);
    DivInside(x, 4, job.w);
    ThreeBytes(job, r.img, y / 4, x / 4);
    assert Stitched(r, out, y, x, c);
    OutPlaces(job.w, job.h, n, y, x);
  }

  lemma StitchedAlpha(r: Run, out: seq<byte>, y: nat, x: nat)
    requires r.Valid() && r.job.scale == 4 && r.up == Repeater(4) && ImageTo(r, out, r.H())
    requires y < 4 * r.job.h && x < 4 * r.job.w && r.job.channels == 4
    ensures var k, q := Place(r.job.w, 4, y / 4, x / 4, 0), Place(4 * r.job.w, 4, y, x, 0);
      k + 4 <= |r.img| && q + 4 <= |out| && out[q + 3] == r.img[k + 3]
  {
    hide Run.AlphaOut, Quantize, Local, Foreign, Flat;
    var job := r.job;
    AlphaIs(r, y, x);
    assert Stitched(r, out, y, x, 3);
    OutPlaces(job.w, job.h, 4, y, x);
    AlphaByte(r.img[Place(job.w, 4, y / 4, x / 4, 3)]);
    ThreeBytes(job, r.img, y / 4, x / 4);
  }

  lemma AlphaByte(b: byte)
    ensures Quantize(b as real) == b
  {
    QuantizeIs(b as real, b);
  }

  lemma OutPlaces(w: nat, h: nat, n: nat, y: nat, x: nat)
    requires y < 4 * h && x < 4 * w && n > 0
    ensures var q := n * ((4 * w) * y + x);
      && q + n <= n * ((4 * w) * (4 * h))
      && forall c :: 0 <= c < n ==> Cell(4 * w, n, y, x, c) == q + c
  {
    CellInside(4 * w, 4 * h, n, y, x, n - 1);
  }

  /** The whole call with a network that treats pixels by themselves: every output pixel is
      what that network makes of the pixel a quarter of the way, for every tile size,
      padding and image larger than the padding, with or without the channel swap. */
  method ProcessPixelwise(job: Job, img: seq<byte>, f: PixelFn) returns (out: array<byte>)
    requires Ready(job, img) && job.scale == 4
    ensures fresh(out) && out.Length == job.channels * ((4 * job.w) * (4 * job.h))
    ensures forall y: nat, x: nat :: y < 4 * job.h && x < 4 * job.w ==> PixelOk(job, img, f, out[..], y, x)
  {
    PixelNetLocal(f, 4, job.pad);
    RepeaterScales(4);
    var r := Run(job, img, PixelNet(f, 4), Repeater(4));
    out := ProcessImage(r);
    forall y: nat, x: nat | y < 4 * job.h && x < 4 * job.w ensures PixelOk(job, img, f, out[..], y, x) {
      PixelProcessed(r, f, out[..], y, x);
    }
  }

  /** Repeating every value: the output is the image, each byte repeated four by four. */
  method ProcessRepeating(job: Job, img: seq<byte>) returns (out: array<byte>)
    requires Ready(job, img) && job.scale == 4
    ensures fresh(out) && out.Length == job.channels * ((4 * job.w) * (4 * job.h))
    ensures forall y: nat, x: nat, k: nat :: y < 4 * job.h && x < 4 * job.w && k < job.channels ==>
      Repeats(job, img, out[..], y, x, k)
  {
    out := ProcessPixelwise(job, img, Itself);
    forall y: nat, x: nat, k: nat | y < 4 * job.h && x < 4 * job.w && k < job.channels
      ensures Repeats(job, img, out[..], y, x, k)
    {
      assert PixelOk(job, img, Itself, out[..], y, x);
      PixelRepeats(job, img, out[..], y, x, k);
    }
  }

  function Itself(c: nat, red: real, green: real, blue: real): real {
    if c == 0 then red else if c == 1 then green else blue
  }

  /** Stored byte `k` of output pixel (y, x) is that of image pixel (y / 4, x / 4). */
  predicate Repeats(job: Job, img: seq<byte>, out: seq<byte>, y: nat, x: nat, k: nat) {
    var p, q := Place(job.w, job.channels, y / 4, x / 4, k), Place(4 * job.w, job.channels, y, x, k);
    p < |img| && q < |out| && out[q] == img[p]
  }

  lemma PixelRepeats(job: Job, img: seq<byte>, out: seq<byte>, y: nat, x: nat, k: nat)
    requires job.w > 0 && y < 4 * job.h && x < 4 * job.w && k < job.channels && PixelOk(job, img, Itself, out, y, x)
    ensures Repeats(job, img, out, y, x, k)
  {
    hide BytesOk, Place;
    var n := job.channels;
    ByteRepeats(img, Place(job.w, n, y / 4, x / 4, 0), out, Place(4 * job.w, n, y, x, 0), n, job.bgr, k);
    PlaceOf(job.w, n, y / 4, x / 4, k);
    PlaceOf(4 * job.w, n, y, x, k);
  }

  lemma PlaceOf(w: nat, n: nat, y: nat, x: nat, k: nat)
    ensures Place(w, n, y, x, k) == Place(w, n, y, x, 0) + k
  {
  }

  lemma ByteRepeats(img: seq<byte>, p: nat, out: seq<byte>, q: nat, n: nat, bgr: bool, k: nat)
    requires BytesOk(Itself, img, p, out, q, n, bgr) && k < n
    ensures p + k < |img| && q + k < |out| && out[q + k] == img[p + k]
  {
    hide Quantize;
    BytesSurvive(img[p]);
    BytesSurvive(img[p + 1]);
    BytesSurvive(img[p + 2]);
    assert k == 0 || k == 1 || k == 2 || k == 3;
  }
}
