/** The first shader: one invocation per value of a padded tile, reading the uploaded
    strip of image rows with mirrored coordinates. */
module TilingPreproc {
  import opened Bits
  import opened Positions
  import opened TilingSpec

  /** The shader's push constants. */
  datatype PreParams = PreParams(
    w: nat, h: nat, outw: nat, outh: nat, pad: nat, cropX: nat, cropY: nat,
    channels: nat, alphaw: nat, alphah: nat)

  /** The image rows that strip `yi` uploads. */
  function Strip(job: Job, img: seq<byte>, yi: nat): (s: seq<byte>)
    requires Ready(job, img) && job.Start(yi) < job.h
    ensures |s| == job.channels * (job.w * (job.StripBottom(yi) - job.StripTop(yi)))
  {
    var top, bottom := job.StripTop(yi), job.StripBottom(yi);
    StripRows(job, yi);
    RowBytes(job, top, bottom);
    RowBytes(job, bottom, job.h);
    img[job.channels * (job.w * top)..job.channels * (job.w * bottom)]
  }

  lemma StripRows(job: Job, yi: nat)
    requires job.Valid() && job.Start(yi) < job.h
    ensures job.StripTop(yi) < job.StripBottom(yi) <= job.h
  {
    NextStart(job, yi);
  }

  lemma RowBytes(job: Job, a: nat, b: nat)
    requires a <= b
    ensures job.channels * (job.w * a) <= job.channels * (job.w * b)
    ensures job.channels * (job.w * b) - job.channels * (job.w * a) == job.channels * (job.w * (b - a))
  {
    ScaledRow(job.w, a, b);
    ScaledRow(job.channels, job.w * a, job.w * b);
    assert job.w * b - job.w * a == job.w * (b - a);
    assert job.channels * (job.w * b - job.w * a) == job.channels * (job.w * b) - job.channels * (job.w * a);
  }

  /** Row `y` of the strip is image row `StripTop + y`. */
  lemma StripPixel(job: Job, img: seq<byte>, yi: nat, y: nat, x: nat, c: nat)
    requires Ready(job, img) && job.Start(yi) < job.h
    requires y < job.StripBottom(yi) - job.StripTop(yi) && x < job.w && c < job.channels
    ensures job.StripTop(yi) + y < job.h
    ensures Flat(Flat(y, x, job.w), c, job.channels) < |Strip(job, img, yi)|
    ensures Strip(job, img, yi)[Flat(Flat(y, x, job.w), c, job.channels)]
      == img[ByteIndex(job, job.StripTop(yi) + y, x, c)]
  {
    hide Job.StripTop, Job.StripBottom, Job.Start, Flat;
    var top, rows := job.StripTop(yi), job.StripBottom(yi) - job.StripTop(yi);
    StripRows(job, yi);
    SliceIndex(job.w, job.channels, top, rows, y, x, c);
    RowBytes(job, top, job.StripBottom(yi));
    RowBytes(job, job.StripBottom(yi), job.h);
    SliceAt(img, job.channels * (job.w * top), job.channels * (job.w * job.StripBottom(yi)),
            Flat(Flat(y, x, job.w), c, job.channels));
  }

  lemma SliceAt(img: seq<byte>, a: nat, b: nat, i: nat)
    requires a <= b <= |img| && i < b - a
    ensures img[a..b][i] == img[a + i]
  {
  }

  /** A byte's place in a slice of whole rows, and in the image. */
  lemma SliceIndex(w: nat, n: nat, top: nat, rows: nat, y: nat, x: nat, c: nat)
    requires y < rows && x < w && c < n
    ensures Flat(Flat(y, x, w), c, n) < n * (w * rows)
    ensures Flat(Flat(top + y, x, w), c, n) == n * (w * top) + Flat(Flat(y, x, w), c, n)
  {
    FlatBound(y, x, rows, w);
    FlatBound(Flat(y, x, w), c, w * rows, n);
    FlatShift(y, x, top, w);
    FlatShift(Flat(y, x, w), c, w * top, n);
  }

  /** The position the shader samples, and the value it stores there. */
  predicate SamplesInside(p: PreParams, gx: nat, gy: nat) {
    && 0 <= Mirror(gx + p.cropX - p.pad, p.w) < p.w
    && 0 <= Mirror(gy + p.cropY - p.pad, p.h) < p.h
  }

  /** The byte that invocation (gx, gy, gz) reads. */
  function Sampled(p: PreParams, bgr: bool, bottom: seq<byte>, gx: nat, gy: nat, gz: nat): byte
    requires gz < p.channels && 3 <= p.channels <= 4 && |bottom| == p.channels * (p.w * p.h) && SamplesInside(p, gx, gy)
  {
    var y, x := Mirror(gy + p.cropY - p.pad, p.h), Mirror(gx + p.cropX - p.pad, p.w);
    var c := if bgr && gz != 3 then 2 - gz else gz;
    FlatBound(y, x, p.h, p.w);
    FlatBound(Flat(y, x, p.w), c, p.w * p.h, p.channels);
    bottom[Flat(Flat(y, x, p.w), c, p.channels)]
  }

  /** One invocation of the shader. */
  method PreprocMain(gx0: nat, gy0: nat, gz: nat, p: PreParams, bgr: bool, bottom: seq<byte>,
                     top: array<real>, alpha: array<real>)
    requires (p.channels == 3 || p.channels == 4) && |bottom| == p.channels * (p.w * p.h)
    requires gx0 < p.outw && gy0 < p.outh && gz < p.channels ==> SamplesInside(p, gx0, gy0)
    requires top.Length == (p.outw * p.outh) * 3 && top != alpha
    requires p.channels == 4 ==> alpha.Length == p.alphaw * p.alphah
    modifies top, alpha
    ensures gx0 >= p.outw || gy0 >= p.outh || gz >= p.channels ==> top[..] == old(top[..]) && alpha[..] == old(alpha[..])
    ensures gx0 < p.outw && gy0 < p.outh && gz < p.channels ==>
      var v := Sampled(p, bgr, bottom, gx0, gy0, gz);
      && (gz < 3 ==>
        && alpha[..] == old(alpha[..])
        && Flat(gz, Flat(gy0, gx0, p.outw), p.outw * p.outh) < top.Length
        && top[..] == old(top[..])[Flat(gz, Flat(gy0, gx0, p.outw), p.outw * p.outh) := Normalise(v)])
      && (gz == 3 ==>
        && top[..] == old(top[..])
        && (if p.pad <= gx0 < p.pad + p.alphaw && p.pad <= gy0 < p.pad + p.alphah
            then
              && Flat(gy0 - p.pad, gx0 - p.pad, p.alphaw) < alpha.Length
              && alpha[..] == old(alpha[..])[Flat(gy0 - p.pad, gx0 - p.pad, p.alphaw) := v as real]
            else alpha[..] == old(alpha[..])))
  {
    var gx: int, gy: int := gx0, gy0;
    if gx >= p.outw || gy >= p.outh || gz >= p.channels {
      return;
    }
    var x: int := gx + p.cropX - p.pad;
    var y: int := gy + p.cropY - p.pad;
    x := Abs(x);
    y := Abs(y);
    x := (p.w - 1) - Abs(x - (p.w - 1));
    y := (p.h - 1) - Abs(y - (p.h - 1));
    var vOffset := Flat(y, x, p.w);
    var c := if bgr && gz != 3 then 2 - gz else gz;
    FlatBound(y, x, p.h, p.w);
    FlatBound(vOffset, c, p.w * p.h, p.channels);
    var v := bottom[Flat(vOffset, c, p.channels)];
    if gz == 3 {
      gx := gx - p.pad;
      gy := gy - p.pad;
      if gx >= 0 && gx < p.alphaw && gy >= 0 && gy < p.alphah {
        FlatBound(gy, gx, p.alphah, p.alphaw);
        alpha[Flat(gy, gx, p.alphaw)] := v as real;
      }
    } else {
      FlatBound(gy, gx, p.outh, p.outw);
      FlatBound(gz, Flat(gy, gx, p.outw), 3, p.outw * p.outh);
      top[Flat(gz, Flat(gy, gx, p.outw), p.outw * p.outh)] := Normalise(v);
    }
  }

  // ------------------------------------------------------------ one dispatch

  predicate OnTile(job: Job, img: seq<byte>, yi: nat, xi: nat) {
    Ready(job, img) && job.Start(yi) < job.h && job.Start(xi) < job.w
  }

  /** The push constants for tile (yi, xi). */
  function TileParams(job: Job, yi: nat, xi: nat): PreParams
    requires job.Valid() && job.Start(yi) < job.h && job.Start(xi) < job.w
  {
    StripRows(job, yi);
    NextStart(job, yi);
    NextStart(job, xi);
    PreParams(job.w, job.StripBottom(yi) - job.StripTop(yi),
              job.TileW(xi) + 2 * job.pad, job.TileH(yi) + 2 * job.pad, job.pad,
              job.Start(xi), job.CropY(yi), job.channels, job.TileW(xi), job.TileH(yi))
  }

  /** The unpadded alpha values of tile (yi, xi). */
  function AlphaPlane(job: Job, img: seq<byte>, yi: nat, xi: nat): (p: Plane)
    requires OnTile(job, img, yi, xi) && job.channels == 4
    ensures p.Valid() && p.w == job.TileW(xi) && p.h == job.TileH(yi)
  {
    NextStart(job, yi);
    NextStart(job, xi);
    var w, h := job.TileW(xi), job.TileH(yi);
    Plane(w, h, seq(w * h, k requires 0 <= k < w * h => AlphaValue(job, img, yi, xi, w, h, k)))
  }

  function AlphaValue(job: Job, img: seq<byte>, yi: nat, xi: nat, w: nat, h: nat, k: nat): real
    requires OnTile(job, img, yi, xi) && job.channels == 4
    requires w == job.TileW(xi) && h == job.TileH(yi) && k < w * h
  {
    var (y, x) := RowColumn(k, w, h);
    NextStart(job, yi);
    NextStart(job, xi);
    Pixel(job, img, job.Start(yi) + y, job.Start(xi) + x, 3) as real
  }

  lemma AlphaPlaneAt(job: Job, img: seq<byte>, yi: nat, xi: nat, y: nat, x: nat)
    requires OnTile(job, img, yi, xi) && job.channels == 4 && y < job.TileH(yi) && x < job.TileW(xi)
    ensures job.Start(yi) + y < job.h && job.Start(xi) + x < job.w
    ensures Flat(y, x, job.TileW(xi)) < |AlphaPlane(job, img, yi, xi).data|
    ensures AlphaPlane(job, img, yi, xi).data[Flat(y, x, job.TileW(xi))]
      == Pixel(job, img, job.Start(yi) + y, job.Start(xi) + x, 3) as real
  {
    NextStart(job, yi);
    NextStart(job, xi);
    FlatBound(y, x, job.TileH(yi), job.TileW(xi));
    FlatDivMod(y, x, job.TileW(xi));
  }

  /** No invocation for a tile samples outside the uploaded strip. */
  lemma SamplesStayInside(job: Job, yi: nat, xi: nat, gx: nat, gy: nat)
    requires job.Valid() && job.Start(yi) < job.h && job.Start(xi) < job.w && job.pad < job.w && job.pad < job.h
    requires gx < TileParams(job, yi, xi).outw && gy < TileParams(job, yi, xi).outh
    ensures SamplesInside(TileParams(job, yi, xi), gx, gy)
  {
    StripMirror(job, yi, gy);
    TileInside(job, yi, xi, gy, gx);
    assert gx + TileParams(job, yi, xi).cropX - job.pad == job.Start(xi) + gx - job.pad;
  }

  /** One of the invocations that the dispatches of all tiles make. */
  predicate Invoked(job: Job, yi: nat, xi: nat, gx: nat, gy: nat)
    requires job.Valid()
  {
    && job.Start(yi) < job.h && job.Start(xi) < job.w
    && gx < TileParams(job, yi, xi).outw && gy < TileParams(job, yi, xi).outh
  }

  ghost predicate AllInside(job: Job)
    requires job.Valid()
  {
    forall yi: nat, xi: nat, gx: nat, gy: nat :: Invoked(job, yi, xi, gx, gy) ==>
      SamplesInside(TileParams(job, yi, xi), gx, gy)
  }

  /** Every invocation of every tile samples inside its strip exactly when both sides of
      the image are longer than the padding. */
  lemma AllInsideExactly(job: Job)
    requires job.Valid()
    ensures AllInside(job) <==> job.pad < job.w && job.pad < job.h
  {
    hide SamplesInside, TileParams;
    if job.pad < job.w && job.pad < job.h {
      forall yi: nat, xi: nat, gx: nat, gy: nat | Invoked(job, yi, xi, gx, gy)
        ensures SamplesInside(TileParams(job, yi, xi), gx, gy)
      {
        SamplesStayInside(job, yi, xi, gx, gy);
      }
    } else {
      var yi, xi := job.YTiles() - 1, job.XTiles() - 1;
      LastTile(job, yi, xi);
      var p := TileParams(job, yi, xi);
      assert Invoked(job, yi, xi, p.outw - 1, p.outh - 1);
      assert !SamplesInside(p, p.outw - 1, p.outh - 1);
    }
  }

  /** The last invocation of the last tile reaches `pad` steps beyond the far corner. */
  lemma LastTile(job: Job, yi: int, xi: int)
    requires job.Valid() && yi == job.YTiles() - 1 && xi == job.XTiles() - 1
    ensures yi >= 0 && xi >= 0 && job.Start(yi) < job.h && job.Start(xi) < job.w
    ensures var p := TileParams(job, yi, xi);
      && p.outw > 0 && p.outh > 0
      && (SamplesInside(p, p.outw - 1, p.outh - 1) ==> job.pad < job.w && job.pad < job.h)
  {
    TilesCover(job.h, job.tile, 0);
    TilesCover(job.w, job.tile, 0);
    NextStart(job, yi);
    NextStart(job, xi);
  }

  /** The byte that invocation (gx, gy, gz) for tile (yi, xi) reads. */
  function TileSample(job: Job, img: seq<byte>, yi: nat, xi: nat, gx: nat, gy: nat, gz: nat): byte
    requires OnTile(job, img, yi, xi) && gz < job.channels
    requires gx < TileParams(job, yi, xi).outw && gy < TileParams(job, yi, xi).outh
  {
    SamplesStayInside(job, yi, xi, gx, gy);
    Sampled(TileParams(job, yi, xi), job.bgr, Strip(job, img, yi), gx, gy, gz)
  }

  /** It is the image's byte at the mirrored coordinate of the whole image. */
  lemma SampleIsMirrored(job: Job, img: seq<byte>, yi: nat, xi: nat, gx: nat, gy: nat, gz: nat)
    requires OnTile(job, img, yi, xi) && gz < job.channels
    requires gx < TileParams(job, yi, xi).outw && gy < TileParams(job, yi, xi).outh
    ensures 0 <= Mirror(job.Start(yi) + gy - job.pad, job.h) < job.h
    ensures 0 <= Mirror(job.Start(xi) + gx - job.pad, job.w) < job.w
    ensures TileSample(job, img, yi, xi, gx, gy, gz)
      == Pixel(job, img, Mirror(job.Start(yi) + gy - job.pad, job.h), Mirror(job.Start(xi) + gx - job.pad, job.w), gz)
  {
    hide Mirror, Job.Start, Job.StripTop, Job.StripBottom, Job.TileH, Job.TileW, Job.CropY, Strip, Flat, ByteIndex;
    var p := TileParams(job, yi, xi);
    SamplesStayInside(job, yi, xi, gx, gy);
    StripMirror(job, yi, gy);
    TileInside(job, yi, xi, gy, gx);
    assert gx + p.cropX - p.pad == job.Start(xi) + gx - job.pad;
    hide TileParams, SamplesInside;
    StripPixel(job, img, yi, Mirror(gy + p.cropY - p.pad, p.h), Mirror(gx + p.cropX - p.pad, p.w), Swap(job.bgr, gz));
  }

  predicate FilledBelow(top: seq<real>, data: seq<real>, k: nat) {
    |top| == |data| && k <= |data| && top[..k] == data[..k]
  }

  lemma FillStep(top: seq<real>, data: seq<real>, k: nat, v: real)
    requires FilledBelow(top, data, k) && k < |data| && v == data[k]
    ensures FilledBelow(top[k := v], data, k + 1)
  {
    assert data[..k + 1] == data[..k] + [v];
  }

  /** The value a colour invocation stores is the tile's value at that place. */
  lemma ColourValue(job: Job, img: seq<byte>, yi: nat, xi: nat, gz: nat, gy: nat, gx: nat)
    requires OnTile(job, img, yi, xi) && gz < 3
    requires gx < TileParams(job, yi, xi).outw && gy < TileParams(job, yi, xi).outh
    ensures Normalise(TileSample(job, img, yi, xi, gx, gy, gz)) == TileBlob(job, img, yi, xi).At(gz, gy, gx)
  {
    SampleIsMirrored(job, img, yi, xi, gx, gy, gz);
    TileBlobAt(job, img, yi, xi, gz, gy, gx);
    hide Strip, TileBlob, Mirror, Job.Start, TileSample, Normalise;
  }

  /** The invocations of one colour plane fill that plane of the tile. */
  method DispatchColour(job: Job, ghost img: seq<byte>, strip: seq<byte>, ghost yi: nat, ghost xi: nat, p: PreParams,
                        gz: nat, top: array<real>, alpha: array<real>)
    requires OnTile(job, img, yi, xi) && gz < 3 && strip == Strip(job, img, yi) && p == TileParams(job, yi, xi)
    requires top != alpha && (job.channels == 4 ==> alpha.Length == p.alphaw * p.alphah)
    requires FilledBelow(top[..], TileBlob(job, img, yi, xi).data, Flat(gz, 0, p.outw * p.outh))
    modifies top, alpha
    ensures alpha[..] == old(alpha[..])
    ensures FilledBelow(top[..], TileBlob(job, img, yi, xi).data, Flat(gz + 1, 0, p.outw * p.outh))
  {
    hide Strip, TileBlob, Mirror, Job.Start, Normalise, SamplesInside, FilledBelow, Sampled;
    ghost var data := TileBlob(job, img, yi, xi).data;
    assert |data| == (p.outw * p.outh) * 3;
    var gy := 0;
    while gy < p.outh
      invariant gy <= p.outh && alpha[..] == old(alpha[..])
      invariant FilledBelow(top[..], data, Flat(gz, Flat(gy, 0, p.outw), p.outw * p.outh))
    {
      var gx := 0;
      while gx < p.outw
        invariant gx <= p.outw && alpha[..] == old(alpha[..])
        invariant FilledBelow(top[..], data, Flat(gz, Flat(gy, gx, p.outw), p.outw * p.outh))
      {
        SamplesStayInside(job, yi, xi, gx, gy);
        ColourValue(job, img, yi, xi, gz, gy, gx);
        FlatBound(gy, gx, p.outh, p.outw);
        FlatBound(gz, Flat(gy, gx, p.outw), 3, p.outw * p.outh);
        FilledLength(top[..], data, Flat(gz, Flat(gy, gx, p.outw), p.outw * p.outh));
        ghost var was := top[..];
        PreprocMain(gx, gy, gz, p, job.bgr, strip, top, alpha);
        FillStep(was, data, Flat(gz, Flat(gy, gx, p.outw), p.outw * p.outh), data[Flat(gz, Flat(gy, gx, p.outw), p.outw * p.outh)]);
        gx := gx + 1;
      }
      RowEnd(gy, p.outw);
      gy := gy + 1;
    }
    PlaneEnd(gz, p.outw, p.outh);
  }

  lemma FilledLength(top: seq<real>, data: seq<real>, k: nat)
    requires FilledBelow(top, data, k)
    ensures |top| == |data|
  {
  }

  lemma RowEnd(y: nat, w: nat)
    ensures Flat(y, w, w) == Flat(y + 1, 0, w)
  {
    ScaledRow(w, y, y + 1);
  }

  lemma PlaneEnd(c: nat, w: nat, h: nat)
    ensures Flat(c, Flat(h, 0, w), w * h) == Flat(c + 1, 0, w * h)
    ensures Flat(c, Flat(0, 0, w), w * h) == Flat(c, 0, w * h)
  {
    RowEnd(c, w * h);
  }

  /** How many alpha values have been stored before invocation (gx, gy). */
  function AlphaCount(p: PreParams, gy: nat, gx: nat): nat {
    if gy < p.pad then 0
    else if gy >= p.pad + p.alphah then p.alphaw * p.alphah
    else if gx < p.pad then Flat(gy - p.pad, 0, p.alphaw)
    else if gx >= p.pad + p.alphaw then Flat(gy - p.pad, p.alphaw, p.alphaw)
    else Flat(gy - p.pad, gx - p.pad, p.alphaw)
  }

  lemma AlphaRowEnd(p: PreParams, gy: nat)
    requires p.alphah > 0
    ensures AlphaCount(p, gy, 2 * p.pad + p.alphaw) == AlphaCount(p, gy + 1, 0)
  {
    if p.pad <= gy < p.pad + p.alphah {
      RowEnd(gy - p.pad, p.alphaw);
    }
  }

  lemma AlphaColumnStep(p: PreParams, gy: nat, gx: nat)
    ensures AlphaCount(p, gy, gx + 1) ==
      AlphaCount(p, gy, gx) + if p.pad <= gy < p.pad + p.alphah && p.pad <= gx < p.pad + p.alphaw then 1 else 0
  {
  }

  /** The value an alpha invocation stores. */
  lemma AlphaStored(job: Job, img: seq<byte>, yi: nat, xi: nat, gy: nat, gx: nat)
    requires OnTile(job, img, yi, xi) && job.channels == 4
    requires job.pad <= gx < job.pad + job.TileW(xi) && job.pad <= gy < job.pad + job.TileH(yi)
    ensures var k := Flat(gy - job.pad, gx - job.pad, job.TileW(xi));
      && k < |AlphaPlane(job, img, yi, xi).data|
      && TileSample(job, img, yi, xi, gx, gy, 3) as real == AlphaPlane(job, img, yi, xi).data[k]
  {
    hide TileSample, AlphaPlane, Flat, Pixel, Swap, Ready, Strip;
    NextStart(job, yi);
    NextStart(job, xi);
    SampleIsMirrored(job, img, yi, xi, gx, gy, 3);
    AlphaPlaneAt(job, img, yi, xi, gy - job.pad, gx - job.pad);
    NoMirror(job.Start(yi) + gy - job.pad, job.h);
    NoMirror(job.Start(xi) + gx - job.pad, job.w);
  }

  lemma NoMirror(x: nat, n: nat)
    requires x < n
    ensures Mirror(x, n) == x
  {
  }

  /** The invocations of the alpha channel copy the unpadded tile. */
  method DispatchAlpha(job: Job, ghost img: seq<byte>, strip: seq<byte>, ghost yi: nat, ghost xi: nat, p: PreParams,
                       top: array<real>, alpha: array<real>)
    requires OnTile(job, img, yi, xi) && strip == Strip(job, img, yi) && p == TileParams(job, yi, xi)
    requires job.channels == 4 && alpha.Length == p.alphaw * p.alphah
    requires top != alpha && top.Length == (p.outw * p.outh) * 3
    modifies top, alpha
    ensures top[..] == old(top[..]) && alpha[..] == AlphaPlane(job, img, yi, xi).data
  {
    hide Strip, AlphaPlane, Mirror, Job.Start, SamplesInside, FilledBelow, Sampled, AlphaCount, Flat;
    ghost var data := AlphaPlane(job, img, yi, xi).data;
    TilePositive(job, img, yi, xi);
    AlphaStart(p, alpha[..], data);
    var gy := 0;
    while gy < p.outh
      invariant gy <= p.outh && top[..] == old(top[..])
      invariant FilledBelow(alpha[..], data, AlphaCount(p, gy, 0))
    {
      var gx := 0;
      while gx < p.outw
        invariant gx <= p.outw && top[..] == old(top[..])
        invariant FilledBelow(alpha[..], data, AlphaCount(p, gy, gx))
      {
        SamplesStayInside(job, yi, xi, gx, gy);
        AlphaColumnStep(p, gy, gx);
        ghost var was := alpha[..];
        PreprocMain(gx, gy, 3, p, job.bgr, strip, top, alpha);
        if p.pad <= gx < p.pad + p.alphaw && p.pad <= gy < p.pad + p.alphah {
          AlphaStored(job, img, yi, xi, gy, gx);
          AlphaCountInside(p, gy, gx);
          FillStep(was, data, AlphaCount(p, gy, gx), data[AlphaCount(p, gy, gx)]);
        }
        gx := gx + 1;
      }
      AlphaRowEnd(p, gy);
      gy := gy + 1;
    }
    AlphaFinished(p, alpha[..], data);
  }

  lemma AlphaCountInside(p: PreParams, gy: nat, gx: nat)
    requires p.pad <= gx < p.pad + p.alphaw && p.pad <= gy < p.pad + p.alphah
    ensures AlphaCount(p, gy, gx) == Flat(gy - p.pad, gx - p.pad, p.alphaw)
  {
  }

  lemma AlphaStart(p: PreParams, alpha: seq<real>, data: seq<real>)
    requires |alpha| == |data| && p.alphah > 0
    ensures FilledBelow(alpha, data, AlphaCount(p, 0, 0))
  {
    assert Flat(0, 0, p.alphaw) == 0;
  }

  lemma AlphaFinished(p: PreParams, alpha: seq<real>, data: seq<real>)
    requires |data| == p.alphaw * p.alphah && FilledBelow(alpha, data, AlphaCount(p, p.alphah + 2 * p.pad, 0))
    ensures alpha == data
  {
    assert alpha[..|data|] == alpha && data[..|data|] == data;
  }

  /** All invocations for one tile: the padded colour tile and the alpha tile. */
  method Preproc(job: Job, img: seq<byte>, yi: nat, xi: nat) returns (tile: Blob, alpha: Plane)
    requires OnTile(job, img, yi, xi)
    ensures tile == TileBlob(job, img, yi, xi)
    ensures job.channels == 4 ==> alpha == AlphaPlane(job, img, yi, xi)
  {
    hide TileBlob, AlphaPlane, Strip, Job.Start, Job.TileH, Job.TileW;
    var p := TileParams(job, yi, xi);
    var strip := Strip(job, img, yi);
    TileShape(job, img, yi, xi);
    var top := new real[(p.outw * p.outh) * 3](_ => 0.0);
    var alphaData := new real[if job.channels == 4 then p.alphaw * p.alphah else 0](_ => 0.0);
    ghost var data := TileBlob(job, img, yi, xi).data;
    FillStart(top[..], data, p.outw * p.outh);
    var gz := 0;
    while gz < 3
      invariant gz <= 3 && FilledBelow(top[..], data, Flat(gz, 0, p.outw * p.outh))
    {
      DispatchColour(job, img, strip, yi, xi, p, gz, top, alphaData);
      gz := gz + 1;
    }
    FillEnd(top[..], data, p.outw * p.outh);
    if job.channels == 4 {
      DispatchAlpha(job, img, strip, yi, xi, p, top, alphaData);
    }
    tile := Blob(p.outw, p.outh, top[..]);
    alpha := Plane(p.alphaw, p.alphah, alphaData[..]);
  }

  lemma TilePositive(job: Job, img: seq<byte>, yi: nat, xi: nat)
    requires OnTile(job, img, yi, xi)
    ensures TileParams(job, yi, xi).alphah > 0 && TileParams(job, yi, xi).alphaw > 0
  {
    NextStart(job, yi);
    NextStart(job, xi);
  }

  lemma TileShape(job: Job, img: seq<byte>, yi: nat, xi: nat)
    requires OnTile(job, img, yi, xi)
    ensures var p := TileParams(job, yi, xi); var b := TileBlob(job, img, yi, xi);
      p.outw == b.w && p.outh == b.h && |b.data| == (p.outw * p.outh) * 3
  {
  }

  lemma FillStart(top: seq<real>, data: seq<real>, n: nat)
    requires |top| == |data|
    ensures FilledBelow(top, data, Flat(0, 0, n))
  {
  }

  lemma FillEnd(top: seq<real>, data: seq<real>, n: nat)
    requires FilledBelow(top, data, Flat(3, 0, n)) && |data| == n * 3
    ensures top == data
  {
    assert top[..|data|] == top && data[..|data|] == data;
  }
}
