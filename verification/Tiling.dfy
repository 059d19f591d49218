/** Tiled super-resolution: the second shader, the tile loops and the stitched image. */
module Tiling {
  import opened Bits
  import opened Positions
  import opened TilingSpec
  import opened TilingPreproc

  type Upscaler = Plane -> Plane

  predicate Upscaled(up: Upscaler, p: Plane, scale: nat) {
    p.Valid() ==> up(p).Valid() && up(p).w == scale * p.w && up(p).h == scale * p.h
  }

  /** What is assumed of the two foreign components: the network is local, and the alpha
      interpolation magnifies. */
  ghost predicate Foreign(job: Job, net: Net, up: Upscaler) {
    Local(net, job.pad, job.scale) && forall p: Plane :: Upscaled(up, p, job.scale)
  }

  // ------------------------------------------------------- the expected output

  /** Position (y, x), `off` rows and columns further on, lies in the blob. */
  predicate CropFits(t: Blob, off: nat, y: nat, x: nat) {
    t.Valid() && y + off < t.h && x + off < t.w
  }

  function Cropped(t: Blob, off: nat, c: nat, y: nat, x: nat): real
    requires CropFits(t, off, y, x) && c < 3
  {
    t.At(c, y + off, x + off)
  }

  /** Colour channel `c` at output position (y, x): the network on the whole mirrored
      image, with the magnified padding cropped away. */
  ghost function ColourOut(job: Job, img: seq<byte>, net: Net, y: nat, x: nat, c: nat): real
    requires Ready(job, img) && Local(net, job.pad, job.scale)
    requires y < job.scale * job.h && x < job.scale * job.w && c < 3
  {
    WholeCropFits(job, img, net, y, x);
    Cropped(net(WholeBlob(job, img)), job.scale * job.pad, c, y, x)
  }

  lemma WholeCropFits(job: Job, img: seq<byte>, net: Net, y: nat, x: nat)
    requires Ready(job, img) && Local(net, job.pad, job.scale)
    requires y < job.scale * job.h && x < job.scale * job.w
    ensures CropFits(net(WholeBlob(job, img)), job.scale * job.pad, y, x)
  {
    hide Local, Ready, WholeBlob;
    WholeScales(job, img, net);
    CropInside(job.scale, job.h, job.pad);
    CropInside(job.scale, job.w, job.pad);
  }

  lemma CropInside(scale: nat, n: nat, pad: nat)
    ensures scale * (n + 2 * pad) == scale * n + 2 * (scale * pad)
  {
  }

  lemma NetScales(net: Net, pad: nat, scale: nat, b: Blob)
    requires Local(net, pad, scale)
    ensures ScalesBy(net, b, scale)
  {
    assert LocalAt(net, pad, scale, b, 0, 0, b, 0, 0, 0, 0, 0);
  }

  lemma WholeScales(job: Job, img: seq<byte>, net: Net)
    requires Ready(job, img) && Local(net, job.pad, job.scale)
    ensures ScalesBy(net, WholeBlob(job, img), job.scale)
  {
    NetScales(net, job.pad, job.scale, WholeBlob(job, img));
  }

  /** First output row, column of strip `i`, tile `i`. */
  function OutStart(job: Job, i: nat): nat {
    job.scale * job.Start(i)
  }

  /** The strip or tile that output coordinate `k` belongs to. */
  function TileOf(job: Job, k: nat): nat
    requires job.Valid()
  {
    MulPositive(job.tile, job.scale);
    k / (job.tile * job.scale)
  }

  lemma MulPositive(a: nat, b: nat)
    requires a > 0 && b > 0
    ensures a * b > 0
  {
  }

  /** Output coordinate `k` lies in exactly one tile. `n` is the image side, `Start(i + 1)`
      cut off at `n` is where tile `i` ends. */
  lemma TileOfUnique(job: Job, n: nat, k: nat, i: nat)
    requires job.Valid() && k < job.scale * n
    ensures var e := if job.Start(i + 1) < n then job.Start(i + 1) else n;
      i == TileOf(job, k) <==> job.Start(i) < n && OutStart(job, i) <= k < job.scale * e
  {
    var m, s := job.tile * job.scale, job.scale;
    MulPositive(job.tile, s);
    OutStartFlat(job, i);
    OutStartFlat(job, i + 1);
    ScaledRow(m, i, i + 1);
    DivModParts(k, m);
    if OutStart(job, i) <= k < OutStart(job, i + 1) {
      FlatInjective(i, k - m * i, k / m, k % m, m);
      if job.Start(i) >= n {
        ScaledRow(s, n, job.Start(i));
      }
    } else if i == k / m {
      assert false;
    }
    if job.Start(i + 1) >= n {
      ScaledRow(s, n, job.Start(i + 1));
    }
    if job.Start(i + 1) < n {
      ScaledRow(s, job.Start(i + 1), n);
    }
  }

  lemma OutStartFlat(job: Job, i: nat)
    ensures OutStart(job, i) == (job.tile * job.scale) * i
  {
    assert job.scale * (job.tile * i) == (job.tile * job.scale) * i;
  }

  /** Output sub-pixel (sy, sx) of padded pixel (y, x), found by cropping the output. */
  lemma CroppedIs(net: Net, s: nat, pad: nat, b: Blob, y: nat, x: nat, c: nat, sy: nat, sx: nat)
    requires b.Valid() && ScalesBy(net, b, s) && y + pad < b.h && x + pad < b.w && c < 3 && sy < s && sx < s
    ensures CropFits(net(b), s * pad, Flat(y, sy, s), Flat(x, sx, s))
    ensures Cropped(net(b), s * pad, c, Flat(y, sy, s), Flat(x, sx, s)) == OutAt(net, s, b, y + pad, x + pad, c, sy, sx)
  {
    hide Flat, Blob.At;
    FlatBound(y + pad, sy, b.h, s);
    FlatBound(x + pad, sx, b.w, s);
    FlatShift(y, sy, pad, s);
    FlatShift(x, sx, pad, s);
  }

  /** What the network makes of tile (yi, xi), cropped, is the whole image's output there. */
  lemma TileColour(job: Job, img: seq<byte>, net: Net, yi: nat, xi: nat, gy: nat, gx: nat, c: nat)
    requires OnTile(job, img, yi, xi) && Local(net, job.pad, job.scale) && c < 3
    requires gy < job.scale * job.TileH(yi) && gx < job.scale * job.TileW(xi)
    ensures OutStart(job, yi) + gy < job.scale * job.h && OutStart(job, xi) + gx < job.scale * job.w
    ensures var t, off := net(TileBlob(job, img, yi, xi)), job.scale * job.pad;
      && CropFits(t, off, gy, gx)
      && Cropped(t, off, c, gy, gx) == ColourOut(job, img, net, OutStart(job, yi) + gy, OutStart(job, xi) + gx, c)
  {
    hide TileBlob, WholeBlob, Flat, Job.Start, Local, Cropped, OutAt;
    var s, pad := job.scale, job.pad;
    NextStart(job, yi);
    NextStart(job, xi);
    InsideTile(s, job.Start(yi), job.TileH(yi), job.h, gy);
    InsideTile(s, job.Start(xi), job.TileW(xi), job.w, gx);
    var y, sy := FlatSurjective(gy, job.TileH(yi), s);
    var x, sx := FlatSurjective(gx, job.TileW(xi), s);
    TileOutput(job, img, net, yi, xi, y, x, c, sy, sx);
    CroppedIs(net, s, pad, TileBlob(job, img, yi, xi), y, x, c, sy, sx);
    FlatShift(y, sy, job.Start(yi), s);
    FlatShift(x, sx, job.Start(xi), s);
    CroppedIs(net, s, pad, WholeBlob(job, img), job.Start(yi) + y, job.Start(xi) + x, c, sy, sx);
  }

  lemma InsideTile(s: nat, start: nat, size: int, n: nat, g: nat)
    requires start + size <= n && g < s * size && size >= 0
    ensures s * start + g < s * n
  {
    ScaledRow(s, start + size, n);
    assert s * (start + size) == s * start + s * size;
  }

  // ------------------------------------------------------- one output byte

  /** Everything one call to the processor depends on. */
  datatype Run = Run(job: Job, img: seq<byte>, net: Net, up: Upscaler) {
    ghost predicate Valid() {
      Ready(job, img) && Foreign(job, net, up)
    }

    /** Output width and height. */
    function W(): nat {
      job.scale * job.w
    }

    function H(): nat {
      job.scale * job.h
    }

    predicate InTile(yi: nat, xi: nat) {
      OnTile(job, img, yi, xi)
    }

    /** Rows of output strip `yi`, columns of output tile `xi`. */
    function Rows(yi: nat): nat
      requires job.Start(yi) < job.h
    {
      NextStart(job, yi);
      job.scale * job.TileH(yi)
    }

    function Columns(xi: nat): nat
      requires job.Start(xi) < job.w
    {
      NextStart(job, xi);
      job.scale * job.TileW(xi)
    }

    /** Alpha is interpolated tile by tile, with no padding. */
    ghost function AlphaOut(y: nat, x: nat): real
      requires Valid() && job.channels == 4 && y < H() && x < W()
    {
      var yi, xi := TileOf(job, y), TileOf(job, x);
      TileOfUnique(job, job.h, y, yi);
      TileOfUnique(job, job.w, x, xi);
      Within(job.scale, job.Start(yi), job.TileH(yi), y);
      Within(job.scale, job.Start(xi), job.TileW(xi), x);
      assert Upscaled(up, AlphaPlane(job, img, yi, xi), job.scale);
      up(AlphaPlane(job, img, yi, xi)).At(y - OutStart(job, yi), x - OutStart(job, xi))
    }

    /** The byte of logical channel `c` at output position (y, x). */
    ghost function Expected(y: nat, x: nat, c: nat): byte
      requires Valid() && y < H() && x < W() && c < job.channels
    {
      if c == 3 then Quantize(AlphaOut(y, x))
      else Quantize(ColourOut(job, img, net, y, x, c) * 255.0)
    }
  }

  lemma Within(s: nat, start: nat, size: int, k: nat)
    requires s * start <= k < s * (start + size)
    ensures k - s * start < s * size
  {
    assert s * (start + size) == s * start + s * size;
  }

  // ----------------------------------------------------------- the shader

  /** The second shader's push constants. */
  datatype PostParams = PostParams(
    w: nat, h: nat, outw: nat, outh: nat, offsetX: nat, gxMax: nat, cropX: nat, cropY: nat,
    channels: nat, alphaw: nat, alphah: nat)

  predicate ReadsInside(p: PostParams, bottom: Blob, alpha: Plane) {
    && (p.channels == 3 || p.channels == 4)
    && bottom.Valid() && p.w == bottom.w && p.h == bottom.h
    && p.gxMax + p.cropX <= p.w && p.outh + p.cropY <= p.h && p.offsetX + p.gxMax <= p.outw
    && (p.channels == 4 ==>
          (alpha.Valid() && p.alphaw == alpha.w && p.alphah == alpha.h && p.gxMax <= alpha.w && p.outh <= alpha.h))
  }

  /** The value an invocation computes. */
  function Shaded(p: PostParams, bottom: Blob, alpha: Plane, gx: nat, gy: nat, gz: nat): byte
    requires ReadsInside(p, bottom, alpha) && gx < p.gxMax && gy < p.outh && gz < p.channels
  {
    if gz == 3 then Quantize(alpha.At(gy, gx))
    else Quantize(bottom.At(gz, gy + p.cropY, gx + p.cropX) * 255.0)
  }

  /** One invocation. */
  method PostprocMain(gx: nat, gy: nat, gz: nat, p: PostParams, bgr: bool, bottom: Blob, alpha: Plane, top: array<byte>)
    requires ReadsInside(p, bottom, alpha) && top.Length == p.channels * (p.outw * p.outh)
    modifies top
    ensures gx >= p.gxMax || gy >= p.outh || gz >= p.channels ==> top[..] == old(top[..])
    ensures gx < p.gxMax && gy < p.outh && gz < p.channels ==>
      var k := Cell(p.outw, p.channels, gy, gx + p.offsetX, Swap(bgr, gz));
      k < top.Length && top[..] == old(top[..])[k := Shaded(p, bottom, alpha, gx, gy, gz)]
  {
    hide Flat;
    if gx >= p.gxMax || gy >= p.outh || gz >= p.channels {
      return;
    }
    var v: real;
    if gz == 3 {
      FlatBound(gy, gx, p.alphah, p.alphaw);
      v := alpha.data[Flat(gy, gx, p.alphaw)];
    } else {
      FlatBound(gy + p.cropY, gx + p.cropX, p.h, p.w);
      FlatBound(gz, Flat(gy + p.cropY, gx + p.cropX, p.w), 3, p.w * p.h);
      v := bottom.data[Flat(gz, Flat(gy + p.cropY, gx + p.cropX, p.w), p.w * p.h)];
      v := v * 255.0;
    }
    v := v + 0.5;
    var vOffset := Flat(gy, gx + p.offsetX, p.outw);
    var v32 := v.Floor;
    v32 := if v32 < 0 then 0 else if v32 > 255 then 255 else v32;
    CellInside(p.outw, p.outh, p.channels, gy, gx + p.offsetX, Swap(bgr, gz));
    if bgr && gz != 3 {
      top[Flat(vOffset, 2 - gz, p.channels)] := v32;
    } else {
      top[Flat(vOffset, gz, p.channels)] := v32;
    }
  }

  // ------------------------------------------------------------ one dispatch

  ghost predicate OnStrip(r: Run, yi: nat) {
    r.Valid() && r.job.Start(yi) < r.job.h
  }

  ghost predicate InStrip(r: Run, yi: nat, y: nat, x: nat, c: nat) {
    OnStrip(r, yi) && y < r.Rows(yi) && x < r.W() && c < r.job.channels
  }

  lemma StripInside(r: Run, yi: nat, y: nat)
    requires OnStrip(r, yi) && y < r.Rows(yi)
    ensures OutStart(r.job, yi) + y < r.H()
  {
    NextStart(r.job, yi);
    InsideTile(r.job.scale, r.job.Start(yi), r.job.TileH(yi), r.job.h, y);
  }

  /** Byte (y, x, c) of strip `yi` is the expected one. */
  ghost predicate ByteOk(r: Run, top: seq<byte>, yi: nat, y: nat, x: nat, c: nat)
    requires InStrip(r, yi, y, x, c)
  {
    StripInside(r, yi, y);
    var k := Cell(r.W(), r.job.channels, y, x, Swap(r.job.bgr, c));
    k < |top| && top[k] == r.Expected(OutStart(r.job, yi) + y, x, c)
  }

  /** Has (y, x, c) been written when the dispatch at columns `off .. off + width` has
      come to invocation (gx, gy, gz)? */
  predicate Done(off: nat, width: nat, gz: nat, gy: nat, gx: nat, y: nat, x: nat, c: nat) {
    || x < off
    || (x < off + width && (c < gz || (c == gz && (y < gy || (y == gy && x < off + gx)))))
  }

  ghost predicate StripTo(r: Run, top: seq<byte>, yi: nat, off: nat, width: nat, gz: nat, gy: nat, gx: nat)
    requires OnStrip(r, yi)
  {
    && |top| == r.job.channels * (r.W() * r.Rows(yi))
    && forall y: nat, x: nat, c: nat :: InStrip(r, yi, y, x, c) && Done(off, width, gz, gy, gx, y, x, c) ==>
         ByteOk(r, top, yi, y, x, c)
  }

  lemma StripStep(r: Run, top: seq<byte>, yi: nat, off: nat, width: nat, gz: nat, gy: nat, gx: nat, v: byte)
    requires InStrip(r, yi, gy, off + gx, gz) && gx < width && OutStart(r.job, yi) + gy < r.H()
    requires StripTo(r, top, yi, off, width, gz, gy, gx)
    requires v == r.Expected(OutStart(r.job, yi) + gy, off + gx, gz)
    ensures var k := Cell(r.W(), r.job.channels, gy, off + gx, Swap(r.job.bgr, gz));
      k < |top| && StripTo(r, top[k := v], yi, off, width, gz, gy, gx + 1)
  {
    hide Cell, Run.Expected, OutStart, Run.W, Run.Rows, Job.Start;
    var w, n := r.W(), r.job.channels;
    CellInside(w, r.Rows(yi), n, gy, off + gx, Swap(r.job.bgr, gz));
    var k := Cell(w, n, gy, off + gx, Swap(r.job.bgr, gz));
    forall y: nat, x: nat, c: nat |
      InStrip(r, yi, y, x, c) && Done(off, width, gz, gy, gx + 1, y, x, c)
      ensures ByteOk(r, top[k := v], yi, y, x, c)
    {
      CellInside(w, r.Rows(yi), n, y, x, Swap(r.job.bgr, c));
      if Cell(w, n, y, x, Swap(r.job.bgr, c)) == k {
        CellInjective(w, n, y, x, Swap(r.job.bgr, c), gy, off + gx, Swap(r.job.bgr, gz));
        assert c == gz;
      } else {
        assert ByteOk(r, top, yi, y, x, c);
      }
    }
  }

  /** The push constants for tile (yi, xi). */
  ghost predicate TilePost(r: Run, yi: nat, xi: nat, p: PostParams, bottom: Blob, alpha: Plane) {
    && OnStrip(r, yi) && r.InTile(yi, xi)
    && bottom == r.net(TileBlob(r.job, r.img, yi, xi))
    && (r.job.channels == 4 ==> alpha == r.up(AlphaPlane(r.job, r.img, yi, xi)))
    && p == PostParams(bottom.w, bottom.h, r.W(), r.Rows(yi), OutStart(r.job, xi), r.Columns(xi),
                       r.job.scale * r.job.pad, r.job.scale * r.job.pad, r.job.channels, alpha.w, alpha.h)
  }

  /** No invocation for a tile reads outside its inputs or writes outside the strip. */
  lemma PostInside(r: Run, yi: nat, xi: nat, p: PostParams, bottom: Blob, alpha: Plane)
    requires TilePost(r, yi, xi, p, bottom, alpha)
    ensures ReadsInside(p, bottom, alpha)
  {
    hide TileBlob, AlphaPlane, Job.Start, Local;
    NextStart(r.job, yi);
    NextStart(r.job, xi);
    NetScales(r.net, r.job.pad, r.job.scale, TileBlob(r.job, r.img, yi, xi));
    CropInside(r.job.scale, r.job.TileH(yi), r.job.pad);
    CropInside(r.job.scale, r.job.TileW(xi), r.job.pad);
    ScaledRow(r.job.scale, r.job.Start(xi) + r.job.TileW(xi), r.job.w);
    Distribute(r.job.scale, r.job.Start(xi), r.job.TileW(xi));
    if r.job.channels == 4 {
      assert Upscaled(r.up, AlphaPlane(r.job, r.img, yi, xi), r.job.scale);
    }
  }

  lemma Distribute(s: nat, a: nat, b: nat)
    ensures s * (a + b) == s * a + s * b
  {
  }

  /** What an invocation computes is the expected byte. */
  lemma ShadedExpected(r: Run, yi: nat, xi: nat, p: PostParams, bottom: Blob, alpha: Plane, gx: nat, gy: nat, gz: nat)
    requires TilePost(r, yi, xi, p, bottom, alpha) && ReadsInside(p, bottom, alpha)
    requires gx < p.gxMax && gy < p.outh && gz < p.channels
    ensures InStrip(r, yi, gy, OutStart(r.job, xi) + gx, gz) && OutStart(r.job, yi) + gy < r.H()
    ensures Shaded(p, bottom, alpha, gx, gy, gz)
      == r.Expected(OutStart(r.job, yi) + gy, OutStart(r.job, xi) + gx, gz)
  {
    hide TileBlob, AlphaPlane, Job.Start, Local, Quantize;
    TileColour(r.job, r.img, r.net, yi, xi, gy, gx, 0);
    if gz < 3 {
      TileColour(r.job, r.img, r.net, yi, xi, gy, gx, gz);
    } else {
      NextStart(r.job, yi);
      NextStart(r.job, xi);
      Distribute(r.job.scale, r.job.Start(yi), r.job.TileH(yi));
      Distribute(r.job.scale, r.job.Start(xi), r.job.TileW(xi));
      TileOfUnique(r.job, r.job.h, OutStart(r.job, yi) + gy, yi);
      TileOfUnique(r.job, r.job.w, OutStart(r.job, xi) + gx, xi);
    }
  }

  /** All invocations for tile (yi, xi) write that tile's columns of the strip. */
  method Postproc(ghost r: Run, ghost yi: nat, ghost xi: nat, p: PostParams, bgr: bool, bottom: Blob, alpha: Plane,
                  top: array<byte>)
    requires TilePost(r, yi, xi, p, bottom, alpha) && bgr == r.job.bgr
    requires StripTo(r, top[..], yi, p.offsetX, 0, 0, 0, 0)
    modifies top
    ensures StripTo(r, top[..], yi, p.offsetX + p.gxMax, 0, 0, 0, 0)
  {
    hide Run.Expected, Local, TilePost, ByteOk, Cell, Shaded, OutStart, Job.Start, Done, StripTo, InStrip;
    PostInside(r, yi, xi, p, bottom, alpha);
    PostShape(r, yi, xi, p, bottom, alpha);
    ghost var off, width := p.offsetX, p.gxMax;
    Reorder(r, top[..], yi, off, width);
    var gz := 0;
    while gz < p.channels
      invariant gz <= p.channels && StripTo(r, top[..], yi, off, width, gz, 0, 0)
    {
      var gy := 0;
      while gy < p.outh
        invariant gy <= p.outh && StripTo(r, top[..], yi, off, width, gz, gy, 0)
      {
        var gx := 0;
        while gx < p.gxMax
          invariant gx <= p.gxMax && StripTo(r, top[..], yi, off, width, gz, gy, gx)
        {
          StripLength(r, top[..], yi, off, width, gz, gy, gx);
          ShadedExpected(r, yi, xi, p, bottom, alpha, gx, gy, gz);
          StripStep(r, top[..], yi, off, width, gz, gy, gx, Shaded(p, bottom, alpha, gx, gy, gz));
          PostprocMain(gx, gy, gz, p, bgr, bottom, alpha, top);
          gx := gx + 1;
        }
        NextRow(r, top[..], yi, off, width, gz, gy);
        gy := gy + 1;
      }
      NextChannel(r, top[..], yi, off, width, gz);
      gz := gz + 1;
    }
    TileDone(r, top[..], yi, off, width);
  }

  lemma PostShape(r: Run, yi: nat, xi: nat, p: PostParams, bottom: Blob, alpha: Plane)
    requires TilePost(r, yi, xi, p, bottom, alpha)
    ensures OnStrip(r, yi) && r.InTile(yi, xi)
    ensures p.channels == r.job.channels && p.outw == r.W() && p.outh == r.Rows(yi)
    ensures p.offsetX == OutStart(r.job, xi) && p.gxMax == r.Columns(xi)
  {
  }

  lemma StripLength(r: Run, top: seq<byte>, yi: nat, off: nat, width: nat, gz: nat, gy: nat, gx: nat)
    requires OnStrip(r, yi) && StripTo(r, top, yi, off, width, gz, gy, gx)
    ensures |top| == r.job.channels * (r.W() * r.Rows(yi))
  {
  }

  lemma Reorder(r: Run, top: seq<byte>, yi: nat, off: nat, width: nat)
    requires OnStrip(r, yi) && StripTo(r, top, yi, off, 0, 0, 0, 0)
    ensures StripTo(r, top, yi, off, width, 0, 0, 0)
  {
    hide Run.Expected, ByteOk, InStrip;
  }

  lemma NextRow(r: Run, top: seq<byte>, yi: nat, off: nat, width: nat, gz: nat, gy: nat)
    requires OnStrip(r, yi) && StripTo(r, top, yi, off, width, gz, gy, width)
    ensures StripTo(r, top, yi, off, width, gz, gy + 1, 0)
  {
    hide Run.Expected, ByteOk, InStrip;
  }

  lemma NextChannel(r: Run, top: seq<byte>, yi: nat, off: nat, width: nat, gz: nat)
    requires OnStrip(r, yi) && StripTo(r, top, yi, off, width, gz, r.Rows(yi), 0)
    ensures StripTo(r, top, yi, off, width, gz + 1, 0, 0)
  {
    hide Run.Expected, ByteOk;
  }

  lemma TileDone(r: Run, top: seq<byte>, yi: nat, off: nat, width: nat)
    requires OnStrip(r, yi) && StripTo(r, top, yi, off, width, r.job.channels, 0, 0)
    ensures StripTo(r, top, yi, off + width, 0, 0, 0, 0)
  {
    hide Run.Expected, ByteOk;
  }

  // ------------------------------------------------------------ the tile loops

  /** Output strip `yi`: every tile of the row, preprocessed, run and postprocessed. */
  method ProcessStrip(r: Run, yi: nat, xtiles: nat) returns (top: array<byte>)
    requires OnStrip(r, yi) && xtiles == r.job.XTiles()
    ensures fresh(top) && StripTo(r, top[..], yi, r.W(), 0, 0, 0, 0)
  {
    hide Run.Expected, Local, ByteOk, TileBlob, AlphaPlane, StripTo, Job.Start, OutStart;
    top := new byte[r.job.channels * (r.W() * r.Rows(yi))](_ => 0);
    NothingYet(r, top[..], yi);
    NextStart(r.job, 0);
    var xi := 0;
    while xi < xtiles
      invariant xi <= xtiles && fresh(top)
      invariant StripTo(r, top[..], yi, TilesEnd(r, xi), 0, 0, 0, 0)
    {
      TileInRow(r.job.w, r.job, xi);
      EndOfTile(r, xi);
      var tile, alphaTile := Preproc(r.job, r.img, yi, xi);
      var bottom := r.net(tile);
      var alpha := if r.job.channels == 4 then r.up(alphaTile) else alphaTile;
      var offset := xi * r.job.tile * r.job.scale;
      var gxMax := if r.job.tile * r.job.scale < r.W() - offset then r.job.tile * r.job.scale else r.W() - offset;
      PushConstants(r, xi);
      var p := PostParams(bottom.w, bottom.h, r.W(), r.Rows(yi), offset, gxMax, r.job.pad * r.job.scale,
                          r.job.pad * r.job.scale, r.job.channels, alpha.w, alpha.h);
      Postproc(r, yi, xi, p, r.job.bgr, bottom, alpha, top);
      xi := xi + 1;
    }
    TilesEndRow(r);
  }

  lemma TileInRow(n: nat, job: Job, i: nat)
    requires job.Valid() && n > 0
    ensures i < (n + job.tile - 1) / job.tile <==> job.Start(i) < n
  {
    TilesCover(n, job.tile, i);
  }

  lemma TilesEndRow(r: Run)
    requires r.job.Valid()
    ensures TilesEnd(r, r.job.XTiles()) == r.W()
  {
    TileInRow(r.job.w, r.job, r.job.XTiles());
  }

  /** The first output column that tiles `0 .. xi` leave unwritten. */
  function TilesEnd(r: Run, xi: nat): nat {
    if r.job.Start(xi) < r.job.w then OutStart(r.job, xi) else r.W()
  }

  lemma NothingYet(r: Run, top: seq<byte>, yi: nat)
    requires OnStrip(r, yi) && |top| == r.job.channels * (r.W() * r.Rows(yi))
    ensures StripTo(r, top, yi, TilesEnd(r, 0), 0, 0, 0, 0)
  {
    NextStart(r.job, 0);
    assert OutStart(r.job, 0) == 0;
  }

  lemma EndOfTile(r: Run, xi: nat)
    requires r.job.Start(xi) < r.job.w
    ensures TilesEnd(r, xi) == OutStart(r.job, xi) && TilesEnd(r, xi + 1) == OutStart(r.job, xi) + r.Columns(xi)
  {
    NextStart(r.job, xi);
    Distribute(r.job.scale, r.job.Start(xi), r.job.TileW(xi));
  }

  /** The constants the host computes are those the tile needs. */
  lemma PushConstants(r: Run, xi: nat)
    requires r.job.Start(xi) < r.job.w
    ensures xi * r.job.tile * r.job.scale == OutStart(r.job, xi)
    ensures r.job.pad * r.job.scale == r.job.scale * r.job.pad
    ensures var m, rest := r.job.tile * r.job.scale, r.W() - OutStart(r.job, xi);
      r.Columns(xi) == if m < rest then m else rest
  {
    NextStart(r.job, xi);
    var j := r.job;
    assert j.tile * j.scale == j.scale * j.tile;
    assert xi * j.tile * j.scale == j.scale * (j.tile * xi);
    assert j.scale * (j.w - j.Start(xi)) == r.W() - OutStart(j, xi);
    if j.Start(xi + 1) < j.w {
      ScaledRow(j.scale, j.tile, j.w - j.Start(xi));
    } else {
      ScaledRow(j.scale, j.w - j.Start(xi), j.tile);
    }
  }

  ghost predicate ImageTo(r: Run, out: seq<byte>, rows: nat)
    requires r.Valid() && rows <= r.H()
  {
    && |out| == r.job.channels * (r.W() * r.H())
    && forall y: nat, x: nat, c: nat :: y < rows && x < r.W() && c < r.job.channels ==> Stitched(r, out, y, x, c)
  }

  ghost predicate Stitched(r: Run, out: seq<byte>, y: nat, x: nat, c: nat)
    requires r.Valid() && y < r.H() && x < r.W() && c < r.job.channels
  {
    var k := Cell(r.W(), r.job.channels, y, x, Swap(r.job.bgr, c));
    k < |out| && out[k] == r.Expected(y, x, c)
  }

  /** Byte offset of strip `yi` in the output image. */
  function StripOffset(job: Job, yi: nat): nat {
    yi * job.scale * job.tile * job.w * job.scale * job.channels
  }

  lemma StripOffsetIs(job: Job, yi: nat)
    ensures StripOffset(job, yi) == job.channels * ((job.scale * job.w) * OutStart(job, yi))
  {
    assert yi * job.scale * job.tile == OutStart(job, yi);
    assert OutStart(job, yi) * job.w * job.scale == (job.scale * job.w) * OutStart(job, yi);
  }

  lemma StripFits(r: Run, yi: nat)
    requires OnStrip(r, yi)
    ensures var n, w := r.job.channels, r.W();
      && OutStart(r.job, yi) + r.Rows(yi) <= r.H()
      && StripOffset(r.job, yi) + n * (w * r.Rows(yi)) == n * (w * (OutStart(r.job, yi) + r.Rows(yi))) <= n * (w * r.H())
  {
    NextStart(r.job, yi);
    StripOffsetIs(r.job, yi);
    Distribute(r.job.scale, r.job.Start(yi), r.job.TileH(yi));
    ScaledRow(r.job.scale, r.job.Start(yi) + r.job.TileH(yi), r.job.h);
    var top, rows := OutStart(r.job, yi), r.Rows(yi);
    Distribute(r.W(), top, rows);
    Distribute(r.job.channels, r.W() * top, r.W() * rows);
    ScaledRow(r.W(), top + rows, r.H());
    ScaledRow(r.job.channels, r.W() * (top + rows), r.W() * r.H());
  }

  /** Copying a finished strip to its offset extends the finished image. */
  lemma StripPlaced(r: Run, yi: nat, strip: seq<byte>, was: seq<byte>, out: seq<byte>)
    requires OnStrip(r, yi) && StripTo(r, strip, yi, r.W(), 0, 0, 0, 0)
    requires OutStart(r.job, yi) <= r.H() && ImageTo(r, was, OutStart(r.job, yi))
    requires var off := StripOffset(r.job, yi);
      off + |strip| <= |was| && out == was[..off] + strip + was[off + |strip|..]
    ensures OutStart(r.job, yi) + r.Rows(yi) <= r.H() && ImageTo(r, out, OutStart(r.job, yi) + r.Rows(yi))
  {
    hide Run.Expected, Job.Start, Swap, Flat;
    StripFits(r, yi);
    StripOffsetIs(r.job, yi);
    var w, n, top, off := r.W(), r.job.channels, OutStart(r.job, yi), StripOffset(r.job, yi);
    forall y: nat, x: nat, c: nat | y < top + r.Rows(yi) && x < w && c < n
      ensures Stitched(r, out, y, x, c)
    {
      SwapInside(r.job, c);
      if y < top {
        assert Stitched(r, was, y, x, c);
        CellInside(w, top, n, y, x, Swap(r.job.bgr, c));
      } else {
        assert InStrip(r, yi, y - top, x, c) && ByteOk(r, strip, yi, y - top, x, c);
        SliceIndex(w, n, top, r.Rows(yi), y - top, x, Swap(r.job.bgr, c));
      }
    }
  }

  lemma SwapInside(job: Job, c: nat)
    requires job.Valid() && c < job.channels
    ensures Swap(job.bgr, c) < job.channels
  {
  }

  method Download(strip: array<byte>, out: array<byte>, off: nat)
    requires off + strip.Length <= out.Length && strip != out
    modifies out
    ensures out[..] == old(out[..off]) + strip[..] + old(out[off + strip.Length..])
  {
    var k := 0;
    while k < strip.Length
      invariant k <= strip.Length && strip[..] == old(strip[..])
      invariant out[..] == old(out[..off]) + strip[..k] + old(out[off + k..])
    {
      out[off + k] := strip[k];
      k := k + 1;
    }
    assert strip[..k] == strip[..];
  }

  /** The size the output buffer is allocated with. */
  function BufferBytes(job: Job): nat {
    (job.w * 4) * (job.h * 4) * job.channels
  }

  /** The whole call: every byte of the output image, whose buffer is allocated for the
      fixed magnification of four, is the expected one. */
  method ProcessImage(r: Run) returns (out: array<byte>)
    requires r.Valid() && r.job.scale == 4
    ensures fresh(out) && ImageTo(r, out[..], r.H())
  {
    hide Run.Expected, Local, StripTo, ImageTo, StripOffset, OutStart, TileBlob, BufferBytes;
    out := new byte[BufferBytes(r.job)](_ => 0);
    var xtiles, ytiles := r.job.XTiles(), r.job.YTiles();
    BufferExact(r.job);
    NoRows(r, out[..]);
    var yi := 0;
    while yi < ytiles
      invariant yi <= ytiles && fresh(out) && out.Length == r.job.channels * (r.W() * r.H())
      invariant ImageTo(r, out[..], StripsEnd(r, yi))
    {
      TilesCover(r.job.h, r.job.tile, yi);
      TilesCover(r.job.h, r.job.tile, yi + 1);
      EndOfStrip(r, yi);
      var strip := ProcessStrip(r, yi, xtiles);
      StripLength(r, strip[..], yi, r.W(), 0, 0, 0, 0);
      StripFits(r, yi);
      ghost var was := out[..];
      Download(strip, out, StripOffset(r.job, yi));
      StripPlaced(r, yi, strip[..], was, out[..]);
      yi := yi + 1;
    }
    TilesCover(r.job.h, r.job.tile, ytiles);
  }

  function StripsEnd(r: Run, yi: nat): (k: nat)
    ensures k <= r.H()
  {
    if r.job.Start(yi) < r.job.h then
      ScaledRow(r.job.scale, r.job.Start(yi), r.job.h);
      OutStart(r.job, yi)
    else r.H()
  }

  lemma EndOfStrip(r: Run, yi: nat)
    requires r.job.Start(yi) < r.job.h
    ensures StripsEnd(r, yi) == OutStart(r.job, yi) && StripsEnd(r, yi + 1) == OutStart(r.job, yi) + r.Rows(yi)
  {
    NextStart(r.job, yi);
    Distribute(r.job.scale, r.job.Start(yi), r.job.TileH(yi));
  }

  lemma NoRows(r: Run, out: seq<byte>)
    requires r.Valid() && |out| == r.job.channels * (r.W() * r.H())
    ensures ImageTo(r, out, StripsEnd(r, 0))
  {
    NextStart(r.job, 0);
    assert OutStart(r.job, 0) == 0;
  }

  /** The buffer is allocated for a magnification of four: the strips fill it exactly
      when that is the magnification. */
  lemma BufferExact(job: Job)
    requires job.Valid()
    ensures BufferBytes(job) == job.channels * ((job.scale * job.w) * (job.scale * job.h)) <==> job.scale == 4
  {
    var s, a := job.scale, job.channels * (job.w * job.h);
    MulPositive(job.w, job.h);
    MulPositive(job.channels, job.w * job.h);
    assert (job.w * 4) * (job.h * 4) * job.channels == 16 * a;
    assert job.channels * ((s * job.w) * (s * job.h)) == (s * s) * a by {
      assert (s * job.w) * (s * job.h) == (s * s) * (job.w * job.h);
    }
    Squares(s, a);
  }

  lemma Squares(s: nat, a: nat)
    requires a > 0
    ensures (s * s) * a == 16 * a <==> s == 4
  {
    assert (s * s) * a - 16 * a == (s * s - 16) * a;
    assert s * s - 16 == (s - 4) * (s + 4);
  }

  // --------------------------------------------------------------- the results

  /** The tile size does not show in the colour channels. */
  lemma TileSizeIrrelevant(r: Run, tile: nat, y: nat, x: nat, c: nat)
    requires r.Valid() && tile > 0 && y < r.H() && x < r.W() && c < 3
    ensures var r' := r.(job := r.job.(tile := tile));
      r'.Valid() && r'.W() == r.W() && r'.H() == r.H() && r'.Expected(y, x, c) == r.Expected(y, x, c)
  {
    hide TileBlob, Quantize;
    assert WholeJob(r.job.(tile := tile)) == WholeJob(r.job);
    assert WholeBlob(r.job.(tile := tile), r.img) == WholeBlob(r.job, r.img);
  }

  /** The output byte that invocation (gx, gy, gz) for tile (yi, xi) writes. */
  function OutByte(job: Job, yi: nat, xi: nat, gx: nat, gy: nat, gz: nat): nat {
    StripOffset(job, yi) + Cell(job.scale * job.w, job.channels, gy, gx + xi * job.tile * job.scale, Swap(job.bgr, gz))
  }

  predicate Invocation(job: Job, yi: nat, xi: nat, gx: nat, gy: nat, gz: nat) {
    && job.Valid() && job.Start(yi) < job.h && job.Start(xi) < job.w && gz < job.channels
    && gy < job.scale * job.TileH(yi) && gx < job.scale * job.TileW(xi)
  }

  lemma TileOffset(job: Job, xi: nat)
    ensures xi * job.tile * job.scale == OutStart(job, xi)
  {
    assert xi * job.tile * job.scale == job.scale * (job.tile * xi);
  }

  lemma OutByteIs(job: Job, yi: nat, xi: nat, gx: nat, gy: nat, gz: nat)
    requires Invocation(job, yi, xi, gx, gy, gz)
    ensures var y, x := OutStart(job, yi) + gy, OutStart(job, xi) + gx;
      && y < job.scale * job.h && x < job.scale * job.w && yi == TileOf(job, y) && xi == TileOf(job, x)
      && OutByte(job, yi, xi, gx, gy, gz) == Cell(job.scale * job.w, job.channels, y, x, Swap(job.bgr, gz))
  {
    hide Flat, Job.Start, TileOf, StripOffset;
    var s := job.scale;
    StripOffsetIs(job, yi);
    NextStart(job, yi);
    NextStart(job, xi);
    TileOffset(job, xi);
    InsideTile(s, job.Start(yi), job.TileH(yi), job.h, gy);
    InsideTile(s, job.Start(xi), job.TileW(xi), job.w, gx);
    Distribute(s, job.Start(yi), job.TileH(yi));
    Distribute(s, job.Start(xi), job.TileW(xi));
    TileOfUnique(job, job.h, OutStart(job, yi) + gy, yi);
    TileOfUnique(job, job.w, OutStart(job, xi) + gx, xi);
    SwapInside(job, gz);
    SliceIndex(s * job.w, job.channels, OutStart(job, yi), gy + 1, gy, OutStart(job, xi) + gx, Swap(job.bgr, gz));
  }

  /** No output byte is written twice. */
  lemma WrittenOnce(job: Job, yi: nat, xi: nat, gx: nat, gy: nat, gz: nat, yi': nat, xi': nat, gx': nat, gy': nat, gz': nat)
    requires Invocation(job, yi, xi, gx, gy, gz) && Invocation(job, yi', xi', gx', gy', gz')
    requires OutByte(job, yi, xi, gx, gy, gz) == OutByte(job, yi', xi', gx', gy', gz')
    ensures (yi, xi, gx, gy, gz) == (yi', xi', gx', gy', gz')
  {
    hide Cell, OutByte, Job.Start, TileOf;
    OutByteIs(job, yi, xi, gx, gy, gz);
    OutByteIs(job, yi', xi', gx', gy', gz');
    SwapInside(job, gz);
    SwapInside(job, gz');
    CellInjective(job.scale * job.w, job.channels,
                  OutStart(job, yi) + gy, OutStart(job, xi) + gx, Swap(job.bgr, gz),
                  OutStart(job, yi') + gy', OutStart(job, xi') + gx', Swap(job.bgr, gz'));
  }

  /** Every output byte is written. */
  lemma EveryByteWritten(job: Job, k: nat) returns (yi: nat, xi: nat, gx: nat, gy: nat, gz: nat)
    requires job.Valid() && k < job.channels * ((job.scale * job.w) * (job.scale * job.h))
    ensures Invocation(job, yi, xi, gx, gy, gz) && OutByte(job, yi, xi, gx, gy, gz) == k
  {
    hide OutByte, Job.Start, TileOf;
    var y, x, c := CellSurjective(k, job.scale * job.w, job.scale * job.h, job.channels);
    yi, xi, gz := TileOf(job, y), TileOf(job, x), Swap(job.bgr, c);
    TileOfUnique(job, job.h, y, yi);
    TileOfUnique(job, job.w, x, xi);
    NextStart(job, yi);
    NextStart(job, xi);
    Within(job.scale, job.Start(yi), job.TileH(yi), y);
    Within(job.scale, job.Start(xi), job.TileW(xi), x);
    gy, gx := y - OutStart(job, yi), x - OutStart(job, xi);
    OutByteIs(job, yi, xi, gx, gy, gz);
  }
}
