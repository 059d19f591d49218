/** Tiled super-resolution against the whole image: the geometry of strips, tiles,
    mirrored padding and crops, and what it means that the network is local. */
module TilingSpec {

  import opened Bits
  import opened Positions

  // ---------------------------------------------------------------- the job

  /** What one call works on: image size, channels, channel order, tile size,
      padding and magnification. */
  datatype Job = Job(w: nat, h: nat, channels: nat, bgr: bool, tile: nat, pad: nat, scale: nat) {
    predicate Valid() {
      w > 0 && h > 0 && (channels == 3 || channels == 4) && tile > 0 && scale > 0
    }

    function XTiles(): nat
      requires Valid()
    {
      (w + tile - 1) / tile
    }

    function YTiles(): nat
      requires Valid()
    {
      (h + tile - 1) / tile
    }

    /** Image row, column where strip `i`, tile `i` begins. */
    function Start(i: nat): nat {
      tile * i
    }

    /** First and one-past-last image row that strip `yi` uploads. */
    function StripTop(yi: nat): nat {
      if Start(yi) < pad then 0 else Start(yi) - pad
    }

    function StripBottom(yi: nat): nat {
      if Start(yi + 1) + pad < h then Start(yi + 1) + pad else h
    }

    /** Rows and columns of a tile without its padding. */
    function TileH(yi: nat): int {
      (if Start(yi + 1) < h then Start(yi + 1) else h) - Start(yi)
    }

    function TileW(xi: nat): int {
      (if Start(xi + 1) < w then Start(xi + 1) else w) - Start(xi)
    }

    function CropY(yi: nat): nat {
      if Start(yi) < pad then Start(yi) else pad
    }
  }

  /** The number of tiles is exactly enough. */
  lemma TilesCover(n: nat, tile: nat, i: nat)
    requires n > 0 && tile > 0
    ensures var k := (n + tile - 1) / tile;
      k > 0 && tile * (k - 1) < n <= tile * k && (i < k <==> tile * i < n)
  {
    var k := (n + tile - 1) / tile;
    TilesArithmetic(n, tile, k, (n + tile - 1) % tile);
    if i < k {
      ScaledRow(tile, i, k - 1);
    } else {
      ScaledRow(tile, k, i);
    }
  }

  lemma TilesArithmetic(n: nat, tile: nat, k: int, r: nat)
    requires n > 0 && r < tile && n + tile - 1 == tile * k + r
    ensures k > 0 && tile * (k - 1) < n <= tile * k
  {
    MulSign(tile, k);
    assert tile * (k - 1) == tile * k - tile;
  }

  // --------------------------------------------------------------- mirroring

  /** The shader's reflection of coordinate `x` into `0 .. n - 1`. */
  function Mirror(x: int, n: nat): int {
    (n - 1) - Abs(Abs(x) - (n - 1))
  }

  /** Reflection stays inside exactly up to `n - 1` steps beyond either end. */
  lemma MirrorInside(x: int, n: nat)
    requires n > 0
    ensures 0 <= Mirror(x, n) < n <==> Abs(x) <= 2 * (n - 1)
  {
  }

  /** The padded coordinates of an axis of length `n` all reflect inside exactly when
      the axis is longer than the padding. */
  lemma PaddingMirrors(n: nat, pad: nat)
    requires n > 0
    ensures (forall x: int :: 0 - pad <= x < n + pad ==> 0 <= Mirror(x, n) < n) <==> pad < n
  {
    if pad >= n {
      assert !(0 <= Mirror(n - 1 + pad, n) < n);
    }
  }

  /** Reflecting inside strip `yi` reaches the same image row as reflecting in the whole
      image, for every padded row of the tile, including a last tile thinner than the
      padding and tiles smaller than the padding. */
  lemma StripMirror(job: Job, yi: nat, gy: nat)
    requires job.Valid() && job.pad < job.h && job.Start(yi) < job.h
    requires gy < job.TileH(yi) + 2 * job.pad
    ensures var top := job.StripTop(yi); var rows := job.StripBottom(yi) - top;
      && rows > 0
      && 0 <= Mirror(gy + job.CropY(yi) - job.pad, rows) < rows
      && top + Mirror(gy + job.CropY(yi) - job.pad, rows) == Mirror(job.Start(yi) + gy - job.pad, job.h)
  {
    NextStart(job, yi);
    StripMirrorAt(job.Start(yi), job.h, job.tile, job.pad, gy);
  }

  lemma StripMirrorAt(y0: nat, h: nat, tile: nat, pad: nat, gy: nat)
    requires y0 < h && tile > 0 && pad < h
    requires gy < (if y0 + tile < h then y0 + tile else h) - y0 + 2 * pad
    ensures var top := if y0 < pad then 0 else y0 - pad;
      var bottom := if y0 + tile + pad < h then y0 + tile + pad else h;
      var crop := if y0 < pad then y0 else pad;
      var rows := bottom - top;
      && rows > 0 && 0 <= Mirror(gy + crop - pad, rows) < rows
      && top + Mirror(gy + crop - pad, rows) == Mirror(y0 + gy - pad, h)
  {
  }

  // ------------------------------------------------------------ pixels, blobs

  /** An image of `h` rows of `w` pixels of `channels` interleaved bytes. */
  predicate IsImage(job: Job, img: seq<byte>) {
    |img| == job.channels * (job.w * job.h)
  }

  /** A job on a given image, large enough that the padding can be mirrored. */
  predicate Ready(job: Job, img: seq<byte>) {
    job.Valid() && IsImage(job, img) && job.pad < job.w && job.pad < job.h
  }

  lemma NextStart(job: Job, i: nat)
    ensures job.Start(i + 1) == job.Start(i) + job.tile && job.Start(0) == 0
  {
  }

  function ByteIndex(job: Job, y: nat, x: nat, c: nat): (k: nat)
    requires y < job.h && x < job.w && c < job.channels
    ensures k < job.channels * (job.w * job.h)
  {
    FlatBound(y, x, job.h, job.w);
    FlatBound(Flat(y, x, job.w), c, job.w * job.h, job.channels);
    Flat(Flat(y, x, job.w), c, job.channels)
  }

  /** Colour channel `c` as stored, with or without the BGR swap. */
  function Swap(bgr: bool, c: nat): nat {
    if bgr && c < 3 then 2 - c else c
  }

  function Pixel(job: Job, img: seq<byte>, y: nat, x: nat, c: nat): byte
    requires job.Valid() && IsImage(job, img) && y < job.h && x < job.w && c < job.channels
  {
    img[ByteIndex(job, y, x, Swap(job.bgr, c))]
  }

  function Normalise(b: byte): real {
    b as real / 255.0
  }

  /** Add one half, floor, clamp to a byte. */
  function Quantize(v: real): byte {
    var f := (v + 0.5).Floor;
    if f < 0 then 0 else if f > 255 then 255 else f
  }

  /** The network's input at image coordinate (y, x), mirrored beyond the edges. */
  function Extended(job: Job, img: seq<byte>, c: nat, y: int, x: int): real
    requires job.Valid() && IsImage(job, img) && c < 3
    requires 0 <= Mirror(y, job.h) < job.h && 0 <= Mirror(x, job.w) < job.w
  {
    Normalise(Pixel(job, img, Mirror(y, job.h), Mirror(x, job.w), c))
  }

  /** Three planes of `h` rows of `w` values. */
  datatype Blob = Blob(w: nat, h: nat, data: seq<real>) {
    predicate Valid() {
      |data| == (w * h) * 3
    }

    function At(c: nat, y: nat, x: nat): real
      requires Valid() && c < 3 && y < h && x < w
    {
      FlatBound(y, x, h, w);
      FlatBound(c, Flat(y, x, w), 3, w * h);
      data[Flat(c, Flat(y, x, w), w * h)]
    }
  }

  /** One plane, for the alpha channel. */
  datatype Plane = Plane(w: nat, h: nat, data: seq<real>) {
    predicate Valid() {
      |data| == w * h
    }

    function At(y: nat, x: nat): real
      requires Valid() && y < h && x < w
    {
      FlatBound(y, x, h, w);
      data[Flat(y, x, w)]
    }
  }

  // ------------------------------------------------------------- the network

  type Net = Blob -> Blob

  predicate Interior(b: Blob, y: nat, x: nat, pad: nat) {
    b.Valid() && pad <= y && y + pad < b.h && pad <= x && x + pad < b.w
  }

  predicate SamePixel(a: Blob, ya: nat, xa: nat, b: Blob, yb: nat, xb: nat, pad: nat, c: nat, dy: nat, dx: nat)
    requires Interior(a, ya, xa, pad) && Interior(b, yb, xb, pad)
    requires c < 3 && dy <= 2 * pad && dx <= 2 * pad
  {
    a.At(c, ya - pad + dy, xa - pad + dx) == b.At(c, yb - pad + dy, xb - pad + dx)
  }

  /** The inputs agree up to `pad` pixels around the two positions. */
  predicate SameWindow(a: Blob, ya: nat, xa: nat, b: Blob, yb: nat, xb: nat, pad: nat) {
    && Interior(a, ya, xa, pad) && Interior(b, yb, xb, pad)
    && forall c: nat, dy: nat, dx: nat :: c < 3 && dy <= 2 * pad && dx <= 2 * pad ==>
         SamePixel(a, ya, xa, b, yb, xb, pad, c, dy, dx)
  }

  predicate ScalesBy(net: Net, b: Blob, scale: nat) {
    b.Valid() ==> net(b).Valid() && net(b).w == scale * b.w && net(b).h == scale * b.h
  }

  predicate LocalAt(net: Net, pad: nat, scale: nat, a: Blob, ya: nat, xa: nat, b: Blob, yb: nat, xb: nat,
                    c: nat, sy: nat, sx: nat) {
    && ScalesBy(net, a, scale) && ScalesBy(net, b, scale)
    && (SameWindow(a, ya, xa, b, yb, xb, pad) && c < 3 && sy < scale && sx < scale ==>
          OutAt(net, scale, a, ya, xa, c, sy, sx) == OutAt(net, scale, b, yb, xb, c, sy, sx))
  }

  /** Output sub-pixel (sy, sx) of input pixel (y, x). */
  function OutAt(net: Net, scale: nat, b: Blob, y: nat, x: nat, c: nat, sy: nat, sx: nat): real
    requires b.Valid() && ScalesBy(net, b, scale) && y < b.h && x < b.w && c < 3 && sy < scale && sx < scale
  {
    FlatBound(y, sy, b.h, scale);
    FlatBound(x, sx, b.w, scale);
    net(b).At(c, Flat(y, sy, scale), Flat(x, sx, scale))
  }

  /** The network's output depends only on the input within `pad` pixels, in the same
      way at every position. Nothing is assumed about outputs nearer to the border. */
  ghost predicate Local(net: Net, pad: nat, scale: nat) {
    forall a: Blob, ya: nat, xa: nat, b: Blob, yb: nat, xb: nat, c: nat, sy: nat, sx: nat ::
      LocalAt(net, pad, scale, a, ya, xa, b, yb, xb, c, sy, sx)
  }

  // --------------------------------------------------------------- the tiles

  /** The padded input of tile (yi, xi), as the whole mirrored image prescribes it. */
  function TileBlob(job: Job, img: seq<byte>, yi: nat, xi: nat): (b: Blob)
    requires Ready(job, img)
    requires job.Start(yi) < job.h && job.Start(xi) < job.w
    ensures b.Valid() && b.w == job.TileW(xi) + 2 * job.pad && b.h == job.TileH(yi) + 2 * job.pad
  {
    NextStart(job, yi);
    NextStart(job, xi);
    var w, h := job.TileW(xi) + 2 * job.pad, job.TileH(yi) + 2 * job.pad;
    Blob(w, h, seq((w * h) * 3, k requires 0 <= k < (w * h) * 3 => TileValue(job, img, yi, xi, w, h, k)))
  }

  function TileValue(job: Job, img: seq<byte>, yi: nat, xi: nat, w: nat, h: nat, k: nat): real
    requires Ready(job, img)
    requires job.Start(yi) < job.h && job.Start(xi) < job.w && k < (w * h) * 3
    requires w == job.TileW(xi) + 2 * job.pad && h == job.TileH(yi) + 2 * job.pad
  {
    var (c, y, x) := Unflatten(k, w, h);
    TileInside(job, yi, xi, y, x);
    Extended(job, img, c, job.Start(yi) + y - job.pad, job.Start(xi) + x - job.pad)
  }

  function Unflatten(k: nat, w: nat, h: nat): (r: (nat, nat, nat))
    requires k < (w * h) * 3
    ensures r.0 < 3 && r.1 < h && r.2 < w && Flat(r.0, Flat(r.1, r.2, w), w * h) == k
  {
    var (c, r) := RowColumn(k, w * h, 3);
    var (y, x) := RowColumn(r, w, h);
    (c, y, x)
  }

  lemma TileInside(job: Job, yi: nat, xi: nat, y: nat, x: nat)
    requires job.Valid() && job.pad < job.w && job.pad < job.h
    requires job.Start(yi) < job.h && job.Start(xi) < job.w
    requires y < job.TileH(yi) + 2 * job.pad && x < job.TileW(xi) + 2 * job.pad
    ensures 0 <= Mirror(job.Start(yi) + y - job.pad, job.h) < job.h
    ensures 0 <= Mirror(job.Start(xi) + x - job.pad, job.w) < job.w
  {
    NextStart(job, yi);
    NextStart(job, xi);
  }

  lemma TileBlobAt(job: Job, img: seq<byte>, yi: nat, xi: nat, c: nat, y: nat, x: nat)
    requires Ready(job, img)
    requires job.Start(yi) < job.h && job.Start(xi) < job.w && c < 3
    requires y < job.TileH(yi) + 2 * job.pad && x < job.TileW(xi) + 2 * job.pad
    ensures 0 <= Mirror(job.Start(yi) + y - job.pad, job.h) < job.h
    ensures 0 <= Mirror(job.Start(xi) + x - job.pad, job.w) < job.w
    ensures TileBlob(job, img, yi, xi).At(c, y, x)
      == Extended(job, img, c, job.Start(yi) + y - job.pad, job.Start(xi) + x - job.pad)
  {
    TileInside(job, yi, xi, y, x);
    var b := TileBlob(job, img, yi, xi);
    var w, h := b.w, b.h;
    FlatBound(y, x, h, w);
    FlatBound(c, Flat(y, x, w), 3, w * h);
    var k := Flat(c, Flat(y, x, w), w * h);
    var r := Unflatten(k, w, h);
    FlatBound(r.1, r.2, h, w);
    FlatInjective(r.0, Flat(r.1, r.2, w), c, Flat(y, x, w), w * h);
    FlatInjective(r.1, r.2, y, x, w);
    assert b.data[k] == TileValue(job, img, yi, xi, w, h, k);
  }

  /** The whole image, mirrored by `pad` on every side: the one tile of a job whose
      tile is as large as the image. */
  function WholeJob(job: Job): Job {
    job.(tile := job.w + job.h)
  }

  function WholeBlob(job: Job, img: seq<byte>): (b: Blob)
    requires Ready(job, img)
    ensures b.Valid() && b.w == job.w + 2 * job.pad && b.h == job.h + 2 * job.pad
  {
    TileBlob(WholeJob(job), img, 0, 0)
  }

  /** A tile and the whole image look the same around every pixel of the tile. */
  lemma TileSeesWhole(job: Job, img: seq<byte>, yi: nat, xi: nat, y: nat, x: nat)
    requires Ready(job, img)
    requires job.Start(yi) < job.h && job.Start(xi) < job.w && y < job.TileH(yi) && x < job.TileW(xi)
    ensures SameWindow(TileBlob(job, img, yi, xi), y + job.pad, x + job.pad,
                       WholeBlob(job, img), job.Start(yi) + y + job.pad, job.Start(xi) + x + job.pad, job.pad)
  {
    hide Mirror, TileBlob, Flat, Job.Start, Normalise;
    NextStart(WholeJob(job), 0);
    NextStart(job, yi);
    NextStart(job, xi);
    var a, b, pad := TileBlob(job, img, yi, xi), WholeBlob(job, img), job.pad;
    var gy, gx := job.Start(yi) + y, job.Start(xi) + x;
    var ya, xa, yb, xb := y + pad, x + pad, gy + pad, gx + pad;
    forall c: nat, dy: nat, dx: nat | c < 3 && dy <= 2 * pad && dx <= 2 * pad
      ensures SamePixel(a, ya, xa, b, yb, xb, pad, c, dy, dx)
    {
      TileBlobAt(job, img, yi, xi, c, y + dy, x + dx);
      TileBlobAt(WholeJob(job), img, 0, 0, c, gy + dy, gx + dx);
    }
  }

  /** What the network makes of a tile, cropped, is what it makes of the whole image. */
  lemma TileOutput(job: Job, img: seq<byte>, net: Net, yi: nat, xi: nat, y: nat, x: nat, c: nat, sy: nat, sx: nat)
    requires Ready(job, img) && Local(net, job.pad, job.scale)
    requires job.Start(yi) < job.h && job.Start(xi) < job.w && y < job.TileH(yi) && x < job.TileW(xi)
    requires c < 3 && sy < job.scale && sx < job.scale
    ensures var a, b := TileBlob(job, img, yi, xi), WholeBlob(job, img);
      && ScalesBy(net, a, job.scale) && ScalesBy(net, b, job.scale)
      && job.Start(yi) + y + job.pad < b.h && job.Start(xi) + x + job.pad < b.w
      && OutAt(net, job.scale, a, y + job.pad, x + job.pad, c, sy, sx)
          == OutAt(net, job.scale, b, job.Start(yi) + y + job.pad, job.Start(xi) + x + job.pad, c, sy, sx)
  {
    var a, b := TileBlob(job, img, yi, xi), WholeBlob(job, img);
    TileSeesWhole(job, img, yi, xi, y, x);
    assert LocalAt(net, job.pad, job.scale, a, y + job.pad, x + job.pad,
                   b, job.Start(yi) + y + job.pad, job.Start(xi) + x + job.pad, c, sy, sx);
  }
}
