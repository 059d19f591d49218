/** De-interlacing (section 8.2 of the PNG specification): seven passes, each a smaller
    image of its own, scattered into the final image. */
module Adam7 {
  import opened Bits
  import opened Wrappers
  import opened Positions
  import opened PngImage

  function XOrig(p: nat): nat {
    if p == 1 then 4 else if p == 3 then 2 else if p == 5 then 1 else 0
  }

  function YOrig(p: nat): nat {
    if p == 2 then 4 else if p == 4 then 2 else if p == 6 then 1 else 0
  }

  function XSpc(p: nat): nat {
    if p <= 1 then 8 else if p <= 3 then 4 else if p <= 5 then 2 else 1
  }

  function YSpc(p: nat): nat {
    if p <= 2 then 8 else if p <= 4 then 4 else 2
  }

  /** Rounded-up size of pass `p`; the sum never goes below zero for a non-empty image. */
  function PassW(p: nat, w: nat): nat
    requires w > 0
  {
    (w - XOrig(p) + XSpc(p) - 1) / XSpc(p)
  }

  function PassH(p: nat, h: nat): nat
    requires h > 0
  {
    (h - YOrig(p) + YSpc(p) - 1) / YSpc(p)
  }

  /** The pass that carries pixel (x, y). */
  function PassOf(x: nat, y: nat): (p: nat)
    ensures p < 7
  {
    if y % 2 == 1 then 6
    else if x % 2 == 1 then 5
    else if y % 4 == 2 then 4
    else if x % 4 == 2 then 3
    else if y % 8 == 4 then 2
    else if x % 8 == 4 then 1
    else 0
  }

  function Column(p: nat, i: nat): nat {
    i * XSpc(p) + XOrig(p)
  }

  function Row(p: nat, j: nat): nat {
    j * YSpc(p) + YOrig(p)
  }

  /** A pass is exactly as wide and as high as the image has columns and rows for it. */
  lemma PassSize(p: nat, n: nat, i: nat)
    requires p < 7 && n > 0
    ensures i < PassW(p, n) <==> Column(p, i) < n
    ensures i < PassH(p, n) <==> Row(p, i) < n
  {
  }

  /** Every pixel of the image is written by exactly one pixel of exactly one pass, and
      every pass pixel lands in the image. */
  lemma WrittenOnce(w: nat, h: nat, x: nat, y: nat, p: nat, i: nat, j: nat)
    requires p < 7 && w > 0 && h > 0
    ensures i < PassW(p, w) && j < PassH(p, h) && (x, y) == (Column(p, i), Row(p, j)) <==>
      x < w && y < h && p == PassOf(x, y) && i == x / XSpc(p) && j == y / YSpc(p)
  {
    PassSize(p, w, i);
    PassSize(p, h, j);
    ColumnOf(p, i, x);
    RowOf(p, j, y);
    OnePass(p, x, y);
  }

  lemma ColumnOf(p: nat, i: nat, x: nat)
    requires p < 7
    ensures x == Column(p, i) <==> x % XSpc(p) == XOrig(p) && i == x / XSpc(p)
  {
  }

  lemma RowOf(p: nat, j: nat, y: nat)
    requires p < 7
    ensures y == Row(p, j) <==> y % YSpc(p) == YOrig(p) && j == y / YSpc(p)
  {
  }

  lemma OnePass(p: nat, x: nat, y: nat)
    requires p < 7
    ensures x % XSpc(p) == XOrig(p) && y % YSpc(p) == YOrig(p) <==> p == PassOf(x, y)
  {
    ModEight(x);
    ModEight(y);
    OnePassOfEight(p, x % 8, y % 8);
  }

  lemma OnePassOfEight(p: nat, x: nat, y: nat)
    requires p < 7 && x < 8 && y < 8
    ensures x % XSpc(p) == XOrig(p) && y % YSpc(p) == YOrig(p) <==> p == PassOf(x, y)
  {
  }

  lemma ModEight(v: nat)
    ensures v % 4 == v % 8 % 4 && v % 2 == v % 8 % 2 && v % 1 == 0
  {
    var q := v / 8;
    assert v == 8 * q + v % 8;
  }

  // ------------------------------------------------------- the final image

  predicate PassSizes(images: seq<seq<byte>>, w: nat, h: nat, n: nat) {
    && w > 0 && h > 0 && |images| <= 7
    && forall q :: 0 <= q < |images| ==> |images[q]| == PassBytes(q, w, h, n)
  }

  function PassBytes(p: nat, w: nat, h: nat, n: nat): nat
    requires w > 0 && h > 0
  {
    n * (PassW(p, w) * PassH(p, h))
  }

  /** The image of pass `p` and the data after it; an empty pass has no data, not even
      filter bytes. */
  function Pass(raw: seq<byte>, w: nat, h: nat, n: nat, p: nat): (r: Option<(seq<byte>, seq<byte>)>)
    requires w > 0 && h > 0 && n > 0
    ensures r.Some? ==> |r.value.0| == PassBytes(p, w, h, n)
  {
    var x, y := PassW(p, w), PassH(p, h);
    if x > 0 && y > 0 then
      var image :- RawImage(raw, x, y, n);
      ImageBytes(x, y, n);
      DataFits(raw, x, y, n);
      Some((image, raw[(x * n + 1) * y..]))
    else
      EmptyPass(x, y, n);
      Some(([], raw))
  }

  /** The images of the passes that follow those `done`. */
  function PassImages(raw: seq<byte>, w: nat, h: nat, n: nat, done: seq<seq<byte>>): (r: Option<seq<seq<byte>>>)
    requires n > 0 && PassSizes(done, w, h, n)
    ensures r.Some? ==> PassSizes(r.value, w, h, n) && |r.value| == 7
    decreases 7 - |done|
  {
    if |done| == 7 then Some(done)
    else
      var (image, data) :- Pass(raw, w, h, n, |done|);
      PassImages(data, w, h, n, done + [image])
  }

  lemma ImageBytes(x: nat, y: nat, n: nat)
    ensures (x * n) * y == n * (x * y)
  {
  }

  lemma EmptyPass(x: nat, y: nat, n: nat)
    requires x == 0 || y == 0
    ensures n * (x * y) == 0
  {
  }

  lemma DataFits(raw: seq<byte>, x: nat, y: nat, n: nat)
    requires n > 0 && RawImage(raw, x, y, n).Some?
    ensures 0 <= (x * n + 1) * y <= |raw|
  {
    MulSign(x * n + 1, y);
  }

  /** Byte `c` of final pixel (x, y), from the pass that carries it. */
  function Final(images: seq<seq<byte>>, w: nat, h: nat, n: nat, y: nat, x: nat, c: nat): byte
    requires PassSizes(images, w, h, n) && x < w && y < h && c < n && PassOf(x, y) < |images|
  {
    var p := PassOf(x, y);
    var i, j := x / XSpc(p), y / YSpc(p);
    WrittenOnce(w, h, x, y, p, i, j);
    CellInside(PassW(p, w), PassH(p, h), n, j, i, c);
    images[p][Cell(PassW(p, w), n, j, i, c)]
  }

  ghost predicate FinalOk(final: seq<byte>, images: seq<seq<byte>>, w: nat, h: nat, n: nat, y: nat, x: nat, c: nat)
    requires PassSizes(images, w, h, n) && x < w && y < h && c < n && PassOf(x, y) < |images|
  {
    Cell(w, n, y, x, c) < |final| && final[Cell(w, n, y, x, c)] == Final(images, w, h, n, y, x, c)
  }

  ghost predicate Assembled(final: seq<byte>, images: seq<seq<byte>>, w: nat, h: nat, n: nat)
    requires PassSizes(images, w, h, n) && |images| == 7
  {
    && |final| == n * (w * h)
    && forall y: nat, x: nat, c: nat :: y < h && x < w && c < n ==> FinalOk(final, images, w, h, n, y, x, c)
  }

  /** What the reader makes of decompressed data, interlaced or not. */
  ghost predicate MakesImage(raw: seq<byte>, w: nat, h: nat, n: nat, interlaced: bool, image: Option<seq<byte>>)
    requires w > 0 && h > 0 && n > 0
  {
    if !interlaced then image == RawImage(raw, w, h, n)
    else if w * h > INT_MAX || w * h * n > INT_MAX then image == None
    else
      var images := PassImages(raw, w, h, n, []);
      && (image.None? <==> images.None?)
      && (image.Some? ==> Assembled(image.value, images.value, w, h, n))
  }

  /** The seven passes leave no byte of the image undetermined. */
  lemma ImageDetermined(raw: seq<byte>, w: nat, h: nat, n: nat, interlaced: bool, a: Option<seq<byte>>, b: Option<seq<byte>>)
    requires w > 0 && h > 0 && n > 0
    requires MakesImage(raw, w, h, n, interlaced, a) && MakesImage(raw, w, h, n, interlaced, b)
    ensures a == b
  {
    if interlaced && a.Some? {
      SameAssembly(a.value, b.value, PassImages(raw, w, h, n, []).value, w, h, n);
    }
  }

  lemma SameAssembly(a: seq<byte>, b: seq<byte>, images: seq<seq<byte>>, w: nat, h: nat, n: nat)
    requires PassSizes(images, w, h, n) && |images| == 7
    requires Assembled(a, images, w, h, n) && Assembled(b, images, w, h, n)
    ensures a == b
  {
    hide PassSizes, Final, Cell;
    forall k | 0 <= k < |a| ensures a[k] == b[k] {
      var y, x, c := CellSurjective(k, w, h, n);
      assert FinalOk(a, images, w, h, n, y, x, c) && FinalOk(b, images, w, h, n, y, x, c);
    }
  }

  // ------------------------------------------------------------- the scatter

  /** Has byte `c` of pixel (x, y) been written when pass `p` has come to byte `b` of its
      pixel (i, j)? */
  predicate Done(p: nat, j: nat, i: nat, b: nat, y: nat, x: nat, c: nat) {
    var q := PassOf(x, y);
    var jj, ii := y / YSpc(q), x / XSpc(q);
    q < p || (q == p && (jj < j || (jj == j && (ii < i || (ii == i && c < b)))))
  }

  ghost predicate Scattered(final: seq<byte>, images: seq<seq<byte>>, w: nat, h: nat, n: nat, p: nat, j: nat, i: nat, b: nat)
    requires PassSizes(images, w, h, n)
  {
    && |final| == n * (w * h)
    && forall y: nat, x: nat, c: nat ::
         y < h && x < w && c < n && Done(p, j, i, b, y, x, c) && PassOf(x, y) < |images| ==>
           FinalOk(final, images, w, h, n, y, x, c)
  }

  lemma ScatterStep(final: seq<byte>, images: seq<seq<byte>>, w: nat, h: nat, n: nat, p: nat, j: nat, i: nat, b: nat)
    requires PassSizes(images, w, h, n) && p < 7 && p < |images| && i < PassW(p, w) && j < PassH(p, h) && b < n
    requires Scattered(final, images, w, h, n, p, j, i, b)
    ensures Cell(PassW(p, w), n, j, i, b) < |images[p]| && Cell(w, n, Row(p, j), Column(p, i), b) < |final|
    ensures var final' := final[Cell(w, n, Row(p, j), Column(p, i), b) := images[p][Cell(PassW(p, w), n, j, i, b)]];
      Scattered(final', images, w, h, n, p, j, i, b + 1)
  {
    hide Cell, XSpc, YSpc, XOrig, YOrig, PassOf, PassW, PassH, Row, Column;
    var y0, x0 := Row(p, j), Column(p, i);
    WrittenOnce(w, h, x0, y0, p, i, j);
    CellInside(PassW(p, w), PassH(p, h), n, j, i, b);
    CellInside(w, h, n, y0, x0, b);
    var final' := final[Cell(w, n, y0, x0, b) := images[p][Cell(PassW(p, w), n, j, i, b)]];
    forall y: nat, x: nat, c: nat | y < h && x < w && c < n && Done(p, j, i, b + 1, y, x, c) && PassOf(x, y) < |images|
      ensures FinalOk(final', images, w, h, n, y, x, c)
    {
      CellInside(w, h, n, y, x, c);
      if Cell(w, n, y, x, c) == Cell(w, n, y0, x0, b) {
        CellInjective(w, n, y, x, c, y0, x0, b);
      } else {
        WrittenOnce(w, h, x, y, p, i, j);
        assert FinalOk(final, images, w, h, n, y, x, c);
      }
    }
  }

  lemma NothingDone(final: seq<byte>, images: seq<seq<byte>>, w: nat, h: nat, n: nat)
    requires PassSizes(images, w, h, n) && |final| == n * (w * h)
    ensures Scattered(final, images, w, h, n, 0, 0, 0, 0)
  {
  }

  lemma PixelDone(final: seq<byte>, images: seq<seq<byte>>, w: nat, h: nat, n: nat, p: nat, j: nat, i: nat)
    requires PassSizes(images, w, h, n) && Scattered(final, images, w, h, n, p, j, i, n)
    ensures Scattered(final, images, w, h, n, p, j, i + 1, 0)
  {
    hide PassSizes, FinalOk;
  }

  lemma RowDone(final: seq<byte>, images: seq<seq<byte>>, w: nat, h: nat, n: nat, p: nat, j: nat)
    requires p < 7 && PassSizes(images, w, h, n) && Scattered(final, images, w, h, n, p, j, PassW(p, w), 0)
    ensures Scattered(final, images, w, h, n, p, j + 1, 0, 0)
  {
    hide FinalOk, PassOf, PassW, PassH;
    forall y: nat, x: nat, c: nat |
      y < h && x < w && c < n && Done(p, j + 1, 0, 0, y, x, c) && PassOf(x, y) < |images|
      ensures FinalOk(final, images, w, h, n, y, x, c)
    {
      WrittenOnce(w, h, x, y, p, x / XSpc(p), y / YSpc(p));
    }
  }

  lemma PassDone(final: seq<byte>, images: seq<seq<byte>>, w: nat, h: nat, n: nat, p: nat)
    requires p < 7 && PassSizes(images, w, h, n)
    requires Scattered(final, images, w, h, n, p, PassH(p, h), 0, 0)
      || (PassW(p, w) == 0 && Scattered(final, images, w, h, n, p, 0, 0, 0))
    ensures Scattered(final, images, w, h, n, p + 1, 0, 0, 0)
  {
    hide FinalOk, PassOf, PassW, PassH;
    forall y: nat, x: nat, c: nat |
      y < h && x < w && c < n && Done(p + 1, 0, 0, 0, y, x, c) && PassOf(x, y) < |images|
      ensures FinalOk(final, images, w, h, n, y, x, c)
    {
      WrittenOnce(w, h, x, y, p, x / XSpc(p), y / YSpc(p));
    }
  }

  /** Copies the pixels of pass `p` to their places. */
  method Scatter(final: array<byte>, image: array<byte>, ghost images: seq<seq<byte>>, w: nat, h: nat, n: nat, p: nat)
    requires PassSizes(images, w, h, n) && p < 7 && p < |images| && images[p] == image[..] && final != image
    requires Scattered(final[..], images, w, h, n, p, 0, 0, 0)
    modifies final
    ensures Scattered(final[..], images, w, h, n, p + 1, 0, 0, 0)
  {
    hide Scattered, PassW, PassH, Cell;
    var x, y := PassW(p, w), PassH(p, h);
    var j := 0;
    while j < y
      invariant j <= y && Scattered(final[..], images, w, h, n, p, j, 0, 0)
    {
      var i := 0;
      while i < x
        invariant i <= x && Scattered(final[..], images, w, h, n, p, j, i, 0)
      {
        var outY := j * YSpc(p) + YOrig(p);
        var outX := i * XSpc(p) + XOrig(p);
        var b := 0;
        while b < n
          invariant b <= n && Scattered(final[..], images, w, h, n, p, j, i, b)
        {
          ScatterStep(final[..], images, w, h, n, p, j, i, b);
          final[Cell(w, n, outY, outX, b)] := image[Cell(x, n, j, i, b)];
          b := b + 1;
        }
        PixelDone(final[..], images, w, h, n, p, j, i);
        i := i + 1;
      }
      RowDone(final[..], images, w, h, n, p, j);
      j := j + 1;
    }
    PassDone(final[..], images, w, h, n, p);
  }

  /** The image of decompressed data, de-interlaced when need be. */
  method CreatePngImage(imageData: seq<byte>, w: nat, h: nat, n: nat, interlaced: bool) returns (ok: bool, out: array<byte>)
    requires w > 0 && h > 0 && 1 <= n <= 4
    ensures fresh(out)
    ensures MakesImage(imageData, w, h, n, interlaced, if ok then Some(out[..]) else None)
  {
    hide RawImage, PassImages, Scattered, PassSizes;
    if !interlaced {
      ok, out := CreatePngImageRaw(imageData, w, h, n);
      return;
    }
    out := new byte[0];
    if w * h > INT_MAX || w * h * n > INT_MAX {
      return false, out;
    }
    ok, out := Deinterlace(imageData, w, h, n);
  }

  method Deinterlace(imageData: seq<byte>, w: nat, h: nat, n: nat) returns (ok: bool, final: array<byte>)
    requires w > 0 && h > 0 && 1 <= n <= 4
    ensures fresh(final) && (ok <==> PassImages(imageData, w, h, n, []).Some?)
    ensures ok ==> Assembled(final[..], PassImages(imageData, w, h, n, []).value, w, h, n)
  {
    hide RawImage, Scattered, PassW, PassH;
    ImageBytes(w, h, n);
    MulSign(w, h);
    MulSign(w * h, n);
    final := new byte[w * h * n](_ => 0);
    ghost var images: seq<seq<byte>> := [];
    NothingDone(final[..], images, w, h, n);
    var data := imageData;
    var p := 0;
    while p < 7
      invariant p <= 7 && fresh(final) && |images| == p && PassSizes(images, w, h, n)
      invariant PassImages(imageData, w, h, n, []) == PassImages(data, w, h, n, images)
      invariant Scattered(final[..], images, w, h, n, p, 0, 0, 0)
    {
      var x, y := PassW(p, w), PassH(p, h);
      if x > 0 && y > 0 {
        var imgLen := (x * n + 1) * y;
        var out;
        ok, out := CreatePngImageRaw(data, x, y, n);
        if !ok {
          return;
        }
        DataFits(data, x, y, n);
        ScatteredMore(final[..], images, out[..], w, h, n);
        images := images + [out[..]];
        Scatter(final, out, images, w, h, n, p);
        data := data[imgLen..];
      } else {
        ScatteredMore(final[..], images, [], w, h, n);
        images := images + [[]];
        PassDone(final[..], images, w, h, n, p);
      }
      p := p + 1;
    }
    ok := true;
    AllScattered(final[..], images, w, h, n);
  }

  /** The passes already scattered do not depend on the next one. */
  lemma ScatteredMore(final: seq<byte>, images: seq<seq<byte>>, image: seq<byte>, w: nat, h: nat, n: nat)
    requires PassSizes(images, w, h, n) && PassSizes(images + [image], w, h, n)
    requires Scattered(final, images, w, h, n, |images|, 0, 0, 0)
    ensures Scattered(final, images + [image], w, h, n, |images|, 0, 0, 0)
  {
    hide PassSizes, PassOf, Cell;
    forall y: nat, x: nat, c: nat |
      y < h && x < w && c < n && Done(|images|, 0, 0, 0, y, x, c) && PassOf(x, y) < |images| + 1
      ensures FinalOk(final, images + [image], w, h, n, y, x, c)
    {
      assert FinalOk(final, images, w, h, n, y, x, c);
    }
  }

  lemma AllScattered(final: seq<byte>, images: seq<seq<byte>>, w: nat, h: nat, n: nat)
    requires PassSizes(images, w, h, n) && |images| == 7 && Scattered(final, images, w, h, n, 7, 0, 0, 0)
    ensures Assembled(final, images, w, h, n)
  {
    hide PassSizes, FinalOk;
  }
}
