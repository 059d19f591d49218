/** De-interlacing the seven reduced images that an encoder makes of a picture gives the
    picture back. The reduced images are cut out along the pass grid of section 8.2 of the
    PNG specification, row by row, without the reader's offsets and strides. */
module Adam7RoundTrip {
  import opened Bits
  import opened Wrappers
  import opened Positions
  import opened PngFilter
  import opened PngImage
  import opened Adam7

  // ------------------------------------------------------------- the encoder's side

  /** A row of the 8-by-8 grid: which pass carries each pixel. */
  function GridRow(r: nat): (s: seq<nat>)
    requires r < 8
    ensures |s| == 8
  {
    if r == 0 then [1, 6, 4, 6, 2, 6, 4, 6]
    else if r == 4 then [3, 6, 4, 6, 3, 6, 4, 6]
    else if r == 2 || r == 6 then [5, 6, 5, 6, 5, 6, 5, 6]
    else [7, 7, 7, 7, 7, 7, 7, 7]
  }

  /** The pass, 1 to 7, of pixel (x, y). */
  function PassNumber(x: nat, y: nat): nat {
    GridRow(y % 8)[x % 8]
  }

  /** An image of `h` rows of `w` pixels of `n` bytes. */
  predicate IsPicture(img: seq<byte>, w: nat, h: nat, n: nat) {
    w > 0 && h > 0 && n > 0 && |img| == n * (w * h)
  }

  function PixelBytes(img: seq<byte>, w: nat, h: nat, n: nat, y: nat, x: nat): (s: seq<byte>)
    requires IsPicture(img, w, h, n) && y < h && x < w
    ensures |s| == n
  {
    PixelEnds(w, h, n, y, x);
    img[n * (w * y + x)..n * (w * y + x) + n]
  }

  lemma PixelEnds(w: nat, h: nat, n: nat, y: nat, x: nat)
    requires y < h && x < w
    ensures n * (w * y + x) + n <= n * (w * h)
  {
    FlatBound(y, x, h, w);
    ScaledRow(n, w * y + x + 1, w * h);
  }

  /** The pixels of pass `p` among the first `x` of image row `y`. */
  function ReducedRow(img: seq<byte>, w: nat, h: nat, n: nat, p: nat, y: nat, x: nat): seq<byte>
    requires IsPicture(img, w, h, n) && y < h && x <= w
  {
    if x == 0 then []
    else
      var pixel := if PassNumber(x - 1, y) == p then PixelBytes(img, w, h, n, y, x - 1) else [];
      ReducedRow(img, w, h, n, p, y, x - 1) + pixel
  }

  function NonEmpty(row: seq<byte>): seq<seq<byte>> {
    if row == [] then [] else [row]
  }

  /** The rows of the reduced image of pass `p` from the first `y` rows of the image: those
      that hold a pixel of the pass. */
  function ReducedRows(img: seq<byte>, w: nat, h: nat, n: nat, p: nat, y: nat): seq<seq<byte>>
    requires IsPicture(img, w, h, n) && y <= h
  {
    if y == 0 then []
    else
      var row := ReducedRow(img, w, h, n, p, y - 1, w);
      ReducedRows(img, w, h, n, p, y - 1) + NonEmpty(row)
  }

  function Reduced(img: seq<byte>, w: nat, h: nat, n: nat, p: nat): seq<seq<byte>>
    requires IsPicture(img, w, h, n)
  {
    ReducedRows(img, w, h, n, p, h)
  }

  // --------------------------------------------------------------- what they look like

  lemma GridIsPass(x: nat, y: nat)
    ensures PassNumber(x, y) == PassOf(x, y) + 1
  {
    ModEight(x);
    ModEight(y);
    GridEntry(x % 8, y % 8);
  }

  lemma GridEntry(x: nat, y: nat)
    requires x < 8 && y < 8
    ensures GridRow(y)[x] == PassOf(x, y) + 1
  {
  }

  predicate OnColumn(p: nat, x: nat) {
    x % XSpc(p) == XOrig(p)
  }

  predicate OnLine(p: nat, y: nat) {
    y % YSpc(p) == YOrig(p)
  }

  lemma PixelOfPass(p: nat, x: nat, y: nat)
    requires p < 7
    ensures PassNumber(x, y) == p + 1 <==> OnColumn(p, x) && OnLine(p, y)
  {
    hide PassNumber, PassOf, XSpc, YSpc, XOrig, YOrig;
    GridIsPass(x, y);
    OnePass(p, x, y);
  }

  /** How many of the first `x` columns, `y` rows belong to pass `p`. */
  function Columns(p: nat, x: nat): nat {
    if x == 0 then 0 else PassW(p, x)
  }

  function Lines(p: nat, y: nat): nat {
    if y == 0 then 0 else PassH(p, y)
  }

  lemma ColumnsStep(p: nat, x: nat)
    requires p < 7 && x > 0
    ensures Columns(p, x) == Columns(p, x - 1) + if OnColumn(p, x - 1) then 1 else 0
    ensures OnColumn(p, x - 1) ==> x - 1 == Column(p, Columns(p, x - 1))
  {
    if p <= 1 {
      CountEighths(x, XOrig(p));
    } else if p <= 3 {
      CountFourths(x, XOrig(p));
    } else if p <= 5 {
      CountHalves(x, XOrig(p));
    }
  }

  lemma LinesStep(p: nat, y: nat)
    requires p < 7 && y > 0
    ensures Lines(p, y) == Lines(p, y - 1) + if OnLine(p, y - 1) then 1 else 0
    ensures OnLine(p, y - 1) ==> y - 1 == Row(p, Lines(p, y - 1))
  {
    if p <= 2 {
      CountEighths(y, YOrig(p));
    } else if p <= 4 {
      CountFourths(y, YOrig(p));
    } else {
      CountHalves(y, YOrig(p));
    }
  }

  lemma CountEighths(x: nat, o: nat)
    requires x > 0 && o < 8
    ensures (x - o + 7) / 8 == (x - o + 6) / 8 + if (x - 1) % 8 == o then 1 else 0
    ensures (x - 1) % 8 == o ==> x - 1 == (x - o + 6) / 8 * 8 + o
  {
  }

  lemma CountFourths(x: nat, o: nat)
    requires x > 0 && o < 4
    ensures (x - o + 3) / 4 == (x - o + 2) / 4 + if (x - 1) % 4 == o then 1 else 0
    ensures (x - 1) % 4 == o ==> x - 1 == (x - o + 2) / 4 * 4 + o
  {
  }

  lemma CountHalves(x: nat, o: nat)
    requires x > 0 && o < 2
    ensures (x - o + 1) / 2 == (x - o + 0) / 2 + if (x - 1) % 2 == o then 1 else 0
    ensures (x - 1) % 2 == o ==> x - 1 == (x - o + 0) / 2 * 2 + o
  {
  }

  /** The row of image row `y` holds the pixels of the pass's columns, in order. */
  predicate RowOk(row: seq<byte>, img: seq<byte>, w: nat, h: nat, n: nat, p: nat, y: nat, k: nat)
    requires IsPicture(img, w, h, n) && y < h
  {
    && |row| == n * k
    && forall i: nat, c: nat :: i < k && c < n ==> ByteOk(row, img, w, h, n, p, y, i, c)
  }

  predicate ByteOk(row: seq<byte>, img: seq<byte>, w: nat, h: nat, n: nat, p: nat, y: nat, i: nat, c: nat) {
    && n * i + c < |row| && Column(p, i) < w && Cell(w, n, y, Column(p, i), c) < |img|
    && row[n * i + c] == img[Cell(w, n, y, Column(p, i), c)]
  }

  /** Pixel `x - 1` adds its bytes exactly when it is one of the pass's. */
  lemma PixelAdded(img: seq<byte>, w: nat, h: nat, n: nat, p: nat, y: nat, x: nat)
    requires IsPicture(img, w, h, n) && y < h && 0 < x <= w && p < 7
    ensures ReducedRow(img, w, h, n, p + 1, y, x) == ReducedRow(img, w, h, n, p + 1, y, x - 1)
      + if OnColumn(p, x - 1) && OnLine(p, y) then PixelBytes(img, w, h, n, y, x - 1) else []
  {
    hide OnColumn, OnLine, PassNumber, PixelBytes, IsPicture;
    PixelOfPass(p, x - 1, y);
  }

  lemma {:induction false} ReducedRowIs(img: seq<byte>, w: nat, h: nat, n: nat, p: nat, y: nat, x: nat)
    requires IsPicture(img, w, h, n) && y < h && x <= w && p < 7
    ensures OnLine(p, y) ==> RowOk(ReducedRow(img, w, h, n, p + 1, y, x), img, w, h, n, p, y, Columns(p, x))
    ensures !OnLine(p, y) ==> ReducedRow(img, w, h, n, p + 1, y, x) == []
  {
    hide OnColumn, OnLine, Columns, ByteOk, Column, PixelBytes, IsPicture, RowOk, ReducedRow;
    if x == 0 {
      NoColumns(img, w, h, n, p, y);
    } else {
      ReducedRowIs(img, w, h, n, p, y, x - 1);
      var row := ReducedRow(img, w, h, n, p + 1, y, x - 1);
      PixelAdded(img, w, h, n, p, y, x);
      ColumnsStep(p, x);
      assert row + [] == row;
      if OnLine(p, y) && OnColumn(p, x - 1) {
        RowGrows(row, img, w, h, n, p, y, Columns(p, x - 1));
      }
    }
  }

  lemma NoColumns(img: seq<byte>, w: nat, h: nat, n: nat, p: nat, y: nat)
    requires IsPicture(img, w, h, n) && y < h
    ensures ReducedRow(img, w, h, n, p + 1, y, 0) == [] && RowOk([], img, w, h, n, p, y, Columns(p, 0))
  {
  }

  lemma RowGrows(row: seq<byte>, img: seq<byte>, w: nat, h: nat, n: nat, p: nat, y: nat, k: nat)
    requires IsPicture(img, w, h, n) && y < h && Column(p, k) < w && RowOk(row, img, w, h, n, p, y, k)
    ensures RowOk(row + PixelBytes(img, w, h, n, y, Column(p, k)), img, w, h, n, p, y, k + 1)
  {
    hide Column;
    var x := Column(p, k);
    var pixel := PixelBytes(img, w, h, n, y, x);
    var row' := row + pixel;
    assert n * (k + 1) == n * k + n;
    PixelEnds(w, h, n, y, x);
    forall i: nat, c: nat | i < k + 1 && c < n ensures ByteOk(row', img, w, h, n, p, y, i, c) {
      if i < k {
        assert ByteOk(row, img, w, h, n, p, y, i, c);
      } else {
        assert row'[n * k + c] == pixel[c];
      }
    }
  }

  /** Row `j` of the reduced image. */
  predicate LineOk(rows: seq<seq<byte>>, img: seq<byte>, w: nat, h: nat, n: nat, p: nat, j: nat)
    requires IsPicture(img, w, h, n)
  {
    j < |rows| && Row(p, j) < h && RowOk(rows[j], img, w, h, n, p, Row(p, j), PassW(p, w))
  }

  /** The reduced image has the size the reader works out, and its rows are the image's. */
  lemma {:induction false} ReducedRowsAre(img: seq<byte>, w: nat, h: nat, n: nat, p: nat, y: nat)
    requires IsPicture(img, w, h, n) && y <= h && p < 7
    ensures var rows := ReducedRows(img, w, h, n, p + 1, y);
      && |rows| == (if PassW(p, w) == 0 then 0 else Lines(p, y))
      && forall j: nat :: j < |rows| ==> LineOk(rows, img, w, h, n, p, j)
  {
    hide Row, Lines, ByteOk, PassW, ReducedRow, RowOk, IsPicture;
    if y > 0 {
      var rows, row := ReducedRows(img, w, h, n, p + 1, y - 1), ReducedRow(img, w, h, n, p + 1, y - 1, w);
      ReducedRowsAre(img, w, h, n, p, y - 1);
      LineAdded(img, w, h, n, p, y);
      forall j: nat | j < |rows + NonEmpty(row)| ensures LineOk(rows + NonEmpty(row), img, w, h, n, p, j) {
        if j < |rows| {
          assert LineOk(rows, img, w, h, n, p, j);
        }
      }
    } else {
      NoLines(p);
    }
  }

  lemma NoLines(p: nat)
    ensures Lines(p, 0) == 0
  {
  }

  /** Image row `y - 1` adds a line exactly when it is one of the pass's and the pass has columns. */
  lemma LineAdded(img: seq<byte>, w: nat, h: nat, n: nat, p: nat, y: nat)
    requires IsPicture(img, w, h, n) && 0 < y <= h && p < 7
    ensures var row, k := ReducedRow(img, w, h, n, p + 1, y - 1, w), Lines(p, y - 1);
      && Lines(p, y) == (if PassW(p, w) == 0 then Lines(p, y) else k + |NonEmpty(row)|)
      && (PassW(p, w) == 0 ==> row == [])
      && (row != [] ==> y - 1 == Row(p, k) && RowOk(row, img, w, h, n, p, y - 1, PassW(p, w)))
  {
    hide OnLine, Lines, ByteOk, PassW, ReducedRow, RowOk, Row, PassH, Columns;
    ReducedRowIs(img, w, h, n, p, y - 1, w);
    LinesStep(p, y);
    if OnLine(p, y - 1) {
      RowNonEmpty(ReducedRow(img, w, h, n, p + 1, y - 1, w), img, w, h, n, p, y - 1);
    }
  }

  lemma RowNonEmpty(row: seq<byte>, img: seq<byte>, w: nat, h: nat, n: nat, p: nat, y: nat)
    requires IsPicture(img, w, h, n) && y < h && RowOk(row, img, w, h, n, p, y, Columns(p, w))
    ensures Columns(p, w) == PassW(p, w) && (row == [] <==> PassW(p, w) == 0)
  {
    RowLength(n, PassW(p, w));
  }

  lemma RowLength(n: nat, k: nat)
    requires n > 0
    ensures n * k == 0 <==> k == 0
  {
  }

  // --------------------------------------------------------- interlaced image data

  lemma ReducedIs(img: seq<byte>, w: nat, h: nat, n: nat, p: nat)
    requires IsPicture(img, w, h, n) && p < 7
    ensures var rows := Reduced(img, w, h, n, p + 1);
      && |rows| == (if PassW(p, w) == 0 then 0 else PassH(p, h))
      && Uniform(rows, n * PassW(p, w))
      && forall j: nat :: j < |rows| ==> LineOk(rows, img, w, h, n, p, j)
  {
    hide PassW, PassH, ByteOk, Row, ReducedRows;
    ReducedRowsAre(img, w, h, n, p, h);
    var rows := Reduced(img, w, h, n, p + 1);
    forall j | 0 <= j < |rows| ensures |rows[j]| == n * PassW(p, w) {
      assert LineOk(rows, img, w, h, n, p, j);
    }
  }

  /** The data of pass `p`, 1 to 7: a filter byte and a filtered line for every row of the
      reduced image, and nothing for an empty one. */
  function PassData(img: seq<byte>, w: nat, h: nat, n: nat, p: nat, types: seq<byte>): seq<byte>
    requires IsPicture(img, w, h, n) && 1 <= p <= 7 && FilterTypes(types, |Reduced(img, w, h, n, p)|)
  {
    ReducedIs(img, w, h, n, p - 1);
    var rows := Reduced(img, w, h, n, p);
    if rows == [] then [] else FilteredRows(rows, types, Zeros(|rows[0]|), n)
  }

  /** Any filter type for every row of every pass. */
  predicate PassTypes(types: seq<seq<byte>>, img: seq<byte>, w: nat, h: nat, n: nat)
    requires IsPicture(img, w, h, n)
  {
    |types| == 7 && forall p :: 1 <= p <= 7 ==> FilterTypes(types[p - 1], |Reduced(img, w, h, n, p)|)
  }

  /** The data of the passes from `p` on, one after the other. */
  function InterlacedFrom(img: seq<byte>, w: nat, h: nat, n: nat, types: seq<seq<byte>>, p: nat): seq<byte>
    requires IsPicture(img, w, h, n) && 1 <= p <= 8 && PassTypes(types, img, w, h, n)
    decreases 8 - p
  {
    if p == 8 then []
    else PassData(img, w, h, n, p, types[p - 1]) + InterlacedFrom(img, w, h, n, types, p + 1)
  }

  function InterlacedData(img: seq<byte>, w: nat, h: nat, n: nat, types: seq<seq<byte>>): seq<byte>
    requires IsPicture(img, w, h, n) && PassTypes(types, img, w, h, n)
  {
    InterlacedFrom(img, w, h, n, types, 1)
  }

  // ------------------------------------------------------------------- reading it

  lemma PassSmaller(p: nat, n: nat)
    requires p < 7 && n > 0
    ensures PassW(p, n) <= n && PassH(p, n) <= n
  {
  }

  lemma SizesShrink(x: nat, y: nat, w: nat, h: nat, n: nat)
    requires x <= w && y <= h && SizesValid(w, h, n)
    ensures SizesValid(x, y, n)
  {
    Shrink(x, w, y);
    Shrink(y, h, w);
    assert x * y <= w * h;
    Shrink(x * y, w * h, n);
    Shrink(x, w, n);
    Shrink(x * n, w * n, y);
    Shrink(y, h, w * n);
  }

  lemma Shrink(a: nat, b: nat, c: nat)
    requires a <= b
    ensures a * c <= b * c && c * a <= c * b && a * c == c * a
  {
    MulSign(b - a, c);
    assert (b - a) * c == b * c - a * c;
  }

  /** One pass, read back; what follows it is left for the next. */
  lemma PassRead(img: seq<byte>, w: nat, h: nat, n: nat, p: nat, types: seq<byte>, extra: seq<byte>)
    requires IsPicture(img, w, h, n) && p < 7 && FilterTypes(types, |Reduced(img, w, h, n, p + 1)|) && SizesValid(w, h, n)
    ensures Pass(PassData(img, w, h, n, p + 1, types) + extra, w, h, n, p)
      == Some((Concat(Reduced(img, w, h, n, p + 1)), extra))
  {
    hide PassW, PassH, FilteredRows, ReadRows, LineOk, Reduced, SizesValid, Zeros;
    ReducedIs(img, w, h, n, p);
    var rows, x, y := Reduced(img, w, h, n, p + 1), PassW(p, w), PassH(p, h);
    if x > 0 && y > 0 {
      PassSmaller(p, w);
      PassSmaller(p, h);
      SizesShrink(x, y, w, h, n);
      assert |rows[0]| == n * x == x * n;
      FilteredRowsLength(rows, types, Zeros(x * n), n);
      ReadFiltered(rows, types, Zeros(x * n), n, extra);
    } else {
      assert rows == [];
      assert [] + extra == extra;
    }
  }

  /** The reduced images of the first `k` passes. */
  function Pictures(img: seq<byte>, w: nat, h: nat, n: nat, k: nat): (s: seq<seq<byte>>)
    requires IsPicture(img, w, h, n)
    ensures |s| == k && forall q :: 0 <= q < k ==> s[q] == Concat(Reduced(img, w, h, n, q + 1))
  {
    seq(k, q requires q >= 0 => Concat(Reduced(img, w, h, n, q + 1)))
  }

  lemma {:induction false} ConcatLength(rows: seq<seq<byte>>, len: nat)
    requires Uniform(rows, len)
    ensures |Concat(rows)| == len * |rows|
  {
    if rows != [] {
      ConcatLength(rows[1..], len);
      ScaledStep(len, |rows|);
    }
  }

  lemma PictureSizes(img: seq<byte>, w: nat, h: nat, n: nat, k: nat)
    requires IsPicture(img, w, h, n) && k <= 7
    ensures PassSizes(Pictures(img, w, h, n, k), w, h, n)
  {
    hide PassW, PassH, LineOk, Reduced;
    forall q | 0 <= q < k ensures |Concat(Reduced(img, w, h, n, q + 1))| == PassBytes(q, w, h, n) {
      ReducedIs(img, w, h, n, q);
      ConcatLength(Reduced(img, w, h, n, q + 1), n * PassW(q, w));
      PictureSize(n, PassW(q, w), PassH(q, h));
    }
  }

  lemma PictureSize(n: nat, x: nat, y: nat)
    ensures n * x * y == n * (x * y) && (x == 0 ==> n * (x * y) == 0 && n * x * 0 == 0)
  {
  }

  /** All passes from the one after `k` on, read back. */
  lemma {:induction false} PassesRead(img: seq<byte>, w: nat, h: nat, n: nat, types: seq<seq<byte>>, k: nat, extra: seq<byte>)
    requires IsPicture(img, w, h, n) && PassTypes(types, img, w, h, n) && SizesValid(w, h, n) && k <= 7
    ensures PassSizes(Pictures(img, w, h, n, k), w, h, n)
    ensures PassImages(InterlacedFrom(img, w, h, n, types, k + 1) + extra, w, h, n, Pictures(img, w, h, n, k))
      == Some(Pictures(img, w, h, n, 7))
    decreases 7 - k
  {
    hide PassSizes, Pass, PassData, SizesValid, Reduced, Concat, IsPicture;
    PictureSizes(img, w, h, n, k);
    if k == 7 {
    } else {
      var a, b := PassData(img, w, h, n, k + 1, types[k]), InterlacedFrom(img, w, h, n, types, k + 2);
      assert (a + b) + extra == a + (b + extra);
      PassRead(img, w, h, n, k, types[k], b + extra);
      assert Pictures(img, w, h, n, k) + [Concat(Reduced(img, w, h, n, k + 1))] == Pictures(img, w, h, n, k + 1);
      PassesRead(img, w, h, n, types, k + 1, extra);
    }
  }

  // ---------------------------------------------------------------- putting it together

  lemma {:induction false} ConcatAt(rows: seq<seq<byte>>, len: nat, j: nat, t: nat)
    requires Uniform(rows, len) && j < |rows| && t < len
    ensures len * j + t < |Concat(rows)| && Concat(rows)[len * j + t] == rows[j][t]
  {
    if j > 0 {
      ConcatAt(rows[1..], len, j - 1, t);
      ScaledStep(len, j);
      ConcatLength(rows[1..], len);
    }
  }

  lemma PictureByte(img: seq<byte>, w: nat, h: nat, n: nat, y: nat, x: nat, c: nat)
    requires IsPicture(img, w, h, n) && y < h && x < w && c < n
    ensures PassSizes(Pictures(img, w, h, n, 7), w, h, n) && FinalOk(img, Pictures(img, w, h, n, 7), w, h, n, y, x, c)
  {
    var p := PassOf(x, y);
    var i, j := x / XSpc(p), y / YSpc(p);
    hide PassW, PassH, PassOf, XSpc, YSpc, Row, Column, Cell, PassSizes, Reduced;
    PictureSizes(img, w, h, n, 7);
    WrittenOnce(w, h, x, y, p, i, j);
    ReducedIs(img, w, h, n, p);
    var rows, len := Reduced(img, w, h, n, p + 1), n * PassW(p, w);
    assert LineOk(rows, img, w, h, n, p, j);
    assert ByteOk(rows[j], img, w, h, n, p, y, i, c);
    ConcatAt(rows, len, j, n * i + c);
    PlaceInPass(n, PassW(p, w), j, i, c);
  }

  lemma PlaceInPass(n: nat, x: nat, j: nat, i: nat, c: nat)
    ensures Cell(x, n, j, i, c) == n * x * j + (n * i + c)
  {
    assert n * (x * j + i) == n * x * j + n * i;
  }

  /** De-interlacing gives the picture back, for every size, filter choice and whatever
      follows the data. */
  lemma InterlacedRoundTrip(img: seq<byte>, w: nat, h: nat, n: nat, types: seq<seq<byte>>, extra: seq<byte>,
                            image: Option<seq<byte>>)
    requires IsPicture(img, w, h, n) && PassTypes(types, img, w, h, n) && SizesValid(w, h, n)
    ensures MakesImage(InterlacedData(img, w, h, n, types) + extra, w, h, n, true, Some(img))
    ensures MakesImage(InterlacedData(img, w, h, n, types) + extra, w, h, n, true, image) ==> image == Some(img)
  {
    hide PassImages, PassSizes, FinalOk, InterlacedFrom;
    var data, images := InterlacedData(img, w, h, n, types) + extra, Pictures(img, w, h, n, 7);
    assert Pictures(img, w, h, n, 0) == [];
    PassesRead(img, w, h, n, types, 0, extra);
    PictureSizes(img, w, h, n, 7);
    forall y: nat, x: nat, c: nat | y < h && x < w && c < n ensures FinalOk(img, images, w, h, n, y, x, c) {
      PictureByte(img, w, h, n, y, x, c);
    }
    if MakesImage(data, w, h, n, true, image) {
      ImageDetermined(data, w, h, n, true, image, Some(img));
    }
  }

  /** The reader on interlaced data. */
  method Deinterlaced(img: seq<byte>, w: nat, h: nat, n: nat, types: seq<seq<byte>>) returns (ok: bool, out: array<byte>)
    requires IsPicture(img, w, h, n) && n <= 4 && PassTypes(types, img, w, h, n) && SizesValid(w, h, n)
    ensures ok && out[..] == img
  {
    hide MakesImage, InterlacedData;
    var data := InterlacedData(img, w, h, n, types);
    ok, out := CreatePngImage(data, w, h, n, true);
    InterlacedRoundTrip(img, w, h, n, types, [], if ok then Some(out[..]) else None);
    assert data + [] == data;
  }
}
