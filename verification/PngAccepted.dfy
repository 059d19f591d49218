/** The converse for files: whatever decodes is a PNG file, chunk by chunk, whose data is a
    zlib stream, and the picture is the one that data makes. */
module PngAccepted {
  import opened Bits
  import opened Wrappers
  import opened InflateSpec
  import opened DeflateStream
  import opened DeflateAccepted
  import opened Positions
  import opened PngFilter
  import opened PngImage
  import opened Adam7
  import opened Adam7RoundTrip
  import opened PngFile
  import opened PngChunks
  import opened PngDecode

  // -------------------------------------------------------------- nothing is cut short

  lemma ZeroAfterEnd(data: seq<byte>, pos: nat)
    requires pos + 3 >= |data|
    ensures Word(data, pos) % 256 == 0
  {
    assert At(data, pos + 3) == 0;
  }

  lemma TagInside(data: seq<byte>, pos: nat)
    requires Word(data, Past(data, pos, 4)) == IEND
    ensures pos + 8 <= |data| && Past(data, pos, 4) == pos + 4
  {
    hide Word;
    assert IEND % 256 == 0x44;
    if Past(data, pos, 4) + 3 >= |data| {
      ZeroAfterEnd(data, Past(data, pos, 4));
    }
  }

  /** At every chunk of a file that decodes, a length and a tag are there. */
  lemma {:induction false} InData(data: seq<byte>, pos: nat, st: Progress, result: Parsed)
    requires st.Valid() && Parses(data, pos, st, result) && result.Decoded?
    ensures pos + 8 <= |data| && Past(data, pos, 4) == pos + 4 && Past(data, pos, 8) == pos + 8
    decreases if pos <= |data| then |data| - pos else 0
  {
    hide Word, HeaderChunk, PaletteChunk, TransparencyChunk, DataChunk, OtherChunk, ChunkStep, Finishes;
    var len, tag := Word(data, pos), Word(data, Past(data, pos, 4));
    if tag == IEND {
      TagInside(data, pos);
    } else {
      NoTagPastEnd(data, pos);
      StopsUndecoded(data, Past(data, pos, 8), len, tag, st);
      var step := ChunkStep(data, Past(data, pos, 8), len, tag, st);
      InData(data, Past(data, step.pos, 4), step.st, result);
    }
  }

  lemma StopsUndecoded(data: seq<byte>, pos: nat, len: nat, tag: nat, st: Progress)
    requires st.Valid()
    ensures var step := ChunkStep(data, pos, len, tag, st); step.Stop? ==> !step.result.Decoded?
  {
    hide HeaderAt, Header.Accepted, Header.Modelled;
  }

  lemma WordSpelled(data: seq<byte>, pos: nat)
    requires pos + 4 <= |data|
    ensures BE32(Word(data, pos)) == data[pos..pos + 4] && Word(data, pos) < UINT32_MODULUS
  {
    hide Word;
    var a, b, c, d := data[pos] as int, data[pos + 1] as int, data[pos + 2] as int, data[pos + 3] as int;
    WordIs(data, pos);
    var w := ((a * 256 + b) * 256 + c) * 256 + d;
    assert w / 0x100 == (a * 256 + b) * 256 + c;
    assert w / 0x1_0000 == a * 256 + b;
    assert w / 0x100_0000 == a;
  }

  lemma WordIs(data: seq<byte>, pos: nat)
    requires pos + 4 <= |data|
    ensures Word(data, pos) == ((data[pos] as int * 256 + data[pos + 1]) * 256 + data[pos + 2]) * 256 + data[pos + 3]
  {
  }

  /** The chunk at `pos`, when it is all there. */
  lemma ChunkSpelled(data: seq<byte>, pos: nat, len: nat, tag: nat)
    requires pos + 12 + len <= |data| && Word(data, pos) == len && Word(data, pos + 4) == tag
    ensures data[pos..pos + 12 + len] == RawChunk(tag, data[pos + 8..pos + 8 + len], data[pos + 8 + len..pos + 12 + len])
  {
    hide Word, BE32;
    WordSpelled(data, pos);
    WordSpelled(data, pos + 4);
  }

  // ------------------------------------------------------------------- chunk by chunk

  /** A chunk that does not end the loop is one the format allows. */
  lemma ItemTaken(data: seq<byte>, pos: nat, st: Progress, result: Parsed) returns (item: Item, next: Progress)
    requires st.Valid() && st.header.Some? && Parses(data, pos, st, result) && result.Decoded?
    requires Word(data, Past(data, pos, 4)) != IEND
    ensures item.Allowed() && pos + 12 + |item.body| <= |data| && data[pos..pos + 12 + |item.body|] == item.Bytes()
    ensures next.Valid() && next == (if item.Data? then st.(idata := st.idata + item.body) else st)
    ensures item.Data? ==> |item.body| <= 0x4000_0000 && |st.idata| + |item.body| <= 0x7FFF_FFFF
    ensures Parses(data, pos + 12 + |item.body|, next, result)
  {
    hide Word, Parses, Finishes, RawChunk, Header.Accepted, Header.Modelled, BE32;
    InData(data, pos, st, result);
    var len, tag := Word(data, pos), Word(data, pos + 4);
    WordSpelled(data, pos + 4);
    var q;
    q, next := StepTaken(data, pos, st, result);
    InData(data, Past(data, q, 4), next, result);
    BodyInside(data, pos, len, tag, st);
    ChunkSpelled(data, pos, len, tag);
    var body, sum := data[pos + 8..pos + 8 + len], data[pos + 8 + len..pos + 12 + len];
    item := if tag == IDAT then Data(body, sum) else if tag == PLTE then Palette(body, sum) else Ancillary(tag, body, sum);
  }

  /** One step of the loop that goes on. */
  lemma StepTaken(data: seq<byte>, pos: nat, st: Progress, result: Parsed) returns (q: nat, next: Progress)
    requires st.Valid() && Parses(data, pos, st, result) && result.Decoded?
    requires pos + 8 <= |data| && Past(data, pos, 4) == pos + 4 && Past(data, pos, 8) == pos + 8
    requires Word(data, pos + 4) != IEND && (st.header.Some? || Word(data, pos + 4) == IHDR)
    ensures ChunkStep(data, pos + 8, Word(data, pos), Word(data, pos + 4), st) == Continue(q, next)
    ensures next.Valid() && Parses(data, Past(data, q, 4), next, result)
  {
    hide Word, HeaderAt, Header.Accepted, Header.Modelled, Finishes;
    var step := ChunkStep(data, pos + 8, Word(data, pos), Word(data, pos + 4), st);
    q, next := step.pos, step.st;
  }

  /** The body and the checksum are there when something follows. */
  lemma BodyInside(data: seq<byte>, pos: nat, len: nat, tag: nat, st: Progress)
    requires st.Valid() && pos + 8 <= |data| && ChunkStep(data, pos + 8, len, tag, st).Continue?
    requires Past(data, ChunkStep(data, pos + 8, len, tag, st).pos, 4) < |data|
    ensures ChunkStep(data, pos + 8, len, tag, st).pos == pos + 8 + len && pos + 12 + len <= |data|
    ensures Past(data, pos + 8 + len, 4) == pos + 12 + len
  {
    hide HeaderAt, Header.Accepted, Header.Modelled;
  }

  /** The rest of a file that decodes: chunks, and an end chunk that sees their data. */
  lemma {:induction false} ItemsTaken(data: seq<byte>, pos: nat, st: Progress, result: Parsed)
    returns (items: seq<Item>, length: seq<byte>, rest: seq<byte>)
    requires st.Valid() && st.header.Some? && pos <= |data| && Parses(data, pos, st, result) && result.Decoded?
    ensures AllAllowed(items) && PiecesFit(items, |st.idata|) && |length| == 4
    ensures data[pos..] == ItemsBytes(items) + EndBytes(length, rest)
    ensures st.(idata := st.idata + DataOf(items)).Valid() && Finishes(st.(idata := st.idata + DataOf(items)), result)
    decreases |data| - pos
  {
    hide Word, Finishes, RawChunk, Header.Accepted, Header.Modelled, BE32, Item.Allowed, Item.Bytes, ChunkStep;
    InData(data, pos, st, result);
    if Word(data, pos + 4) == IEND {
      WordSpelled(data, pos + 4);
      items, length, rest := [], data[pos..pos + 4], data[pos + 8..];
      assert st.idata + [] == st.idata;
      assert data[pos..] == EndBytes(length, rest);
      assert [] + EndBytes(length, rest) == EndBytes(length, rest);
    } else {
      var item, next := ItemTaken(data, pos, st, result);
      hide Parses;
      var p := pos + 12 + |item.body|;
      var more;
      more, length, rest := ItemsTaken(data, p, next, result);
      items := [item] + more;
      assert items[0] == item && items[1..] == more;
      assert data[pos..] == data[pos..p] + data[p..];
      assert item.Data? ==> st.idata + item.body + DataOf(more) == st.idata + DataOf(items);
    }
  }

  // ----------------------------------------------------------------------- the header

  lemma FirstIsHeader(data: seq<byte>, result: Parsed)
    requires 16 <= |data| && Parses(data, 8, Progress(None, []), result) && result.Decoded?
    ensures Word(data, 12) == IHDR
  {
    hide Word, HeaderAt, Header.Accepted, Header.Modelled;
    assert Past(data, 8, 4) == 12 && Past(data, 8, 8) == 16;
  }

  /** An accepted header is the one of a picture within the limits. */
  lemma HeaderMeans(h: Header)
    requires h.Accepted() && h.Modelled()
    ensures var n := h.Channels();
      WithinLimits(h.x, h.y, n) && h == Header(h.x, h.y, 8, ColorType(n), 0, 0, h.interlace) && h.interlace <= 1
  {
    assert h.color == 0 || h.color == 2 || h.color == 4 || h.color == 6;
  }

  lemma HeaderSpelled(data: seq<byte>, pos: nat)
    requires pos + 13 <= |data| && HeaderAt(data, pos).Accepted() && HeaderAt(data, pos).Modelled()
    ensures var h := HeaderAt(data, pos);
      h.interlace <= 1 && data[pos..pos + 13] == HeaderBytes(h.x, h.y, h.Channels(), h.interlace)
  {
    hide Word, BE32, Header.Accepted, Header.Modelled;
    HeaderMeans(HeaderAt(data, pos));
    WordSpelled(data, pos);
    WordSpelled(data, pos + 4);
  }

  lemma HeaderTaken(data: seq<byte>, result: Parsed) returns (h: Header)
    requires |data| >= 8 && Parses(data, 8, Progress(None, []), result) && result.Decoded?
    ensures h.Accepted() && h.Modelled() && h.interlace <= 1 && |data| >= 33
    ensures data[8..33] == RawChunk(IHDR, HeaderBytes(h.x, h.y, h.Channels(), h.interlace), data[29..33])
    ensures Parses(data, 33, Progress(Some(h), []), result)
  {
    var st := Progress(None, []);
    InData(data, 8, st, result);
    FirstIsHeader(data, result);
    hide Word, HeaderAt, Parses, RawChunk, HeaderBytes, Header.Accepted, Header.Modelled;
    assert IHDR != IEND;
    var q, next := StepTaken(data, 8, st, result);
    InData(data, Past(data, q, 4), next, result);
    BodyInside(data, 8, Word(data, 8), IHDR, st);
    ChunkSpelled(data, 8, Word(data, 8), IHDR);
    h := HeaderAt(data, 16);
    HeaderSpelled(data, 16);
  }

  // ------------------------------------------------------------------------ the rows

  /** Rows that are read are filtered rows, of any types. */
  lemma {:induction false} RowsTaken(raw: seq<byte>, up: seq<byte>, n: nat, k: nat)
    returns (rows: seq<seq<byte>>, types: seq<byte>, extra: seq<byte>)
    requires n > 0 && ReadRows(raw, up, n, k).Some?
    ensures |rows| == k && Uniform(rows, |up|) && FilterTypes(types, k)
    ensures raw == FilteredRows(rows, types, up, n) + extra && ReadRows(raw, up, n, k) == Some(Concat(rows))
    decreases k
  {
    hide Filtered, Unfiltered;
    if k == 0 {
      rows, types, extra := [], [], raw;
      assert [] + raw == raw;
    } else {
      var line, next := raw[1..|up| + 1], raw[|up| + 1..];
      var row := Unfiltered(raw[0], line, up, n);
      FilterUnfiltered(raw[0], line, up, n);
      var more, rest;
      more, rest, extra := RowsTaken(next, row, n, k - 1);
      rows, types := [row] + more, [raw[0]] + rest;
      assert rows[0] == row && rows[1..] == more && types[0] == raw[0] && types[1..] == rest;
      LineThenRest(raw, |up|, FilteredRows(more, rest, row, n), extra);
    }
  }

  lemma LineThenRest(raw: seq<byte>, k: nat, more: seq<byte>, extra: seq<byte>)
    requires |raw| > k && raw[k + 1..] == more + extra
    ensures raw == [raw[0]] + raw[1..k + 1] + more + extra
  {
    assert raw == [raw[0]] + raw[1..k + 1] + raw[k + 1..];
  }

  lemma {:induction false} SameRows(a: seq<seq<byte>>, b: seq<seq<byte>>, len: nat)
    requires |a| == |b| && Uniform(a, len) && Uniform(b, len) && Concat(a) == Concat(b)
    ensures a == b
    decreases |a|
  {
    if a != [] {
      assert Concat(a)[..len] == a[0] && Concat(b)[..len] == b[0];
      assert Concat(a)[len..] == Concat(a[1..]) && Concat(b)[len..] == Concat(b[1..]);
      SameRows(a[1..], b[1..], len);
      assert a == [a[0]] + a[1..] && b == [b[0]] + b[1..];
    }
  }

  // -------------------------------------------------------------------- reduced images

  lemma ImageSize(images: seq<seq<byte>>, w: nat, h: nat, n: nat, p: nat)
    requires PassSizes(images, w, h, n) && p < |images|
    ensures |images[p]| == n * (PassW(p, w) * PassH(p, h))
  {
  }

  /** The place in the image of pixel `i` of row `j` of pass `p`. */
  lemma FinalAt(img: seq<byte>, images: seq<seq<byte>>, w: nat, h: nat, n: nat, p: nat, j: nat, i: nat, c: nat)
    requires w > 0 && h > 0 && PassSizes(images, w, h, n) && |images| == 7 && Assembled(img, images, w, h, n)
    requires p < 7 && i < PassW(p, w) && j < PassH(p, h) && c < n
    ensures Cell(w, n, Row(p, j), Column(p, i), c) < |img| && Cell(PassW(p, w), n, j, i, c) < |images[p]|
    ensures img[Cell(w, n, Row(p, j), Column(p, i), c)] == images[p][Cell(PassW(p, w), n, j, i, c)]
  {
    hide PassW, PassH, Row, Column, Cell, PassSizes, XSpc, YSpc, PassOf;
    WrittenOnce(w, h, Column(p, i), Row(p, j), p, i, j);
    assert FinalOk(img, images, w, h, n, Row(p, j), Column(p, i), c);
    CellInside(PassW(p, w), PassH(p, h), n, j, i, c);
    ImageSize(images, w, h, n, p);
  }

  predicate ByteMatches(row: seq<byte>, image: seq<byte>, w: nat, n: nat, j: nat, i: nat, c: nat) {
    n * i + c < |row| && Cell(w, n, j, i, c) < |image| && image[Cell(w, n, j, i, c)] == row[n * i + c]
  }

  /** Byte `c` of pixel `i` of row `j`: what the assembled image has there is what the pass had. */
  lemma ByteTaken(img: seq<byte>, images: seq<seq<byte>>, w: nat, h: nat, n: nat, p: nat, j: nat, i: nat, c: nat)
    requires IsPicture(img, w, h, n) && p < 7 && PassSizes(images, w, h, n) && |images| == 7 && Assembled(img, images, w, h, n)
    requires j < |Reduced(img, w, h, n, p + 1)| && i < PassW(p, w) && c < n
    ensures ByteMatches(Reduced(img, w, h, n, p + 1)[j], images[p], PassW(p, w), n, j, i, c)
  {
    hide PassW, PassH, Row, Column, Cell, PassSizes, Reduced, Assembled;
    ReducedIs(img, w, h, n, p);
    var rows := Reduced(img, w, h, n, p + 1);
    assert LineOk(rows, img, w, h, n, p, j);
    assert ByteOk(rows[j], img, w, h, n, p, Row(p, j), i, c);
    FinalAt(img, images, w, h, n, p, j, i, c);
  }

  /** So the pass's image is the reduced image. */
  lemma ReducedTaken(img: seq<byte>, images: seq<seq<byte>>, w: nat, h: nat, n: nat, p: nat)
    requires IsPicture(img, w, h, n) && p < 7 && PassSizes(images, w, h, n) && |images| == 7 && Assembled(img, images, w, h, n)
    ensures Concat(Reduced(img, w, h, n, p + 1)) == images[p]
  {
    hide PassW, PassH, Cell, PassSizes, Reduced, Assembled, LineOk;
    ReducedIs(img, w, h, n, p);
    ImageSize(images, w, h, n, p);
    var rows, x, y := Reduced(img, w, h, n, p + 1), PassW(p, w), PassH(p, h);
    ConcatLength(rows, n * x);
    PictureSize(n, x, y);
    forall k | 0 <= k < |images[p]| ensures Concat(rows)[k] == images[p][k] {
      var j, i, c := CellSurjective(k, x, y, n);
      ByteTaken(img, images, w, h, n, p, j, i, c);
      ConcatAt(rows, n * x, j, n * i + c);
      PlaceInPass(n, x, j, i, c);
    }
  }

  /** One pass: its data is the filtered rows of the reduced image. */
  lemma PassTaken(img: seq<byte>, w: nat, h: nat, n: nat, p: nat, raw: seq<byte>) returns (types: seq<byte>)
    requires IsPicture(img, w, h, n) && p < 7 && Pass(raw, w, h, n, p).Some?
    requires Pass(raw, w, h, n, p).value.0 == Concat(Reduced(img, w, h, n, p + 1))
    ensures FilterTypes(types, |Reduced(img, w, h, n, p + 1)|)
    ensures raw == PassData(img, w, h, n, p + 1, types) + Pass(raw, w, h, n, p).value.1
  {
    hide PassW, PassH, FilteredRows, ReadRows, LineOk, Reduced, SizesValid, Zeros, Concat;
    ReducedIs(img, w, h, n, p);
    var all, x, y := Reduced(img, w, h, n, p + 1), PassW(p, w), PassH(p, h);
    if x > 0 && y > 0 {
      var rows, extra;
      rows, types, extra := RowsTaken(raw, Zeros(x * n), n, y);
      assert x * n == n * x == |Zeros(x * n)|;
      SameRows(rows, all, n * x);
      FilteredRowsLength(rows, types, Zeros(x * n), n);
    } else {
      types := [];
      assert [] + raw == raw;
    }
  }

  lemma {:induction false} ImagesExtend(raw: seq<byte>, w: nat, h: nat, n: nat, done: seq<seq<byte>>)
    requires n > 0 && PassSizes(done, w, h, n) && PassImages(raw, w, h, n, done).Some?
    ensures done <= PassImages(raw, w, h, n, done).value
    decreases 7 - |done|
  {
    hide Pass;
    if |done| < 7 {
      var (image, data) := Pass(raw, w, h, n, |done|).value;
      ImagesExtend(data, w, h, n, done + [image]);
    }
  }

  predicate TypesUpTo(types: seq<seq<byte>>, img: seq<byte>, w: nat, h: nat, n: nat, k: nat)
    requires IsPicture(img, w, h, n) && k <= 7
  {
    |types| >= k && forall p :: 1 <= p <= k ==> FilterTypes(types[p - 1], |Reduced(img, w, h, n, p)|)
  }

  /** All passes, given the filter types `before` of those already read. */
  lemma {:induction false} PassesTaken(img: seq<byte>, w: nat, h: nat, n: nat, raw: seq<byte>, images: seq<seq<byte>>,
                                       before: seq<seq<byte>>) returns (types: seq<seq<byte>>, extra: seq<byte>)
    requires IsPicture(img, w, h, n) && |before| <= |images| == 7 && TypesUpTo(before, img, w, h, n, |before|)
    requires forall p :: 0 <= p < 7 ==> Concat(Reduced(img, w, h, n, p + 1)) == images[p]
    requires PassSizes(images[..|before|], w, h, n) && PassImages(raw, w, h, n, images[..|before|]) == Some(images)
    ensures PassTypes(types, img, w, h, n) && before <= types
    ensures raw == InterlacedFrom(img, w, h, n, types, |before| + 1) + extra
    decreases 7 - |before|
  {
    hide Pass, PassData, Reduced, Concat, PassBytes, FilterTypes;
    var k := |before|;
    if k == 7 {
      types, extra := before, raw;
      assert [] + raw == raw;
    } else {
      var (image, data) := Pass(raw, w, h, n, k).value;
      ImagesExtend(data, w, h, n, images[..k] + [image]);
      assert images[..k] + [image] == images[..k + 1];
      var t := PassTaken(img, w, h, n, k, raw);
      types, extra := PassesTaken(img, w, h, n, data, images, before + [t]);
      assert types[k] == t;
      var a, b := PassData(img, w, h, n, k + 1, t), InterlacedFrom(img, w, h, n, types, k + 2);
      assert a + (b + extra) == (a + b) + extra;
    }
  }

  /** Data that makes a picture carries it. */
  lemma MadeIsCarried(raw: seq<byte>, w: nat, h: nat, n: nat, interlaced: bool, img: seq<byte>)
    requires w > 0 && h > 0 && n > 0 && MakesImage(raw, w, h, n, interlaced, Some(img))
    ensures Carries(raw, w, h, n, interlaced, img)
  {
    hide Assembled, PassImages, ReadRows, FilteredRows, Concat, SizesValid, PassBytes, Reduced, FilterTypes;
    if interlaced {
      var images := PassImages(raw, w, h, n, []).value;
      InterlacedTaken(raw, w, h, n, images, img);
    } else {
      var rows, types, extra := RowsTaken(raw, Zeros(w * n), n, h);
      assert |Zeros(w * n)| == w * n;
      assert PlainData(raw, w, h, n, rows, types, extra);
    }
  }

  lemma InterlacedTaken(raw: seq<byte>, w: nat, h: nat, n: nat, images: seq<seq<byte>>, img: seq<byte>)
    requires w > 0 && h > 0 && n > 0 && PassImages(raw, w, h, n, []) == Some(images) && Assembled(img, images, w, h, n)
    ensures exists types, extra :: PassesData(raw, w, h, n, img, types, extra)
  {
    hide PassImages, PassBytes, Reduced, FilterTypes, Concat, InterlacedFrom, FinalOk;
    forall p | 0 <= p < 7 ensures Concat(Reduced(img, w, h, n, p + 1)) == images[p] {
      ReducedTaken(img, images, w, h, n, p);
    }
    assert images[..0] == [];
    var types, extra := PassesTaken(img, w, h, n, raw, images, []);
    assert PassesData(raw, w, h, n, img, types, extra);
  }

  /** The data of a picture within the limits: what makes it is exactly what carries it. */
  lemma CarriedExactly(raw: seq<byte>, x: nat, y: nat, n: nat, interlaced: bool, img: seq<byte>)
    requires WithinLimits(x, y, n)
    ensures MakesImage(raw, x, y, n, interlaced, Some(img)) <==> Carries(raw, x, y, n, interlaced, img)
  {
    hide MakesImage, Carries;
    if MakesImage(raw, x, y, n, interlaced, Some(img)) {
      MadeIsCarried(raw, x, y, n, interlaced, img);
    }
    if Carries(raw, x, y, n, interlaced, img) {
      CarriedIsMade(raw, x, y, n, interlaced, img);
    }
  }

  // -------------------------------------------------------------------- the whole file

  /** A file that decodes is a PNG file whose data is a zlib stream, and the picture is the
      one that stream makes. */
  lemma FileAccepted(data: seq<byte>, x: nat, y: nat, n: nat, pixels: seq<byte>)
    returns (f: File, segs: seq<Segment>, tail: nat, raw: seq<byte>)
    requires ParsesFile(data, Decoded(x, y, n, pixels))
    ensures f.Allowed() && (f.x, f.y, f.n) == (x, y, n) && data == f.Bytes() && PiecesFit(f.items, 0)
    ensures Spells(DataOf(f.items), segs, tail, raw) && Carries(raw, x, y, n, f.i == 1, pixels)
  {
    hide Parses, Word, Finishes, HeaderBytes, RawChunk, Header.Accepted, Header.Modelled, ItemsBytes, PiecesFit, EndBytes;
    hide AllAllowed, DataOf;
    var result := Decoded(x, y, n, pixels);
    var h := HeaderTaken(data, result);
    var items, length, rest := ItemsTaken(data, 33, Progress(Some(h), []), result);
    HeaderMeans(h);
    f := File(h.x, h.y, h.Channels(), h.interlace, data[29..33], items, length, rest);
    TagsSpelled();
    assert data == data[..8] + (data[8..33] + data[33..]);
    assert [] + DataOf(items) == DataOf(items);
    segs, tail, raw := DataTaken(Progress(Some(h), DataOf(items)), result);
    CarriedExactly(raw, x, y, n, f.i == 1, pixels);
  }

  /** What the end chunk saw. */
  lemma DataTaken(st: Progress, result: Parsed) returns (segs: seq<Segment>, tail: nat, raw: seq<byte>)
    requires st.Valid() && st.header.Some? && Finishes(st, result) && result.Decoded?
    ensures Spells(st.idata, segs, tail, raw) && ImageResult(st.header.value, raw, result)
  {
    hide ImageResult, Inflate, Spells;
    var size := RawLength(st.header.value);
    raw := Inflate(st.idata, size, true, true).value;
    segs, tail := InflatedSpells(st.idata, size, true, raw);
  }
}