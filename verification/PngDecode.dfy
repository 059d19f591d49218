/** Decoding files that other encoders make: eight-bit pictures of one to four channels,
    interlaced or not, any filter on every row, any compression that inflates, the data cut
    into pieces with other chunks among them. */
module PngDecode {
  import opened Bits
  import opened Wrappers
  import opened InflateSpec
  import opened Deflater
  import opened ZlibRoundTrip
  import opened DeflateStream
  import opened PngFilter
  import opened PngImage
  import opened Adam7
  import opened Adam7RoundTrip
  import opened PngFile
  import opened PngChunks
  import opened PngRoundTrip
  import opened PngReader

  // --------------------------------------------------------------- compressed data

  ghost predicate InflatesFrom(zlib: seq<byte>, cap: nat, raw: seq<byte>)
    requires 0 < cap <= INT_MAX
  {
    Inflate(zlib, cap, true, true) == Some(raw)
  }

  /** `zlib` inflates to `raw`, whatever size is guessed for the result. */
  ghost predicate Holds(zlib: seq<byte>, raw: seq<byte>) {
    forall cap: nat :: 0 < cap <= INT_MAX ==> InflatesFrom(zlib, cap, raw)
  }

  /** What the writer's compressor makes does. */
  lemma CompressedHolds(raw: seq<byte>, zlib: seq<byte>)
    requires exists tokens, deflated :: IsCompressed(raw, tokens, deflated, zlib)
    requires raw != [] && |raw| <= INT_MAX
    ensures Holds(zlib, raw)
  {
    hide IsCompressed, Inflate;
    forall cap: nat | 0 < cap <= INT_MAX ensures InflatesFrom(zlib, cap, raw) {
      RoundTripExactly(raw, zlib, cap, true);
    }
  }

  /** And so does any stream of stored, fixed and dynamic blocks. */
  lemma StreamHolds(raw: seq<byte>, zlib: seq<byte>)
    requires IsZlib(zlib, raw) && |raw| <= INT_MAX
    ensures Holds(zlib, raw)
  {
    hide IsZlib, Inflate;
    forall cap: nat | 0 < cap <= INT_MAX ensures InflatesFrom(zlib, cap, raw) {
      ZlibInflates(zlib, raw, cap, true);
    }
  }

  // ------------------------------------------------------------------- picture data

  /** A filter byte and a filtered line for every row, followed by anything. */
  ghost predicate PlainData(raw: seq<byte>, x: nat, y: nat, n: nat, rows: seq<seq<byte>>, types: seq<byte>, extra: seq<byte>)
    requires n > 0
  {
    && |rows| == y && Uniform(rows, x * n) && FilterTypes(types, y)
    && raw == FilteredRows(rows, types, Zeros(x * n), n) + extra
  }

  /** The filtered rows of the seven reduced images, followed by anything. */
  ghost predicate PassesData(raw: seq<byte>, x: nat, y: nat, n: nat, img: seq<byte>, types: seq<seq<byte>>, extra: seq<byte>) {
    IsPicture(img, x, y, n) && PassTypes(types, img, x, y, n) && raw == InterlacedData(img, x, y, n, types) + extra
  }

  /** `raw` is the picture `img` as section 7 of the PNG specification lays it out. */
  ghost predicate Carries(raw: seq<byte>, x: nat, y: nat, n: nat, interlaced: bool, img: seq<byte>)
    requires n > 0
  {
    if interlaced then exists types, extra :: PassesData(raw, x, y, n, img, types, extra)
    else exists rows, types, extra :: PlainData(raw, x, y, n, rows, types, extra) && img == Concat(rows)
  }

  lemma PlainMakes(raw: seq<byte>, x: nat, y: nat, n: nat, rows: seq<seq<byte>>, types: seq<byte>, extra: seq<byte>)
    requires WithinLimits(x, y, n) && PlainData(raw, x, y, n, rows, types, extra)
    ensures RawImage(raw, x, y, n) == Some(Concat(rows))
  {
    hide FilteredRows, ReadRows, WithinLimits, SizesValid, Concat;
    Positive(x, y, n);
    LimitsFit(x, y, n);
    FilteredRowsLength(rows, types, Zeros(x * n), n);
    ReadFiltered(rows, types, Zeros(x * n), n, extra);
    assert |Zeros(x * n)| == x * n && |raw| >= (x * n + 1) * y;
  }

  lemma Positive(x: nat, y: nat, n: nat)
    requires WithinLimits(x, y, n)
    ensures x > 0 && y > 0 && n > 0
  {
  }

  /** Such data makes the picture. */
  lemma CarriedIsMade(raw: seq<byte>, x: nat, y: nat, n: nat, interlaced: bool, img: seq<byte>)
    requires WithinLimits(x, y, n) && Carries(raw, x, y, n, interlaced, img)
    ensures MakesImage(raw, x, y, n, interlaced, Some(img))
  {
    hide SizesValid, InterlacedData, PassTypes, PlainData, RawImage, PassImages, Assembled, WithinLimits;
    Positive(x, y, n);
    LimitsFit(x, y, n);
    if interlaced {
      hide MakesImage;
      var types, extra :| PassesData(raw, x, y, n, img, types, extra);
      InterlacedRoundTrip(img, x, y, n, types, extra, None);
    } else {
      var rows, types, extra :| PlainData(raw, x, y, n, rows, types, extra) && img == Concat(rows);
      PlainMakes(raw, x, y, n, rows, types, extra);
    }
  }

  // -------------------------------------------------------------------- whole files

  /** A file decodes to the picture that its data carries. */
  lemma FileDecoded(f: File, raw: seq<byte>, img: seq<byte>, result: Parsed)
    requires f.Allowed() && PiecesFit(f.items, 0) && Holds(DataOf(f.items), raw)
    requires Carries(raw, f.x, f.y, f.n, f.i == 1, img) && ParsesFile(f.Bytes(), result)
    ensures result == Decoded(f.x, f.y, f.n, img)
  {
    hide File.Bytes, ParsesFile, MakesImage, Inflate, Header.Accepted, PiecesFit, AllAllowed, DataOf, RawLength, Carries;
    AnyTakenApart(f, result);
    HeaderFits(f.x, f.y, f.n, f.i);
    var length := RawLength(f.Header());
    assert InflatesFrom(DataOf(f.items), length, raw);
    SomeData(DataOf(f.items), length, raw);
    CarriedIsMade(raw, f.x, f.y, f.n, f.i == 1, img);
    ImageDetermined(raw, f.x, f.y, f.n, f.i == 1, Image(result), Some(img));
  }

  lemma SomeData(zlib: seq<byte>, cap: nat, raw: seq<byte>)
    requires 0 < cap <= INT_MAX && InflatesFrom(zlib, cap, raw)
    ensures zlib != []
  {
  }

  /** Loading it. */
  method LoadFile(f: File, ghost raw: seq<byte>, ghost img: seq<byte>) returns (result: Parsed)
    requires f.Allowed() && PiecesFit(f.items, 0) && Holds(DataOf(f.items), raw)
    requires Carries(raw, f.x, f.y, f.n, f.i == 1, img)
    ensures result == Decoded(f.x, f.y, f.n, img)
  {
    hide File.Bytes, ParsesFile, Holds, PiecesFit, AllAllowed, Carries;
    result := LoadPng(f.Bytes());
    FileDecoded(f, raw, img, result);
  }
}
