/** The PNG writer, and reading what it wrote. */
module PngRoundTrip {
  import opened Bits
  import opened Wrappers
  import opened InflateSpec
  import opened Deflater
  import opened ZlibRoundTrip
  import opened PngFilter
  import opened PngImage
  import opened PngFile
  import opened PngChunks

  // ------------------------------------------------------------------ the writer

  function FileBytes(x: nat, y: nat, n: nat, zlib: seq<byte>, crc: Crc): seq<byte> {
    SIGNATURE + Chunk(IHDR, HeaderBytes(x, y, n, 0), crc) + Chunk(IDAT, zlib, crc) + Chunk(IEND, [], crc)
  }

  function FilteredData(s: Source, types: seq<byte>): seq<byte>
    requires s.Valid() && |types| == s.h
  {
    FilteredRows(Rows(s, s.h), types, Zeros(s.RowBytes()), s.n)
  }

  /** `zlib` is a compressed form of the picture, each row filtered in some way. */
  ghost predicate Encodes(s: Source, types: seq<byte>, zlib: seq<byte>)
    requires s.Valid()
  {
    && FilterTypes(types, s.h)
    && exists tokens, deflated :: IsCompressed(FilteredData(s, types), tokens, deflated, zlib)
  }

  /** The whole file in memory. The checksum is whatever `crc` gives. */
  method WritePngToMem(s: Source, forceFilter: int, level: int, crc: Crc)
    returns (out: seq<byte>, ghost types: seq<byte>, ghost zlib: seq<byte>)
    requires s.Valid()
    ensures Encodes(s, types, zlib) && |types| == s.h && Chosen(s, forceFilter, types)
    ensures out == FileBytes(s.x, s.h, s.n, zlib, crc)
  {
    hide Chosen, Filtered, IsCompressed, BE32;
    var filt;
    filt, types := FilterImage(s, forceFilter);
    ChosenTypes(s, forceFilter, types);
    assert filt == FilteredData(s, types);
    var z := ZlibCompress(filt, level);
    zlib := z;
    out := SIGNATURE;
    out := out + BE32(13) + TagBytes(IHDR) + BE32(s.x) + BE32(s.h) + [8, ColorType(s.n), 0, 0, 0];
    out := out + BE32(crc(TagBytes(IHDR) + HeaderBytes(s.x, s.h, s.n, 0)));
    out := out + BE32(|z|) + TagBytes(IDAT) + z;
    out := out + BE32(crc(TagBytes(IDAT) + z));
    out := out + BE32(0) + TagBytes(IEND);
    out := out + BE32(crc(TagBytes(IEND) + []));
    assert out == FileBytes(s.x, s.h, s.n, zlib, crc);
  }

  lemma ChosenTypes(s: Source, force: int, types: seq<byte>)
    requires s.Valid() && Chosen(s, force, types) && |types| == s.h
    ensures FilterTypes(types, s.h)
  {
  }

  // --------------------------------------------------------- reading it back

  /** Filtered data of a picture within the limits decodes to the picture's rows. */
  lemma ImageRead(s: Source, types: seq<byte>)
    requires s.Valid() && WithinLimits(s.x, s.h, s.n) && FilterTypes(types, s.h)
    ensures |FilteredData(s, types)| == (s.x * s.n + 1) * s.h
    ensures RawImage(FilteredData(s, types), s.x, s.h, s.n) == Some(Concat(Rows(s, s.h)))
  {
    hide FilteredRows, ReadRows, Filtered;
    var filt := FilteredData(s, types);
    FilteredRowsLength(Rows(s, s.h), types, Zeros(s.RowBytes()), s.n);
    ReadFiltered(Rows(s, s.h), types, Zeros(s.RowBytes()), s.n, []);
    assert filt + [] == filt;
    LimitsFit(s.x, s.h, s.n);
  }

  lemma LimitsFit(x: nat, y: nat, n: nat)
    requires WithinLimits(x, y, n)
    ensures SizesValid(x, y, n)
  {
    PixelLimit(x, n, y);
    Products(x, y, n);
  }

  lemma Products(x: nat, y: nat, n: nat)
    requires 0 < x <= MAX_DIMENSIONS && 0 < y && 1 <= n <= 4 && x * n * y <= 0x4000_0000
    ensures SizesValid(x, y, n)
  {
    assert x * y * n == x * n * y;
    MulSign(x * y, n);
    assert n * x == x * n <= 4 * x;
  }

  /** The reader takes a written file apart into the header and the compressed data,
      unless the compressed data is longer than the reader allows in one chunk. */
  lemma FileTakenApart(x: nat, y: nat, n: nat, zlib: seq<byte>, crc: Crc, result: Parsed)
    requires WithinLimits(x, y, n) && |zlib| < UINT32_MODULUS
    requires ParsesFile(FileBytes(x, y, n, zlib, crc), result)
    ensures if |zlib| > IDAT_LIMIT then result == Rejected
      else
        var st := Progress(Some(Header(x, y, 8, ColorType(n), 0, 0, 0)), zlib);
        st.Valid() && Finishes(st, result)
  {
    hide Chunk, Finishes, HeaderBytes, Header.Accepted, Parses, FileBytes, File.Bytes, CheckSum;
    var f := WrittenFile(x, y, n, zlib, crc);
    assert f.items[1..] == [] && zlib + [] == zlib;
    assert DataOf([]) == [] && DataOf(f.items) == zlib + DataOf(f.items[1..]);
    assert PiecesFit([], |zlib|) && (PiecesFit(f.items, 0) <==> |zlib| <= IDAT_LIMIT);
    WrittenBytes(x, y, n, zlib, crc);
    AnyTakenApart(f, result);
  }

  function WrittenFile(x: nat, y: nat, n: nat, zlib: seq<byte>, crc: Crc): File {
    File(x, y, n, 0, CheckSum(IHDR, HeaderBytes(x, y, n, 0), crc), [Data(zlib, CheckSum(IDAT, zlib, crc))],
         BE32(0), CheckSum(IEND, [], crc))
  }

  /** The writer's file has one data chunk. */
  lemma WrittenBytes(x: nat, y: nat, n: nat, zlib: seq<byte>, crc: Crc)
    ensures FileBytes(x, y, n, zlib, crc) == WrittenFile(x, y, n, zlib, crc).Bytes()
  {
    hide HeaderBytes, CheckSum, BE32;
    TagsSpelled();
    var f := WrittenFile(x, y, n, zlib, crc);
    var c1, c2, c3 := Chunk(IHDR, HeaderBytes(x, y, n, 0), crc), Chunk(IDAT, zlib, crc), Chunk(IEND, [], crc);
    assert f.items[1..] == [] && ItemsBytes(f.items[1..]) == [];
    assert c2 + [] == c2 && ItemsBytes(f.items) == c2;
    assert c3 == EndBytes(f.length, f.rest);
    assert SIGNATURE + c1 + c2 + c3 == SIGNATURE + (c1 + (c2 + c3));
  }

  /** Reading a written file gives back the size, the channel count and the pixels,
      whichever filter each row picked, exactly when the compressed data is no longer
      than the reader's limit on one chunk; otherwise the file is rejected. */
  lemma FileRoundTrip(s: Source, types: seq<byte>, zlib: seq<byte>, crc: Crc, result: Parsed)
    requires s.Valid() && WithinLimits(s.x, s.h, s.n) && Encodes(s, types, zlib)
    requires ParsesFile(FileBytes(s.x, s.h, s.n, zlib, crc), result)
    ensures result == if |zlib| <= IDAT_LIMIT then Decoded(s.x, s.h, s.n, Concat(Rows(s, s.h))) else Rejected
  {
    hide IsCompressed, FileBytes, ParsesFile, RawImage, FilteredRows, Rows, Inflate, Header.Accepted;
    var x, y, n := s.x, s.h, s.n;
    var filt := FilteredData(s, types);
    ImageRead(s, types);
    PixelLimit(x, n, y);
    CompressedSize(filt, zlib);
    FileTakenApart(x, y, n, zlib, crc, result);
    if |zlib| <= IDAT_LIMIT {
      var h := Header(x, y, 8, ColorType(n), 0, 0, 0);
      assert RawLength(h) == |filt|;
      RoundTripExactly(filt, zlib, RawLength(h), true);
      NotEmpty(filt, zlib);
    }
  }

  lemma NotEmpty(data: seq<byte>, out: seq<byte>)
    requires exists tokens, deflated :: IsCompressed(data, tokens, deflated, out)
    ensures out != []
  {
  }

  /** Rows stored one after the other, first row first, are the pixel buffer itself. */
  lemma {:induction false} RowsInOrder(s: Source, k: nat)
    requires s.Contiguous() && k <= s.h
    ensures s.Stride() * k <= |s.pixels| && Concat(Rows(s, k)) == s.pixels[..s.Stride() * k]
  {
    if k > 0 {
      RowsInOrder(s, k - 1);
      hide Source.Row, Source.Stride, Source.RowStart, Source.RowBytes, Concat, Source.Contiguous;
      RowAt(s, k - 1);
      assert Rows(s, k) == Rows(s, k - 1) + [s.Row(k - 1)];
      ConcatSnoc(Rows(s, k - 1), s.Row(k - 1));
    }
  }

  lemma RowAt(s: Source, y: nat)
    requires s.Contiguous() && y < s.h
    ensures 0 <= s.Stride() * y <= s.Stride() * (y + 1) <= |s.pixels|
    ensures s.Row(y) == s.pixels[s.Stride() * y..s.Stride() * (y + 1)]
  {
    RowInside(s, y);
    StrideSteps(s.Stride(), s.h, y);
  }

  lemma {:induction false} ConcatSnoc(rows: seq<seq<byte>>, row: seq<byte>)
    ensures Concat(rows + [row]) == Concat(rows) + row
  {
    if rows == [] {
      assert ([] + [row])[1..] == [];
      assert Concat([row]) == row + Concat([]);
    } else {
      assert (rows + [row])[1..] == rows[1..] + [row];
      ConcatSnoc(rows[1..], row);
    }
  }

  /** A bound on the compressed data that the caller can work out beforehand. */
  lemma EncodedSize(s: Source, types: seq<byte>, zlib: seq<byte>)
    requires s.Valid() && Encodes(s, types, zlib)
    ensures |zlib| <= StoredSize(s.FilteredSize()) + 4
  {
    hide IsCompressed, FilteredRows, StoredSize;
    FilteredRowsLength(Rows(s, s.h), types, Zeros(s.RowBytes()), s.n);
    CompressedSize(FilteredData(s, types), zlib);
  }

  /** A size the caller can check beforehand is enough: the pixels come back. The stride
      may be given, or be 0 and left to the writer. */
  lemma PixelsRestored(s: Source, types: seq<byte>, zlib: seq<byte>, crc: Crc, result: Parsed)
    requires s.Contiguous() && WithinLimits(s.x, s.h, s.n) && Encodes(s, types, zlib)
    requires StoredSize(s.FilteredSize()) + 4 <= IDAT_LIMIT
    requires ParsesFile(FileBytes(s.x, s.h, s.n, zlib, crc), result)
    ensures result == Decoded(s.x, s.h, s.n, s.pixels)
  {
    hide Encodes, FileBytes, ParsesFile, FilteredRows, StoredSize;
    EncodedSize(s, types, zlib);
    FileRoundTrip(s, types, zlib, crc, result);
    AllRows(s);
  }

  lemma AllRows(s: Source)
    requires s.Contiguous()
    ensures Concat(Rows(s, s.h)) == s.pixels
  {
    RowsInOrder(s, s.h);
    assert s.pixels[..|s.pixels|] == s.pixels;
  }
}
