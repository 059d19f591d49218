/** A picture within all of the reader's limits whose file the reader refuses: its
    filtered data repeats no three bytes within the window, so it does not shrink. */
module PngLimit {
  import opened Bits
  import opened BitFields
  import opened Positions
  import opened InflateSpec
  import opened DeflateSpec
  import opened Deflater
  import opened PngFilter
  import opened PngImage
  import opened PngFile
  import opened PngChunks
  import opened PngRoundTrip

  // ------------------------------------------------- a sequence without repeats

  /** Three base-37 digits of a counter in turn, each in a range of its own. */
  function Pattern(k: nat): byte {
    PatternByte(k % 3, k / 3)
  }

  function PatternByte(r: nat, q: nat): (b: byte)
    requires r < 3
    ensures 1 + 37 * r <= b <= 37 + 37 * r
  {
    if r == 0 then 1 + q / 37 / 37 % 37 else if r == 1 then 38 + q / 37 % 37 else 75 + q % 37
  }

  lemma Shift(v: nat, e: nat)
    requires (v + e) % 37 == v % 37
    ensures e % 37 == 0 && (v + e) / 37 == v / 37 + e / 37
  {
  }

  lemma ShiftWhole(v: nat, e: nat)
    requires e % 37 == 0
    ensures (v + e) / 37 == v / 37 + e / 37
  {
  }

  /** Counters less than 37^3 apart differ in one of the digits, wherever each is read. */
  lemma DigitsDiffer(a: nat, b: nat, c: nat, e: nat)
    requires 0 < e < 37 * 37 * 37
    requires (c + e) % 37 == c % 37 && (b + e) / 37 % 37 == b / 37 % 37
    ensures (a + e) / 37 / 37 % 37 != a / 37 / 37 % 37
  {
    Shift(c, e);
    ShiftWhole(b, e);
    Shift(b / 37, e / 37);
    ShiftWhole(a, e);
    ShiftWhole(a / 37, e / 37);
    if (a + e) / 37 / 37 % 37 == a / 37 / 37 % 37 {
      Shift(a / 37 / 37, e / 37 / 37);
      SmallMultiple(e);
    }
  }

  lemma SmallMultiple(e: nat)
    requires e % 37 == 0 && e / 37 % 37 == 0 && e / 37 / 37 % 37 == 0 && e < 37 * 37 * 37
    ensures e == 0
  {
  }

  /** No three bytes recur within the window. */
  lemma PatternDiffers(i: nat, d: nat)
    requires 0 < d <= 32768
    ensures Pattern(i) != Pattern(i + d) || Pattern(i + 1) != Pattern(i + d + 1) || Pattern(i + 2) != Pattern(i + d + 2)
  {
    hide PatternByte;
    if d % 3 == 0 {
      var q, e := i / 3, d / 3;
      Thirds(i, d);
      Thirds(i + 1, d);
      Thirds(i + 2, d);
      NextThirds(i);
      if i % 3 == 0 {
        Digits(q, q, q, e);
      } else if i % 3 == 1 {
        Digits(q + 1, q, q, e);
      } else {
        Digits(q + 1, q + 1, q, e);
      }
    }
  }

  lemma NextThirds(i: nat)
    ensures var q, r := i / 3, i % 3;
      && (i + 1) / 3 == (if r == 2 then q + 1 else q) && (i + 1) % 3 == (if r == 2 then 0 else r + 1)
      && (i + 2) / 3 == (if r == 0 then q else q + 1) && (i + 2) % 3 == (if r == 0 then 2 else r - 1)
  {
  }

  lemma Thirds(i: nat, d: nat)
    requires d % 3 == 0
    ensures (i + d) % 3 == i % 3 && (i + d) / 3 == i / 3 + d / 3
  {
  }

  lemma Digits(a: nat, b: nat, c: nat, e: nat)
    requires 0 < e < 37 * 37 * 37
    ensures PatternByte(2, c + e) != PatternByte(2, c) || PatternByte(1, b + e) != PatternByte(1, b)
      || PatternByte(0, a + e) != PatternByte(0, a)
  {
    if (c + e) % 37 == c % 37 && (b + e) / 37 % 37 == b / 37 % 37 {
      DigitsDiffer(a, b, c, e);
    }
  }

  // -------------------------------------------------- data that cannot shrink

  /** The first three bytes at `i` and at `i + d` differ for every distance in the window. */
  ghost predicate NoRepeats(data: seq<byte>) {
    forall i: nat, d: nat :: 0 < d <= 32768 && i + d + 3 <= |data| ==> TripleDiffers(data, i, d)
  }

  predicate TripleDiffers(data: seq<byte>, i: nat, d: nat)
    requires i + d + 3 <= |data|
  {
    data[i] != data[i + d] || data[i + 1] != data[i + d + 1] || data[i + 2] != data[i + d + 2]
  }

  /** A copied byte equals the one `dist` before it. */
  lemma {:induction false} CopyRepeats(out: seq<byte>, len: nat, dist: nat, k: nat)
    requires 1 <= dist <= |out| <= k < |out| + len
    ensures CopyMatch(out, len, dist)[k] == CopyMatch(out, len, dist)[k - dist]
    decreases len
  {
    var more := out + [out[|out| - dist]];
    if k == |out| {
      assert more <= CopyMatch(more, len - 1, dist);
      assert more[k] == more[k - dist];
    } else {
      CopyRepeats(more, len - 1, dist, k);
    }
  }

  lemma {:induction false} ExpandsPrefix(tokens: seq<Token>, out: seq<byte>, final: seq<byte>)
    requires Expands(tokens, out, final)
    ensures out <= final
  {
    if tokens != [] {
      ExpandsPrefix(tokens[1..], tokens[0].Apply(out), final);
    }
  }

  lemma DistBound(t: Token)
    requires t.Match? && t.Valid()
    ensures 0 < t.Dist() <= 32768 && t.Len() >= 3
  {
    Pow2Monotone(DistExtra(t.dsym), 13);
    assert Pow2(5) == 32 && Pow2(13) == 8192 by {
      Pow2Add(8, 5);
      Pow2Values();
    }
  }

  /** Without repeats every token is a literal, of at least eight bits. */
  lemma {:induction false} OnlyLiterals(tokens: seq<Token>, out: seq<byte>, final: seq<byte>)
    requires Expands(tokens, out, final) && NoRepeats(final)
    requires forall i :: 0 <= i < |tokens| ==> tokens[i].Valid()
    ensures Width(TokenFields(tokens)) >= 8 * (|final| - |out|)
  {
    if tokens != [] {
      var t := tokens[0];
      var next := t.Apply(out);
      ExpandsPrefix(tokens[1..], next, final);
      if t.Match? {
        NoMatch(t, out, final);
      }
      OnlyLiterals(tokens[1..], next, final);
      StreamConcat(t.Fields(), TokenFields(tokens[1..]), 0);
      OneField(SymbolField(t.b), 0);
      assert SymbolField(t.b).width >= 8;
    }
  }

  lemma NoMatch(t: Token, out: seq<byte>, final: seq<byte>)
    requires t.Match? && t.Fits(out) && t.Apply(out) <= final
    ensures !NoRepeats(final)
  {
    DistBound(t);
    CopyRecurs(out, t.Len(), t.Dist(), final);
  }

  /** A copy of at least three bytes makes three bytes recur. */
  lemma CopyRecurs(out: seq<byte>, len: nat, d: nat, final: seq<byte>)
    requires 0 < d <= 32768 && d <= |out| && len >= 3 && CopyMatch(out, len, d) <= final
    ensures !NoRepeats(final)
  {
    hide CopyMatch;
    var k := |out|;
    CopyRepeats(out, len, d, k);
    CopyRepeats(out, len, d, k + 1);
    CopyRepeats(out, len, d, k + 2);
    assert !TripleDiffers(final, k - d, d);
  }

  /** Neither form of such data is smaller than the data. */
  lemma CannotShrink(data: seq<byte>, out: seq<byte>)
    requires NoRepeats(data) && exists tokens, deflated :: IsCompressed(data, tokens, deflated, out)
    ensures |out| > |data|
  {
    var tokens, deflated :| IsCompressed(data, tokens, deflated, out);
    hide NoRepeats, Stream, LE, AdlerBytes, TokenFields;
    OnlyLiterals(tokens, [], data);
    var header, end := [Field(1, 1), Field(1, 2)], [SymbolField(256)];
    StreamConcat(header, TokenFields(tokens) + end, 0);
    StreamConcat(TokenFields(tokens), end, 0);
  }

  // --------------------------------------------------------------- the picture

  const WIDTH: nat := 0x100_0000
  const ROW: nat := 0x400_0000
  const LINE: nat := 0x400_0001

  /** Filtered data of the picture: every line begins with a zero filter byte. */
  function LineByte(k: nat): byte {
    if k % LINE == 0 then 0 else Pattern(k)
  }

  function Lines(k: nat): (s: seq<byte>)
    ensures |s| == LINE * k && forall i :: 0 <= i < |s| ==> s[i] == LineByte(i)
  {
    seq(LINE * k, i requires 0 <= i < LINE * k => LineByte(i))
  }

  lemma LineBytesDiffer(i: nat, d: nat)
    requires 0 < d <= 32768
    ensures LineByte(i) != LineByte(i + d) || LineByte(i + 1) != LineByte(i + d + 1) || LineByte(i + 2) != LineByte(i + d + 2)
  {
    hide Pattern;
    PatternDiffers(i, d);
    OneStart(i, d);
    OneStart(i + 1, d);
    OneStart(i + 2, d);
  }

  /** Two lines do not begin within one window, and no pattern byte is zero. */
  lemma OneStart(i: nat, d: nat)
    requires 0 < d <= 32768
    ensures i % LINE != 0 || (i + d) % LINE != 0
    ensures Pattern(i) != 0 && Pattern(i + d) != 0
  {
    var a, b := i / LINE, (i + d) / LINE;
    DivModParts(i, LINE);
    DivModParts(i + d, LINE);
    if i % LINE == 0 && (i + d) % LINE == 0 {
      assert false;
    }
  }

  lemma LinesDiffer(k: nat)
    ensures NoRepeats(Lines(k))
  {
    hide LineByte;
    var s := Lines(k);
    forall i: nat, d: nat | 0 < d <= 32768 && i + d + 3 <= |s| ensures TripleDiffers(s, i, d) {
      LineBytesDiffer(i, d);
    }
  }

  function PixelByte(k: nat): byte {
    Pattern(LINE * (k / ROW) + 1 + k % ROW)
  }

  /** 16 777 216 pixels by 16 rows of four channels. */
  function Picture(): (s: Source)
    ensures s.x == WIDTH && s.h == 16 && s.n == 4 && s.Stride() == ROW && !s.flip && |s.pixels| == ROW * 16
    ensures s.RowBytes() == ROW && s.Valid() && WithinLimits(s.x, s.h, s.n)
    ensures forall k :: 0 <= k < |s.pixels| ==> s.pixels[k] == PixelByte(k)
  {
    Source(seq(ROW * 16, k requires 0 <= k < ROW * 16 => PixelByte(k)), 0, WIDTH, 16, 4, false)
  }

  lemma PictureRow(j: nat)
    requires j < 16
    ensures forall i :: 0 <= i < ROW ==> Picture().Row(j)[i] == Pattern(LINE * j + 1 + i)
  {
    var s := Picture();
    RowInside(s, j);
    forall i | 0 <= i < ROW ensures s.Row(j)[i] == Pattern(LINE * j + 1 + i) {
      assert s.Row(j)[i] == s.pixels[ROW * j + i];
      assert (ROW * j + i) / ROW == j && (ROW * j + i) % ROW == i;
    }
  }

  lemma {:induction false} PictureLines(k: nat)
    requires k <= 16
    ensures FilteredRows(Rows(Picture(), k), Zeros(k), Zeros(ROW), 4) == Lines(k)
  {
    hide Pattern;
    var s := Picture();
    if k > 0 {
      var j := k - 1;
      PictureLines(j);
      NextRow(s, Zeros(j), j, 0);
      assert Zeros(j) + [0] == Zeros(k);
      PictureRow(j);
      NextLine(j, s.Row(j), Filtered(0, s.Row(j), s.Above(j), 4));
    }
  }

  lemma NextLine(j: nat, row: seq<byte>, filtered: seq<byte>)
    requires |row| == |filtered| == ROW
    requires forall i :: 0 <= i < ROW ==> row[i] == Pattern(LINE * j + 1 + i)
    requires forall i :: 0 <= i < ROW ==> filtered[i] == row[i]
    ensures Lines(j + 1) == Lines(j) + ([0] + filtered)
  {
    hide Pattern;
    var a, b := Lines(j + 1), Lines(j) + ([0] + filtered);
    forall i | 0 <= i < |a| ensures a[i] == b[i] {
      if i >= LINE * j {
        var r := i - LINE * j;
        assert i % LINE == r;
      }
    }
  }

  /** Written with the forced filter 0, the picture's file is refused by the reader. */
  lemma PictureRefused(zlib: seq<byte>, crc: Crc, result: Parsed)
    requires Encodes(Picture(), Zeros(16), zlib)
    requires ParsesFile(FileBytes(WIDTH, 16, 4, zlib, crc), result)
    ensures Chosen(Picture(), 0, Zeros(16)) && WithinLimits(WIDTH, 16, 4)
    ensures result == Rejected
  {
    hide IsCompressed, FileBytes, ParsesFile, FilteredRows, Rows, Picture, Lines;
    PictureLines(16);
    LinesDiffer(16);
    CannotShrink(Lines(16), zlib);
    FileRoundTrip(Picture(), Zeros(16), zlib, crc, result);
  }

  /** Such a file, as the writer makes it. */
  method RefusedFile(level: int, crc: Crc) returns (file: seq<byte>)
    ensures forall result :: ParsesFile(file, result) ==> result == Rejected
  {
    hide IsCompressed, FileBytes, ParsesFile, Encodes, Picture;
    ghost var types, zlib;
    file, types, zlib := WritePngToMem(Picture(), 0, level, crc);
    assert types == Zeros(16);
    forall result | ParsesFile(file, result) ensures result == Rejected {
      PictureRefused(zlib, crc, result);
    }
  }
}
