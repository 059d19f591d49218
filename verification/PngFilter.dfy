/** The PNG row filters (section 9 of the PNG specification, ISO/IEC 15948): the writer's
    line encoder and the reader's reconstruction with two alternating line buffers. */
module PngFilter {
  import opened Bits

  // ------------------------------------------------------------------ predictors

  /** The writer's Paeth predictor, the reference form of the PNG specification. */
  function PaethReference(a: int, b: int, c: int): int {
    var p := a + b - c;
    var pa, pb, pc := Abs(p - a), Abs(p - b), Abs(p - c);
    if pa <= pb && pa <= pc then a else if pb <= pc then b else c
  }

  /** The reader's form, with two comparisons. */
  function Paeth(a: int, b: int, c: int): int {
    var thresh := c * 3 - (a + b);
    var lo := if a < b then a else b;
    var hi := if a < b then b else a;
    var t0 := if hi <= thresh then lo else c;
    if thresh <= lo then hi else t0
  }

  lemma PaethForms(a: int, b: int, c: int)
    ensures Paeth(a, b, c) == PaethReference(a, b, c)
  {
  }

  /** The prediction of filter type `t` from the bytes to the left, above and above left. */
  function Predict(t: nat, a: byte, b: byte, c: byte): int {
    match t
    case 0 => 0
    case 1 => a
    case 2 => b
    case 3 => (a as int + b as int) / 2
    case _ => PaethReference(a, b, c)
  }

  /** The predictions of section 9.2: nothing, the left byte, the byte above, the floor of
      their mean, and otherwise the one of the three nearest to a + b - c, the earlier of
      a, b, c when two are equally near. */
  lemma PredictIs(a: byte, b: byte, c: byte, t: nat)
    ensures Predict(0, a, b, c) == 0 && Predict(1, a, b, c) == a as int && Predict(2, a, b, c) == b as int
    ensures 2 * Predict(3, a, b, c) <= a as int + b as int <= 2 * Predict(3, a, b, c) + 1
    ensures t >= 4 ==> NearestOf(a, b, c, Predict(t, a, b, c))
  {
  }

  predicate NearestOf(a: int, b: int, c: int, r: int) {
    var p := a + b - c;
    && (r == a || r == b || r == c)
    && Abs(p - r) <= Abs(p - a) && Abs(p - r) <= Abs(p - b) && Abs(p - r) <= Abs(p - c)
    && (Abs(p - r) == Abs(p - a) ==> r == a)
    && (Abs(p - r) == Abs(p - b) && r != a ==> r == b)
  }

  /** The byte one pixel of `n` bytes to the left of position `i`; zero in the first pixel. */
  function Left(row: seq<byte>, i: nat, n: nat): byte
    requires i < n + |row|
  {
    if i < n then 0 else row[i - n]
  }

  // ---------------------------------------------------------------- filtered rows

  function FilteredByte(t: nat, row: seq<byte>, up: seq<byte>, n: nat, i: nat): byte
    requires i < |row| == |up| && n > 0
  {
    UChar(row[i] - Predict(t, Left(row, i, n), up[i], Left(up, i, n)))
  }

  /** What section 9.2 of the PNG specification prescribes for a row and the row above it. */
  function Filtered(t: nat, row: seq<byte>, up: seq<byte>, n: nat): (f: seq<byte>)
    requires |row| == |up| && n > 0
    ensures |f| == |row| && forall i :: 0 <= i < |f| ==> f[i] == FilteredByte(t, row, up, n, i)
  {
    seq(|row|, i requires 0 <= i < |row| => FilteredByte(t, row, up, n, i))
  }

  /** The reconstruction of a row, left to right. */
  function Unfiltered(t: nat, line: seq<byte>, up: seq<byte>, n: nat): (row: seq<byte>)
    requires |line| <= |up| && n > 0
    ensures |row| == |line|
  {
    if line == [] then []
    else
      var k := |line| - 1;
      var row := Unfiltered(t, line[..k], up, n);
      row + [UChar(line[k] + Predict(t, Left(row, k, n), up[k], Left(up, k, n)))]
  }

  lemma {:induction false} UnfilteredPrefix(t: nat, line: seq<byte>, up: seq<byte>, n: nat, k: nat)
    requires k <= |line| <= |up| && n > 0
    ensures Unfiltered(t, line[..k], up, n) == Unfiltered(t, line, up, n)[..k]
    decreases |line|
  {
    if k == |line| {
      assert line[..k] == line;
    } else {
      var m := |line| - 1;
      UnfilteredPrefix(t, line[..m], up, n, k);
      assert line[..m][..k] == line[..k];
    }
  }

  lemma WrapAgain(a: byte, p: int)
    ensures UChar(UChar(a - p) + p) == a && UChar(UChar(a + p) - p) == a
  {
    hide UChar;
    WrapParts(a - p);
    WrapParts(a + p);
    WrapIs(UChar(a - p) + p, -((a - p) / 256), a);
    WrapIs(UChar(a + p) - p, -((a + p) / 256), a);
  }

  lemma WrapParts(v: int)
    ensures v == 256 * (v / 256) + UChar(v)
  {
  }

  lemma WrapIs(v: int, q: int, r: byte)
    requires v == 256 * q + r
    ensures UChar(v) == r
  {
  }

  /** Reconstruction undoes every filter ... */
  lemma {:induction false} UnfilterFiltered(t: nat, row: seq<byte>, up: seq<byte>, n: nat)
    requires |row| == |up| && n > 0
    ensures Unfiltered(t, Filtered(t, row, up, n), up, n) == row
  {
    UnfilterFilteredTo(t, row, up, n, |row|);
    var f := Filtered(t, row, up, n);
    assert f[..|row|] == f && row[..|row|] == row;
  }

  lemma {:induction false} UnfilterFilteredTo(t: nat, row: seq<byte>, up: seq<byte>, n: nat, k: nat)
    requires |row| == |up| && n > 0 && k <= |row|
    ensures Unfiltered(t, Filtered(t, row, up, n)[..k], up, n) == row[..k]
  {
    if k > 0 {
      var f := Filtered(t, row, up, n);
      UnfilterFilteredTo(t, row, up, n, k - 1);
      assert f[..k][..k - 1] == f[..k - 1];
      assert Left(row[..k - 1], k - 1, n) == Left(row, k - 1, n);
      WrapAgain(row[k - 1], Predict(t, Left(row, k - 1, n), up[k - 1], Left(up, k - 1, n)));
    }
  }

  /** What reconstruction puts at position `i`. */
  lemma UnfilteredAt(t: nat, line: seq<byte>, up: seq<byte>, n: nat, i: nat)
    requires i < |line| == |up| && n > 0
    ensures var row := Unfiltered(t, line, up, n);
      row[i] == UChar(line[i] + Predict(t, Left(row, i, n), up[i], Left(up, i, n)))
  {
    hide Predict, UChar;
    var row := Unfiltered(t, line, up, n);
    UnfilteredPrefix(t, line, up, n, i);
    UnfilteredPrefix(t, line, up, n, i + 1);
    assert line[..i + 1][..i] == line[..i];
    assert row[i] == row[..i + 1][i];
    assert Left(row[..i], i, n) == Left(row, i, n);
  }

  /** ... and loses nothing: filtering the reconstruction gives the line back. */
  lemma FilterUnfiltered(t: nat, line: seq<byte>, up: seq<byte>, n: nat)
    requires |line| == |up| && n > 0
    ensures Filtered(t, Unfiltered(t, line, up, n), up, n) == line
  {
    hide Predict, Unfiltered, Left;
    var row := Unfiltered(t, line, up, n);
    forall i | 0 <= i < |row|
      ensures FilteredByte(t, row, up, n, i) == line[i]
    {
      UnfilteredAt(t, line, up, n, i);
      WrapAgain(line[i], Predict(t, Left(row, i, n), up[i], Left(up, i, n)));
    }
  }

  function Zeros(n: nat): (z: seq<byte>)
    ensures |z| == n && forall i :: 0 <= i < n ==> z[i] == 0
  {
    seq(n, _ => 0)
  }

  // ------------------------------------------------------------------- the writer

  /** The pixel buffer as the writer addresses it: `h` rows of `x * n` bytes in either
      vertical order. `strideBytes` is the argument as the caller passes it. */
  datatype Source = Source(pixels: seq<byte>, strideBytes: nat, x: nat, h: nat, n: nat, flip: bool) {
    function RowBytes(): nat {
      x * n
    }

    /** How far apart rows are: without gaps when the argument is 0. */
    function Stride(): nat {
      if strideBytes == 0 then RowBytes() else strideBytes
    }

    /** Every row filtered, with its filter byte. */
    function FilteredSize(): nat {
      (RowBytes() + 1) * h
    }

    predicate Valid() {
      && x > 0 && h > 0 && 1 <= n <= 4 && RowBytes() > 0
      && Stride() * (h - 1) + RowBytes() <= |pixels|
    }

    /** Rows one after the other, first row first, and nothing else. */
    predicate Contiguous() {
      Valid() && (strideBytes == 0 || strideBytes == x * n) && !flip && |pixels| == x * n * h
    }

    function RowStart(y: nat): int
      requires y < h
    {
      Stride() * (if flip then h - 1 - y else y)
    }

    function SignedStride(): int {
      if flip then -(Stride() as int) else Stride()
    }

    function Row(y: nat): (r: seq<byte>)
      requires Valid() && y < h
      ensures |r| == RowBytes()
    {
      RowInside(this, y);
      pixels[RowStart(y)..RowStart(y) + RowBytes()]
    }

    /** The row above row `y` in file order, zeros above the first. */
    function Above(y: nat): (r: seq<byte>)
      requires Valid() && y < h
      ensures |r| == RowBytes()
    {
      if y == 0 then Zeros(RowBytes()) else Row(y - 1)
    }
  }

  lemma RowInside(s: Source, y: nat)
    requires s.Valid() && y < s.h
    ensures 0 <= s.RowStart(y) && s.RowStart(y) + s.RowBytes() <= |s.pixels|
    ensures y > 0 ==> s.RowStart(y) - s.SignedStride() == s.RowStart(y - 1)
  {
    hide Source.Stride, Source.RowBytes;
    StrideSteps(s.Stride(), s.h, if s.flip then s.h - 1 - y else y);
  }

  /** Row `k` of `h` starts at or before the last one, a stride from its neighbours. */
  lemma StrideSteps(d: nat, h: nat, k: nat)
    requires k < h
    ensures 0 <= d * k <= d * (h - 1)
    ensures d * (k + 1) == d * k + d && d * (k - 1) == d * k - d
  {
    MulSign(d, h - 1 - k);
    MulSign(d, k);
    assert d * (h - 1) - d * k == d * (h - 1 - k);
  }

  function FirstMap(t: nat): nat {
    match t
    case 0 => 0
    case 1 => 1
    case 2 => 0
    case 3 => 5
    case _ => 6
  }

  /** One row through filter `filterType`: exactly the bytes the specification prescribes,
      the first row's own table of filters included. */
  method EncodePngLine(s: Source, y: nat, filterType: nat, line: array<byte>)
    requires s.Valid() && y < s.h && filterType <= 4 && line.Length == s.RowBytes()
    modifies line
    ensures line[..] == Filtered(filterType, s.Row(y), s.Above(y), s.n)
  {
    hide FilteredByte, EncodedFirst, EncodedLater;
    ghost var row, up := s.Row(y), s.Above(y);
    var kind := if y != 0 then filterType else FirstMap(filterType);
    var z := s.RowStart(y);
    RowInside(s, y);
    if y > 0 {
      RowInside(s, y - 1);
    }
    FirstPixelFits(s);
    var i := 0;
    if kind == 0 {
      while i < line.Length
        invariant i <= line.Length
        invariant forall k :: 0 <= k < i ==> line[k] == FilteredByte(filterType, row, up, s.n, k)
      {
        Copied(filterType, y, row, up, s.n, i);
        line[i] := s.pixels[z + i];
        i := i + 1;
      }
      return;
    }
    while i < s.n
      invariant i <= s.n
      invariant forall k :: 0 <= k < i ==> line[k] == FilteredByte(filterType, row, up, s.n, k)
    {
      var above := if 2 <= kind <= 4 then s.pixels[z + i - s.SignedStride()] else 0;
      EncodedFirstIs(filterType, y, row, up, s.n, i, above);
      line[i] := EncodedFirst(kind, s.pixels[z + i], above);
      i := i + 1;
    }
    while i < line.Length
      invariant s.n <= i <= line.Length
      invariant forall k :: 0 <= k < i ==> line[k] == FilteredByte(filterType, row, up, s.n, k)
    {
      var above := if 2 <= kind <= 4 then s.pixels[z + i - s.SignedStride()] else 0;
      var corner := if kind == 4 then s.pixels[z + i - s.SignedStride() - s.n] else 0;
      EncodedLaterIs(filterType, y, row, up, s.n, i, above, corner);
      line[i] := EncodedLater(kind, s.pixels[z + i], s.pixels[z + i - s.n], above, corner);
      i := i + 1;
    }
  }

  /** The writer's cases for a byte of the first pixel and for a later byte. Kinds 5 and 6
      are the average and Paeth filters of the first row. */
  function EncodedFirst(kind: nat, v: byte, above: byte): byte {
    match kind
    case 2 => UChar(v - above)
    case 3 => UChar(v - above / 2)
    case 4 => UChar(v - PaethReference(0, above, 0))
    case _ => v
  }

  function EncodedLater(kind: nat, v: byte, left: byte, above: byte, corner: byte): byte {
    match kind
    case 1 => UChar(v - left)
    case 2 => UChar(v - above)
    case 3 => UChar(v - (left as int + above as int) / 2)
    case 4 => UChar(v - PaethReference(left, above, corner))
    case 5 => UChar(v - left / 2)
    case _ => UChar(v - PaethReference(left, 0, 0))
  }

  function Kind(t: nat, y: nat): nat {
    if y != 0 then t else FirstMap(t)
  }

  lemma Copied(t: nat, y: nat, row: seq<byte>, up: seq<byte>, n: nat, i: nat)
    requires t <= 4 && Kind(t, y) == 0 && i < |row| == |up| && n > 0 && (y == 0 ==> up == Zeros(|row|))
    ensures FilteredByte(t, row, up, n, i) == row[i]
  {
  }

  lemma EncodedFirstIs(t: nat, y: nat, row: seq<byte>, up: seq<byte>, n: nat, i: nat, above: byte)
    requires t <= 4 && Kind(t, y) != 0 && i < n <= |row| == |up| && (y == 0 ==> up == Zeros(|row|))
    requires 2 <= Kind(t, y) <= 4 ==> above == up[i]
    ensures FilteredByte(t, row, up, n, i) == EncodedFirst(Kind(t, y), row[i], above)
  {
  }

  lemma EncodedLaterIs(t: nat, y: nat, row: seq<byte>, up: seq<byte>, n: nat, i: nat, above: byte, corner: byte)
    requires t <= 4 && Kind(t, y) != 0 && 0 < n <= i < |row| == |up| && (y == 0 ==> up == Zeros(|row|))
    requires 2 <= Kind(t, y) <= 4 ==> above == up[i]
    requires Kind(t, y) == 4 ==> corner == up[i - n]
    ensures FilteredByte(t, row, up, n, i) == EncodedLater(Kind(t, y), row[i], row[i - n], above, corner)
  {
    hide PaethReference, UChar;
  }

  lemma FirstPixelFits(s: Source)
    requires s.Valid()
    ensures s.n <= s.RowBytes()
  {
    MulSign(s.n, s.x);
  }
}
