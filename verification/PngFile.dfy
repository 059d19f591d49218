/** PNG files: the chunk sequence the writer produces and the chunk loop of the reader. */
module PngFile {
  import opened Bits
  import opened Wrappers
  import opened Positions
  import opened InflateSpec
  import opened Adam7

  const MAX_DIMENSIONS: nat := 0x100_0000
  const IDAT_LIMIT: nat := 0x4000_0000

  // ------------------------------------------------------------ bytes and words

  /** A 32-bit value, most significant byte first. */
  function BE32(v: nat): (s: seq<byte>)
    ensures |s| == 4
  {
    [v / 0x100_0000 % 256, v / 0x1_0000 % 256, v / 0x100 % 256, v % 256]
  }

  /** The byte at `pos`, zero past the end. */
  function At(data: seq<byte>, pos: nat): byte {
    if pos < |data| then data[pos] else 0
  }

  function Word(data: seq<byte>, pos: nat): nat {
    ((At(data, pos) * 256 + At(data, pos + 1)) * 256 + At(data, pos + 2)) * 256 + At(data, pos + 3)
  }

  lemma WordRoundTrip(pre: seq<byte>, v: nat, post: seq<byte>)
    requires v < UINT32_MODULUS
    ensures Word(pre + BE32(v) + post, |pre|) == v
  {
    hide BE32;
    var s := pre + BE32(v) + post;
    assert s[|pre|] == BE32(v)[0] && s[|pre| + 1] == BE32(v)[1];
    assert s[|pre| + 2] == BE32(v)[2] && s[|pre| + 3] == BE32(v)[3];
    DigitsOf(v);
  }

  lemma DigitsOf(v: nat)
    requires v < UINT32_MODULUS
    ensures var b := BE32(v); ((b[0] as int * 256 + b[1]) * 256 + b[2]) * 256 + b[3] == v
  {
    var a, b, c := v / 0x100, v / 0x1_0000, v / 0x100_0000;
    assert b == a / 256 && c == b / 256 && c < 256;
  }

  /** The position after reading `k` bytes: it stops at the end of the data. */
  function Past(data: seq<byte>, pos: nat, k: nat): nat {
    if pos >= |data| then pos else if pos + k <= |data| then pos + k else |data|
  }

  function Tag(a: byte, b: byte, c: byte, d: byte): nat {
    ((a as int * 256 + b) * 256 + c) * 256 + d
  }

  const CGBI: nat := Tag(0x43, 0x67, 0x42, 0x49)
  const IHDR: nat := Tag(0x49, 0x48, 0x44, 0x52)
  const PLTE: nat := Tag(0x50, 0x4C, 0x54, 0x45)
  const TRNS: nat := Tag(0x74, 0x52, 0x4E, 0x53)
  const IDAT: nat := Tag(0x49, 0x44, 0x41, 0x54)
  const IEND: nat := Tag(0x49, 0x45, 0x4E, 0x44)

  const SIGNATURE: seq<byte> := [137, 80, 78, 71, 13, 10, 26, 10]

  // ------------------------------------------------------------- what a file means

  /** `Outside`: the file uses a feature this model does not follow. */
  datatype Parsed =
    | Decoded(x: nat, y: nat, n: nat, pixels: seq<byte>)
    | Rejected
    | Outside

  /** The fields of an image header. */
  datatype Header = Header(x: nat, y: nat, depth: nat, color: nat, comp: nat, filter: nat, interlace: nat) {
    function Channels(): nat {
      (if color == 2 || color == 3 || color == 6 then 3 else 1) + (if 4 <= color < 8 then 1 else 0)
    }

    /** The checks on dimensions and method fields. */
    predicate Accepted() {
      && y <= MAX_DIMENSIONS && x <= MAX_DIMENSIONS
      && (depth == 1 || depth == 2 || depth == 4 || depth == 8 || depth == 16)
      && color <= 6 && !(color == 3 && depth == 16) && (color == 3 || color % 2 == 0)
      && comp == 0 && filter == 0 && interlace <= 1
      && x > 0 && y > 0
      && 0x4000_0000 / x / (if color == 3 then 4 else Channels()) >= y
    }

    /** Eight-bit samples, no palette. */
    predicate Modelled() {
      depth == 8 && color != 3
    }
  }

  function HeaderAt(data: seq<byte>, pos: nat): Header {
    Header(Word(data, pos), Word(data, pos + 4), At(data, pos + 8), At(data, pos + 9), At(data, pos + 10),
           At(data, pos + 11), At(data, pos + 12))
  }

  /** What the loop carries from chunk to chunk: the header once it is read, and the
      compressed data so far. */
  datatype Progress = Progress(header: Option<Header>, idata: seq<byte>) {
    predicate Valid() {
      |idata| <= INT_MAX && (header.Some? ==> header.value.Accepted() && header.value.Modelled())
    }
  }

  datatype Next = Continue(pos: nat, st: Progress) | Stop(result: Parsed)

  /** Skipping takes the length as a signed number and may run past the end. */
  function Skipped(data: seq<byte>, pos: nat, len: nat): nat {
    if len == 0 then pos else if len > INT_MAX then |data| else pos + len
  }

  function HeaderChunk(data: seq<byte>, pos: nat, len: nat, st: Progress): Next {
    if st.header.Some? || len != 13 then Stop(Rejected)
    else
      var h := HeaderAt(data, pos);
      if !h.Accepted() then Stop(Rejected)
      else if !h.Modelled() then Stop(Outside)
      else Continue(Past(data, pos, 13), st.(header := Some(h)))
  }

  function PaletteChunk(data: seq<byte>, pos: nat, len: nat, st: Progress): Next {
    if st.header.None? || len > 768 || len % 3 != 0 then Stop(Rejected) else Continue(Past(data, pos, len), st)
  }

  function TransparencyChunk(st: Progress): Next {
    if st.header.None? || st.idata != [] || st.header.value.Channels() % 2 == 0 then Stop(Rejected) else Stop(Outside)
  }

  function DataChunk(data: seq<byte>, pos: nat, len: nat, st: Progress): Next {
    if st.header.None? || len > IDAT_LIMIT || |st.idata| + len > INT_MAX || pos + len > |data| then Stop(Rejected)
    else Continue(pos + len, st.(idata := st.idata + data[pos..pos + len]))
  }

  function OtherChunk(data: seq<byte>, pos: nat, len: nat, tag: nat, st: Progress): Next {
    if st.header.None? || tag / 0x2000_0000 % 2 == 0 then Stop(Rejected) else Continue(Skipped(data, pos, len), st)
  }

  /** The expected size of the decompressed data: a filter byte for every row. */
  function RawLength(h: Header): (r: nat)
    requires h.Accepted() && h.Modelled()
    ensures 0 < r <= INT_MAX && r == (h.x * h.Channels() + 1) * h.y
  {
    PixelLimit(h.x, h.Channels(), h.y);
    (h.x * h.depth + 7) / 8 * h.y * h.Channels() + h.y
  }

  lemma PixelLimit(x: nat, n: nat, y: nat)
    requires 0 < x && 0 < n && 0 < y <= MAX_DIMENSIONS && 0x4000_0000 / x / n >= y
    ensures x * n * y <= 0x4000_0000
    ensures x * y * n + y == (x * n + 1) * y <= INT_MAX && (x * n + 1) * y > 0
  {
    QuotientBound(0x4000_0000, x, n, y);
    assert x * y * n == x * n * y;
    MulSign(x * n, y);
  }

  /** The end chunk decompresses the data and makes the image. */
  ghost predicate Finishes(st: Progress, result: Parsed)
    requires st.Valid()
  {
    if st.header.None? || st.idata == [] then result == Rejected
    else
      var h := st.header.value;
      match Inflate(st.idata, RawLength(h), true, true)
      case None => result == Rejected
      case Some(raw) => ImageResult(h, raw, result)
  }

  ghost predicate ImageResult(h: Header, raw: seq<byte>, result: Parsed)
    requires h.x > 0 && h.y > 0 && h.Channels() > 0
  {
    match result
    case Outside => false
    case Rejected => MakesImage(raw, h.x, h.y, h.Channels(), h.interlace == 1, None)
    case Decoded(x, y, n, pixels) =>
      && x == h.x && y == h.y && n == h.Channels()
      && MakesImage(raw, h.x, h.y, h.Channels(), h.interlace == 1, Some(pixels))
  }

  lemma QuotientBound(m: nat, x: nat, n: nat, y: nat)
    requires x > 0 && n > 0
    ensures m / x / n >= y <==> x * n * y <= m
  {
    DivBound(m, x, n * y);
    DivBound(m / x, n, y);
    assert x * n * y == x * (n * y);
  }

  lemma DivBound(m: nat, d: nat, q: nat)
    requires d > 0
    ensures q <= m / d <==> d * q <= m
  {
    DivModParts(m, d);
    MulSign(d, m / d - q);
    assert d * (m / d - q) == d * (m / d) - d * q;
  }

  // ------------------------------------------------------------- the chunk loop

  function ChunkStep(data: seq<byte>, pos: nat, len: nat, tag: nat, st: Progress): (r: Next)
    requires st.Valid()
    ensures r.Continue? ==> r.st.Valid() && tag != 0 && (r.pos >= pos || r.pos == |data|)
  {
    if tag == CGBI then Stop(Outside)
    else if tag == IHDR then HeaderChunk(data, pos, len, st)
    else if tag == PLTE then PaletteChunk(data, pos, len, st)
    else if tag == TRNS then TransparencyChunk(st)
    else if tag == IDAT then DataChunk(data, pos, len, st)
    else OtherChunk(data, pos, len, tag, st)
  }

  /** Reading chunks from `pos` on gives `result`. Every chunk that does not end the loop
      has a tag, so it consumes at least one byte, and the loop ends on every file. */
  ghost predicate Parses(data: seq<byte>, pos: nat, st: Progress, result: Parsed)
    requires st.Valid()
    decreases if pos <= |data| then |data| - pos else 0
  {
    var len, tag := Word(data, pos), Word(data, Past(data, pos, 4));
    var p := Past(data, pos, 8);
    if tag == IEND then Finishes(st, result)
    else
      match ChunkStep(data, p, len, tag, st)
      case Stop(r) => result == r
      case Continue(q, next) =>
        NoTagPastEnd(data, pos);
        Parses(data, Past(data, q, 4), next, result)
  }

  lemma NoTagPastEnd(data: seq<byte>, pos: nat)
    ensures Word(data, Past(data, pos, 4)) != 0 ==> pos < |data|
  {
  }

  ghost predicate ParsesFile(data: seq<byte>, result: Parsed) {
    if |data| < 8 || data[..8] != SIGNATURE then result == Rejected
    else Parses(data, 8, Progress(None, []), result)
  }

  /** Every file has one result. */
  lemma FileDetermined(data: seq<byte>, a: Parsed, b: Parsed)
    requires ParsesFile(data, a) && ParsesFile(data, b)
    ensures a == b
  {
    if |data| >= 8 && data[..8] == SIGNATURE {
      Determined(data, 8, Progress(None, []), a, b);
    }
  }

  lemma {:induction false} Determined(data: seq<byte>, pos: nat, st: Progress, a: Parsed, b: Parsed)
    requires st.Valid() && Parses(data, pos, st, a) && Parses(data, pos, st, b)
    ensures a == b
    decreases if pos <= |data| then |data| - pos else 0
  {
    hide Word, HeaderChunk, PaletteChunk, TransparencyChunk, DataChunk, OtherChunk, ChunkStep, Finishes;
    var len, tag := Word(data, pos), Word(data, Past(data, pos, 4));
    if tag == IEND {
      FinishDetermined(st, a, b);
    } else {
      var step := ChunkStep(data, Past(data, pos, 8), len, tag, st);
      if step.Continue? {
        NoTagPastEnd(data, pos);
        Determined(data, Past(data, step.pos, 4), step.st, a, b);
      }
    }
  }

  lemma FinishDetermined(st: Progress, a: Parsed, b: Parsed)
    requires st.Valid() && Finishes(st, a) && Finishes(st, b)
    ensures a == b
  {
    hide MakesImage, RawLength;
    if st.header.Some? && st.idata != [] {
      var h := st.header.value;
      var raw := Inflate(st.idata, RawLength(h), true, true);
      if raw.Some? {
        var n, i := h.Channels(), h.interlace == 1;
        ImageDetermined(raw.value, h.x, h.y, n, i, Image(a), Image(b));
      }
    }
  }

  function Image(p: Parsed): Option<seq<byte>> {
    if p.Decoded? then Some(p.pixels) else None
  }
}
