/** PNG files as sequences of chunks, and the chunk loop on them: the header, then data in
    any number of pieces with other chunks among them, and the end. */
module PngChunks {
  import opened Bits
  import opened Wrappers
  import opened PngFile

  type Crc = seq<byte> -> nat

  // ---------------------------------------------------------------- chunks as bytes

  function TagBytes(tag: nat): seq<byte> {
    BE32(tag)
  }

  /** Length, tag, body and the four bytes of a checksum. */
  function RawChunk(tag: nat, body: seq<byte>, sum: seq<byte>): (c: seq<byte>)
    ensures |c| == 8 + |body| + |sum|
  {
    BE32(|body|) + TagBytes(tag) + body + sum
  }

  /** A chunk with the checksum of its tag and body. */
  function Chunk(tag: nat, body: seq<byte>, crc: Crc): (c: seq<byte>)
    ensures |c| == 12 + |body|
  {
    RawChunk(tag, body, CheckSum(tag, body, crc))
  }

  function CheckSum(tag: nat, body: seq<byte>, crc: Crc): (sum: seq<byte>)
    ensures |sum| == 4
  {
    BE32(crc(TagBytes(tag) + body))
  }

  /** Colour type for a channel count. */
  function ColorType(n: nat): byte {
    if n == 1 then 0 else if n == 2 then 4 else if n == 3 then 2 else 6
  }

  function HeaderBytes(x: nat, y: nat, n: nat, i: byte): (h: seq<byte>)
    ensures |h| == 13
  {
    BE32(x) + BE32(y) + [8, ColorType(n), 0, 0, i]
  }

  // ------------------------------------------------------------- reading one chunk

  lemma AtChunk(pre: seq<byte>, tag: nat, body: seq<byte>, sum: seq<byte>, post: seq<byte>)
    requires |body| < UINT32_MODULUS && tag < UINT32_MODULUS && |sum| == 4
    ensures var data, p := pre + RawChunk(tag, body, sum) + post, |pre|;
      && Past(data, p, 4) == p + 4 && Past(data, p, 8) == p + 8
      && Word(data, p) == |body| && Word(data, p + 4) == tag
      && p + 8 + |body| <= |data| && data[p + 8..p + 8 + |body|] == body
      && Past(data, p + 8 + |body|, 4) == p + 12 + |body|
  {
    hide BE32, Word;
    var data := pre + RawChunk(tag, body, sum) + post;
    WordRoundTrip(pre, |body|, TagBytes(tag) + body + sum + post);
    assert data == pre + BE32(|body|) + (TagBytes(tag) + body + sum + post);
    WordRoundTrip(pre + BE32(|body|), tag, body + sum + post);
    assert data == (pre + BE32(|body|)) + TagBytes(tag) + (body + sum + post);
    assert data == (pre + BE32(|body|) + TagBytes(tag)) + body + (sum + post);
  }

  /** The sizes the reader accepts. */
  predicate WithinLimits(x: nat, y: nat, n: nat) {
    0 < x <= MAX_DIMENSIONS && 0 < y <= MAX_DIMENSIONS && 1 <= n <= 4 && 0x4000_0000 / x / n >= y
  }

  lemma HeaderFits(x: nat, y: nat, n: nat, i: byte)
    requires WithinLimits(x, y, n) && i <= 1
    ensures var h := Header(x, y, 8, ColorType(n), 0, 0, i); h.Accepted() && h.Modelled() && h.Channels() == n
  {
  }

  lemma HeaderRead(x: nat, y: nat, n: nat, i: byte, pre: seq<byte>, post: seq<byte>)
    requires WithinLimits(x, y, n) && i <= 1
    ensures var h := HeaderAt(pre + HeaderBytes(x, y, n, i) + post, |pre|);
      h == Header(x, y, 8, ColorType(n), 0, 0, i) && h.Accepted() && h.Modelled() && h.Channels() == n
  {
    hide BE32, Word, Header.Accepted, Header.Modelled, Header.Channels;
    HeaderFits(x, y, n, i);
    var rest: seq<byte> := [8, ColorType(n), 0, 0, i];
    var data := pre + HeaderBytes(x, y, n, i) + post;
    WordRoundTrip(pre, x, BE32(y) + rest + post);
    assert data == pre + BE32(x) + (BE32(y) + rest + post);
    WordRoundTrip(pre + BE32(x), y, rest + post);
    assert data == (pre + BE32(x)) + BE32(y) + (rest + post);
    assert forall i :: 0 <= i < 5 ==> data[|pre| + 8 + i] == rest[i];
  }

  lemma HeaderSlice(data: seq<byte>, pos: nat, x: nat, y: nat, n: nat, i: byte)
    requires WithinLimits(x, y, n) && i <= 1 && pos + 13 <= |data| && data[pos..pos + 13] == HeaderBytes(x, y, n, i)
    ensures var h := HeaderAt(data, pos);
      h == Header(x, y, 8, ColorType(n), 0, 0, i) && h.Accepted() && h.Modelled() && h.Channels() == n
  {
    hide HeaderAt, HeaderBytes, Header.Accepted;
    HeaderRead(x, y, n, i, data[..pos], data[pos + 13..]);
    assert data == data[..pos] + HeaderBytes(x, y, n, i) + data[pos + 13..];
  }

  /** One step of the chunk loop, at a chunk that is all there. */
  lemma LoopStep(pre: seq<byte>, tag: nat, body: seq<byte>, sum: seq<byte>, post: seq<byte>, st: Progress, result: Parsed)
    requires st.Valid() && |body| < UINT32_MODULUS && tag < UINT32_MODULUS && tag != IEND && |sum| == 4
    requires Parses(pre + RawChunk(tag, body, sum) + post, |pre|, st, result)
    ensures var data, p := pre + RawChunk(tag, body, sum) + post, |pre| + 8;
      var step := ChunkStep(data, p, |body|, tag, st);
      if step.Stop? then result == step.result else Parses(data, Past(data, step.pos, 4), step.st, result)
  {
    hide Word, RawChunk, ChunkStep;
    AtChunk(pre, tag, body, sum, post);
  }

  /** The end chunk: its length, which is not looked at, its tag, and whatever follows. */
  function EndBytes(length: seq<byte>, rest: seq<byte>): seq<byte> {
    length + (TagBytes(IEND) + rest)
  }

  lemma EndStep(pre: seq<byte>, length: seq<byte>, rest: seq<byte>, st: Progress, result: Parsed)
    requires st.Valid() && |length| == 4 && Parses(pre + EndBytes(length, rest), |pre|, st, result)
    ensures Finishes(st, result)
  {
    hide Word, BE32, ChunkStep, Finishes, Progress.Valid;
    WordRoundTrip(pre + length, IEND, rest);
    assert pre + EndBytes(length, rest) == (pre + length) + TagBytes(IEND) + rest;
  }

  // ----------------------------------------------------------- any sequence of chunks

  /** A chunk between the header and the end: a piece of the data, a suggested palette, or an
      ancillary chunk, which the reader passes over. */
  datatype Item =
    | Data(body: seq<byte>, sum: seq<byte>)
    | Palette(body: seq<byte>, sum: seq<byte>)
    | Ancillary(tag: nat, body: seq<byte>, sum: seq<byte>)
  {
    function Tag(): nat {
      match this
      case Data(_, _) => 0x4944_4154
      case Palette(_, _) => 0x504C_5445
      case Ancillary(tag, _, _) => tag
    }

    function Bytes(): seq<byte> {
      RawChunk(Tag(), body, sum)
    }

    /** The first letter of an ancillary tag is a small one; transparency is the one
        ancillary chunk that is not passed over. Checksums are. */
    predicate Allowed() {
      |sum| == 4 && match this
        case Data(body, _) => |body| < UINT32_MODULUS
        case Palette(body, _) => |body| % 3 == 0 && |body| <= 768
        case Ancillary(tag, body, _) =>
          |body| <= 0x7FFF_FFFF && tag < UINT32_MODULUS && tag / 0x2000_0000 % 2 == 1 && tag != 0x7452_4E53
    }
  }

  predicate AllAllowed(items: seq<Item>) {
    forall k :: 0 <= k < |items| ==> items[k].Allowed()
  }

  /** The chunks as bytes. */
  function ItemsBytes(items: seq<Item>): seq<byte> {
    if items == [] then [] else items[0].Bytes() + ItemsBytes(items[1..])
  }

  /** The pieces of data joined together. */
  function DataOf(items: seq<Item>): seq<byte> {
    if items == [] then []
    else if items[0].Data? then items[0].body + DataOf(items[1..])
    else DataOf(items[1..])
  }

  /** No piece longer than 2^30 bytes, and no more than 2^31 - 1 bytes with the `k` before. */
  predicate PiecesFit(items: seq<Item>, k: nat) {
    items != [] ==>
      if items[0].Data? then
        |items[0].body| <= 0x4000_0000 && k + |items[0].body| <= 0x7FFF_FFFF && PiecesFit(items[1..], k + |items[0].body|)
      else PiecesFit(items[1..], k)
  }

  /** The tags, spelled out. */
  lemma TagsSpelled()
    ensures TagBytes(IHDR) == [0x49, 0x48, 0x44, 0x52] && IHDR == 0x4948_4452 && TagBytes(IEND) == [0x49, 0x45, 0x4E, 0x44]
    ensures TagBytes(0x4944_4154) == [0x49, 0x44, 0x41, 0x54] && IDAT == 0x4944_4154
    ensures TagBytes(0x504C_5445) == [0x50, 0x4C, 0x54, 0x45] && PLTE == 0x504C_5445
    ensures TagBytes(0x7452_4E53) == [0x74, 0x52, 0x4E, 0x53] && TRNS == 0x7452_4E53 && CGBI == 0x4367_4249
  {
  }

  /** Colour types: grey 0, grey with alpha 4, colour 2, colour with alpha 6. */
  lemma ColourTypes()
    ensures ColorType(1) == 0 && ColorType(2) == 4 && ColorType(3) == 2 && ColorType(4) == 6
  {
  }

  /** One chunk other than the header and the end. */
  lemma ItemStep(pre: seq<byte>, item: Item, post: seq<byte>, st: Progress, result: Parsed)
    requires st.Valid() && st.header.Some? && item.Allowed()
    requires Parses(pre + item.Bytes() + post, |pre|, st, result)
    ensures var data, p := pre + item.Bytes() + post, |pre| + 12 + |item.body|;
      match item
      case Data(body, _) =>
        if |body| <= 0x4000_0000 && |st.idata| + |body| <= 0x7FFF_FFFF
        then st.(idata := st.idata + body).Valid() && Parses(data, p, st.(idata := st.idata + body), result)
        else result == Rejected
      case _ => Parses(data, p, st, result)
  {
    hide RawChunk, Word, Parses, Header.Accepted, Header.Modelled;
    TagsSpelled();
    assert item.Tag() < UINT32_MODULUS && item.Tag() != IEND && item.Tag() != IHDR && item.Tag() != CGBI && item.Tag() != TRNS;
    LoopStep(pre, item.Tag(), item.body, item.sum, post, st, result);
    AtChunk(pre, item.Tag(), item.body, item.sum, post);
  }

  /** The loop over any number of them, up to the end chunk: the end sees the joined data,
      unless a piece or the total is too long. */
  lemma {:induction false} ItemsParsed(pre: seq<byte>, items: seq<Item>, length: seq<byte>, rest: seq<byte>, st: Progress,
                                       result: Parsed)
    requires st.Valid() && st.header.Some? && AllAllowed(items) && |length| == 4
    requires Parses(pre + (ItemsBytes(items) + EndBytes(length, rest)), |pre|, st, result)
    ensures if PiecesFit(items, |st.idata|)
      then st.(idata := st.idata + DataOf(items)).Valid() && Finishes(st.(idata := st.idata + DataOf(items)), result)
      else result == Rejected
    decreases |items|
  {
    hide RawChunk, Parses, Finishes, Item.Allowed, Item.Tag, Header.Accepted, Header.Modelled, EndBytes, Item.Bytes;
    var end := EndBytes(length, rest);
    if items == [] {
      assert [] + end == end;
      assert st.idata + [] == st.idata;
      EndStep(pre, length, rest, st, result);
    } else {
      var item, c, post := items[0], items[0].Bytes(), ItemsBytes(items[1..]) + end;
      assert pre + (ItemsBytes(items) + end) == pre + c + post;
      assert |c| == 12 + |item.body| by {
        BytesLength(item);
      }
      ItemStep(pre, item, post, st, result);
      assert (pre + c) + post == pre + c + post;
      if item.Data? {
        if |item.body| <= 0x4000_0000 && |st.idata| + |item.body| <= 0x7FFF_FFFF {
          assert st.idata + item.body + DataOf(items[1..]) == st.idata + DataOf(items);
          ItemsParsed(pre + c, items[1..], length, rest, st.(idata := st.idata + item.body), result);
        }
      } else {
        ItemsParsed(pre + c, items[1..], length, rest, st, result);
      }
    }
  }

  lemma BytesLength(item: Item)
    requires item.Allowed()
    ensures |item.Bytes()| == 12 + |item.body|
  {
  }

  /** A file: the picture's sizes, its channels and whether it is interlaced, the header's
      checksum, the chunks, the length field of the end chunk, and what follows its tag. */
  datatype File = File(x: nat, y: nat, n: nat, i: byte, sum: seq<byte>, items: seq<Item>, length: seq<byte>, rest: seq<byte>) {
    predicate Allowed() {
      WithinLimits(x, y, n) && i <= 1 && |sum| == 4 && AllAllowed(items) && |length| == 4
    }

    function Header(): (h: PngFile.Header) {
      PngFile.Header(x, y, 8, ColorType(n), 0, 0, i)
    }

    function Bytes(): seq<byte> {
      [137, 80, 78, 71, 13, 10, 26, 10]
        + (RawChunk(0x4948_4452, HeaderBytes(x, y, n, i), sum) + (ItemsBytes(items) + EndBytes(length, rest)))
    }
  }

  /** Whatever the chunks are, the file is taken apart into its header and the joined data,
      or rejected exactly when a piece or the total is too long. */
  lemma AnyTakenApart(f: File, result: Parsed)
    requires f.Allowed() && ParsesFile(f.Bytes(), result)
    ensures if PiecesFit(f.items, 0)
      then
        var st := Progress(Some(f.Header()), DataOf(f.items));
        st.Valid() && Finishes(st, result)
      else result == Rejected
  {
    hide RawChunk, Word, Finishes, Parses, HeaderBytes, HeaderAt, Header.Accepted, ItemsBytes, PiecesFit, DataOf, EndBytes;
    var h := HeaderBytes(f.x, f.y, f.n, f.i);
    var c, rest := RawChunk(IHDR, h, f.sum), ItemsBytes(f.items) + EndBytes(f.length, f.rest);
    var data := f.Bytes();
    TagsSpelled();
    assert data[..8] == SIGNATURE;
    assert data == SIGNATURE + c + rest;
    LoopStep(SIGNATURE, IHDR, h, f.sum, rest, Progress(None, []), result);
    AtChunk(SIGNATURE, IHDR, h, f.sum, rest);
    HeaderSlice(data, 16, f.x, f.y, f.n, f.i);
    assert data == (SIGNATURE + c) + rest;
    assert [] + DataOf(f.items) == DataOf(f.items);
    ItemsParsed(SIGNATURE + c, f.items, f.length, f.rest, Progress(Some(f.Header()), []), result);
  }
}
