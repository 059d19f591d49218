/** The reader's chunk loop, which collects the compressed data in a growing buffer. */
module PngReader {
  import opened Bits
  import opened Wrappers
  import opened Inflater
  import opened PngFilter
  import opened PngImage
  import opened Adam7
  import opened PngFile
  import opened PngChunks
  import opened PngRoundTrip
  import opened Deflater

  /** Writes `bytes` into the buffer from position `at` on. */
  method Store(buf: array<byte>, at: nat, bytes: seq<byte>)
    requires at + |bytes| <= buf.Length
    modifies buf
    ensures buf[..at + |bytes|] == old(buf[..at]) + bytes
  {
    var i := 0;
    while i < |bytes|
      invariant i <= |bytes| && buf[..at + i] == old(buf[..at]) + bytes[..i]
    {
      buf[at + i] := bytes[i];
      i := i + 1;
    }
  }

  class Reader {
    const data: seq<byte>
    var pos: nat
    var first: bool
    var header: Header
    var idata: array<byte>
    var ioff: nat

    constructor (file: seq<byte>)
      ensures data == file && pos == 0 && Valid() && State() == Progress(None, []) && fresh(idata)
    {
      data, pos, first, ioff := file, 0, true, 0;
      header := Header(0, 0, 0, 0, 0, 0, 0);
      idata := new byte[0];
    }

    /** The part of the buffer in use; the buffer exists once it holds anything. */
    ghost predicate Valid()
      reads this, idata
    {
      ioff <= idata.Length < UINT32_MODULUS && (idata.Length == 0 <==> ioff == 0) && State().Valid()
    }

    ghost function State(): Progress
      reads this, idata
      requires ioff <= idata.Length
    {
      Progress(if first then None else Some(header), idata[..ioff])
    }

    method Get8() returns (b: byte)
      modifies this`pos
      ensures b == At(data, old(pos)) && pos == Past(data, old(pos), 1)
    {
      if pos < |data| {
        b := data[pos];
        pos := pos + 1;
      } else {
        b := 0;
      }
    }

    method Get32be() returns (v: nat)
      modifies this`pos
      ensures v == Word(data, old(pos)) && pos == Past(data, old(pos), 4)
    {
      v := 0;
      var i := 0;
      while i < 4
        invariant i <= 4 && pos == Past(data, old(pos), i)
        invariant v == if i == 0 then 0 else if i == 1 then At(data, old(pos))
          else if i == 2 then At(data, old(pos)) * 256 + At(data, old(pos) + 1)
          else if i == 3 then (At(data, old(pos)) * 256 + At(data, old(pos) + 1)) * 256 + At(data, old(pos) + 2)
          else Word(data, old(pos))
      {
        var b := Get8();
        v := v * 256 + b;
        i := i + 1;
      }
    }

    method Skip(n: nat)
      modifies this`pos
      ensures pos == Skipped(data, old(pos), n)
    {
      if n == 0 {
        return;
      }
      if n > INT_MAX {
        pos := |data|;
        return;
      }
      pos := pos + n;
    }

    method CheckPngHeader() returns (ok: bool)
      requires pos == 0
      modifies this`pos
      ensures ok <==> |data| >= 8 && data[..8] == SIGNATURE
      ensures ok ==> pos == 8
    {
      var i := 0;
      while i < 8
        invariant i <= 8 && pos == i <= |data| && data[..i] == SIGNATURE[..i]
      {
        var b := Get8();
        if b != SIGNATURE[i] {
          return false;
        }
        i := i + 1;
      }
      ok := true;
    }

    /** Where the loop goes after a chunk. */
    ghost predicate Took(before: Progress, p: nat, stop: Option<Parsed>, next: Next)
      reads this, idata
      requires ioff <= idata.Length
    {
      match next
      case Stop(r) => stop == Some(r)
      case Continue(q, st) => stop == None && pos == q && State() == st
    }

    method ReadHeaderFields() returns (h: Header)
      modifies this`pos
      ensures h == HeaderAt(data, old(pos)) && pos == Past(data, old(pos), 13)
    {
      var x := Get32be();
      var y := Get32be();
      var depth := Get8();
      var color := Get8();
      var comp := Get8();
      var filter := Get8();
      var interlace := Get8();
      h := Header(x, y, depth, color, comp, filter, interlace);
    }

    method HeaderCase(len: nat) returns (stop: Option<Parsed>)
      requires Valid()
      modifies this`pos, this`first, this`header
      ensures Valid() && Took(old(State()), old(pos), stop, HeaderChunk(data, old(pos), len, old(State())))
    {
      if !first || len != 13 {
        return Some(Rejected);
      }
      var h := ReadHeaderFields();
      if !h.Accepted() {
        return Some(Rejected);
      }
      if !h.Modelled() {
        return Some(Outside);
      }
      first, header := false, h;
      stop := None;
    }

    method PaletteCase(len: nat) returns (stop: Option<Parsed>)
      requires Valid()
      modifies this`pos
      ensures Valid() && Took(old(State()), old(pos), stop, PaletteChunk(data, old(pos), len, old(State())))
    {
      if first || len > 768 || len % 3 != 0 {
        return Some(Rejected);
      }
      var i := 0;
      while i < len
        invariant i <= len && pos == Past(data, old(pos), i)
      {
        var _ := Get8();
        i := i + 1;
      }
      stop := None;
    }

    method TransparencyCase() returns (stop: Option<Parsed>)
      requires Valid()
      ensures Took(State(), pos, stop, TransparencyChunk(State()))
    {
      if first || idata.Length != 0 || header.Channels() % 2 == 0 {
        return Some(Rejected);
      }
      stop := Some(Outside);
    }

    /** Appends a data chunk, doubling the buffer until it fits; the size never leaves 32 bits. */
    method DataCase(len: nat) returns (stop: Option<Parsed>)
      requires Valid()
      modifies this`pos, this`idata, this`ioff, idata
      ensures ioff <= idata.Length && (stop.None? ==> Valid()) && (idata == old(idata) || fresh(idata))
      ensures Took(old(State()), old(pos), stop, DataChunk(data, old(pos), len, old(State())))
    {
      if first || len > IDAT_LIMIT || ioff + len > INT_MAX {
        return Some(Rejected);
      }
      if ioff + len > idata.Length {
        Grow(len);
      }
      if pos + len > |data| {
        return Some(Rejected);
      }
      Store(idata, ioff, data[pos..pos + len]);
      pos, ioff := pos + len, ioff + len;
      stop := None;
    }

    method Grow(len: nat)
      requires Valid() && idata.Length < ioff + len <= INT_MAX
      modifies this`idata
      ensures fresh(idata) && ioff + len <= idata.Length < UINT32_MODULUS && idata[..ioff] == old(idata[..ioff])
    {
      var limit := idata.Length;
      if limit == 0 {
        limit := if len > 4096 then len else 4096;
      }
      while ioff + len > limit
        invariant 0 < limit < UINT32_MODULUS && ioff <= limit
        decreases ioff + len - limit
      {
        limit := limit * 2;
      }
      var p := new byte[limit](_ => 0);
      Store(p, 0, idata[..ioff]);
      idata := p;
    }

    method OtherCase(len: nat, tag: nat) returns (stop: Option<Parsed>)
      requires Valid()
      modifies this`pos
      ensures Valid() && Took(old(State()), old(pos), stop, OtherChunk(data, old(pos), len, tag, old(State())))
    {
      if first || tag / 0x2000_0000 % 2 == 0 {
        return Some(Rejected);
      }
      Skip(len);
      stop := None;
    }

    /** Decompresses the data and makes the image. */
    method Finish() returns (result: Parsed)
      requires Valid()
      ensures Finishes(State(), result)
    {
      if first || idata.Length == 0 {
        return Rejected;
      }
      var z := new ZBuf(idata[..ioff], RawLength(header), true);
      var ok := z.ParseZlib(true);
      if !ok {
        return Rejected;
      }
      var image;
      ok, image := CreatePngImage(z.zout, header.x, header.y, header.Channels(), header.interlace == 1);
      result := if ok then Decoded(header.x, header.y, header.Channels(), image[..]) else Rejected;
    }

    method ChunkCase(len: nat, tag: nat) returns (stop: Option<Parsed>)
      requires Valid() && tag != IEND
      modifies this, idata
      ensures ioff <= idata.Length && (stop.None? ==> Valid()) && (idata == old(idata) || fresh(idata))
      ensures Took(old(State()), old(pos), stop, ChunkStep(data, old(pos), len, tag, old(State())))
    {
      if tag == CGBI {
        stop := Some(Outside);
      } else if tag == IHDR {
        stop := HeaderCase(len);
      } else if tag == PLTE {
        stop := PaletteCase(len);
      } else if tag == TRNS {
        stop := TransparencyCase();
      } else if tag == IDAT {
        stop := DataCase(len);
      } else {
        stop := OtherCase(len, tag);
      }
    }

    /** Reads a whole file; the loop ends on every input. */
    method ParsePngFile() returns (result: Parsed)
      requires Valid() && pos == 0 && State() == Progress(None, [])
      modifies this, idata
      ensures ParsesFile(data, result)
    {
      hide Finishes, ChunkStep, Word;
      var ok := CheckPngHeader();
      if !ok {
        return Rejected;
      }
      ghost var start := idata;
      while true
        invariant Valid() && (idata == start || fresh(idata))
        invariant forall r :: Parses(data, pos, State(), r) ==> Parses(data, 8, Progress(None, []), r)
        decreases if pos <= |data| then |data| - pos else 0
      {
        ghost var pos0, st := pos, State();
        var len := Get32be();
        var tag := Get32be();
        if tag == IEND {
          result := Finish();
          return;
        }
        var stop := ChunkCase(len, tag);
        if stop.Some? {
          return stop.value;
        }
        var _ := Get32be();
        NoTagPastEnd(data, pos0);
      }
    }
  }

  /** Loads a file held in memory. */
  method LoadPng(file: seq<byte>) returns (result: Parsed)
    ensures ParsesFile(file, result)
  {
    var r := new Reader(file);
    result := r.ParsePngFile();
  }

  /** Writing a picture and loading the file, with any filters and compression level. */
  method WriteAndLoad(s: Source, forceFilter: int, level: int, crc: Crc) returns (result: Parsed)
    requires s.Valid() && WithinLimits(s.x, s.h, s.n)
    ensures StoredSize(s.FilteredSize()) + 4 <= IDAT_LIMIT ==> result == Decoded(s.x, s.h, s.n, Concat(Rows(s, s.h)))
    ensures StoredSize(s.FilteredSize()) + 4 <= IDAT_LIMIT && s.Contiguous() ==> result == Decoded(s.x, s.h, s.n, s.pixels)
  {
    hide Encodes, FileBytes, ParsesFile, FilteredRows, Rows, StoredSize;
    var file, types, zlib := WritePngToMem(s, forceFilter, level, crc);
    result := LoadPng(file);
    FileRoundTrip(s, types, zlib, crc, result);
    EncodedSize(s, types, zlib);
    if s.Contiguous() {
      AllRows(s);
    }
  }

  /** The codec's `encode` with its stride argument of 0, then its `decode`: the same
      width, height, channel count and pixels. */
  method EncodeAndDecode(data: seq<byte>, w: nat, h: nat, c: nat, forceFilter: int, level: int, crc: Crc)
    returns (result: Parsed)
    requires WithinLimits(w, h, c) && |data| == w * c * h
    ensures StoredSize((w * c + 1) * h) + 4 <= IDAT_LIMIT ==> result == Decoded(w, h, c, data)
  {
    hide StoredSize;
    var s := Source(data, 0, w, h, c, false);
    WholeBuffer(s);
    result := WriteAndLoad(s, forceFilter, level, crc);
  }

  lemma WholeBuffer(s: Source)
    requires s.strideBytes == 0 && !s.flip && WithinLimits(s.x, s.h, s.n) && |s.pixels| == s.x * s.n * s.h
    ensures s.Contiguous()
  {
    MulSign(s.x, s.n);
    assert s.x * s.n * (s.h - 1) + s.x * s.n == s.x * s.n * s.h;
  }
}
