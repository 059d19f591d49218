/** Whole DEFLATE streams as any encoder may make them (section 3.2.3 of RFC 1951): stored,
    fixed and dynamic blocks in any number and order. */
module DeflateStream {
  import opened Bits
  import opened BitFields
  import opened CanonicalCode
  import opened InflateSpec
  import opened Wrappers
  import opened FixedCode
  import opened DeflateSpec
  import opened DeflateRoundTrip
  import opened DynamicRoundTrip

  // ------------------------------------------------------------------ blocks

  /** A block: up to 65535 bytes copied, after padding bits of any value; or tokens in the
      fixed codes; or tokens in the codes of a header. */
  datatype Segment =
    | Stored(data: seq<byte>, pad: nat)
    | Fixed(tokens: seq<Token>)
    | Dynamic(h: DynamicHeader, tokens: seq<Token>)
  {
    /** The block can be written `pos` bits into the stream. */
    predicate Fits(pos: nat) {
      match this
      case Stored(data, pad) => |data| <= 0xFFFF && pad < Pow2(Padding(pos))
      case Fixed(tokens) => AllCodable(tokens, FixedLengths(), FixedDistances())
      case Dynamic(h, tokens) => h.Valid() && AllCodable(tokens, h.lens, h.dlens)
    }

    function Kind(): nat {
      match this
      case Stored(_, _) => 0
      case Fixed(_) => 1
      case Dynamic(_, _) => 2
    }

    /** After the bytes `out`, the block makes `final`. */
    predicate Gives(out: seq<byte>, final: seq<byte>) {
      match this
      case Stored(data, _) => final == out + data
      case Fixed(tokens) => Expands(tokens, out, final)
      case Dynamic(_, tokens) => Expands(tokens, out, final)
    }

    /** The block after its three header bits. */
    function Body(pos: nat): seq<Field>
      requires Fits(pos)
    {
      match this
      case Stored(data, pad) => StoredFields(data, pad, Padding(pos))
      case Fixed(tokens) => BodyFields(tokens, FixedLengths(), FixedDistances())
      case Dynamic(h, tokens) => DynamicBody(h, tokens)
    }

    function Fields(last: bool, pos: nat): seq<Field>
      requires Fits(pos)
    {
      [Field(if last then 1 else 0, 1)] + ([Field(Kind(), 2)] + Body(pos))
    }
  }

  /** Bits from the end of a block header at `pos` to a byte boundary. */
  function Padding(pos: nat): (n: nat)
    ensures n < 8 && (pos + 3 + n) % 8 == 0
  {
    (8 - (pos + 3) % 8) % 8
  }

  function ByteFields(data: seq<byte>): seq<Field> {
    if data == [] then [] else [Field(data[0], 8)] + ByteFields(data[1..])
  }

  /** Padding, LEN, its complement, and the bytes. */
  function StoredFields(data: seq<byte>, pad: nat, width: nat): seq<Field>
    requires |data| <= 0xFFFF
  {
    Extra(pad, width) + ([Field(|data|, 16)] + ([Field(0xFFFF - |data|, 16)] + ByteFields(data)))
  }

  /** The blocks can be written one after another, the first `pos` bits into the stream. */
  predicate AllFit(segs: seq<Segment>, pos: nat) {
    segs == [] || (segs[0].Fits(pos) && AllFit(segs[1..], pos + Width(segs[0].Fields(|segs| == 1, pos))))
  }

  /** The blocks as they stand in the stream, BFINAL set on the last one only. */
  function SegmentFields(segs: seq<Segment>, pos: nat): seq<Field>
    requires AllFit(segs, pos)
  {
    hide Segment.Fits, Segment.Fields, Width;
    if segs == [] then []
    else
      var first := segs[0].Fields(|segs| == 1, pos);
      first + SegmentFields(segs[1..], pos + Width(first))
  }

  /** After the bytes `out`, the blocks make `final`. */
  ghost predicate AllGive(segs: seq<Segment>, out: seq<byte>, final: seq<byte>) {
    if segs == [] then out == final
    else exists mid :: segs[0].Gives(out, mid) && AllGive(segs[1..], mid, final)
  }

  lemma {:induction false} AllGiveGrows(segs: seq<Segment>, out: seq<byte>, final: seq<byte>)
    requires AllGive(segs, out, final)
    ensures |out| <= |final|
  {
    if segs != [] {
      var mid :| segs[0].Gives(out, mid) && AllGive(segs[1..], mid, final);
      GivesGrows(segs[0], out, mid);
      AllGiveGrows(segs[1..], mid, final);
    }
  }

  lemma GivesGrows(seg: Segment, out: seq<byte>, mid: seq<byte>)
    requires seg.Gives(out, mid)
    ensures |out| <= |mid|
  {
    if !seg.Stored? {
      ExpandsGrows(seg.tokens, out, mid);
    }
  }

  // ------------------------------------------------------------- reading a stored block

  lemma {:induction false} BytesRead(data: seq<byte>, tail: nat)
    ensures TakeBytes(Stream(ByteFields(data), tail), |data|) == data
    ensures Shr(Stream(ByteFields(data), tail), 8 * |data|) == tail && Width(ByteFields(data)) == 8 * |data|
  {
    hide Stream, Width, Join;
    if data == [] {
      assert ByteFields(data) == [];
      NoFields(tail);
    } else {
      var more := ByteFields(data[1..]);
      Pow2Values();
      ConsField(Field(data[0], 8), more, tail);
      ReadField(data[0], 8, Stream(more, tail));
      BytesRead(data[1..], tail);
      ShrAdd(Stream(ByteFields(data), tail), 8, 8 * |data[1..]|);
    }
  }

  lemma NoFields(tail: nat)
    ensures Stream([], tail) == tail && Width([]) == 0
  {
  }

  /** LEN and its complement, then the bytes. */
  lemma LengthsRead(data: seq<byte>, tail: nat)
    requires |data| <= 0xFFFF
    ensures var fields := [Field(|data|, 16)] + ([Field(0xFFFF - |data|, 16)] + ByteFields(data));
      var v := Stream(fields, tail);
      && Low(v, 16) == |data| && Low(Shr(v, 16), 16) == 0xFFFF - |data|
      && Shr(v, 32) == Stream(ByteFields(data), tail) && Width(fields) == 32 + 8 * |data|
  {
    hide Stream, Width, Join;
    Pow2Values();
    var bytes, n := ByteFields(data), |data|;
    ConsField(Field(0xFFFF - n, 16), bytes, tail);
    ConsField(Field(n, 16), [Field(0xFFFF - n, 16)] + bytes, tail);
    ReadField(0xFFFF - n, 16, Stream(bytes, tail));
    ReadField(n, 16, Stream([Field(0xFFFF - n, 16)] + bytes, tail));
    ShrAdd(Stream([Field(n, 16)] + ([Field(0xFFFF - n, 16)] + bytes), tail), 16, 16);
    BytesRead(data, tail);
  }

  /** A stored block appends its bytes and ends at a byte boundary. */
  lemma StoredRead(z: BitState, out: Output, data: seq<byte>, pad: nat, width: nat, tail: nat, bits: nat)
    returns (y: BitState, o: Output)
    requires |data| <= 0xFFFF && z.nb <= 30 && width == z.nb % 8 && pad < Pow2(width)
    requires out.Valid() && CanHold(out, |out.bytes| + |data|)
    requires Roomy(z, Width(StoredFields(data, pad, width)) + bits) && z.rem == Stream(StoredFields(data, pad, width), tail)
    ensures Block(z, out, 0) == Some((y, o)) && o.bytes == out.bytes + data && y.rem == tail && Roomy(y, bits) && y.nb == 0
    ensures Width(StoredFields(data, pad, width)) == width + 32 + 8 * |data|
    ensures forall k :: CanHold(out, k) && |out.bytes| + |data| <= k ==> CanHold(o, k)
  {
    hide Stream, Width, Low, Shr, ByteFields, TakeBytes, Doubled, Pow2, HuffmanBlock, DynamicCodes;
    var n := |data|;
    var rest := [Field(n, 16)] + ([Field(0xFFFF - n, 16)] + ByteFields(data));
    StreamConcat(Extra(pad, width), rest, tail);
    ExtraWidth(pad, width);
    LengthsRead(data, tail);
    BytesRead(data, tail);
    var u := SkipRead(z, pad, width, Stream(rest, tail), 32 + 8 * n + bits);
    RoomFor(out, n, |out.bytes| + n);
    o := out.Room(n).value.Append(data);
    forall k | CanHold(out, k) && |out.bytes| + |data| <= k ensures CanHold(o, k) {
      RoomFor(out, n, k);
    }
    y := BitState(tail, 0, u.left - (4 - u.nb / 8) - n, u.hit);
  }

  lemma SkipRead(z: BitState, pad: nat, width: nat, rest: nat, bits: nat) returns (u: BitState)
    requires z.nb <= 30 && width == z.nb % 8 && pad < Pow2(width) && Roomy(z, width + bits)
    requires z.rem == Stream(Extra(pad, width), rest)
    ensures Receive(z, width).1 == u && u.rem == rest && u.nb % 8 == 0 && Roomy(u, bits)
  {
    if width == 0 {
      assert Shr(z.rem, 0) == z.rem;
      u := z;
    } else {
      u := ReceiveField(z, Field(pad, width), Stream([], rest), bits);
    }
  }

  // --------------------------------------------------------------- reading a stream

  /** The reader has buffered whole bytes up to `z`, which is `pos` bits into the stream. */
  predicate Aligned(z: BitState, pos: nat) {
    (z.nb + pos) % 8 == 0
  }

  lemma AlignedOn(z: BitState, y: BitState, pos: nat, w: nat)
    requires Aligned(z, pos) && Moved(z, y, w)
    ensures Aligned(y, pos + w)
  {
  }

  /** A block, after its header bits. */
  lemma BodyRead(z: BitState, out: Output, seg: Segment, pos: nat, mid: seq<byte>, tail: nat, bits: nat)
    returns (y: BitState, o: Output)
    requires seg.Fits(pos) && seg.Gives(out.bytes, mid) && CanHold(out, |mid|) && z.nb <= 30 && Aligned(z, pos + 3)
    requires Roomy(z, Width(seg.Body(pos)) + bits) && z.rem == Stream(seg.Body(pos), tail)
    ensures Block(z, out, seg.Kind()) == Some((y, o)) && o.bytes == mid && y.rem == tail && Roomy(y, bits)
    ensures Aligned(y, pos + 3 + Width(seg.Body(pos))) && forall k :: CanHold(out, k) && |mid| <= k ==> CanHold(o, k)
  {
    hide Block, DynamicBody, BodyFields, Stream, Width, StoredFields, AllCodable, DynamicHeader.Valid, Expands;
    hide Moved, FixedLengths, FixedDistances, Pow2, CanHold, Padding;
    match seg
    case Stored(data, pad) =>
      CanHoldValid(out, |mid|);
      PaddingIs(z, pos);
      y, o := StoredRead(z, out, data, pad, Padding(pos), tail, bits);
    case Fixed(tokens) =>
      y, o := FixedRead(z, out, tokens, mid, tail, bits);
      AlignedOn(z, y, pos + 3, Width(BodyFields(tokens, FixedLengths(), FixedDistances())));
    case Dynamic(h, tokens) =>
      y, o := BlockRead(z, out, h, tokens, mid, tail, bits);
      AlignedOn(z, y, pos + 3, Width(DynamicBody(h, tokens)));
  }

  lemma PaddingIs(z: BitState, pos: nat)
    requires Aligned(z, pos + 3)
    ensures Padding(pos) == z.nb % 8
  {
  }

  lemma CanHoldValid(out: Output, n: nat)
    requires CanHold(out, n)
    ensures out.Valid()
  {
  }

  /** A block with its header bits. */
  lemma SegmentRead(z: BitState, out: Output, seg: Segment, last: bool, pos: nat, mid: seq<byte>, tail: nat, bits: nat)
    returns (y: BitState, o: Output)
    requires seg.Fits(pos) && seg.Gives(out.bytes, mid) && CanHold(out, |mid|) && out.Valid() && Aligned(z, pos)
    requires Roomy(z, Width(seg.Fields(last, pos)) + bits) && z.rem == Stream(seg.Fields(last, pos), tail)
    ensures o.Valid() && o.bytes == mid && y.rem == tail && Roomy(y, bits)
    ensures Aligned(y, pos + Width(seg.Fields(last, pos))) && forall k :: CanHold(out, k) && |mid| <= k ==> CanHold(o, k)
    ensures Blocks(z, out) == if last then Some((y, o)) else Blocks(y, o)
  {
    hide Segment.Body, Segment.Fits, Segment.Gives, Segment.Kind, Stream, Width, Join, CanHold, Block, Blocks, Receive, Aligned;
    var body, f := seg.Body(pos), Field(if last then 1 else 0, 1);
    KindAtMost(seg);
    ConsField(Field(seg.Kind(), 2), body, tail);
    ConsField(f, [Field(seg.Kind(), 2)] + body, tail);
    var w := BlockStart(z, last, seg.Kind(), Stream(body, tail), Width(body) + bits);
    AlignedOn(z, w, pos, 3);
    y, o := BodyRead(w, out, seg, pos, mid, tail, bits);
    CanHoldValid(o, |mid|);
    BlocksStep(z, w, out, last, seg.Kind(), y, o);
  }

  lemma KindAtMost(seg: Segment)
    ensures seg.Kind() <= 2
  {
  }

  /** Inflating any sequence of blocks yields what the blocks make, one after another. */
  lemma {:induction false} StreamRead(z: BitState, out: Output, segs: seq<Segment>, pos: nat, final: seq<byte>, tail: nat)
    requires segs != [] && AllFit(segs, pos) && AllGive(segs, out.bytes, final) && CanHold(out, |final|) && out.Valid()
    requires Aligned(z, pos) && Roomy(z, Width(SegmentFields(segs, pos))) && z.rem == Stream(SegmentFields(segs, pos), tail)
    ensures Yields(z, out, final)
    decreases |segs|
  {
    hide Segment.Fields, Segment.Fits, Segment.Gives, Stream, Width, CanHold, Blocks, Aligned;
    var seg, last := segs[0], |segs| == 1;
    var mid :| seg.Gives(out.bytes, mid) && AllGive(segs[1..], mid, final);
    var first := seg.Fields(last, pos);
    var more := SegmentFields(segs[1..], pos + Width(first));
    StreamConcat(first, more, tail);
    AllGiveGrows(segs[1..], mid, final);
    HoldsLess(out, |final|, |mid|);
    var y, o := SegmentRead(z, out, seg, last, pos, mid, Stream(more, tail), Width(more));
    if !last {
      StreamRead(y, o, segs[1..], pos + Width(first), final, tail);
    }
  }

  lemma HoldsLess(out: Output, n: nat, k: nat)
    requires CanHold(out, n) && k <= n
    ensures CanHold(out, k)
  {
  }

  // ------------------------------------------------------------------ zlib streams

  /** The two bytes of section 2.2 of RFC 1950: compression method 8 and a window size, then
      a level, no preset dictionary, and a check that makes the two a multiple of 31. */
  predicate HeaderFields(first: byte, second: byte, window: nat, level: nat, check: nat) {
    && first as int == 16 * window + 8 && second as int == 64 * level + check && check < 32
    && (256 * first as int + second) % 31 == 0
  }

  ghost predicate ZlibHeader(first: byte, second: byte) {
    exists window: nat, level: nat, check: nat :: HeaderFields(first, second, window, level, check)
  }

  lemma HeaderJoined(input: seq<byte>, window: nat, level: nat, check: nat)
    requires |input| > 2 && HeaderFields(input[0], input[1], window, level, check)
    ensures HeaderOk(input)
  {
    assert input[1] as int / 32 == 2 * level;
  }

  lemma HeaderSplit(input: seq<byte>)
    requires HeaderOk(input)
    ensures HeaderFields(input[0], input[1], input[0] as int / 16, input[1] as int / 64, input[1] as int % 32)
  {
    EvenHalf(input[1] as int / 32);
  }

  lemma EvenHalf(n: nat)
    requires n % 2 == 0
    ensures 2 * (n / 2) == n
  {
  }

  /** The header test is that, and one more byte. */
  lemma HeaderIs(input: seq<byte>)
    ensures HeaderOk(input) <==> |input| > 2 && ZlibHeader(input[0], input[1])
  {
    if HeaderOk(input) {
      HeaderSplit(input);
    }
    hide HeaderOk, HeaderFields;
    if |input| > 2 && ZlibHeader(input[0], input[1]) {
      var window, level, check :| HeaderFields(input[0], input[1], window, level, check);
      HeaderJoined(input, window, level, check);
    }
  }

  /** `input` is a header, the blocks, and `tail`, and the blocks make `data`. */
  ghost predicate Spells(input: seq<byte>, segs: seq<Segment>, tail: nat, data: seq<byte>) {
    && |input| > 2 && ZlibHeader(input[0], input[1])
    && segs != [] && AllFit(segs, 0) && AllGive(segs, [], data) && LE(input[2..]) == Stream(SegmentFields(segs, 0), tail)
  }

  /** Inflating that gives the data, when the blocks end within the input. */
  lemma SpelledInflates(input: seq<byte>, segs: seq<Segment>, tail: nat, data: seq<byte>, cap: nat, expandable: bool)
    requires Spells(input, segs, tail, data) && Width(SegmentFields(segs, 0)) <= 8 * (|input| - 2)
    requires cap <= UINT_MAX && (expandable ==> cap > 0) && CanHold(Output([], cap, expandable), |data|)
    ensures Inflate(input, cap, expandable, true) == Some(data)
  {
    hide AllFit, AllGive, HeaderOk, Blocks, CanHold, ZlibHeader, SegmentFields, LE, Stream, Width;
    HeaderIs(input);
    StreamRead(Start(input, true), Output([], cap, expandable), segs, 0, data, tail);
  }

  /** `out` is a zlib stream that means `data`: a header, some blocks padded to a whole byte,
      and whatever follows: a checksum, which the reader does not look at, or nothing. */
  ghost predicate IsZlib(out: seq<byte>, data: seq<byte>) {
    exists segs, bytes :: ZlibOf(out, data, segs, bytes)
  }

  ghost predicate ZlibOf(out: seq<byte>, data: seq<byte>, segs: seq<Segment>, bytes: seq<byte>) {
    && segs != [] && AllFit(segs, 0) && AllGive(segs, [], data) && Packed(bytes, SegmentFields(segs, 0))
    && |out| > 2 && |out| >= |bytes| + 2 && ZlibHeader(out[0], out[1]) && out[2..2 + |bytes|] == bytes
  }

  /** Inflating it gives the data. */
  lemma ZlibInflates(out: seq<byte>, data: seq<byte>, cap: nat, expandable: bool)
    requires IsZlib(out, data)
    requires cap <= UINT_MAX && (expandable ==> cap > 0) && CanHold(Output([], cap, expandable), |data|)
    ensures Inflate(out, cap, expandable, true) == Some(data)
  {
    hide AllFit, AllGive, CanHold, ZlibHeader, SegmentFields, LE, Stream, Width, Inflate;
    var segs, bytes :| ZlibOf(out, data, segs, bytes);
    var tail := PackedStream(bytes, SegmentFields(segs, 0), out[2 + |bytes|..]);
    assert out[2..] == bytes + out[2 + |bytes|..];
    SpelledInflates(out, segs, tail, data, cap, expandable);
  }
}
