/** Blocks through the writer's byte stream and back. */
module JpegRoundTrip {
  import opened Bits
  import opened BitFields
  import opened Wrappers
  import opened JpegHuffman
  import opened JpegSpec
  import opened JpegAc
  import opened JpegBlock
  import opened JpegWriter
  import opened JpegReader
  import opened JpegTables

  /** The fields of a run of blocks of one component, each predicted from the one before. */
  function ScanFields(blocks: seq<seq<int>>, pred: int, htdc: CodeTable, htac: CodeTable): seq<Field>
    requires Encodable(blocks, pred)
  {
    if blocks == [] then []
    else BlockFields(blocks[0], pred, htdc, htac) + ScanFields(blocks[1..], blocks[0][0], htdc, htac)
  }

  /** Every coefficient and every DC difference can be expressed. */
  predicate Encodable(blocks: seq<seq<int>>, pred: int)
    decreases |blocks|
  {
    blocks != [] ==>
      AcInRange(blocks[0]) && Abs(blocks[0][0] - pred) < 0x800 && INT_MIN <= blocks[0][0] <= INT_MAX
      && Encodable(blocks[1..], blocks[0][0])
  }

  /** Decoding `n` blocks in a row. */
  ghost function DecodeBlocks(z: JState, pred: int, n: nat, dc: HuffCode, ac: HuffCode,
                              dequant: seq<nat>): (r: Option<seq<seq<int>>>)
    requires z.Valid() && dc.Valid() && ac.Valid() && |dequant| == 64
    decreases n
  {
    if n == 0 then Some([])
    else
      var (data, level, w) :- DecodeBlock(z, pred, dc, ac, dequant);
      var rest :- DecodeBlocks(w, level, n - 1, dc, ac, dequant);
      Some([data] + rest)
  }

  function AllRestored(blocks: seq<seq<int>>, dequant: seq<nat>): seq<seq<int>>
    requires |dequant| == 64 && forall i :: 0 <= i < |blocks| ==> |blocks[i]| == 64
  {
    if blocks == [] then [] else [Restored(blocks[0], dequant)] + AllRestored(blocks[1..], dequant)
  }

  lemma {:induction false} EncodableLengths(blocks: seq<seq<int>>, pred: int)
    requires Encodable(blocks, pred)
    ensures forall i :: 0 <= i < |blocks| ==> |blocks[i]| == 64
    decreases |blocks|
  {
    if blocks != [] {
      EncodableLengths(blocks[1..], blocks[0][0]);
      forall i | 0 <= i < |blocks| ensures |blocks[i]| == 64 {
        assert i > 0 ==> blocks[i] == blocks[1..][i - 1];
      }
    }
  }

  /** Every DC level times its quantiser fits sixteen bits. */
  predicate LevelsFit(blocks: seq<seq<int>>, dequant: seq<nat>)
    requires |dequant| == 64 && forall i :: 0 <= i < |blocks| ==> |blocks[i]| == 64
  {
    forall i :: 0 <= i < |blocks| ==> ShortProduct(blocks[i][0], dequant[0])
  }

  lemma LevelsFitStep(blocks: seq<seq<int>>, dequant: seq<nat>)
    requires |dequant| == 64 && (forall i :: 0 <= i < |blocks| ==> |blocks[i]| == 64) && blocks != []
    ensures LevelsFit(blocks, dequant) <==> ShortProduct(blocks[0][0], dequant[0]) && LevelsFit(blocks[1..], dequant)
  {
    hide ShortProduct;
    if ShortProduct(blocks[0][0], dequant[0]) && LevelsFit(blocks[1..], dequant) {
      forall i | 0 <= i < |blocks| ensures ShortProduct(blocks[i][0], dequant[0]) {
        assert i > 0 ==> blocks[i] == blocks[1..][i - 1];
      }
    }
  }

  /** A run of blocks decodes to the blocks that were encoded, each one's DC level carried
      on as the next one's prediction on both sides, exactly when all levels fit. */
  lemma {:induction false} ScanRoundTrip(z: JState, blocks: seq<seq<int>>, pred: int, htdc: CodeTable, htac: CodeTable,
                                         dc: HuffCode, ac: HuffCode, dequant: seq<nat>, tail: nat)
    requires SameTables(htdc, htac, dc, ac) && |dequant| == 64 && Encodable(blocks, pred)
    requires forall i :: 0 <= i < |blocks| ==> |blocks[i]| == 64
    requires Ahead(z, ScanFields(blocks, pred, htdc, htac), tail)
    ensures DecodeBlocks(z, pred, |blocks|, dc, ac, dequant) ==
      if LevelsFit(blocks, dequant) then Some(AllRestored(blocks, dequant)) else None
    decreases |blocks|
  {
    hide SameTables, DecodeBlock, Restored, ShortProduct, Stream, Width, BlockFields, HuffCode.Valid;
    TablesValid(htdc, htac, dc, ac);
    if blocks != [] {
      var more := ScanFields(blocks[1..], blocks[0][0], htdc, htac);
      var w := BlockRoundTrip(z, blocks[0], pred, htdc, htac, dc, ac, dequant, more, tail);
      LevelsFitStep(blocks, dequant);
      if ShortProduct(blocks[0][0], dequant[0]) {
        ScanRoundTrip(w, blocks[1..], blocks[0][0], htdc, htac, dc, ac, dequant, tail);
      }
    }
  }

  lemma TablesValid(htdc: CodeTable, htac: CodeTable, dc: HuffCode, ac: HuffCode)
    requires SameTables(htdc, htac, dc, ac)
    ensures dc.Valid() && ac.Valid()
  {
  }

  // ------------------------------------------------------------- through the bytes

  lemma {:induction false} StreamFits(fields: seq<Field>)
    requires AllValid(fields)
    ensures Stream(fields, 0) < Pow2(Width(fields))
  {
    if fields != [] {
      hide Shl, Pow2;
      var f, rest := fields[0], fields[1..];
      assert AllValid(rest) && f.Valid();
      StreamFits(rest);
      PendingFits(f.value, f.width, Stream(rest, 0), Width(rest));
    } else {
      assert Pow2(0) == 1;
    }
  }

  /** Cutting a stream off past its fields leaves the fields and cuts the tail. */
  lemma CutStream(fields: seq<Field>, tail: nat, k: nat)
    requires AllValid(fields)
    ensures Low(Stream(fields, tail), Width(fields) + k) == Stream(fields, Low(tail, k))
  {
    hide Shl, Pow2, Low, Shr, Stream, Width;
    var w, a := Width(fields), Stream(fields, 0);
    StreamTail(fields, tail);
    StreamTail(fields, Low(tail, k));
    StreamFits(fields);
    LowAdd(Join(a, w, tail), w, k);
    ReadField(a, w, tail);
    ShlIsProduct(Low(tail, k), w);
  }

  /** After seven bits of padding every field is in the bytes; what may still be pending
      is padding. */
  lemma Readable(fields: seq<Field>, pad: Field, plain: seq<byte>, p: nat, n: nat) returns (tail: nat)
    requires AllValid(fields) && pad.width == 7 && n < 8 && Written(fields + [pad], plain, p, n)
    ensures StreamOf(plain) == Stream(fields, tail) && 8 * |plain| >= Width(fields)
  {
    hide Shl, Pow2, Low, Shr, Stream, Width, StreamOf, LE;
    var m, k := 8 * |plain|, 8 * |plain| - Width(fields);
    StreamConcat(fields, [pad], 0);
    OneField(pad, 0);
    assert k >= 0;
    var t := Stream([pad], 0);
    tail := Low(t, k);
    CutStream(fields, t, k);
    BytesFit(plain);
    ReadField(StreamOf(plain), m, p);
  }

  lemma BytesFit(plain: seq<byte>)
    ensures StreamOf(plain) < Pow2(8 * |plain|)
  {
    LEFits(Reversed(plain));
  }

  lemma {:induction false} LEFits(s: seq<byte>)
    ensures LE(s) < Pow2(8 * |s|)
  {
    if s == [] {
      assert Pow2(0) == 1;
    } else {
      LEFits(s[1..]);
      Pow2Add(8, 8 * |s[1..]|);
      Pow2Values();
    }
  }

  /** The reader's state at the start of `file`. */
  function Opened(file: seq<byte>): (z: JState)
    ensures z.Valid()
  {
    JState(StreamOf(Coming(file)), 0, |Coming(file)|, MarkerAhead(file), false)
  }

  /** Writes blocks, pads the last byte with ones and appends the end marker. */
  method EncodeScan(blocks: seq<seq<int>>, htdc: CodeTable, htac: CodeTable) returns (file: seq<byte>)
    requires Codes(htdc) && Codes(htac) && Encodable(blocks, 0)
    ensures exists tail :: Ahead(Opened(file), ScanFields(blocks, 0, htdc, htac), tail)
  {
    hide Codes, BlockFields, Sink.Holding;
    var s := new Sink();
    var pred, i := 0, 0;
    assert blocks[0..] == blocks;
    while i < |blocks|
      invariant i <= |blocks| && fresh(s) && s.Valid() && Encodable(blocks[i..], pred)
      invariant s.Fields + ScanFields(blocks[i..], pred, htdc, htac) == ScanFields(blocks, 0, htdc, htac)
    {
      assert blocks[i..][0] == blocks[i] && blocks[i..][1..] == blocks[i + 1..];
      pred := ProcessDU(s, blocks[i], pred, htdc, htac);
      i := i + 1;
    }
    ghost var fields := s.Fields;
    assert blocks[i..] == [];
    assert fields + [] == fields;
    PadFits();
    s.WriteBits(0x7F, 7);
    file := s.out + [0xFF, 0xD9];
    ghost var tail := Finished(s, fields, file);
  }

  lemma PadFits()
    ensures 0x7F < Pow2(7)
  {
    assert Pow2(4) == 16;
    Pow2Add(4, 3);
  }

  lemma Finished(s: Sink, fields: seq<Field>, file: seq<byte>) returns (tail: nat)
    requires s.Valid() && s.Fields == fields + [Field(Rev(0x7F, 7), 7)] && file == s.out + [0xFF, 0xD9]
    ensures Ahead(Opened(file), fields, tail)
  {
    hide Written, StreamOf, Stream, Width, Pending, Shl;
    UnstuffStuffed(s.Plain, [0xFF, 0xD9]);
    assert [0xFF, 0xD9][1..] == [0xD9] && Fill([0xD9]) == [0xD9];
    assert Coming([0xFF, 0xD9]) == [];
    assert s.Plain + [] == s.Plain;
    assert AllValid(fields) by {
      forall k | 0 <= k < |fields| ensures fields[k].Valid() {
        assert fields[k] == s.Fields[k];
      }
    }
    tail := Readable(fields, Field(Rev(0x7F, 7), 7), s.Plain, s.Rest, s.bitCnt);
  }

  /** Encoding a run of blocks and decoding the bytes restores all of them, exactly when
      all levels fit. */
  method EncodeAndDecode(blocks: seq<seq<int>>, htdc: CodeTable, htac: CodeTable, hdc: Huffman, hac: Huffman, fac: seq<int>,
                         dequant: seq<nat>, ghost dc: HuffCode, ghost ac: HuffCode) returns (ok: bool, result: seq<seq<int>>)
    requires Codes(htdc) && Codes(htac) && Encodable(blocks, 0) && SameTables(htdc, htac, dc, ac) && |dequant| == 64
    requires hdc.Shaped() && hdc.Represents(dc.count) && hdc.values == dc.values
    requires hac.Shaped() && hac.Represents(ac.count) && hac.values == ac.values && FastTable(hac, fac)
    requires forall i :: 0 <= i < |blocks| ==> |blocks[i]| == 64
    ensures ok <==> LevelsFit(blocks, dequant)
    ensures ok ==> result == AllRestored(blocks, dequant)
  {
    hide Codes, SameTables, DecodeBlock, Huffman.Represents, FastTable, HuffCode.Valid, ScanFields, AllRestored, Encodable;
    hide DecodeBlocks, Coming, MarkerAhead, StreamOf, Reader.Valid, Rev, Pow2, Appended, LevelsFit, Ahead;
    TablesValid(htdc, htac, dc, ac);
    var file := EncodeScan(blocks, htdc, htac);
    ghost var tail :| Ahead(Opened(file), ScanFields(blocks, 0, htdc, htac), tail);
    ScanRoundTrip(Opened(file), blocks, 0, htdc, htac, dc, ac, dequant, tail);
    var r := new Reader(file);
    var data := new int[64];
    result := [];
    ghost var goal := DecodeBlocks(Opened(file), 0, |blocks|, dc, ac, dequant);
    NoneYet(goal);
    var i := 0;
    while i < |blocks|
      invariant i <= |blocks| && fresh(r) && fresh(data) && r.Valid() && |result| == i
      invariant goal == Appended(result, DecodeBlocks(r.State(), r.dcPred, |blocks| - i, dc, ac, dequant))
    {
      DecodeOne(result, r.State(), r.dcPred, |blocks| - i, dc, ac, dequant);
      ok := r.DecodeOneBlock(data, hdc, hac, fac, dequant, dc, ac);
      if !ok {
        return;
      }
      result := result + [data[..]];
      i := i + 1;
    }
    NoneLeft(result, r.State(), r.dcPred, dc, ac, dequant);
    ok := true;
  }

  /** With the tables of the file: what the writer emits for the blocks of a component, read
      back with tables built from the counts and symbols the writer stored. */
  method WriteAndRead(chroma: bool, blocks: seq<seq<int>>, dequant: seq<nat>) returns (ok: bool, result: seq<seq<int>>)
    requires Encodable(blocks, 0) && |dequant| == 64 && forall i :: 0 <= i < |blocks| ==> |blocks[i]| == 64
    ensures ok <==> LevelsFit(blocks, dequant)
    ensures ok ==> result == AllRestored(blocks, dequant)
  {
    hide Codes, SameTables, Words, NrCodes, Symbols, Encodable, LevelsFit, AllRestored, Accepted, Huffman.Represents, Sizes;
    StandardAccepted(Dc(chroma));
    StandardAccepted(Ac(chroma));
    var okDc, hdc := ReadTable(NrCodes(Dc(chroma)), Symbols(Dc(chroma)));
    var okAc, hac := ReadTable(NrCodes(Ac(chroma)), Symbols(Ac(chroma)));
    assert okDc && okAc;
    ghost var dc, ac := HuffCode(NrCodes(Dc(chroma)), hdc.values), HuffCode(NrCodes(Ac(chroma)), hac.values);
    StandardTables(chroma, dc, ac);
    FastBounded(hac, ac.count);
    var fac := BuildFastAc(hac);
    ok, result := EncodeAndDecode(blocks, Words(Dc(chroma)), Words(Ac(chroma)), hdc, hac, fac, dequant, dc, ac);
  }

  lemma FastBounded(h: Huffman, count: Counts)
    requires h.Shaped() && h.Represents(count)
    ensures forall i :: 0 <= i < 512 ==> h.fast[i] <= 255
  {
  }

  lemma NoneYet(rest: Option<seq<seq<int>>>)
    ensures Appended([], rest) == rest
  {
    if rest.Some? {
      assert [] + rest.value == rest.value;
    }
  }

  lemma NoneLeft(done: seq<seq<int>>, z: JState, pred: int, dc: HuffCode, ac: HuffCode, dequant: seq<nat>)
    requires z.Valid() && dc.Valid() && ac.Valid() && |dequant| == 64
    ensures Appended(done, DecodeBlocks(z, pred, 0, dc, ac, dequant)) == Some(done)
  {
    assert done + [] == done;
  }

  ghost function Appended(done: seq<seq<int>>, rest: Option<seq<seq<int>>>): Option<seq<seq<int>>> {
    if rest.None? then None else Some(done + rest.value)
  }

  lemma DecodeOne(done: seq<seq<int>>, z: JState, pred: int, n: nat, dc: HuffCode, ac: HuffCode, dequant: seq<nat>)
    requires z.Valid() && dc.Valid() && ac.Valid() && |dequant| == 64 && n > 0
    ensures var one := DecodeBlock(z, pred, dc, ac, dequant);
      Appended(done, DecodeBlocks(z, pred, n, dc, ac, dequant)) ==
        if one.None? then None
        else Appended(done + [one.value.0], DecodeBlocks(one.value.2, one.value.1, n - 1, dc, ac, dequant))
  {
    hide DecodeBlock, HuffCode.Valid;
    var one := DecodeBlock(z, pred, dc, ac, dequant);
    if one.Some? {
      var rest := DecodeBlocks(one.value.2, one.value.1, n - 1, dc, ac, dequant);
      if rest.Some? {
        assert done + ([one.value.0] + rest.value) == done + [one.value.0] + rest.value;
      }
    }
  }
}
