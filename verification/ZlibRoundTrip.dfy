/** The compressor and the inflater against each other. */
module ZlibRoundTrip {
  import opened Bits
  import opened BitFields
  import opened InflateSpec
  import opened Wrappers
  import opened DeflateSpec
  import opened DeflateRoundTrip
  import opened DeflateStream
  import opened DeflateAccepted
  import opened Adler
  import opened Deflater
  import opened Inflater

  /** The header the compressor writes is accepted. */
  lemma HeaderAccepted(body: seq<byte>, out: seq<byte>)
    requires |body| > 0 && out == [0x78, 0x5E] + body
    ensures HeaderOk(out) && Start(out, true) == ByteState(body)
  {
    assert out[0] == 0x78 && out[1] == 0x5E;
    assert out[2..] == body;
  }

  /** Whatever the compressor writes for non-empty data inflates to that data. */
  lemma InflateCompressed(data: seq<byte>, tokens: seq<Token>, deflated: seq<byte>, out: seq<byte>, cap: nat, expandable: bool)
    requires IsCompressed(data, tokens, deflated, out) && data != []
    requires cap <= UINT_MAX && (expandable ==> cap > 0) && CanHold(Output([], cap, expandable), |data|)
    ensures Inflate(out, cap, expandable, true) == Some(data)
  {
    hide Blocks, FixedFields, StoredBlocks, AdlerA, AdlerB, AdlerBytes, Packed, Expands, CanHold, HeaderOk, ByteState;
    var after := AdlerBytes(AdlerA(data), AdlerB(data));
    var o := Output([], cap, expandable);
    assert [] + data == data;
    if 2 + |deflated| > StoredSize(|data|) {
      StoredInflates(data, after, o, |data|);
      assert out == [0x78, 0x5E] + (StoredBlocks(data) + after);
      HeaderAccepted(StoredBlocks(data) + after, out);
    } else {
      FixedInflates(deflated, tokens, data, after, o);
      assert out == [0x78, 0x5E] + (deflated + after);
      HeaderAccepted(deflated + after, out);
    }
  }

  /** What the compressor writes is a stream of blocks of RFC 1951 that make the data. */
  lemma CompressedSpells(data: seq<byte>, tokens: seq<Token>, deflated: seq<byte>, out: seq<byte>)
    returns (segs: seq<Segment>, tail: nat)
    requires IsCompressed(data, tokens, deflated, out) && data != [] && |data| <= UINT_MAX
    ensures Spells(out, segs, tail, data)
  {
    hide IsCompressed, Inflate, Spells;
    InflateCompressed(data, tokens, deflated, out, |data|, false);
    segs, tail := InflatedSpells(out, |data|, false, data);
  }

  lemma EmptyWidth()
    ensures Width(FixedFields([])) == 10
  {
    hide Stream, Width, SymbolField;
    FixedStream([], 0);
    assert BlockFields([]) == [SymbolField(256)] by {
      assert TokenFields([]) == [];
    }
    OneField(SymbolField(256), 0);
    EndWidth();
  }

  lemma EndWidth()
    ensures SymbolField(256).width == 7
  {
    hide Rev;
  }

  /** Empty data has one compressed form: a header and a checksum with no block. */
  lemma EmptyForm(tokens: seq<Token>, deflated: seq<byte>, out: seq<byte>)
    requires IsCompressed([], tokens, deflated, out)
    ensures out == [0x78, 0x5E, 0, 0, 0, 1]
  {
    hide Width, Stream, LE, FixedFields, StoredBlocks;
    if tokens != [] {
      ExpandsGrows(tokens[1..], tokens[0].Apply([]), []);
    }
    EmptyWidth();
    assert StoredBlocks([]) == [];
    assert AdlerBytes(1, 0) == [0, 0, 0, 1];
  }

  /** Three zero bits announce a stored block whose length check fails. */
  lemma EmptyRejected(cap: nat, expandable: bool)
    requires cap <= UINT_MAX && (expandable ==> cap > 0)
    ensures Inflate([0x78, 0x5E, 0, 0, 0, 1], cap, expandable, true) == None
  {
    var s: seq<byte> := [0, 0, 0, 1];
    HeaderAccepted(s, [0x78, 0x5E, 0, 0, 0, 1]);
    var v := LE(s);
    EmptyBody(s);
    hide LE, Low, Shr, HeaderOk, Doubled;
    NoBlock(v, Output([], cap, expandable));
  }

  lemma EmptyBody(s: seq<byte>)
    requires s == [0, 0, 0, 1]
    ensures var v := LE(s);
      && Low(v, 1) == 0 && Low(Shr(v, 1), 2) == 0 && Shr(Shr(Shr(v, 1), 2), 5) == Shr(v, 8)
      && Low(Shr(v, 8), 16) == 0 && Low(Shr(Shr(v, 8), 16), 16) == 1
  {
    hide Low, Shr, LE;
    FirstByte(s);
    TwoBytes(s[1..], [1]);
    OneIsOne();
    Pow2Values();
    LowOfSmall(1, 16);
    ShrAdd(LE(s), 1, 2);
    ShrAdd(LE(s), 3, 5);
  }

  lemma OneIsOne()
    ensures LE([1]) == 1
  {
    assert [1][1..] == [];
    assert LE([]) == 0;
  }

  lemma NoBlock(v: nat, o: Output)
    requires Low(v, 1) == 0 && Low(Shr(v, 1), 2) == 0 && Shr(Shr(Shr(v, 1), 2), 5) == Shr(v, 8)
    requires Low(Shr(v, 8), 16) == 0 && Low(Shr(Shr(v, 8), 16), 16) == 1
    requires o.Valid()
    ensures Blocks(BitState(v, 0, 4, false), o) == None
  {
    hide Low, Shr, HuffmanBlock, Doubled, DynamicCodes, TakeBytes;
    var z1 := Receive(BitState(v, 0, 4, false), 1).1;
    var z2 := Receive(z1, 2).1;
    assert z2.nb == 29;
    assert StoredBlock(z2, o) == None;
  }

  /** Inflating what was compressed gives the data back exactly when there is data:
      for an empty input the compressor writes no block, and the inflater refuses. */
  lemma RoundTripExactly(data: seq<byte>, out: seq<byte>, cap: nat, expandable: bool)
    requires exists tokens, deflated :: IsCompressed(data, tokens, deflated, out)
    requires cap <= UINT_MAX && (expandable ==> cap > 0) && CanHold(Output([], cap, expandable), |data|)
    ensures Inflate(out, cap, expandable, true) == if data == [] then None else Some(data)
  {
    var tokens, deflated :| IsCompressed(data, tokens, deflated, out);
    if data == [] {
      EmptyForm(tokens, deflated, out);
      EmptyRejected(cap, expandable);
    } else {
      InflateCompressed(data, tokens, deflated, out, cap, expandable);
    }
  }

  /** The stored form bounds the size of every output. */
  lemma CompressedSize(data: seq<byte>, out: seq<byte>)
    requires exists tokens, deflated :: IsCompressed(data, tokens, deflated, out)
    ensures |out| <= StoredSize(|data|) + 4
  {
    var tokens, deflated :| IsCompressed(data, tokens, deflated, out);
  }

  /** Compress, then inflate into a buffer of any positive initial size. */
  method CompressAndInflate(data: seq<byte>, quality: int, initialSize: nat) returns (ok: bool, result: seq<byte>)
    requires |data| <= INT_MAX && 0 < initialSize <= INT_MAX
    ensures ok <==> data != []
    ensures ok ==> result == data
  {
    var out := ZlibCompress(data, quality);
    RoundTripExactly(data, out, initialSize, true);
    var z := new ZBuf(out, initialSize, true);
    ok := z.ParseZlib(true);
    result := z.zout;
  }
}
