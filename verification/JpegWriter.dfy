/** The JPEG writer's bit output, with byte stuffing (section F.1.2.3 of ITU-T T.81), and
    the entropy half of its block encoder. */
module JpegWriter {
  import opened Bits
  import opened BitFields
  import opened JpegBlock

  // --------------------------------------------------------------- byte stuffing

  /** A zero byte follows every byte of ones. */
  function Stuffed(s: seq<byte>): seq<byte> {
    if s == [] then []
    else Stuffed(s[..|s| - 1]) + (if s[|s| - 1] == 255 then [255, 0] else [s[|s| - 1]])
  }

  /** The bytes as the reader takes them off the stream, first bit lowest. */
  function Reversed(s: seq<byte>): (r: seq<byte>)
    ensures |r| == |s|
  {
    if s == [] then [] else [ReverseByte(s[0])] + Reversed(s[1..])
  }

  function ReverseByte(b: byte): (r: byte)
    ensures r == Rev(b, 8)
  {
    Pow2Values();
    Rev(b, 8)
  }

  lemma {:induction false} ReversedSnoc(s: seq<byte>, b: byte)
    ensures Reversed(s + [b]) == Reversed(s) + [ReverseByte(b)]
  {
    if s == [] {
      assert (s + [b])[1..] == [];
    } else {
      assert (s + [b])[1..] == s[1..] + [b];
      ReversedSnoc(s[1..], b);
    }
  }

  /** The first-bit-lowest value of a byte string. */
  function StreamOf(s: seq<byte>): nat {
    LE(Reversed(s))
  }

  lemma StreamOfSnoc(s: seq<byte>, b: byte)
    ensures StreamOf(s + [b]) == StreamOf(s) + Shl(Rev(b, 8), 8 * |s|)
  {
    hide Shl, LE, Rev;
    ReversedSnoc(s, b);
    LEAppend(Reversed(s), [ReverseByte(b)]);
    OneByte(ReverseByte(b));
  }

  lemma OneByte(b: byte)
    ensures LE([b]) == b
  {
    assert [b][1..] == [];
    assert LE([]) == 0;
  }

  // -------------------------------------------------------------- the bit buffer

  /** `g`'s low `n` bits are the pending bits `p`, the oldest on top. */
  predicate Pending(g: nat, p: nat, n: nat) {
    p < Pow2(n) && Low(g, n) == Rev(p, n)
  }

  /** Appending a code below the pending bits. */
  lemma AppendCode(g: nat, p: nat, n: nat, code: nat, len: nat)
    requires Pending(g, p, n) && code < Pow2(len)
    ensures Pending(Shl(g, len) + code, p + Shl(Rev(code, len), n), n + len)
  {
    hide Shl, Low, Rev, Pow2, Shr;
    PendingFits(p, n, Rev(code, len), len);
    PendingReversed(p, n, code, len);
    LowJoined(g, n, code, len);
  }

  lemma PendingFits(p: nat, n: nat, w: nat, len: nat)
    requires p < Pow2(n) && w < Pow2(len)
    ensures p + Shl(w, n) < Pow2(n + len)
  {
    hide Shl, Pow2;
    ShlOrder(w + 1, Pow2(len), n);
    ShlSum(w, 1, n);
    ShlPow2(len, n);
    ShlPow2(0, n);
    SmallPowers();
  }

  lemma PendingReversed(p: nat, n: nat, code: nat, len: nat)
    requires p < Pow2(n) && code < Pow2(len)
    ensures Rev(p + Shl(Rev(code, len), n), n + len) == code + Pow2(len) * Rev(p, n)
  {
    hide Shl, Low, Rev, Pow2, Shr;
    var w := Rev(code, len);
    var v := Join(p, n, w);
    ReadField(p, n, w);
    RevSplit(v, n, len);
    RevLow(v, n);
    RevInvolutive(code, len);
    LowOfSmall(code, len);
  }

  lemma LowJoined(g: nat, n: nat, code: nat, len: nat)
    requires code < Pow2(len)
    ensures Low(Shl(g, len) + code, len + n) == code + Pow2(len) * Low(g, n)
  {
    ShlIsProduct(g, len);
    LowShrUnique(Shl(g, len) + code, len, g, code);
    LowAdd(Shl(g, len) + code, len, n);
  }

  /** The oldest byte of the pending bits. */
  lemma OldestByte(g: nat, p: nat, n: nat)
    requires Pending(g, p, n) && n >= 8
    ensures Low(Shr(g, n - 8), 8) == Rev(p, 8) && Pending(g, Shr(p, 8), n - 8)
    ensures p == Low(p, 8) + 256 * Shr(p, 8)
  {
    var m := n - 8;
    RevSplit(p, 8, m);
    LowShrUnique(Rev(p, n), m, Rev(p, 8), Rev(Shr(p, 8), m));
    ShrOfLow(g, m, 8);
    LowLow(g, m, n);
    JoinSplit(p, n, 0, 8);
    ShlZero(n);
    LowShr(p, 8);
    Pow2Values();
  }

  /** The stream so far: whole bytes `plain`, then the pending bits `p`. */
  predicate Written(fields: seq<Field>, plain: seq<byte>, p: nat, n: nat) {
    Stream(fields, 0) == Join(StreamOf(plain), 8 * |plain|, p) && Width(fields) == 8 * |plain| + n
  }

  lemma WriteField(fields: seq<Field>, plain: seq<byte>, p: nat, n: nat, f: Field)
    requires Written(fields, plain, p, n)
    ensures Written(fields + [f], plain, p + Shl(f.value, n), n + f.width)
  {
    hide Shl, StreamOf;
    StreamConcat(fields, [f], 0);
    OneField(f, 0);
    ShlZero(f.width);
    StreamTail(fields, f.value);
    ShlSum(p, Shl(f.value, n), 8 * |plain|);
    ShlAdd(f.value, n, 8 * |plain|);
  }

  lemma WriteByte(fields: seq<Field>, plain: seq<byte>, p: nat, n: nat, b: byte)
    requires Written(fields, plain, p, n) && n >= 8 && b == Rev(p, 8) && p == Low(p, 8) + 256 * Shr(p, 8)
    ensures Written(fields, plain + [b], Shr(p, 8), n - 8)
  {
    hide Shl, StreamOf, Low, Shr, Rev, Stream, Width;
    var m, hi := 8 * |plain|, Shr(p, 8);
    StreamOfSnoc(plain, b);
    RevInvolutive(p, 8);
    ShlSum(Low(p, 8), 256 * hi, m);
    ShlByte(hi);
    ShlAdd(hi, 8, m);
  }

  lemma StuffedSnoc(s: seq<byte>, b: byte)
    ensures Stuffed(s + [b]) == Stuffed(s) + (if b == 255 then [255, 0] else [b])
  {
    assert (s + [b])[..|s|] == s;
  }

  /** The bit buffer and the bytes written so far. */
  class Sink {
    var out: seq<byte>
    var bitBuf: nat
    var bitCnt: nat
    ghost var Plain: seq<byte>
    ghost var Fields: seq<Field>
    ghost var Rest: nat
    ghost var G: nat

    constructor ()
      ensures Valid() && Fields == [] && out == []
    {
      out, bitBuf, bitCnt := [], 0, 0;
      Plain, Fields, Rest, G := [], [], 0, 0;
      new;
      Empty();
    }

    lemma Empty()
      requires out == [] && bitBuf == 0 && bitCnt == 0 && Plain == [] && Fields == [] && Rest == 0 && G == 0
      ensures Valid()
    {
      ShlZero(24);
      SmallPowers();
    }

    /** The bytes are the stuffed whole bytes of the fields, the buffer the bits that remain. */
    ghost predicate Holding()
      reads this
    {
      && bitCnt <= 24 && bitBuf == Shl(G, 24 - bitCnt) && Pending(G, Rest, bitCnt)
      && out == Stuffed(Plain) && Written(Fields, Plain, Rest, bitCnt) && AllValid(Fields)
    }

    ghost predicate Valid()
      reads this
    {
      Holding() && bitCnt < 8
    }

    /** Appends a code of `len` bits. */
    method WriteBits(code: nat, len: nat)
      requires Valid() && code < Pow2(len) && len <= 16
      modifies this
      ensures Valid() && Fields == old(Fields) + [Field(Rev(code, len), len)]
    {
      hide Shl, Low, Rev, Pow2, Shr, Pending, Written, Stuffed, BitOr, AllValid;
      OneMore(Fields, Field(Rev(code, len), len));
      AppendCode(G, Rest, bitCnt, code, len);
      WriteField(Fields, Plain, Rest, bitCnt, Field(Rev(code, len), len));
      OrCode(G, code, len, 24 - (bitCnt + len));
      bitCnt := bitCnt + len;
      bitBuf := BitOr(Shl(code, 24 - bitCnt), bitBuf);
      Rest := Rest + Shl(Rev(code, len), bitCnt - len);
      Fields := Fields + [Field(Rev(code, len), len)];
      G := Shl(G, len) + code;
      while bitCnt >= 8
        invariant Holding() && Fields == old(Fields) + [Field(Rev(code, len), len)]
      {
        OldestByte(G, Rest, bitCnt);
        TopByte(G, bitCnt);
        var c := LowByte(Shr(bitBuf, 16));
        WriteByte(Fields, Plain, Rest, bitCnt, c);
        StuffedSnoc(Plain, c);
        ShlAdd(G, 24 - bitCnt, 8);
        out := out + [c];
        if c == 255 {
          out := out + [0];
        }
        bitBuf := Shl(bitBuf, 8);
        bitCnt := bitCnt - 8;
        Plain := Plain + [c];
        Rest := Shr(Rest, 8);
        assert out == Stuffed(Plain);
      }
    }
  }

  lemma OneMore(fields: seq<Field>, f: Field)
    requires AllValid(fields) && f.Valid()
    ensures AllValid(fields + [f])
  {
  }

  /** Or-ing a code in below what is there appends it. */
  lemma OrCode(g: nat, code: nat, len: nat, m: nat)
    requires code < Pow2(len)
    ensures BitOr(Shl(code, m), Shl(g, len + m)) == Shl(Shl(g, len) + code, m)
  {
    hide Shl, Pow2, BitOr;
    ShlOrder(code + 1, Pow2(len), m);
    ShlSum(code, 1, m);
    ShlPow2(len, m);
    ShlPow2(0, m);
    SmallPowers();
    Pow2Positive(m);
    OrAbove(Shl(code, m), g, len + m);
    ShlAdd(g, len, m);
    ShlSum(Shl(g, len), code, m);
  }

  lemma Pow2Positive(m: nat)
    ensures Pow2(m) > 0
  {
  }

  lemma TopByte(g: nat, n: nat)
    requires 8 <= n <= 24
    ensures Shr(Shl(g, 24 - n), 16) == Shr(g, n - 8)
  {
    hide Shl, Shr;
    ShrOfShl(g, 24 - n, n - 8);
  }

  // -------------------------------------------------------------- the block encoder

  /** Every code fits its length. */
  predicate Codes(ht: CodeTable) {
    forall sym: byte :: ht[sym].0 < Pow2(ht[sym].1) && ht[sym].1 <= 16
  }

  method WriteCode(s: Sink, ht: CodeTable, sym: byte)
    requires s.Valid() && Codes(ht)
    modifies s
    ensures s.Valid() && s.Fields == old(s.Fields) + [CodeField(ht, sym)]
  {
    s.WriteBits(ht[sym].0, ht[sym].1);
  }

  method WriteMagnitude(s: Sink, bits: nat, n: nat, ghost val: int)
    requires s.Valid() && val != 0 && n == BitLength(Abs(val)) <= 16 && bits == Low(MagnitudeBits(val), n)
    modifies s
    ensures s.Valid() && s.Fields == old(s.Fields) + [MagnitudeField(val)]
  {
    LowShr(MagnitudeBits(val), n);
    RevLow(MagnitudeBits(val), n);
    s.WriteBits(bits, n);
  }

  /** Emits the DC difference. */
  method EncodeDC(s: Sink, diff: int, htdc: CodeTable)
    requires s.Valid() && Codes(htdc) && Abs(diff) < 0x800
    modifies s
    ensures s.Valid() && BitLength(Abs(diff)) <= 11 && s.Fields == old(s.Fields) + DcFields(diff, htdc)
  {
    hide Codes, CodeField, MagnitudeField, BitLength;
    DcSize(diff);
    if diff == 0 {
      WriteCode(s, htdc, 0);
    } else {
      var bits, n := CalcBits(diff);
      WriteCode(s, htdc, n);
      WriteMagnitude(s, bits, n, diff);
      assert old(s.Fields) + [CodeField(htdc, n)] + [MagnitudeField(diff)] == old(s.Fields) + DcFields(diff, htdc);
    }
  }

  /** The code for sixteen zeros, `n` times. */
  method WriteZeroMarks(s: Sink, n: nat, htac: CodeTable)
    requires s.Valid() && Codes(htac)
    modifies s
    ensures s.Valid() && s.Fields == old(s.Fields) + ZeroMarks(n, htac)
  {
    hide Codes, CodeField;
    var k := 0;
    while k < n
      invariant k <= n && s.Valid()
      invariant s.Fields + ZeroMarks(n - k, htac) == old(s.Fields) + ZeroMarks(n, htac)
    {
      WriteCode(s, htac, 0xF0);
      k := k + 1;
    }
    assert s.Fields + ZeroMarks(0, htac) == s.Fields;
  }

  /** The entropy half of the block encoder: the coefficients are in zigzag order. */
  method ProcessDU(s: Sink, du: seq<int>, pred: int, htdc: CodeTable, htac: CodeTable) returns (dc: int)
    requires s.Valid() && Codes(htdc) && Codes(htac) && AcInRange(du) && Abs(du[0] - pred) < 0x800
    modifies s
    ensures s.Valid() && dc == du[0] && s.Fields == old(s.Fields) + BlockFields(du, pred, htdc, htac)
  {
    hide Codes, CodeField, DcFields, AcFields, MagnitudeField, BitLength, ZeroRun;
    dc := du[0];
    EncodeDC(s, du[0] - pred, htdc);
    ghost var start := s.Fields;
    var end0pos := 63;
    while end0pos > 0 && du[end0pos] == 0
      invariant end0pos <= 63 && LastNonZero(du, end0pos) == LastNonZero(du, 63)
    {
      end0pos := end0pos - 1;
    }
    ghost var end := LastNonZero(du, 63);
    assert end0pos == end;
    if end0pos == 0 {
      WriteCode(s, htac, 0);
      NoCoefficients(du, htac);
      assert s.Fields == start + (AcFields(du, 1, end, htac) + EndFields(end, htac));
      return;
    }
    EncodeAC(s, du, end0pos, htac);
    if end0pos != 63 {
      WriteCode(s, htac, 0);
    }
    assert s.Fields == start + (AcFields(du, 1, end, htac) + EndFields(end, htac));
  }

  lemma NoCoefficients(du: seq<int>, htac: CodeTable)
    requires AcInRange(du)
    ensures AcFields(du, 1, 0, htac) == []
  {
  }

  /** Moves over the zeros before the next coefficient. */
  method SkipZeros(du: seq<int>, startpos: nat, end0pos: nat) returns (i: nat)
    requires |du| == 64 && startpos <= end0pos < 64 && du[end0pos] != 0
    ensures i == startpos + ZeroRun(du, startpos) && i <= end0pos
  {
    RunEnds(du, startpos, end0pos);
    i := startpos;
    while du[i] == 0 && i <= end0pos
      invariant startpos <= i <= end0pos && i + ZeroRun(du, i) == startpos + ZeroRun(du, startpos)
      decreases end0pos - i
    {
      i := i + 1;
    }
  }

  /** Emits a run of zeros and the coefficient `i` after it. */
  method EncodeCoefficient(s: Sink, du: seq<int>, startpos: nat, i: nat, htac: CodeTable)
    requires s.Valid() && Codes(htac) && AcInRange(du) && 1 <= startpos <= i < 64 && du[i] != 0
    modifies s
    ensures s.Valid()
    ensures s.Fields == old(s.Fields) + ZeroMarks((i - startpos) / 16, htac)
      + [CodeField(htac, RunSize(du, (i - startpos) % 16, i))] + [MagnitudeField(du[i])]
  {
    hide Codes, CodeField, MagnitudeField, BitLength, ZeroMarks, MagnitudeBits;
    var nrzeroes := i - startpos;
    NoMarks(htac);
    if nrzeroes >= 16 {
      WriteZeroMarks(s, nrzeroes / 16, htac);
      nrzeroes := nrzeroes % 16;
    }
    AcSize(du, i);
    var bits, n := CalcBits(du[i]);
    assert nrzeroes * 16 + n == RunSize(du, nrzeroes, i);
    WriteCode(s, htac, nrzeroes * 16 + n);
    WriteMagnitude(s, bits, n, du[i]);
  }

  method EncodeAC(s: Sink, du: seq<int>, end0pos: nat, htac: CodeTable)
    requires s.Valid() && Codes(htac) && AcInRange(du) && 1 <= end0pos < 64 && du[end0pos] != 0
    modifies s
    ensures s.Valid() && s.Fields == old(s.Fields) + AcFields(du, 1, end0pos, htac)
  {
    hide Codes, CodeField, MagnitudeField, BitLength, ZeroMarks, ZeroRun, RunSize, AcFields;
    var i := 1;
    while i <= end0pos
      invariant 1 <= i <= end0pos + 1 && s.Valid()
      invariant s.Fields + AcFields(du, i, end0pos, htac) == old(s.Fields) + AcFields(du, 1, end0pos, htac)
      decreases end0pos + 1 - i
    {
      ghost var startpos, was := i, s.Fields;
      var k := i;
      i := SkipZeros(du, k, end0pos);
      EncodeCoefficient(s, du, k, i, htac);
      Emitted(was, s.Fields, du, startpos, i, end0pos, htac, (i - startpos) / 16, RunSize(du, (i - startpos) % 16, i));
      i := i + 1;
    }
    NoneLeft(du, i, end0pos, htac);
    assert s.Fields + [] == s.Fields;
  }

  lemma NoneLeft(du: seq<int>, i: nat, end: nat, htac: CodeTable)
    requires AcInRange(du) && 1 <= end < i && end < 64
    ensures AcFields(du, i, end, htac) == []
  {
  }

  lemma NoMarks(htac: CodeTable)
    ensures ZeroMarks(0, htac) == []
  {
  }

  lemma Emitted(was: seq<Field>, now: seq<Field>, du: seq<int>, k: nat, i: nat, end: nat, htac: CodeTable, marks: nat, rs: byte)
    requires AcInRange(du) && 1 <= k <= i <= end < 64 && du[end] != 0 && i == k + ZeroRun(du, k) && marks == (i - k) / 16
    requires rs == RunSize(du, (i - k) % 16, i)
    requires now == was + ZeroMarks(marks, htac) + [CodeField(htac, rs)] + [MagnitudeField(du[i])]
    ensures now + AcFields(du, i + 1, end, htac) == was + AcFields(du, k, end, htac)
  {
    hide CodeField, MagnitudeField, BitLength, ZeroMarks, RunSize, ZeroRun;
    assert now + AcFields(du, i + 1, end, htac) == was + (ZeroMarks(marks, htac)
      + ([CodeField(htac, rs), MagnitudeField(du[i])] + AcFields(du, i + 1, end, htac)));
  }
}
