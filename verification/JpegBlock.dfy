/** What the JPEG writer emits for a block, and decoding it. */
module JpegBlock {
  import opened Bits
  import opened BitFields
  import opened CanonicalCode
  import opened Wrappers
  import opened JpegHuffman
  import opened JpegSpec
  import opened JpegAc

  // --------------------------------------------------------------- magnitudes

  /** The number of bits of `a`, at least one. */
  function BitLength(a: nat): (n: nat)
    ensures n >= 1
  {
    if a < 2 then 1 else 1 + BitLength(a / 2)
  }

  lemma {:induction false} BitLengthBounds(a: nat)
    requires a > 0
    ensures Pow2(BitLength(a) - 1) <= a < Pow2(BitLength(a))
  {
    if a >= 2 {
      BitLengthBounds(a / 2);
    } else {
      assert Pow2(0) == 1;
    }
  }

  lemma {:induction false} BitLengthSmall(a: nat, n: nat)
    requires n > 0 && a < Pow2(n)
    ensures BitLength(a) <= n
  {
    assert Pow2(0) == 1;
    if a >= 2 {
      BitLengthSmall(a / 2, n - 1);
    }
  }

  /** The low bits of `val`, or of `val - 1` when it is negative. */
  function MagnitudeBits(val: int): (r: nat)
  {
    var n := BitLength(Abs(val));
    MagnitudeRange(val);
    if val < 0 then val - 1 + Pow2(n) else val
  }

  lemma MagnitudeRange(val: int)
    ensures val < 0 ==> 0 <= val - 1 + Pow2(BitLength(Abs(val)))
  {
    if val < 0 {
      BitLengthBounds(Abs(val));
    }
  }

  /** Size category and bits, as the writer computes them. */
  method CalcBits(val: int) returns (bits: nat, n: nat)
    ensures n == BitLength(Abs(val)) && bits == Low(MagnitudeBits(val), n)
  {
    var tmp1 := Abs(val);
    var v := if val < 0 then val - 1 else val;
    n := 1;
    tmp1 := tmp1 / 2;
    assert Abs(val) / 2 == tmp1;
    while tmp1 != 0
      invariant n >= 1 && BitLength(Abs(val)) == if tmp1 == 0 then n else n + BitLength(tmp1)
    {
      n := n + 1;
      tmp1 := tmp1 / 2;
    }
    MagnitudeRange(val);
    bits := Low(if val < 0 then v + Pow2(n) else v, n);
  }

  function MagnitudeField(val: int): (f: Field)
    ensures f.Valid() && f.width == BitLength(Abs(val))
  {
    Field(Rev(MagnitudeBits(val), BitLength(Abs(val))), BitLength(Abs(val)))
  }

  /** Extending the magnitude bits of a non-zero value gives the value back. */
  lemma ExtendMagnitude(val: int, rest: nat)
    requires val != 0
    ensures var f := MagnitudeField(val); Extend(Join(f.value, f.width, rest), f.width) == val
  {
    var n, m := BitLength(Abs(val)), MagnitudeBits(val);
    BitLengthBounds(Abs(val));
    var w := Rev(m, n);
    var v := Join(w, n, rest);
    ReadField(w, n, rest);
    RevLow(v, n);
    RevInvolutive(m, n);
    LowOfSmall(m, n);
    LeadingBit(w, n);
    LeadingBit(v, n);
    assert Pow2(n) == 2 * Pow2(n - 1);
  }

  // -------------------------------------------------------------- what is emitted

  /** The writer's table: a code and its length for every symbol. */
  type CodeTable = t: seq<(nat, nat)> | |t| == 256 witness seq(256, _ => (0, 0))

  function CodeField(ht: CodeTable, sym: byte): Field {
    Field(Rev(ht[sym].0, ht[sym].1), ht[sym].1)
  }

  /** The size category of a difference. */
  function DcSymbol(diff: int): (t: byte)
    requires BitLength(Abs(diff)) < 256
  {
    if diff == 0 then 0 else BitLength(Abs(diff))
  }

  function DcFields(diff: int, ht: CodeTable): seq<Field>
    requires BitLength(Abs(diff)) < 256
  {
    if diff == 0 then [CodeField(ht, 0)] else [CodeField(ht, BitLength(Abs(diff))), MagnitudeField(diff)]
  }

  /** How many zeros there are from position `i` on. */
  function ZeroRun(du: seq<int>, i: nat): (z: nat)
    requires i <= |du|
    ensures i + z <= |du| && (forall k :: i <= k < i + z ==> du[k] == 0) && (i + z < |du| ==> du[i + z] != 0)
    decreases |du| - i
  {
    if i < |du| && du[i] == 0 then 1 + ZeroRun(du, i + 1) else 0
  }

  /** The last non-zero position, or 0. */
  function LastNonZero(du: seq<int>, k: nat): (e: nat)
    requires k < |du|
    ensures e <= k && (e > 0 ==> du[e] != 0) && forall i :: e < i <= k ==> du[i] == 0
  {
    if k > 0 && du[k] == 0 then LastNonZero(du, k - 1) else k
  }

  function ZeroMarks(n: nat, ht: CodeTable): seq<Field> {
    if n == 0 then [] else [CodeField(ht, 0xF0)] + ZeroMarks(n - 1, ht)
  }

  /** Coefficients that the run/size symbols can express. */
  predicate AcInRange(du: seq<int>) {
    |du| == 64 && forall i :: 1 <= i < 64 ==> Abs(du[i]) < 0x400
  }

  lemma AcSize(du: seq<int>, i: nat)
    requires AcInRange(du) && 1 <= i < 64
    ensures 1 <= BitLength(Abs(du[i])) <= 10
  {
    assert Pow2(10) == 0x400 by {
      Pow2Add(8, 2);
      Pow2Values();
    }
    BitLengthSmall(Abs(du[i]), 10);
  }

  function RunSize(du: seq<int>, run: nat, i: nat): (rs: byte)
    requires AcInRange(du) && 1 <= i < 64 && run < 16
    ensures rs / 16 == run && rs % 16 == BitLength(Abs(du[i])) && 1 <= rs % 16 <= 10
  {
    AcSize(du, i);
    run * 16 + BitLength(Abs(du[i]))
  }

  /** The coefficients from `i` to the last non-zero one. */
  function AcFields(du: seq<int>, i: nat, end: nat, ht: CodeTable): seq<Field>
    requires AcInRange(du) && 1 <= i && end < 64 && (i <= end ==> du[end] != 0)
    decreases 64 - i
  {
    if i > end then []
    else
      var z := ZeroRun(du, i);
      RunEnds(du, i, end);
      ZeroMarks(z / 16, ht) + ([CodeField(ht, RunSize(du, z % 16, i + z)), MagnitudeField(du[i + z])]
        + AcFields(du, i + z + 1, end, ht))
  }

  lemma RunEnds(du: seq<int>, i: nat, end: nat)
    requires i <= end < |du| && du[end] != 0
    ensures i + ZeroRun(du, i) <= end
  {
    var z := ZeroRun(du, i);
  }

  /** The end-of-block symbol is written unless the last coefficient is not zero. */
  function EndFields(end: nat, ht: CodeTable): seq<Field> {
    if end != 63 then [CodeField(ht, 0)] else []
  }

  /** The emitted bits of a block. */
  function BlockFields(du: seq<int>, pred: int, htdc: CodeTable, htac: CodeTable): seq<Field>
    requires AcInRange(du) && Abs(du[0] - pred) < 0x800
  {
    DcSize(du[0] - pred);
    var end := LastNonZero(du, 63);
    DcFields(du[0] - pred, htdc)
      + (AcFields(du, 1, end, htac) + EndFields(end, htac))
  }

  lemma DcSize(diff: int)
    requires Abs(diff) < 0x800
    ensures 1 <= BitLength(Abs(diff)) <= 11
  {
    assert Pow2(11) == 0x800 by {
      Pow2Add(8, 3);
      Pow2Values();
    }
    BitLengthSmall(Abs(diff), 11);
  }

  // ------------------------------------------------------------- reading it back

  /** The writer's code for `sym` is the reader's, and the reader finds it. */
  ghost predicate Agrees(ht: CodeTable, code: HuffCode, sym: byte) {
    exists i: nat :: i < |code.Lens()| && i < |code.values| && code.values[i] == sym
      && ht[sym] == (Code(code.Lens(), i), code.Lens()[i]) && (i < 255 || code.Lens()[i] > FAST_BITS)
  }

  /** Every symbol the writer can emit has the same code on both sides. */
  ghost predicate SameTables(htdc: CodeTable, htac: CodeTable, dc: HuffCode, ac: HuffCode) {
    && dc.Valid() && ac.Valid()
    && (forall t: byte :: t <= 11 ==> Agrees(htdc, dc, t)) && AcTable(htac, ac)
  }

  ghost predicate AcTable(htac: CodeTable, ac: HuffCode) {
    && Agrees(htac, ac, 0) && Agrees(htac, ac, 0xF0)
    && (forall rs: byte :: 1 <= rs % 16 <= 10 ==> Agrees(htac, ac, rs))
  }

  /** The stream continues with `fields`, all of whose bits are really there. */
  predicate Ahead(z: JState, fields: seq<Field>, tail: nat) {
    z.Valid() && z.rem == Stream(fields, tail) && z.Real() >= Width(fields)
  }

  lemma TakeField(z: JState, f: Field, more: seq<Field>, tail: nat, y: JState)
    requires Ahead(z, [f] + more, tail) && f.Valid() && y.Valid() && y.rem == z.rem
    requires y.Real() >= z.Real() && (y.nb >= f.width || y.left == 0)
    ensures f.width <= y.nb && Ahead(y.Consume(f.width), more, tail)
  {
    hide Shr, Low, Join;
    assert ([f] + more)[1..] == more;
    ReadField(f.value, f.width, Stream(more, tail));
  }

  /** A code is read as its symbol. */
  lemma ReadCode(z: JState, ht: CodeTable, code: HuffCode, sym: byte, more: seq<Field>, tail: nat) returns (w: JState)
    requires code.Valid() && Agrees(ht, code, sym) && Ahead(z, [CodeField(ht, sym)] + more, tail)
    ensures HuffDecode(z, code) == Some((sym, w)) && Ahead(w, more, tail) && w.Valid()
    ensures Symbol(code.Lens(), z.rem) >= 0 && code.Lens()[Symbol(code.Lens(), z.rem)] == ht[sym].1
  {
    hide Sizes, Shr, Rev, Join, FirstCode, EndCode;
    var i: nat :| i < |code.Lens()| && i < |code.values| && code.values[i] == sym
      && ht[sym] == (Code(code.Lens(), i), code.Lens()[i]) && (i < 255 || code.Lens()[i] > FAST_BITS);
    CodeFits(code.count, i);
    var f, y := CodeField(ht, sym), Need(z, 16);
    assert ([f] + more)[1..] == more;
    FrontSymbol(code, i, Stream(more, tail));
    TakeField(z, f, more, tail, y);
    w := y.Consume(f.width);
  }

  lemma FrontSymbol(code: HuffCode, i: nat, rest: nat)
    requires code.Valid() && i < |code.Lens()|
    ensures var s := code.Lens()[i];
      Symbol(code.Lens(), Join(Rev(Code(code.Lens(), i), s), s, rest)) == i
  {
    var lens := code.Lens();
    CodeFits(code.count, i);
    var s, c := lens[i], Code(lens, i);
    var v := Join(Rev(c, s), s, rest);
    ReadField(Rev(c, s), s, rest);
    RevLow(v, s);
    RevInvolutive(c, s);
    LowOfSmall(c, s);
    assert Matches(lens, i, v);
    PrefixFree(lens, i, Symbol(lens, v), v);
  }

  lemma ReadMagnitude(z: JState, val: int, n: nat, more: seq<Field>, tail: nat) returns (w: JState)
    requires val != 0 && n == BitLength(Abs(val)) <= 15 && Ahead(z, [MagnitudeField(val)] + more, tail)
    ensures ReceiveExtend(z, n) == (val, w) && Ahead(w, more, tail) && w.Valid()
  {
    hide Shr, Rev, Extend;
    var f, y := MagnitudeField(val), Need(z, n);
    assert ([f] + more)[1..] == more;
    ExtendMagnitude(val, Stream(more, tail));
    TakeField(z, f, more, tail, y);
    w := y.Consume(n);
  }

  lemma Settled(z: JState, fields: seq<Field>, tail: nat)
    requires Ahead(z, fields, tail)
    ensures Ahead(Need(z, 16), fields, tail)
  {
  }

  /** A symbol without magnitude is a run of sixteen zeros or the end of the block. */
  lemma ReadMark(z: JState, ht: CodeTable, code: HuffCode, sym: byte, more: seq<Field>, tail: nat) returns (w: JState)
    requires code.Valid() && Agrees(ht, code, sym) && Ahead(z, [CodeField(ht, sym)] + more, tail) && sym % 16 == 0
    ensures AcSymbol(z, code) == Some((if sym == 0xF0 then Zeros16 else End, w)) && Ahead(w, more, tail)
  {
    hide Sizes, Shr, Rev, Join, Symbol;
    var y := Need(z, 16);
    Settled(z, [CodeField(ht, sym)] + more, tail);
    w := ReadCode(y, ht, code, sym, more, tail);
    assert Need(y, 16).rem == y.rem;
  }

  /** A run/size symbol and its magnitude, decoded in one lookup or in two steps. */
  lemma ReadValue(z: JState, ht: CodeTable, code: HuffCode, rs: byte, val: int, more: seq<Field>, tail: nat) returns (w: JState)
    requires code.Valid() && Agrees(ht, code, rs) && val != 0 && rs % 16 == BitLength(Abs(val))
    requires Ahead(z, [CodeField(ht, rs), MagnitudeField(val)] + more, tail)
    ensures AcSymbol(z, code) == Some((Value(rs / 16, val), w)) && Ahead(w, more, tail)
  {
    hide Sizes, Shr, Rev, Join, Symbol, Extend, Stream, Width;
    var y := Need(z, 16);
    var c, m := CodeField(ht, rs), MagnitudeField(val);
    assert [c, m] + more == [c] + ([m] + more);
    Settled(z, [c, m] + more, tail);
    PairWidth(c, m, more);
    var x := ReadCode(y, ht, code, rs, [m] + more, tail);
    w := ReadMagnitude(x, val, rs % 16, more, tail);
    var fast := FastAc(code, y.rem);
    if fast.Some? {
      FastConsumes(y, x, code, rs, c, m, more, tail);
      w := y.Consume(fast.value.2);
    }
  }

  /** The single lookup consumes the same bits and yields the same value. */
  lemma FastConsumes(y: JState, x: JState, code: HuffCode, rs: byte, c: Field, m: Field, more: seq<Field>, tail: nat)
    requires y.Valid() && code.Valid() && FastAc(code, y.rem).Some? && HuffDecode(y, code) == Some((rs, x))
    requires m.Valid() && m.width == rs % 16 && c.width == code.Lens()[Symbol(code.Lens(), y.rem)]
    requires y.Real() >= c.width + m.width + Width(more) && (y.nb >= 16 || y.left == 0)
    requires x.rem == Stream([m] + more, tail)
    ensures var (run, v, total) := FastAc(code, y.rem).value;
      && run == rs / 16 && v == Extend(x.rem, rs % 16) && total <= y.nb
      && Ahead(y.Consume(total), more, tail)
  {
    hide Sizes, Rev, Join, Symbol, Extend;
    var total := FastAc(code, y.rem).value.2;
    var n := m.width;
    ShrAdd(y.rem, total - n, n);
    assert ([m] + more)[1..] == more;
    ReadField(m.value, n, Stream(more, tail));
  }

  lemma PairWidth(c: Field, m: Field, more: seq<Field>)
    ensures Width([c, m] + more) == c.width + m.width + Width(more)
  {
    StreamConcat([c, m], more, 0);
    assert [c, m][1..] == [m] && [m][1..] == [];
  }

  // ------------------------------------------------------------- whole blocks

  /** The dequantised block of coefficients given in zigzag order. */
  function Restored(du: seq<int>, dequant: seq<nat>): (b: seq<int>)
    requires |du| == 64 && |dequant| == 64
    ensures |b| == 64 && forall p :: 0 <= p < 64 ==> b[p] == Short(du[ZigZag(p)] * dequant[p])
  {
    seq(64, p requires 0 <= p < 64 => Short(du[ZigZag(p)] * dequant[p]))
  }

  /** The first `k` coefficients in zigzag order are in place, the others are zero. */
  predicate Holds(data: seq<int>, du: seq<int>, dequant: seq<nat>, k: nat)
    requires |du| == 64 && |dequant| == 64
  {
    && |data| == 64
    && forall p :: 0 <= p < 64 ==> data[p] == if ZigZag(p) < k then Short(du[ZigZag(p)] * dequant[p]) else 0
  }

  lemma HoldsZeros(data: seq<int>, du: seq<int>, dequant: seq<nat>, k: nat, n: nat)
    requires |du| == 64 && |dequant| == 64 && k <= n && Holds(data, du, dequant, k)
    requires forall i :: k <= i < n && i < 64 ==> du[i] == 0
    ensures Holds(data, du, dequant, n)
  {
    forall p | 0 <= p < 64
      ensures data[p] == if ZigZag(p) < n then Short(du[ZigZag(p)] * dequant[p]) else 0
    {
      assert du[ZigZag(p)] == 0 ==> Short(du[ZigZag(p)] * dequant[p]) == 0;
    }
  }

  lemma HoldsNext(data: seq<int>, du: seq<int>, dequant: seq<nat>, k: nat)
    requires |du| == 64 && |dequant| == 64 && k < 64 && Holds(data, du, dequant, k)
    ensures Holds(data[Zig(k) := Short(du[k] * dequant[Zig(k)])], du, dequant, k + 1)
  {
    hide Short, Zig, ZigZag;
    ZigZagInverse(k);
    forall p | 0 <= p < 64 && p != Zig(k) ensures ZigZag(p) != k {
      ZigZagInverse(p);
    }
  }

  lemma HoldsAll(data: seq<int>, du: seq<int>, dequant: seq<nat>)
    requires |du| == 64 && |dequant| == 64 && Holds(data, du, dequant, 64)
    ensures data == Restored(du, dequant)
  {
  }

  /** Runs of sixteen zeros move the position on and leave the block alone. */
  lemma {:induction false} ReadMarks(z: JState, htac: CodeTable, ac: HuffCode, dequant: seq<nat>, data: seq<int>, k: nat,
                                     n: nat, more: seq<Field>, tail: nat) returns (w: JState)
    requires ac.Valid() && Agrees(htac, ac, 0xF0) && |dequant| == 64 && |data| == 64 && k + 16 * n < 64
    requires Ahead(z, ZeroMarks(n, htac) + more, tail)
    ensures Ahead(w, more, tail) && AcRest(z, ac, dequant, data, k) == AcRest(w, ac, dequant, data, k + 16 * n)
    decreases n
  {
    hide AcSymbol, Stream, Width;
    if n == 0 {
      assert ZeroMarks(0, htac) + more == more;
      w := z;
    } else {
      var rest := ZeroMarks(n - 1, htac) + more;
      assert ZeroMarks(n, htac) + more == [CodeField(htac, 0xF0)] + rest;
      var y := ReadMark(z, htac, ac, 0xF0, rest, tail);
      w := ReadMarks(y, htac, ac, dequant, data, k + 16, n - 1, more, tail);
    }
  }

  /** One coefficient: the run before it, its symbol and its magnitude. */
  lemma AcStep(z: JState, htac: CodeTable, ac: HuffCode, du: seq<int>, dequant: seq<nat>,
               data: seq<int>, k: nat, run: nat, more: seq<Field>, tail: nat) returns (x: JState)
    requires ac.Valid() && Agrees(htac, ac, 0xF0) && AcInRange(du) && |dequant| == 64 && 1 <= k && |data| == 64
    requires k < 64 && run == ZeroRun(du, k) && k + run < 64 && Agrees(htac, ac, RunSize(du, run % 16, k + run))
    requires Ahead(z, ZeroMarks(run / 16, htac)
                      + ([CodeField(htac, RunSize(du, run % 16, k + run)), MagnitudeField(du[k + run])] + more), tail)
    ensures Ahead(x, more, tail)
    ensures var i := k + run; var next := data[Zig(i) := Short(du[i] * dequant[Zig(i)])];
      AcRest(z, ac, dequant, data, k) == if i + 1 < 64 then AcRest(x, ac, dequant, next, i + 1) else Some((next, x))
  {
    hide Stream, Width, AcSymbol, Agrees, ZeroRun, Short, Zig, RunSize, MagnitudeField, BitLength, HuffCode.Valid;
    var i := k + run;
    var rs := RunSize(du, run % 16, i);
    var pair := [CodeField(htac, rs), MagnitudeField(du[i])];
    var y := ReadMarks(z, htac, ac, dequant, data, k, run / 16, pair + more, tail);
    x := ReadValue(y, htac, ac, rs, du[i], more, tail);
  }

  /** Decoding the AC symbols from position `k` on restores the rest of the block. */
  lemma {:induction false} AcDecodes(z: JState, htac: CodeTable, ac: HuffCode, du: seq<int>, dequant: seq<nat>,
                                     data: seq<int>, k: nat, end: nat, more: seq<Field>, tail: nat) returns (w: JState)
    requires ac.Valid() && AcTable(htac, ac)
    requires AcInRange(du) && |dequant| == 64 && 1 <= k < 64 && k <= end + 1 && end == LastNonZero(du, 63)
    requires Holds(data, du, dequant, k) && Ahead(z, AcFields(du, k, end, htac) + (EndFields(end, htac) + more), tail)
    ensures AcRest(z, ac, dequant, data, k) == Some((Restored(du, dequant), w)) && Ahead(w, more, tail)
    decreases 64 - k
  {
    hide Stream, Width, AcSymbol, Agrees, Restored, Holds, ZeroRun, Short, Zig, MagnitudeField, BitLength, HuffCode.Valid;
    HoldsLength(data, du, dequant, k);
    if k > end {
      assert [] + (EndFields(end, htac) + more) == [CodeField(htac, 0)] + more;
      w := ReadMark(z, htac, ac, 0, more, tail);
      HoldsZeros(data, du, dequant, k, 64);
      HoldsAll(data, du, dequant);
    } else {
      hide AcRest;
      var run := ZeroRun(du, k);
      RunEnds(du, k, end);
      var i := k + run;
      var rest := AcFields(du, i + 1, end, htac) + (EndFields(end, htac) + more);
      var pair := [CodeField(htac, RunSize(du, run % 16, i)), MagnitudeField(du[i])];
      assert AcFields(du, k, end, htac) + (EndFields(end, htac) + more) == ZeroMarks(run / 16, htac) + (pair + rest);
      var x := AcStep(z, htac, ac, du, dequant, data, k, run, rest, tail);
      HoldsZeros(data, du, dequant, k, i);
      HoldsNext(data, du, dequant, i);
      var next := data[Zig(i) := Short(du[i] * dequant[Zig(i)])];
      if i + 1 < 64 {
        w := AcDecodes(x, htac, ac, du, dequant, next, i + 1, end, more, tail);
      } else {
        HoldsAll(next, du, dequant);
        assert rest == more;
        w := x;
      }
    }
  }

  lemma HoldsLength(data: seq<int>, du: seq<int>, dequant: seq<nat>, k: nat)
    requires |du| == 64 && |dequant| == 64 && Holds(data, du, dequant, k)
    ensures |data| == 64
  {
  }

  /** The DC symbol and its magnitude, if any. */
  lemma DcDecodes(z: JState, htdc: CodeTable, dc: HuffCode, diff: int, more: seq<Field>, tail: nat)
    returns (t: byte, y: JState, x: JState)
    requires dc.Valid() && BitLength(Abs(diff)) <= 15 && Agrees(htdc, dc, DcSymbol(diff))
    requires Ahead(z, DcFields(diff, htdc) + more, tail)
    ensures HuffDecode(z, dc) == Some((t, y)) && t <= 15 && y.Valid() && Ahead(x, more, tail)
    ensures (if t > 0 then ReceiveExtend(y, t) else (0, y)) == (diff, x)
  {
    hide Stream, Width, HuffDecode, Agrees, MagnitudeField;
    if diff == 0 {
      t := 0;
      y := ReadCode(z, htdc, dc, 0, more, tail);
      x := y;
    } else {
      t := BitLength(Abs(diff));
      assert DcFields(diff, htdc) + more == [CodeField(htdc, t)] + ([MagnitudeField(diff)] + more);
      y := ReadCode(z, htdc, dc, t, [MagnitudeField(diff)] + more, tail);
      x := ReadMagnitude(y, diff, t, more, tail);
    }
  }

  /** Decoding what the writer emits for a block restores every coefficient, whatever the
      runs of zeros and wherever the last coefficient stands; the reader refuses exactly
      when the DC level times its quantiser does not fit sixteen bits. */
  lemma BlockRoundTrip(z: JState, du: seq<int>, pred: int, htdc: CodeTable, htac: CodeTable, dc: HuffCode, ac: HuffCode,
                       dequant: seq<nat>, more: seq<Field>, tail: nat) returns (w: JState)
    requires SameTables(htdc, htac, dc, ac) && AcInRange(du) && Abs(du[0] - pred) < 0x800 && |dequant| == 64
    requires INT_MIN <= du[0] <= INT_MAX && Ahead(z, BlockFields(du, pred, htdc, htac) + more, tail)
    ensures ShortProduct(du[0], dequant[0]) ==>
      Ahead(w, more, tail) && DecodeBlock(z, pred, dc, ac, dequant) == Some((Restored(du, dequant), du[0], w))
    ensures !ShortProduct(du[0], dequant[0]) ==> DecodeBlock(z, pred, dc, ac, dequant) == None
  {
    hide Stream, Width, AcFields, AcRest, HuffDecode, ReceiveExtend, Restored, Holds, Short, Zig, Agrees, DcFields;
    var diff, end := du[0] - pred, LastNonZero(du, 63);
    DcSize(diff);
    var rest := AcFields(du, 1, end, htac) + (EndFields(end, htac) + more);
    assert BlockFields(du, pred, htdc, htac) + more == DcFields(diff, htdc) + rest;
    Settled(z, DcFields(diff, htdc) + rest, tail);
    var t, y, x := DcDecodes(Need(z, 16), htdc, dc, diff, rest, tail);
    w := x;
    if ShortProduct(du[0], dequant[0]) {
      FirstHolds(du, dequant);
      w := AcDecodes(x, htac, ac, du, dequant, ZeroBlock()[0 := Short(du[0] * dequant[0])], 1, end, more, tail);
    }
  }

  lemma FirstHolds(du: seq<int>, dequant: seq<nat>)
    requires |du| == 64 && |dequant| == 64
    ensures Holds(ZeroBlock()[0 := Short(du[0] * dequant[0])], du, dequant, 1)
  {
    forall p | 0 < p < 64 ensures ZigZag(p) != 0 {
      ZigZagInverse(p);
      assert Zig(0) == 0;
    }
    assert ZigZag(0) == 0;
  }
}
