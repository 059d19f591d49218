/** Baseline JPEG entropy decoding (sections F.2.2.1 and F.2.2.2 of ITU-T T.81) stated on
    the bit stream. As for DEFLATE, the unread stream is one number whose lowest bit is the
    next bit; a code or a magnitude is the reversal of its first bits. */
module JpegSpec {
  import opened Bits
  import opened CanonicalCode
  import opened Wrappers
  import opened JpegHuffman

  // ------------------------------------------------------------------ the stream

  /** `rem`: unread bits, zeros past the end; `nb`: buffered bits; `left`: bytes before the
      end of the data or the marker; `ended`: the marker has been met. */
  datatype JState = JState(rem: nat, nb: nat, left: nat, marker: bool, ended: bool) {
    predicate Valid() {
      nb <= 32 && (ended ==> left == 0)
    }

    /** Bits that are really there. */
    function Real(): nat {
      nb + 8 * left
    }

    function Consume(n: nat): JState
      requires n <= nb
    {
      this.(rem := Shr(rem, n), nb := nb - n)
    }
  }

  /** Tops the buffer up to more than 24 bits; stops short when it meets the marker, and
      feeds zero bytes from then on. */
  function Grow(z: JState): (r: JState)
    requires z.Valid() && z.nb <= 24
    ensures r.Valid() && r.rem == z.rem && r.nb >= z.nb && r.marker == z.marker
    ensures r.Real() >= z.Real() && (r.nb > 24 || r.left == 0)
    decreases 32 - z.nb
  {
    if !z.ended && z.left == 0 && z.marker then z.(ended := true)
    else
      var y := z.(nb := z.nb + 8, left := if z.left > 0 then z.left - 1 else 0);
      if y.nb <= 24 then Grow(y) else y
  }

  function Need(z: JState, n: nat): (r: JState)
    requires z.Valid() && n <= 16
    ensures r.Valid() && r.rem == z.rem && r.Real() >= z.Real() && r.marker == z.marker
    ensures r.nb >= n || r.left == 0
  {
    if z.nb < n then Grow(z) else z
  }

  // ------------------------------------------------------- symbols and magnitudes

  /** A table as the file describes it: code lengths in order, and the symbol of each. */
  datatype HuffCode = HuffCode(count: Counts, values: seq<byte>) {
    function Lens(): Lengths {
      Sizes(count, 16)
    }

    /** Accepted by the table builder. */
    ghost predicate Valid() {
      Accepted(count) && |values| == 256
    }
  }

  /** A symbol, when all of its bits have been buffered. */
  ghost function HuffDecode(z: JState, code: HuffCode): (r: Option<(byte, JState)>)
    requires z.Valid() && code.Valid()
    ensures r.Some? ==> r.value.1.Valid()
  {
    var y := Need(z, 16);
    var (i, len) := Front(code.count, y.rem);
    if i < 0 || len > y.nb then None else Some((code.values[i], y.Consume(len)))
  }

  /** The signed value of `n` magnitude bits: with a leading zero it is negative. */
  function Extend(v: nat, n: nat): int {
    if v % 2 == 1 then Rev(v, n) else Rev(v, n) - (Pow2(n) - 1)
  }

  /** Zero when the stream ends inside the magnitude. */
  function ReceiveExtend(z: JState, n: nat): (r: (int, JState))
    requires z.Valid() && 1 <= n <= 15
    ensures r.1.Valid()
  {
    var y := Need(z, n);
    if y.nb < n then (0, y) else (Extend(y.rem, n), y.Consume(n))
  }

  // ------------------------------------------------------------------- the block

  /** Run, value and total length of the symbol and magnitude at the front of `v`, when
      both fit nine bits and the value fits a signed byte. */
  ghost function FastAc(code: HuffCode, v: nat): Option<(nat, int, nat)>
    requires code.Valid()
  {
    var i := Symbol(code.Lens(), v);
    CanonicalRange(code.count, v);
    if i < 0 || i == 255 then None
    else
      var len, mag := code.Lens()[i], code.values[i] % 16;
      if mag == 0 || len + mag > FAST_BITS || !(-128 <= Extend(Shr(v, len), mag) <= 127) then None
      else Some((code.values[i] / 16, Extend(Shr(v, len), mag), len + mag))
  }

  datatype Coefficient = End | Zeros16 | Value(run: nat, v: int)

  /** One AC symbol with its magnitude. */
  ghost function AcSymbol(z: JState, code: HuffCode): (r: Option<(Coefficient, JState)>)
    requires z.Valid() && code.Valid()
    ensures r.Some? ==> r.value.1.Valid() && (r.value.0.Value? ==> r.value.0.run <= 15)
  {
    var y := Need(z, 16);
    var fast := FastAc(code, y.rem);
    if fast.Some? then
      var (run, v, total) := fast.value;
      if total > y.nb then None else Some((Value(run, v), y.Consume(total)))
    else
      var (rs, w) :- HuffDecode(y, code);
      if rs % 16 == 0 then Some((if rs == 0xF0 then Zeros16 else End, w))
      else
        var (v, x) := ReceiveExtend(w, rs % 16);
        Some((Value(rs / 16, v), x))
  }

  /** Conversion to a signed 16-bit value. */
  function Short(v: int): int {
    (v + 0x8000) % 0x1_0000 - 0x8000
  }

  /** The one number of sixteen bits that differs from `v` by a multiple of 2^16. */
  lemma ShortIs(v: int, r: int)
    ensures r == Short(v) <==> -0x8000 <= r < 0x8000 && exists q: int :: Wrapped(v, r, q)
  {
    var w := v + 0x8000;
    if r == Short(v) {
      assert Wrapped(v, r, w / 0x1_0000);
    }
    if -0x8000 <= r < 0x8000 && exists q: int :: Wrapped(v, r, q) {
      var q :| Wrapped(v, r, q);
      assert w == 0x1_0000 * q + (r + 0x8000);
    }
  }

  predicate Wrapped(v: int, r: int, q: int) {
    v == r + 0x1_0000 * q
  }

  // The tables, eight entries at a time.

  function ZigRow(r: nat): (s: seq<nat>)
    ensures |s| == 8 && forall c :: 0 <= c < 8 ==> s[c] < 64
  {
    match r
    case 0 => [0, 1, 8, 16, 9, 2, 3, 10]
    case 1 => [17, 24, 32, 25, 18, 11, 4, 5]
    case 2 => [12, 19, 26, 33, 40, 48, 41, 34]
    case 3 => [27, 20, 13, 6, 7, 14, 21, 28]
    case 4 => [35, 42, 49, 56, 57, 50, 43, 36]
    case 5 => [29, 22, 15, 23, 30, 37, 44, 51]
    case 6 => [58, 59, 52, 45, 38, 31, 39, 46]
    case _ => [53, 60, 61, 54, 47, 55, 62, 63]
  }

  function ZigZagRow(r: nat): (s: seq<nat>)
    ensures |s| == 8 && forall c :: 0 <= c < 8 ==> s[c] < 64
  {
    match r
    case 0 => [0, 1, 5, 6, 14, 15, 27, 28]
    case 1 => [2, 4, 7, 13, 16, 26, 29, 42]
    case 2 => [3, 8, 12, 17, 25, 30, 41, 43]
    case 3 => [9, 11, 18, 24, 31, 40, 44, 53]
    case 4 => [10, 19, 23, 32, 39, 45, 52, 54]
    case 5 => [20, 22, 33, 38, 46, 51, 55, 60]
    case 6 => [21, 34, 37, 47, 50, 56, 59, 61]
    case _ => [35, 36, 48, 49, 57, 58, 62, 63]
  }

  /** Where entry `k` of the zigzag order stands in the block; corrupt input may run past 63. */
  function Zig(k: nat): (p: nat)
    requires k < 79
    ensures p < 64
  {
    if k < 64 then ZigRow(k / 8)[k % 8] else 63
  }

  /** Where the writer puts entry `p` of the block in zigzag order. */
  function ZigZag(p: nat): (k: nat)
    requires p < 64
    ensures k < 64
  {
    ZigZagRow(p / 8)[p % 8]
  }

  lemma ZigRowInverse(r: nat, c: nat)
    requires r < 8 && c < 8
    ensures ZigZag(ZigRow(r)[c]) == 8 * r + c
  {
    hide ZigZag, Zig, ZigRow, ZigZagRow;
    if r < 4 {
      UpperZigs(r, c);
    } else {
      LowerZigs(r, c);
    }
  }

  lemma UpperZigs(r: nat, c: nat)
    requires r < 4 && c < 8
    ensures ZigZag(ZigRow(r)[c]) == 8 * r + c
  {
  }

  lemma LowerZigs(r: nat, c: nat)
    requires 4 <= r < 8 && c < 8
    ensures ZigZag(ZigRow(r)[c]) == 8 * r + c
  {
  }

  lemma ZigZagRowInverse(r: nat, c: nat)
    requires r < 8 && c < 8
    ensures Zig(ZigZagRow(r)[c]) == 8 * r + c
  {
    hide ZigZag, Zig, ZigRow, ZigZagRow;
    if r < 4 {
      UpperRows(r, c);
    } else {
      LowerRows(r, c);
    }
  }

  lemma UpperRows(r: nat, c: nat)
    requires r < 4 && c < 8
    ensures Zig(ZigZagRow(r)[c]) == 8 * r + c
  {
  }

  lemma LowerRows(r: nat, c: nat)
    requires 4 <= r < 8 && c < 8
    ensures Zig(ZigZagRow(r)[c]) == 8 * r + c
  {
  }

  /** The writer's zigzag table and the reader's are inverse permutations of 0 .. 63. */
  lemma ZigZagInverse(k: nat)
    requires k < 64
    ensures ZigZag(Zig(k)) == k && Zig(ZigZag(k)) == k
  {
    ZigRowInverse(k / 8, k % 8);
    ZigZagRowInverse(k / 8, k % 8);
  }

  /** The entry after row `r`, column `c` on the zigzag walk (figure A.6 of ITU-T T.81): up
      and to the right on even diagonals, down and to the left on odd ones, and along the
      edge of the block where the diagonal ends. */
  function WalkNext(r: nat, c: nat): (nat, nat) {
    if (r + c) % 2 == 0 then
      if c == 7 then (r + 1, c) else if r == 0 then (r, c + 1) else (r - 1, c + 1)
    else
      if r == 7 then (r, c + 1) else if c == 0 then (r + 1, c) else (r + 1, c - 1)
  }

  function Position(p: (nat, nat)): nat {
    8 * p.0 + p.1
  }

  lemma WalkInRow(r: nat, c: nat)
    requires r < 8 && c < 7
    ensures var p := ZigRow(r)[c]; ZigRow(r)[c + 1] == Position(WalkNext(p / 8, p % 8))
  {
    hide ZigRow, WalkNext;
    if r < 4 {
      UpperWalk(r, c);
    } else {
      LowerWalk(r, c);
    }
  }

  lemma UpperWalk(r: nat, c: nat)
    requires r < 4 && c < 7
    ensures var p := ZigRow(r)[c]; ZigRow(r)[c + 1] == Position(WalkNext(p / 8, p % 8))
  {
  }

  lemma LowerWalk(r: nat, c: nat)
    requires 4 <= r < 8 && c < 7
    ensures var p := ZigRow(r)[c]; ZigRow(r)[c + 1] == Position(WalkNext(p / 8, p % 8))
  {
  }

  lemma WalkBetweenRows(r: nat)
    requires r < 7
    ensures var p := ZigRow(r)[7]; ZigRow(r + 1)[0] == Position(WalkNext(p / 8, p % 8))
  {
  }

  lemma FirstZig()
    ensures ZigRow(0)[0] == 0
  {
  }

  /** The reader's order is that walk, from the top left corner. */
  lemma ZigWalks(k: nat)
    requires k < 63
    ensures Zig(0) == 0 && Zig(k + 1) == Position(WalkNext(Zig(k) / 8, Zig(k) % 8))
  {
    hide ZigRow, WalkNext;
    assert ZigRow(0)[0] == 0 by {
      FirstZig();
    }
    if k % 8 < 7 {
      WalkInRow(k / 8, k % 8);
    } else {
      WalkBetweenRows(k / 8);
    }
  }

  predicate IsBlock(s: seq<int>) {
    |s| == 64
  }

  /** The AC coefficients from zigzag position `k` on. */
  ghost function AcRest(z: JState, code: HuffCode, dequant: seq<nat>, data: seq<int>,
                        k: nat): (r: Option<(seq<int>, JState)>)
    requires z.Valid() && code.Valid() && k < 64 && |dequant| == 64 && IsBlock(data)
    ensures r.Some? ==> IsBlock(r.value.0) && r.value.1.Valid()
    decreases 64 - k
  {
    var (c, w) :- AcSymbol(z, code);
    if c.End? then Some((data, w))
    else
      var data' := if c.Value? then data[Zig(k + c.run) := Short(c.v * dequant[Zig(k + c.run)])] else data;
      var k' := if c.Value? then k + c.run + 1 else k + 16;
      if k' < 64 then AcRest(w, code, dequant, data', k') else Some((data', w))
  }

  const INT_MIN: int := -0x8000_0000

  /** The product fits a signed 16-bit value (`b` is not negative). */
  predicate ShortProduct(a: int, b: nat) {
    b == 0 || -0x8000 <= a * b <= 0x7FFF
  }

  function ZeroBlock(): (s: seq<int>)
    ensures |s| == 64 && forall i :: 0 <= i < 64 ==> s[i] == 0
  {
    seq(64, _ => 0)
  }

  /** A block: the coefficients, the new DC prediction, and the stream after it. */
  ghost function DecodeBlock(z: JState, pred: int, dc: HuffCode, ac: HuffCode,
                             dequant: seq<nat>): (r: Option<(seq<int>, int, JState)>)
    requires z.Valid() && dc.Valid() && ac.Valid() && |dequant| == 64
    ensures r.Some? ==> IsBlock(r.value.0) && r.value.2.Valid()
  {
    var (t, y) :- HuffDecode(Need(z, 16), dc);
    if t > 15 then None
    else
      var (diff, x) := if t > 0 then ReceiveExtend(y, t) else (0, y);
      var level := pred + diff;
      if !(INT_MIN <= level <= INT_MAX) || !ShortProduct(level, dequant[0]) then None
      else
        var (data, w) :- AcRest(x, ac, dequant, ZeroBlock()[0 := Short(level * dequant[0])], 1);
        Some((data, level, w))
  }
}
