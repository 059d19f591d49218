/** The compressor: a bit writer, an LZ77 matcher with hash chains and one step of
    lazy matching, the stored-block fallback and the Adler-32 trailer. */
module Deflater {
  import opened Bits
  import opened CanonicalCode
  import opened BitFields
  import opened InflateSpec
  import opened FixedCode
  import opened DeflateSpec
  import opened Adler

  const ZHASH: nat := 16384
  const WINDOW: nat := 32768
  const MAX_MATCH: nat := 258

  // ------------------------------------------------------------- bit writer

  /** Reverses the order of the low `codebits` bits. */
  method ZlibBitrev(code: nat, codebits: nat) returns (res: nat)
    ensures res == Rev(code, codebits)
  {
    res := 0;
    var c, n := code, 0;
    while n < codebits
      invariant 0 <= n <= codebits && c == Shr(code, n) && res == Rev(code, n)
    {
      RevSplit(code, n, 1);
      ShrAdd(code, n, 1);
      assert Pow2(1) == 2 && Pow2(0) == 1 && Shr(c, 1) == Shr(c / 2, 0);
      assert Rev(c, 1) == c % 2;
      OrAbove(c % 2, res, 1);
      assert Shl(res, 1) == 2 * Shl(res, 0) == 2 * res;
      res := BitOr(c % 2, 2 * res);
      c := c / 2;
      n := n + 1;
    }
  }

  /** The output buffer with the bits not yet flushed to it. */
  class BitSink {
    var out: seq<byte>
    var bitbuf: nat
    var bitcount: nat
    ghost var fields: seq<Field>

    /** Everything written so far is the flushed bytes followed by the buffered bits. */
    ghost predicate Holds()
      reads this
    {
      && bitbuf < Pow2(bitcount)
      && Stream(fields, 0) == LE(out) + Shl(bitbuf, 8 * |out|)
      && Width(fields) == 8 * |out| + bitcount
    }

    ghost predicate Valid()
      reads this
    {
      Holds() && bitcount < 8
    }

    constructor ()
      ensures Valid() && fields == [] && out == [] && bitcount == 0
    {
      out, bitbuf, bitcount, fields := [], 0, 0, [];
      ShlZero(0);
    }

    method Flush()
      requires Holds()
      modifies this`out, this`bitbuf, this`bitcount
      ensures Valid()
    {
      while bitcount >= 8
        invariant Holds()
      {
        FlushByte(out, bitbuf, bitcount);
        out := out + [UChar(bitbuf)];
        bitbuf := Shr(bitbuf, 8);
        bitcount := bitcount - 8;
      }
    }

    /** Writes the low `codebits` bits of `code`. The 32-bit buffer never overflows. */
    method Add(code: nat, codebits: nat)
      requires Valid() && code < Pow2(codebits) && codebits <= 24
      modifies this
      ensures Valid() && fields == old(fields) + [Field(code, codebits)]
    {
      hide Shl, LE, Stream, Width, BitOr, Pow2;
      AddField(fields, out, bitbuf, bitcount, code, codebits);
      bitbuf := BitOr(bitbuf, Shl(code, bitcount) % UINT32_MODULUS);
      bitcount := bitcount + codebits;
      fields := fields + [Field(code, codebits)];
      Flush();
    }

    /** Writes a Huffman code, most significant bit first. */
    method HuffA(code: nat, codebits: nat)
      requires Valid() && codebits <= 24
      modifies this
      ensures Valid() && fields == old(fields) + [Field(Rev(code, codebits), codebits)]
    {
      var b := ZlibBitrev(code, codebits);
      Add(b, codebits);
    }

    /** Writes symbol `n` of the fixed literal/length code. */
    method Huff(n: nat)
      requires Valid() && n < 288
      modifies this
      ensures Valid() && fields == old(fields) + [SymbolField(n)]
    {
      hide Code, Rev, BitSink.Valid;
      FixedCodeOf(n);
      if n <= 143 {
        HuffA(0x30 + n, 8);
      } else if n <= 255 {
        HuffA(0x190 + n - 144, 9);
      } else if n <= 279 {
        HuffA(0 + n - 256, 7);
      } else {
        HuffA(0xC0 + n - 280, 8);
      }
    }

    /** Pads with zero bits to a byte boundary. */
    method Pad()
      requires Valid()
      modifies this
      ensures Packed(out, old(fields))
    {
      hide Shl, LE, Stream, Width, Pow2, BitSink.Holds;
      ghost var was, n := fields, 0;
      SmallPowers();
      HeldBits();
      while bitcount != 0
        invariant Valid() && Stream(fields, 0) == Stream(was, 0)
        invariant Width(fields) == Width(was) + n
        invariant n < 8 && (bitcount != 0 ==> 8 * |out| <= Width(was) && n == Width(fields) - Width(was))
        decreases if bitcount == 0 then 0 else 8 - bitcount
      {
        PadField(fields);
        HeldBits();
        Add(0, 1);
        HeldBits();
        n := n + 1;
      }
      AllFlushed();
    }

    lemma HeldBits()
      requires Holds()
      ensures Width(fields) == 8 * |out| + bitcount
    {
    }

    lemma AllFlushed()
      requires Holds() && bitcount == 0
      ensures LE(out) == Stream(fields, 0) && Width(fields) == 8 * |out|
    {
      hide Shl, LE, Stream, Width;
      SmallPowers();
      ShlZero(8 * |out|);
    }
  }

  /** Moving the low byte of the buffer to the output moves no bit. */
  lemma FlushByte(out: seq<byte>, bitbuf: nat, bitcount: nat)
    requires bitcount >= 8 && bitbuf < Pow2(bitcount)
    ensures var out' := out + [UChar(bitbuf)];
      LE(out') + Shl(Shr(bitbuf, 8), 8 * |out'|) == LE(out) + Shl(bitbuf, 8 * |out|)
    ensures Shr(bitbuf, 8) < Pow2(bitcount - 8)
  {
    var n, hi := 8 * |out|, Shr(bitbuf, 8);
    LowShr(bitbuf, 8);
    Pow2Values();
    DivMod256(bitbuf, hi, Low(bitbuf, 8));
    LEAppend(out, [UChar(bitbuf)]);
    assert ([UChar(bitbuf)])[1..] == [];
    assert LE([UChar(bitbuf)]) == UChar(bitbuf);
    JoinSplit(bitbuf, bitcount, 0, 8);
    ShlByte(hi);
    ShlAdd(hi, 8, n);
    ShlSum(UChar(bitbuf), 256 * hi, n);
  }

  lemma DivMod256(v: nat, q: nat, r: nat)
    requires r < 256 && v == r + 256 * q
    ensures UChar(v) == r
  {
  }

  /** Or-ing a field in above the buffered bits appends it. */
  lemma AddField(fields: seq<Field>, out: seq<byte>, bitbuf: nat, bitcount: nat, code: nat, codebits: nat)
    requires bitcount < 8 && bitbuf < Pow2(bitcount) && code < Pow2(codebits) && codebits <= 24
    requires Stream(fields, 0) == LE(out) + Shl(bitbuf, 8 * |out|)
    requires Width(fields) == 8 * |out| + bitcount
    ensures Shl(code, bitcount) < UINT32_MODULUS
    ensures BitOr(bitbuf, Shl(code, bitcount)) == bitbuf + Shl(code, bitcount) < Pow2(bitcount + codebits)
    ensures Stream(fields + [Field(code, codebits)], 0) == LE(out) + Shl(bitbuf + Shl(code, bitcount), 8 * |out|)
    ensures Width(fields + [Field(code, codebits)]) == 8 * |out| + bitcount + codebits
  {
    hide Stream, Width, LE, Pow2, Shl, BitOr;
    var n := 8 * |out|;
    OrAbove(bitbuf, code, bitcount);
    FieldBound(bitbuf, bitcount, code, codebits);
    StreamConcat(fields, [Field(code, codebits)], 0);
    OneField(Field(code, codebits), 0);
    ShlZero(codebits);
    StreamTail(fields, code);
    ShlSum(bitbuf, Shl(code, bitcount), n);
    ShlAdd(code, bitcount, n);
  }

  lemma FieldBound(a: nat, m: nat, b: nat, n: nat)
    requires a < Pow2(m) && b < Pow2(n) && m <= 8 && n <= 24
    ensures Shl(b, m) < UINT32_MODULUS && a + Shl(b, m) < Pow2(m + n)
  {
    ShlOrder(b + 1, Pow2(n), m);
    ShlSum(b, 1, m);
    ShlPow2(n, m);
    ShlPow2(0, m);
    assert Pow2(0) == 1;
    Pow2Monotone(m + n, 32);
    Pow2Values();
  }

  lemma PadField(fields: seq<Field>)
    ensures Stream(fields + [Field(0, 1)], 0) == Stream(fields, 0)
    ensures Width(fields + [Field(0, 1)]) == Width(fields) + 1
  {
    StreamConcat(fields, [Field(0, 1)], 0);
    OneField(Field(0, 1), 0);
    ShlZero(1);
  }

  // ----------------------------------------------------------------- matcher

  /** The bitwise `^` of two natural numbers. */
  function BitXor(a: nat, b: nat): nat {
    if a == 0 then b
    else if b == 0 then a
    else (if a % 2 != b % 2 then 1 else 0) + 2 * BitXor(a / 2, b / 2)
  }

  function U32(v: nat): nat {
    v % UINT32_MODULUS
  }

  /** The hash of the three bytes at `i`. */
  function ZHash(data: seq<byte>, i: nat): nat
    requires i + 2 < |data|
  {
    var h := data[i] as int + Shl(data[i + 1], 8) + Shl(data[i + 2], 16);
    var h1 := U32(BitXor(h, U32(Shl(h, 3))));
    var h2 := U32(h1 + Shr(h1, 5));
    var h3 := U32(BitXor(h2, U32(Shl(h2, 4))));
    var h4 := U32(h3 + Shr(h3, 17));
    var h5 := U32(BitXor(h4, U32(Shl(h4, 25))));
    U32(h5 + Shr(h5, 6))
  }

  /** How many bytes at `a` and `b` agree, up to `limit`. */
  function CommonLength(data: seq<byte>, a: nat, b: nat, limit: nat): (n: nat)
    requires a <= b && b + limit <= |data|
    ensures n <= limit
    decreases limit
  {
    if limit == 0 || data[a] != data[b] then 0 else 1 + CommonLength(data, a + 1, b + 1, limit - 1)
  }

  lemma {:induction false} CommonAgrees(data: seq<byte>, a: nat, b: nat, limit: nat)
    requires a <= b && b + limit <= |data|
    ensures var n := CommonLength(data, a, b, limit); data[a..a + n] == data[b..b + n]
    decreases limit
  {
    if limit > 0 && data[a] == data[b] {
      CommonAgrees(data, a + 1, b + 1, limit - 1);
      var n := CommonLength(data, a, b, limit);
      assert data[a..a + n] == [data[a]] + data[a + 1..a + n];
      assert data[b..b + n] == [data[b]] + data[b + 1..b + n];
    }
  }

  function MatchLimit(data: seq<byte>, i: nat): nat
    requires i <= |data|
  {
    if |data| - i < MAX_MATCH then |data| - i else MAX_MATCH
  }

  method ZlibCountm(data: seq<byte>, a: nat, b: nat, limit: nat) returns (i: nat)
    requires a <= b && b + limit <= |data|
    ensures i == CommonLength(data, a, b, if limit < MAX_MATCH then limit else MAX_MATCH)
  {
    hide CommonLength;
    i := 0;
    ghost var m := if limit < MAX_MATCH then limit else MAX_MATCH;
    while i < limit && i < MAX_MATCH
      invariant 0 <= i <= m
      invariant CommonLength(data, a, b, m) == i + CommonLength(data, a + i, b + i, m - i)
    {
      CommonStep(data, a + i, b + i, m - i);
      if data[a + i] != data[b + i] {
        return;
      }
      i := i + 1;
    }
    CommonNone(data, a + i, b + i);
  }

  lemma CommonStep(data: seq<byte>, a: nat, b: nat, limit: nat)
    requires a <= b && b + limit <= |data| && limit > 0
    ensures CommonLength(data, a, b, limit) == if data[a] != data[b] then 0 else 1 + CommonLength(data, a + 1, b + 1, limit - 1)
  {
  }

  lemma CommonNone(data: seq<byte>, a: nat, b: nat)
    requires a <= b <= |data|
    ensures CommonLength(data, a, b, 0) == 0
  {
  }

  /** `len` bytes at `i` repeat those at `p`, which lies within the window. */
  predicate MatchAt(data: seq<byte>, p: int, i: nat, len: nat) {
    && 0 <= p < i && i - p < WINDOW && 3 <= len <= MAX_MATCH && i + len <= |data|
    && data[p..p + len] == data[i..i + len]
  }

  /** Every chain entry is an earlier position. */
  predicate AllBelow(hlist: seq<nat>, i: nat) {
    forall k :: 0 <= k < |hlist| ==> hlist[k] < i
  }

  /** Entry `k` of a chain lies within the window of position `i`. */
  predicate InWindow(hlist: seq<nat>, k: nat, i: nat) {
    k < |hlist| && hlist[k] > i - WINDOW
  }

  /** How many bytes entry `k` has in common with position `i`. */
  function Agreement(data: seq<byte>, i: nat, hlist: seq<nat>, k: nat): nat
    requires i <= |data| && AllBelow(hlist, i) && k < |hlist|
  {
    CommonLength(data, hlist[k], i, MatchLimit(data, i))
  }

  /** Some entry within the window agrees on at least `n` bytes. */
  ghost predicate HasMatch(data: seq<byte>, i: nat, hlist: seq<nat>, n: nat)
    requires i <= |data| && AllBelow(hlist, i)
  {
    exists k: nat :: InWindow(hlist, k, i) && Agreement(data, i, hlist, k) >= n
  }

  /** Entry `k` agrees on `n` bytes, and every later entry on fewer. */
  ghost predicate Latest(data: seq<byte>, i: nat, hlist: seq<nat>, k: nat, n: nat)
    requires i <= |data| && AllBelow(hlist, i)
  {
    && InWindow(hlist, k, i) && Agreement(data, i, hlist, k) == n
    && forall m: nat :: m > k && InWindow(hlist, m, i) ==> Agreement(data, i, hlist, m) < n
  }

  /** The longest match at `i` has `n` bytes, at least three. */
  ghost predicate Longest(data: seq<byte>, i: nat, hlist: seq<nat>, n: nat)
    requires i <= |data| && AllBelow(hlist, i)
  {
    n >= 3 && HasMatch(data, i, hlist, n) && !HasMatch(data, i, hlist, n + 1)
  }

  /** ... and `p` is where the latest such match begins. */
  ghost predicate LatestAt(data: seq<byte>, i: nat, hlist: seq<nat>, n: nat, p: int)
    requires i <= |data| && AllBelow(hlist, i)
  {
    exists k: nat :: Latest(data, i, hlist, k, n) && hlist[k] == p
  }

  /** The longest match of at least three bytes among the entries within the window, if
      there is one; of equally long ones, the latest. */
  method FindBest(data: seq<byte>, i: nat, hlist: seq<nat>) returns (best: nat, bestloc: int)
    requires i + 3 < |data| && AllBelow(hlist, i)
    ensures bestloc == -1 ==> best == 3
    ensures bestloc != -1 <==> HasMatch(data, i, hlist, 3)
    ensures bestloc != -1 ==> MatchAt(data, bestloc, i, best) && Longest(data, i, hlist, best)
    ensures bestloc != -1 ==> LatestAt(data, i, hlist, best, bestloc)
  {
    best, bestloc := 3, -1;
    ghost var at: nat := 0;
    var j := 0;
    while j < |hlist|
      invariant 0 <= j <= |hlist| && best >= 3
      invariant bestloc == -1 ==> best == 3
      invariant bestloc == -1 ==> forall k: nat :: k < j && InWindow(hlist, k, i) ==> Agreement(data, i, hlist, k) < 3
      invariant bestloc != -1 ==> MatchAt(data, bestloc, i, best) && at < j && InWindow(hlist, at, i)
      invariant bestloc != -1 ==> hlist[at] == bestloc && Agreement(data, i, hlist, at) == best
      invariant bestloc != -1 ==> forall k: nat :: k < j && InWindow(hlist, k, i) ==>
        Agreement(data, i, hlist, k) <= best && (k > at ==> Agreement(data, i, hlist, k) < best)
    {
      if hlist[j] > i - WINDOW {
        var d := ZlibCountm(data, hlist[j], i, |data| - i);
        assert d == Agreement(data, i, hlist, j);
        if d >= best {
          CommonAgrees(data, hlist[j], i, MatchLimit(data, i));
          best := d;
          bestloc := hlist[j];
          at := j;
        }
      }
      j := j + 1;
    }
  }

  /** Whether the next byte starts a match longer than `best`. */
  method BetterNext(data: seq<byte>, i: nat, hlist: seq<nat>, best: nat) returns (better: bool)
    requires i + 3 < |data| && AllBelow(hlist, i + 1)
    ensures better <==> HasMatch(data, i + 1, hlist, best + 1)
  {
    var j := 0;
    ghost var next := i + 1;
    while j < |hlist|
      invariant 0 <= j <= |hlist|
      invariant forall k: nat :: k < j && InWindow(hlist, k, next) ==> Agreement(data, next, hlist, k) <= best
    {
      if hlist[j] > i - (WINDOW - 1) {
        var e := ZlibCountm(data, hlist[j], i + 1, |data| - i - 1);
        assert InWindow(hlist, j, next) && e == Agreement(data, next, hlist, j);
        if e > best {
          return true;
        }
      }
      j := j + 1;
    }
    better := false;
  }

  // ------------------------------------------------------------- match codes

  function LengthC(j: nat): nat
    requires j < 30
  {
    [3, 4, 5, 6, 7, 8, 9, 10, 11, 13, 15, 17, 19, 23, 27,
     31, 35, 43, 51, 59, 67, 83, 99, 115, 131, 163, 195, 227, 258, 259][j]
  }

  function LengthEb(j: nat): nat
    requires j < 29
  {
    [0, 0, 0, 0, 0, 0, 0, 0, 1, 1, 1, 1, 2, 2, 2, 2, 3, 3, 3, 3, 4, 4, 4, 4, 5, 5, 5, 5, 0][j]
  }

  function DistC(j: nat): nat
    requires j < 31
  {
    [1, 2, 3, 4, 5, 7, 9, 13, 17, 25, 33, 49, 65, 97, 129, 193, 257, 385, 513, 769, 1025, 1537,
     2049, 3073, 4097, 6145, 8193, 12289, 16385, 24577, 32768][j]
  }

  function DistEb(j: nat): nat
    requires j < 30
  {
    [0, 0, 0, 0, 1, 1, 2, 2, 3, 3, 4, 4, 5, 5, 6, 6, 7, 7, 8, 8, 9, 9, 10, 10, 11, 11, 12, 12, 13, 13][j]
  }

  /** The writer's length table is the reader's, and its rows leave no gap. */
  lemma LengthRow(j: nat)
    requires j < 29
    ensures LengthC(j) == LengthBase(j) && LengthEb(j) == LengthExtra(j)
    ensures LengthC(j) < LengthC(j + 1) <= LengthC(j) + Pow2(LengthEb(j))
  {
    hide LengthC, LengthEb, LengthBase, LengthExtra, Pow2;
    LengthSame(j);
    LengthGap(j);
  }

  lemma LengthSame(j: nat)
    requires j < 29
    ensures LengthC(j) == LengthBase(j) && LengthEb(j) == LengthExtra(j)
  {
  }

  lemma LengthGap(j: nat)
    requires j < 29
    ensures LengthC(j) < LengthC(j + 1) <= LengthC(j) + Pow2(LengthEb(j))
  {
    LowPowers();
    hide Pow2;
  }

  lemma LowPowers()
    ensures Pow2(0) == 1 && Pow2(1) == 2 && Pow2(2) == 4 && Pow2(3) == 8 && Pow2(4) == 16 && Pow2(5) == 32
  {
  }

  lemma DistRow(j: nat)
    requires j < 30
    ensures DistC(j) == DistBase(j) && DistEb(j) == DistExtra(j)
    ensures DistC(j) < DistC(j + 1) <= DistC(j) + Pow2(DistEb(j))
  {
    hide DistC, DistEb, DistBase, DistExtra, Pow2;
    DistSame(j);
    DistGap(j);
  }

  lemma DistSame(j: nat)
    requires j < 30
    ensures DistC(j) == DistBase(j) && DistEb(j) == DistExtra(j)
  {
  }

  lemma DistGap(j: nat)
    requires j < 30
    ensures DistC(j) < DistC(j + 1) <= DistC(j) + Pow2(DistEb(j))
  {
    hide DistC, DistEb, Pow2;
    if j < 15 {
      NearGap(j);
    } else {
      FarGap(j);
    }
  }

  lemma NearGap(j: nat)
    requires j < 15
    ensures DistC(j) < DistC(j + 1) <= DistC(j) + Pow2(DistEb(j))
  {
  }

  lemma FarGap(j: nat)
    requires 15 <= j < 30
    ensures DistC(j) < DistC(j + 1) <= DistC(j) + Pow2(DistEb(j))
  {
    LargePowers();
    hide Pow2;
  }

  lemma LargePowers()
    ensures Pow2(6) == 64 && Pow2(7) == 128 && Pow2(8) == 256 && Pow2(9) == 512
    ensures Pow2(10) == 1024 && Pow2(11) == 2048 && Pow2(12) == 4096 && Pow2(13) == 8192
  {
    Pow2Values();
    assert Pow2(7) == 128;
  }

  /** Writes a match: the symbol of its length, the symbol of its distance, and the
      extra bits of both. */
  method EmitMatch(sink: BitSink, best: nat, d: nat) returns (ghost t: Token)
    requires sink.Valid() && 3 <= best <= MAX_MATCH && 1 <= d < WINDOW
    modifies sink
    ensures sink.Valid() && t.Valid() && t.Match? && t.Len() == best && t.Dist() == d && (best == 258 ==> t.lsym == 28)
    ensures sink.fields == old(sink.fields) + t.Fields()
  {
    hide LengthC, LengthEb, DistC, DistEb, LengthBase, LengthExtra, DistBase, DistExtra, Pow2, SymbolField;
    ghost var was := sink.fields;
    var j := LengthSymbol(best);
    LengthRow(j);
    sink.Huff(j + 257);
    if LengthEb(j) != 0 {
      sink.Add(best - LengthC(j), LengthEb(j));
    }
    ghost var lsym, mid := j, sink.fields;
    assert mid == was + [SymbolField(257 + lsym)] + Extra(best - LengthC(lsym), LengthEb(lsym));
    j := DistanceSymbol(d);
    DistRow(j);
    var code := ZlibBitrev(j, 5);
    sink.Add(code, 5);
    if DistEb(j) != 0 {
      sink.Add(d - DistC(j), DistEb(j));
    }
    t := Match(lsym, best - LengthC(lsym), j, d - DistC(j));
    assert sink.fields == mid + [Field(Rev(j, 5), 5)] + Extra(d - DistC(j), DistEb(j));
    assert sink.fields == was + t.Fields();
  }

  method LengthSymbol(best: nat) returns (j: nat)
    requires 3 <= best <= MAX_MATCH
    ensures j < 29 && LengthC(j) <= best < LengthC(j + 1) && (best == 258 ==> j == 28)
  {
    j := 0;
    LengthRow(0);
    while best > LengthC(j + 1) - 1
      invariant 0 <= j < 29 && LengthC(j) <= best
      decreases 29 - j
    {
      j := j + 1;
      if j < 29 {
        LengthRow(j);
      }
    }
  }

  method DistanceSymbol(d: nat) returns (j: nat)
    requires 1 <= d < WINDOW
    ensures j < 30 && DistC(j) <= d < DistC(j + 1)
  {
    j := 0;
    DistRow(0);
    while d > DistC(j + 1) - 1
      invariant 0 <= j < 30 && DistC(j) <= d
      decreases 30 - j
    {
      j := j + 1;
      if j < 30 {
        DistRow(j);
      }
    }
  }

  // ------------------------------------------------------------- the fixed path

  /** Copying a match reproduces the bytes it was found for. */
  lemma {:induction false} MatchCopies(data: seq<byte>, p: nat, i: nat, len: nat)
    requires p < i && i + len <= |data| && data[p..p + len] == data[i..i + len]
    ensures CopyMatch(data[..i], len, i - p) == data[..i + len]
    decreases len
  {
    if len > 0 {
      assert data[p] == data[p..p + len][0] == data[i..i + len][0] == data[i];
      assert data[..i] + [data[i]] == data[..i + 1];
      assert data[p + 1..p + len] == data[p..p + len][1..] == data[i..i + len][1..] == data[i + 1..i + len];
      MatchCopies(data, p + 1, i + 1, len - 1);
    }
  }

  ghost predicate TableBelow(table: array<seq<nat>>, i: nat)
    reads table
  {
    table.Length == ZHASH && forall h :: 0 <= h < ZHASH ==> AllBelow(table[h], i)
  }

  lemma StillBelow(table: array<seq<nat>>, i: nat, j: nat)
    requires TableBelow(table, i) && i <= j
    ensures TableBelow(table, j)
  {
  }

  lemma NothingEntered(table: array<seq<nat>>)
    requires table.Length == ZHASH && forall h :: 0 <= h < ZHASH ==> table[h] == []
    ensures TableBelow(table, 0)
  {
  }

  /** A chain with position `i` entered, its older half dropped first when it is full. */
  function Entered(chain: seq<nat>, i: nat, quality: nat): seq<nat> {
    (if |chain| == 2 * quality then chain[quality..] else chain) + [i]
  }

  /** Enters position `i` in its chain and leaves the other chains alone. */
  method Remember(table: array<seq<nat>>, h: nat, i: nat, quality: nat)
    requires TableBelow(table, i) && h < ZHASH
    modifies table
    ensures TableBelow(table, i + 1) && table[h] == Entered(old(table[h]), i, quality)
    ensures forall k :: 0 <= k < ZHASH && k != h ==> table[k] == old(table[k])
  {
    if |table[h]| == 2 * quality {
      table[h] := table[h][quality..];
    }
    table[h] := table[h] + [i];
  }

  function Hash(data: seq<byte>, i: nat): (h: nat)
    requires i + 2 < |data|
    ensures h < ZHASH
  {
    ZHash(data, i) % ZHASH
  }

  /** Looks up position `i`, remembers it, and settles on a match exactly when there is one
      of at least three bytes and the next position does not do better. */
  method ChooseMatch(data: seq<byte>, i: nat, table: array<seq<nat>>, quality: nat) returns (best: nat, bestloc: int)
    requires i + 3 < |data| && TableBelow(table, i)
    modifies table
    ensures TableBelow(table, i + 1) && table[Hash(data, i)] == Entered(old(table[Hash(data, i)]), i, quality)
    ensures forall k :: 0 <= k < ZHASH && k != Hash(data, i) ==> table[k] == old(table[k])
    ensures bestloc != -1 <==>
      HasMatch(data, i, old(table[Hash(data, i)]), 3) && !HasMatch(data, i + 1, table[Hash(data, i + 1)], best + 1)
    ensures HasMatch(data, i, old(table[Hash(data, i)]), 3) ==> Longest(data, i, old(table[Hash(data, i)]), best)
    ensures bestloc != -1 ==>
      MatchAt(data, bestloc, i, best) && LatestAt(data, i, old(table[Hash(data, i)]), best, bestloc)
  {
    hide HasMatch, MatchAt, Entered, ZHash, Longest, LatestAt;
    var h := Hash(data, i);
    best, bestloc := FindBest(data, i, table[h]);
    Remember(table, h, i, quality);
    if bestloc != -1 {
      h := Hash(data, i + 1);
      var better := BetterNext(data, i, table[h], best);
      if better {
        bestloc := -1;
      }
    }
  }

  ghost predicate TokensSoFar(data: seq<byte>, i: nat, tokens: seq<Token>, fields: seq<Field>) {
    && i <= |data| && Expands(tokens, [], data[..i])
    && (forall k :: 0 <= k < |tokens| ==> tokens[k].Valid())
    && fields == [Field(1, 1), Field(1, 2)] + TokenFields(tokens)
  }

  lemma TokenAdded(data: seq<byte>, i: nat, tokens: seq<Token>, fields: seq<Field>, t: Token)
    requires TokensSoFar(data, i, tokens, fields) && t.Fits(data[..i]) && i + t.Len() <= |data|
    requires t.Apply(data[..i]) == data[..i + t.Len()]
    ensures TokensSoFar(data, i + t.Len(), tokens + [t], fields + t.Fields())
  {
    hide Token.Fields, Token.Apply, Token.Valid, Expands, TokenFields;
    ExpandsSnoc(tokens, [], data[..i], t);
    TokenFieldsSnoc(tokens, t);
  }

  lemma LiteralIs(b: byte, out: seq<byte>)
    ensures var t := Literal(b);
      t.Valid() && t.Fits(out) && t.Apply(out) == out + [b] && t.Len() == 1 && t.Fields() == [SymbolField(b)]
  {
  }

  lemma LiteralAdded(data: seq<byte>, i: nat, tokens: seq<Token>, fields: seq<Field>)
    requires TokensSoFar(data, i, tokens, fields) && i < |data|
    ensures TokensSoFar(data, i + 1, tokens + [Literal(data[i])], fields + [SymbolField(data[i])])
  {
    hide SymbolField, Expands, TokenFields, CopyMatch;
    TokensEnd(data, i, tokens, fields);
    assert data[..i] + [data[i]] == data[..i + 1];
    LiteralIs(data[i], data[..i]);
    hide Token.Fits, Token.Apply, Token.Valid, Token.Len, Token.Fields, TokensSoFar;
    TokenAdded(data, i, tokens, fields, Literal(data[i]));
  }

  // ------------------------------------------------------------ the choice of tokens

  /** The chain of hash value `h` after the positions `starts` have been entered. */
  function Chain(data: seq<byte>, starts: seq<nat>, h: nat, q: nat): seq<nat> {
    if starts == [] then []
    else
      var k := |starts| - 1;
      var chain := Chain(data, starts[..k], h, q);
      if starts[k] + 2 < |data| && Hash(data, starts[k]) == h then Entered(chain, starts[k], q) else chain
  }

  /** Token `t` at position `i`, when tokens have started at the positions `before`: the latest
      of the longest matches with a remembered position, if it has three bytes and the next
      position does not have a longer one; otherwise a literal. */
  ghost predicate LazyChoice(data: seq<byte>, q: nat, before: seq<nat>, i: nat, t: Token)
    requires t.Valid()
  {
    if i + 3 >= |data| then i < |data| && t == Literal(data[i])
    else
      var here, next := Chain(data, before, Hash(data, i), q), Chain(data, before + [i], Hash(data, i + 1), q);
      && AllBelow(here, i) && AllBelow(next, i + 1)
      && if t.Match? then
           && Longest(data, i, here, t.Len()) && LatestAt(data, i, here, t.Len(), i - t.Dist())
           && !HasMatch(data, i + 1, next, t.Len() + 1) && (t.Len() == 258 ==> t.lsym == 28)
         else
           && t.b == data[i]
           && (HasMatch(data, i, here, 3) ==> exists n: nat :: Outdone(data, i, here, next, n))
  }

  /** The next position has a match longer than the longest at `i`. */
  ghost predicate Outdone(data: seq<byte>, i: nat, here: seq<nat>, next: seq<nat>, n: nat)
    requires i < |data| && AllBelow(here, i) && AllBelow(next, i + 1)
  {
    Longest(data, i, here, n) && HasMatch(data, i + 1, next, n + 1)
  }

  /** Token `k` starts at `starts[k]` and is the lazy choice there. */
  ghost predicate ChosenAt(data: seq<byte>, q: nat, tokens: seq<Token>, starts: seq<nat>, k: nat) {
    && k < |tokens| && k + 1 < |starts| && tokens[k].Valid() && starts[k + 1] == starts[k] + tokens[k].Len()
    && LazyChoice(data, q, starts[..k], starts[k], tokens[k])
  }

  /** Every token is the lazy choice; the last of `starts` is where the next one begins. */
  ghost predicate LazyTokens(data: seq<byte>, q: nat, tokens: seq<Token>, starts: seq<nat>)
    ensures LazyTokens(data, q, tokens, starts) ==> |starts| == |tokens| + 1
  {
    |starts| == |tokens| + 1 && starts[0] == 0 && forall k: nat :: k < |tokens| ==> ChosenAt(data, q, tokens, starts, k)
  }

  lemma LazyAdded(data: seq<byte>, q: nat, tokens: seq<Token>, starts: seq<nat>, t: Token)
    requires LazyTokens(data, q, tokens, starts) && t.Valid()
    requires LazyChoice(data, q, starts[..|tokens|], starts[|tokens|], t)
    ensures LazyTokens(data, q, tokens + [t], starts + [starts[|tokens|] + t.Len()])
  {
    hide LazyChoice, Token.Valid, Token.Len;
    var more := starts + [starts[|tokens|] + t.Len()];
    forall k: nat | k <= |tokens| ensures ChosenAt(data, q, tokens + [t], more, k) {
      assert more[..k] == starts[..k];
      if k < |tokens| {
        assert ChosenAt(data, q, tokens, starts, k);
      }
    }
  }

  /** The table holds the chains of the positions entered. */
  ghost predicate TableHolds(table: array<seq<nat>>, data: seq<byte>, starts: seq<nat>, q: nat)
    reads table
  {
    table.Length == ZHASH && forall h :: 0 <= h < ZHASH ==> table[h] == Chain(data, starts, h, q)
  }

  lemma ChainEntered(data: seq<byte>, starts: seq<nat>, i: nat, h: nat, q: nat)
    requires i + 2 < |data|
    ensures Chain(data, starts + [i], h, q)
      == if Hash(data, i) == h then Entered(Chain(data, starts, h, q), i, q) else Chain(data, starts, h, q)
  {
    hide Entered, Hash;
    assert (starts + [i])[..|starts|] == starts;
  }

  lemma LastOf(tokens: seq<Token>, starts: seq<nat>)
    requires |starts| == |tokens| + 1
    ensures starts == starts[..|tokens|] + [starts[|tokens|]]
  {
  }

  /** Writes one match or one literal. */
  method CompressStep(sink: BitSink, data: seq<byte>, i: nat, table: array<seq<nat>>, q: nat, ghost tokens: seq<Token>,
                      ghost starts: seq<nat>)
    returns (i': nat, ghost t: Token)
    requires sink.Valid() && i + 3 < |data| && TableBelow(table, i) && TokensSoFar(data, i, tokens, sink.fields)
    requires TableHolds(table, data, starts, q)
    modifies sink, table
    ensures i < i' && sink.Valid() && TableBelow(table, i') && TokensSoFar(data, i', tokens + [t], sink.fields)
    ensures TableHolds(table, data, starts + [i], q) && t.Valid() && i' == i + t.Len() && LazyChoice(data, q, starts, i, t)
  {
    hide SymbolField, LengthBase, LengthExtra, DistBase, DistExtra, Pow2, Packed, Stream, Width, LE, Shl, Chain;
    hide CopyMatch, Expands, TokenFields, HasMatch, Entered, Hash, AllBelow, BitSink.Holds, Longest, LatestAt;
    var best, bestloc := ChooseMatch(data, i, table, q);
    forall h | 0 <= h < ZHASH ensures table[h] == Chain(data, starts + [i], h, q) {
      ChainEntered(data, starts, i, h, q);
    }
    ghost var here, next := Chain(data, starts, Hash(data, i), q), Chain(data, starts + [i], Hash(data, i + 1), q);
    if bestloc != -1 {
      var d := i - bestloc;
      assert d <= 32767 && best <= 258;
      ghost var fields := sink.fields;
      t := EmitMatch(sink, best, d);
      MatchCopies(data, bestloc, i, best);
      TokenAdded(data, i, tokens, fields, t);
      StillBelow(table, i + 1, i + best);
      i' := i + best;
    } else {
      LiteralAdded(data, i, tokens, sink.fields);
      sink.Huff(data[i]);
      t := Literal(data[i]);
      assert HasMatch(data, i, here, 3) ==> Outdone(data, i, here, next, best);
      i' := i + 1;
    }
  }

  /** Writes the whole of `data` as one fixed-Huffman block of the lazily chosen tokens. */
  method CompressFixed(data: seq<byte>, quality: int) returns (out: seq<byte>, ghost tokens: seq<Token>, ghost starts: seq<nat>)
    ensures Expands(tokens, [], data) && forall k :: 0 <= k < |tokens| ==> tokens[k].Valid()
    ensures Packed(out, FixedFields(tokens))
    ensures LazyTokens(data, AtLeastFive(quality), tokens, starts) && starts[|tokens|] == |data|
  {
    hide SymbolField, Pow2, Packed, Stream, Width, LE, Shl, TokensSoFar, LazyChoice, Chain, LazyTokens;
    hide Expands, TokenFields, AllBelow, BitSink.Holds, FixedFields, Token.Valid, Token.Len, TableBelow, TableHolds;
    var q: nat := if quality < 5 then 5 else quality;
    var sink := new BitSink();
    SmallFields();
    sink.Add(1, 1);
    sink.Add(1, 2);
    var table := new seq<nat>[ZHASH](_ => []);
    tokens, starts := [], [0];
    var i := 0;
    NoTokens(data, sink.fields);
    NothingEntered(table);
    NothingChosen(data, q, table);
    while i + 3 < |data|
      invariant sink.Valid() && TokensSoFar(data, i, tokens, sink.fields) && TableBelow(table, i)
      invariant |starts| == |tokens| + 1 && LazyTokens(data, q, tokens, starts) && starts[|tokens|] == i
      invariant TableHolds(table, data, starts[..|tokens|], q)
      decreases |data| - i
    {
      ghost var t;
      ghost var before := starts[..|tokens|];
      LastOf(tokens, starts);
      i, t := CompressStep(sink, data, i, table, q, tokens, before);
      LazyAdded(data, q, tokens, starts, t);
      tokens, starts := tokens + [t], starts + [i];
      assert starts[..|tokens|] == before + [starts[|tokens| - 1]];
    }
    TokensEnd(data, i, tokens, sink.fields);
    while i < |data|
      invariant i <= |data| <= i + 3 && sink.Valid() && TokensSoFar(data, i, tokens, sink.fields)
      invariant |starts| == |tokens| + 1 && LazyTokens(data, q, tokens, starts) && starts[|tokens|] == i
    {
      LiteralAdded(data, i, tokens, sink.fields);
      LiteralChosen(data, q, starts[..|tokens|], i);
      LazyAdded(data, q, tokens, starts, Literal(data[i]));
      sink.Huff(data[i]);
      tokens, starts := tokens + [Literal(data[i])], starts + [i + 1];
      i := i + 1;
    }
    AllTokens(data, tokens, sink.fields);
    sink.Huff(256);
    sink.Pad();
    out := sink.out;
  }

  function AtLeastFive(quality: int): nat {
    if quality < 5 then 5 else quality
  }

  lemma LiteralChosen(data: seq<byte>, q: nat, before: seq<nat>, i: nat)
    requires i < |data| <= i + 3
    ensures Literal(data[i]).Valid() && Literal(data[i]).Len() == 1 && LazyChoice(data, q, before, i, Literal(data[i]))
  {
  }

  lemma NothingChosen(data: seq<byte>, q: nat, table: array<seq<nat>>)
    requires table.Length == ZHASH && forall h :: 0 <= h < ZHASH ==> table[h] == []
    ensures LazyTokens(data, q, [], [0]) && TableHolds(table, data, [], q)
  {
  }

  lemma TokensEnd(data: seq<byte>, i: nat, tokens: seq<Token>, fields: seq<Field>)
    requires TokensSoFar(data, i, tokens, fields)
    ensures i <= |data|
  {
  }

  lemma AllTokens(data: seq<byte>, tokens: seq<Token>, fields: seq<Field>)
    requires TokensSoFar(data, |data|, tokens, fields)
    ensures Expands(tokens, [], data) && forall k :: 0 <= k < |tokens| ==> tokens[k].Valid()
    ensures fields + [SymbolField(256)] == FixedFields(tokens)
  {
    hide Expands, SymbolField, TokenFields;
    assert data[..|data|] == data;
  }

  lemma NoTokens(data: seq<byte>, fields: seq<Field>)
    requires fields == [Field(1, 1), Field(1, 2)]
    ensures TokensSoFar(data, 0, [], fields)
  {
  }

  lemma SmallFields()
    ensures Pow2(1) == 2 && Pow2(2) == 4
  {
  }

  // ---------------------------------------------------------- the stored path

  /** The five bytes before a stored block's data. */
  method PushHeader(out: seq<byte>, blocklen: int, last: bool) returns (out': seq<byte>)
    requires 0 <= blocklen <= BLOCK_MAX
    ensures out' == out + StoredHeader(blocklen, last)
  {
    hide UChar;
    out' := out + [if last then 1 else 0];
    out' := out' + [UChar(blocklen), UChar(blocklen / 256)];
    out' := out' + [UChar(-blocklen - 1), UChar((-blocklen - 1) / 256)];
  }

  /** Writes `data` as stored blocks. */
  method CompressStored(data: seq<byte>) returns (out: seq<byte>)
    ensures out == StoredBlocks(data)
  {
    hide StoredBlocks, StoredHeader;
    out := [];
    var j := 0;
    assert data[0..] == data;
    while j < |data|
      invariant 0 <= j <= |data| && StoredBlocks(data) == out + StoredBlocks(data[j..])
    {
      var blocklen := |data| - j;
      if blocklen > BLOCK_MAX {
        blocklen := BLOCK_MAX;
      }
      StoredBlocksStep(data, j, blocklen);
      ghost var header := StoredHeader(blocklen, blocklen == |data| - j);
      Regrouped(out, header, data[j..j + blocklen], StoredBlocks(data[j + blocklen..]));
      out := PushHeader(out, blocklen, |data| - j == blocklen);
      out := out + data[j..j + blocklen];
      j := j + blocklen;
    }
    NoneLeft(data, out);
  }

  lemma Regrouped(a: seq<byte>, b: seq<byte>, c: seq<byte>, d: seq<byte>)
    ensures a + (b + c + d) == a + b + c + d
  {
  }

  lemma NoneLeft(data: seq<byte>, out: seq<byte>)
    ensures out + StoredBlocks(data[|data|..]) == out
  {
  }

  lemma StoredBlocksStep(data: seq<byte>, j: nat, n: nat)
    requires j < |data| && n == if |data| - j > BLOCK_MAX then BLOCK_MAX else |data| - j
    ensures StoredBlocks(data[j..])
      == StoredHeader(n, n == |data| - j) + data[j..j + n] + StoredBlocks(data[j + n..])
  {
    assert data[j..][..n] == data[j..j + n];
    assert data[j..][n..] == data[j + n..];
  }

  /** The bound above which the stored form replaces the fixed form. */
  function StoredSize(n: nat): nat {
    n + 2 + (n + 32766) / 32767 * 5
  }

  /** The possible outputs for `data`: the fixed form of tokens that expand to it,
      or the stored form when that is smaller. */
  ghost predicate IsCompressed(data: seq<byte>, tokens: seq<Token>, deflated: seq<byte>, out: seq<byte>) {
    && Expands(tokens, [], data) && (forall k :: 0 <= k < |tokens| ==> tokens[k].Valid())
    && Packed(deflated, FixedFields(tokens))
    && out == [0x78, 0x5E]
        + (if 2 + |deflated| > StoredSize(|data|) then StoredBlocks(data) else deflated)
        + AdlerBytes(AdlerA(data), AdlerB(data))
  }

  function AdlerBytes(s1: nat, s2: nat): (b: seq<byte>)
    ensures |b| == 4
  {
    [UChar(s2 / 256), UChar(s2), UChar(s1 / 256), UChar(s1)]
  }

  /** The number that four bytes spell, the first one most significant. */
  function BigEndian(b: seq<byte>): nat
    requires |b| == 4
  {
    ((b[0] as nat * 256 + b[1]) * 256 + b[2]) * 256 + b[3]
  }

  /** The checksum ends the stream: 65536 times the second sum plus the first. */
  lemma ChecksumAtEnd(data: seq<byte>, tokens: seq<Token>, deflated: seq<byte>, out: seq<byte>)
    requires IsCompressed(data, tokens, deflated, out)
    ensures |out| >= 6 && BigEndian(out[|out| - 4..])
      == 65536 * ((|data| + WeightedSum(data)) % 65521) + (1 + ByteSum(data)) % 65521
  {
    hide StoredBlocks, Packed, Expands, FixedFields, AdlerA, AdlerB;
    ClosedSums(data);
    var bytes := AdlerBytes(AdlerA(data), AdlerB(data));
    assert out[|out| - 4..] == bytes;
    TwoDigits(AdlerA(data));
    TwoDigits(AdlerB(data));
  }

  lemma TwoDigits(v: nat)
    requires v < 65536
    ensures UChar(v / 256) as nat * 256 + UChar(v) == v
  {
  }

  /** `tokens` are the lazily chosen tokens of the whole of `data`. */
  ghost predicate LazyParse(data: seq<byte>, q: nat, tokens: seq<Token>) {
    exists starts :: LazyTokens(data, q, tokens, starts) && starts[|tokens|] == |data|
  }

  /** The zlib stream for `data`. */
  method ZlibCompress(data: seq<byte>, quality: int) returns (out: seq<byte>)
    ensures exists tokens, deflated ::
      IsCompressed(data, tokens, deflated, out) && LazyParse(data, AtLeastFive(quality), tokens)
  {
    hide LazyTokens;
    ghost var tokens, starts;
    out, tokens, starts := CompressFixed(data, quality);
    ghost var deflated := out;
    out := [0x78, 0x5E] + out;
    if |out| > |data| + 2 + (|data| + 32766) / 32767 * 5 {
      var stored := CompressStored(data);
      assert 2 + |stored| < |out|;
      out := out[..2] + stored;
    }
    var s1, s2 := Adler32(data);
    out := out + AdlerBytes(s1, s2);
    assert IsCompressed(data, tokens, deflated, out);
  }
}
