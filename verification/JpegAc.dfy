/** The decoder's second table: run and value of a short AC symbol in one lookup. */
module JpegAc {
  import opened Bits
  import opened CanonicalCode
  import opened Wrappers
  import opened JpegHuffman
  import opened JpegSpec

  /** The magnitude bits of window `i` after its code, shifted out of nine bits. */
  function WindowBits(i: nat, len: nat, mag: nat): nat
    requires len + mag <= FAST_BITS
  {
    Shr(Low(Shl(i, len), FAST_BITS), FAST_BITS - mag)
  }

  /** Packs value, run and total length into one entry; zero means "decode step by step". */
  function Entry(fast: nat, rs: byte, len: nat, i: nat): int {
    var run, mag := rs / 16, rs % 16;
    if fast >= NOT_FAST || mag == 0 || len + mag > FAST_BITS then 0
    else
      var k := WindowBits(i, len, mag);
      var m := Shl(1, mag - 1);
      var v := if k < m then k - Pow2(mag) + 1 else k;
      if -128 <= v <= 127 then v * 256 + run * 16 + (len + mag) else 0
  }

  /** The entries for all nine-bit windows. */
  method BuildFastAc(h: Huffman) returns (fastAc: seq<int>)
    requires h.Shaped() && forall i :: 0 <= i < 512 ==> h.fast[i] <= 255
    ensures |fastAc| == 512
    ensures forall i :: 0 <= i < 512 ==> fastAc[i] == Entry(h.fast[i], h.values[h.fast[i]], h.size[h.fast[i]], i)
  {
    hide Entry;
    fastAc := [];
    var i := 0;
    while i < 512
      invariant i <= 512 && |fastAc| == i
      invariant forall k :: 0 <= k < i ==> fastAc[k] == Entry(h.fast[k], h.values[h.fast[k]], h.size[h.fast[k]], k)
    {
      var fast := h.fast[i];
      fastAc := fastAc + [Entry(fast, h.values[fast], h.size[fast], i)];
      i := i + 1;
    }
  }

  // ------------------------------------------------------------ what an entry says

  /** The window's bits after the code are the magnitude bits of the stream. */
  lemma WindowBitsAre(v: nat, len: nat, mag: nat)
    requires len + mag <= FAST_BITS
    ensures WindowBits(Rev(v, FAST_BITS), len, mag) == Rev(Shr(v, len), mag)
  {
    var rest := FAST_BITS - len;
    var i, y := Rev(v, FAST_BITS), Rev(Shr(v, len), rest);
    RevSplit(v, len, rest);
    LowShrUnique(i, rest, Rev(v, len), y);
    LowOfShl(i, len, rest);
    ShrOfShl(y, len, rest - mag);
    RevPrefix(Shr(v, len), mag, rest - mag);
  }

  /** A magnitude is negative exactly when its leading bit is clear. */
  lemma LeadingBit(w: nat, mag: nat)
    requires mag > 0
    ensures Rev(w, mag) < Shl(1, mag - 1) <==> w % 2 == 0
    ensures Shl(1, mag - 1) == Pow2(mag - 1)
  {
    ShlPow2(0, mag - 1);
    assert Pow2(0) == 1;
  }

  lemma Unpack(v: int, run: nat, total: nat)
    requires run <= 15 && 0 < total <= 15
    ensures var e := v * 256 + run * 16 + total;
      e != 0 && e / 256 == v && e / 16 % 16 == run && e % 16 == total
  {
    var e := v * 256 + run * 16 + total;
    Quotient(e, 256, v, run * 16 + total);
    Quotient(e, 16, v * 16 + run, total);
    Quotient(v * 16 + run, 16, v, run);
  }

  lemma Quotient(e: int, d: int, q: int, r: int)
    requires (d == 16 || d == 256) && e == q * d + r && 0 <= r < d
    ensures e / d == q && e % d == r
  {
  }

  /** For every table that the builder accepts: a non-zero entry is the symbol that lookup
      finds, and the run, the signed value and the number of bits that receiving and
      extending its magnitude give. */
  lemma EntryIsLookup(h: Huffman, count: Counts, v: nat)
    requires h.Shaped() && h.Represents(count) && Rev(v, FAST_BITS) < 512 && h.fast[Rev(v, FAST_BITS)] <= 255
    ensures var f := h.fast[Rev(v, FAST_BITS)]; var e := Entry(f, h.values[f], h.size[f], Rev(v, FAST_BITS));
      e != 0 ==>
        && h.Lookup(v) == (f as int, h.size[f]) && e / 16 % 16 == h.values[f] / 16 && h.values[f] % 16 > 0
        && e / 256 == Extend(Shr(v, h.size[f]), h.values[f] % 16) && e % 16 == h.size[f] + h.values[f] % 16
  {
    hide Shr, Low, Shl, Rev, Pow2, WindowBits, Huffman.Represents;
    var f := h.fast[Rev(v, FAST_BITS)];
    var len, mag := h.size[f], h.values[f] % 16;
    if f < NOT_FAST && mag > 0 && len + mag <= FAST_BITS {
      WindowBitsAre(v, len, mag);
      LeadingBit(Shr(v, len), mag);
      Unpack(Extend(Shr(v, len), mag), h.values[f] / 16, len + mag);
    }
  }

  /** An entry is non-zero exactly when symbol and magnitude fit the window, and then it
      holds the run, the signed value and the number of bits that decoding the symbol and
      receiving and extending its magnitude give. */
  lemma EntryIsFastAc(h: Huffman, code: HuffCode, v: nat)
    requires h.Shaped() && h.Represents(code.count) && h.values == code.values && code.Valid()
    requires Rev(v, FAST_BITS) < 512 && h.fast[Rev(v, FAST_BITS)] <= 255
    ensures var f := h.fast[Rev(v, FAST_BITS)]; var e := Entry(f, h.values[f], h.size[f], Rev(v, FAST_BITS));
      if e == 0 then FastAc(code, v) == None else FastAc(code, v) == Some((e / 16 % 16, e / 256, e % 16))
  {
    hide Sizes, Shr, Low, Shl, Rev, Pow2, FirstCode, EndCode, Hits, WindowBits;
    var lens, x := code.Lens(), Rev(v, FAST_BITS);
    var f, i := h.fast[x], Symbol(lens, v);
    FastSymbol(h, code, v);
    if f != NOT_FAST {
      var len, mag := lens[f], code.values[f] % 16;
      if mag > 0 && len + mag <= FAST_BITS {
        WindowBitsAre(v, len, mag);
        LeadingBit(Shr(v, len), mag);
        Unpack(Extend(Shr(v, len), mag), code.values[f] / 16, len + mag);
      }
    }
  }

  /** A fast entry is the symbol at the front; without one no short code but that of
      symbol 255 is there. */
  lemma FastSymbol(h: Huffman, code: HuffCode, v: nat)
    requires h.Shaped() && h.Represents(code.count) && code.Valid() && Rev(v, FAST_BITS) < 512
    ensures var f, i := h.fast[Rev(v, FAST_BITS)], Symbol(code.Lens(), v);
      if f != NOT_FAST then i == f && f < 255 && h.size[f] == code.Lens()[f]
      else i == 255 || i < 0 || code.Lens()[i] > FAST_BITS
  {
    hide Sizes, Rev, Shr, FirstCode, EndCode;
    var lens, x := code.Lens(), Rev(v, FAST_BITS);
    var f, i := h.fast[x], Symbol(lens, v);
    if f != NOT_FAST {
      HitsMatches(lens, f, v);
      PrefixFree(lens, f, i, v);
      assert h.size[f] == h.size[..|lens|][f];
    } else if i >= 0 {
      HitsMatches(lens, i, v);
    }
  }

  /** With sixteen bits buffered, the single lookup is a symbol followed by its magnitude:
      same run, same value, same bits consumed. */
  lemma FastIsStepwise(z: JState, code: HuffCode)
    requires z.Valid() && code.Valid() && z.nb >= 16 && FastAc(code, z.rem).Some?
    ensures var (run, v, total) := FastAc(code, z.rem).value;
      && AcSymbol(z, code) == Some((Value(run, v), z.Consume(total)))
      && HuffDecode(z, code).Some?
      && var (rs, w) := HuffDecode(z, code).value;
         rs / 16 == run && rs % 16 > 0 && ReceiveExtend(w, rs % 16) == (v, z.Consume(total))
  {
    hide Sizes, Rev, Shr, Symbol;
    var len := code.Lens()[Symbol(code.Lens(), z.rem)];
    ShrAdd(z.rem, len, FastAc(code, z.rem).value.2 - len);
  }
}
