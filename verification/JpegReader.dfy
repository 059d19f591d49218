/** The baseline JPEG decoder's bit buffer and block decoder. */
module JpegReader {
  import opened Bits
  import opened Wrappers
  import opened JpegHuffman
  import opened JpegSpec
  import opened JpegAc
  import opened JpegWriter

  // -------------------------------------------------------------- unstuffing

  /** Drops leading bytes of ones. */
  function Fill(s: seq<byte>): (r: seq<byte>)
    ensures |r| <= |s| && (r != [] ==> r[0] != 255)
  {
    if s == [] || s[0] != 255 then s else Fill(s[1..])
  }

  /** The entropy-coded bytes of `s`, up to the first marker or the end. */
  function Coming(s: seq<byte>): seq<byte>
    decreases |s|
  {
    if s == [] then []
    else if s[0] != 255 then [s[0]] + Coming(s[1..])
    else
      var c := Fill(s[1..]);
      if c == [] then [255] else if c[0] == 0 then [255] + Coming(c[1..]) else []
  }

  /** Does a marker end them? */
  predicate MarkerAhead(s: seq<byte>)
    decreases |s|
  {
    if s == [] then false
    else if s[0] != 255 then MarkerAhead(s[1..])
    else
      var c := Fill(s[1..]);
      c != [] && (c[0] != 0 || MarkerAhead(c[1..]))
  }

  /** Stuffed bytes come back as they were. */
  lemma {:induction false} UnstuffStuffed(plain: seq<byte>, rest: seq<byte>)
    ensures Coming(Stuffed(plain) + rest) == plain + Coming(rest)
    ensures MarkerAhead(Stuffed(plain) + rest) == MarkerAhead(rest)
    decreases |plain|
  {
    hide Coming, MarkerAhead;
    if plain == [] {
      assert Stuffed([]) + rest == rest;
      assert plain + Coming(rest) == Coming(rest);
    } else {
      var init, b := plain[..|plain| - 1], plain[|plain| - 1];
      var last: seq<byte> := if b == 255 then [255, 0] else [b];
      assert Stuffed(plain) + rest == Stuffed(init) + (last + rest);
      UnstuffStuffed(init, last + rest);
      OneStuffed(b, rest);
      assert init + ([b] + Coming(rest)) == plain + Coming(rest);
    }
  }

  lemma OneStuffed(b: byte, rest: seq<byte>)
    ensures var last: seq<byte> := if b == 255 then [255, 0] else [b];
      Coming(last + rest) == [b] + Coming(rest) && MarkerAhead(last + rest) == MarkerAhead(rest)
  {
    if b == 255 {
      var data := [255, 0] + rest;
      assert Fill([0] + rest) == [0] + rest;
      assert data[1..] == [0] + rest && ([0] + rest)[1..] == rest;
    } else {
      assert ([b] + rest)[1..] == rest;
    }
  }

  // ------------------------------------------------------------ the bit buffer

  /** The 32-bit buffer with the `n` bits `buf`, oldest on top. */
  lemma BufferSplit(buf: nat, n: nat)
    requires n <= 32 && buf < Pow2(n)
    ensures Rev(buf, 32) == Shl(Rev(buf, n), 32 - n)
  {
    hide Rev, Shl, Pow2, Shr;
    RevSplit(buf, n, 32 - n);
    LowOfSmall(buf, n);
    RevZero(32 - n);
    ShlIsProduct(Rev(buf, n), 32 - n);
  }

  lemma {:induction false} RevZero(n: nat)
    ensures Rev(0, n) == 0
  {
    if n > 0 {
      RevZero(n - 1);
    }
  }

  /** Or-ing a byte in below the buffered bits appends it to the stream. */
  lemma BufferByte(buf: nat, n: nat, b: byte, cb: nat, rest: nat)
    requires n <= 24 && buf < Pow2(n) && cb == Rev(buf, 32)
    ensures var buf' := buf + Shl(Rev(b, 8), n);
      && BitOr(Shl(b, 24 - n), cb) == Rev(buf', 32) && buf' < Pow2(n + 8)
      && Join(buf', n + 8, rest) == Join(buf, n, Rev(b, 8) + 256 * rest)
  {
    hide Rev, Shl, Pow2, Shr, Low, BitOr, Join;
    var w := Rev(b, 8);
    Pow2Values();
    PendingFits(buf, n, w, 8);
    BufferSplit(buf, n);
    BufferSplit(buf + Shl(w, n), n + 8);
    PendingReversed(buf, n, b, 8);
    JoinByte(buf, n, ReverseByte(b), rest);
    BufferOr(Rev(buf, n), b, n);
  }

  lemma BufferOr(r: nat, b: byte, n: nat)
    requires n <= 24
    ensures BitOr(Shl(b, 24 - n), Shl(r, 32 - n)) == Shl(b + 256 * r, 24 - n)
  {
    hide Shl, Pow2, BitOr;
    Pow2Values();
    OrCode(r, b, 8, 24 - n);
    ShlByte(r);
  }

  /** Shifting the buffer left drops its oldest bits. */
  lemma BufferShift(buf: nat, n: nat, s: nat)
    requires s <= n <= 32 && buf < Pow2(n)
    ensures Low(Shl(Rev(buf, 32), s), 32) == Rev(Shr(buf, s), 32) && Shr(buf, s) < Pow2(n - s)
  {
    hide Rev, Shl, Pow2, Shr, Low;
    RevSplit(buf, s, 32 - s);
    LowShrUnique(Rev(buf, 32), 32 - s, Rev(buf, s), Rev(Shr(buf, s), 32 - s));
    LowOfShl(Rev(buf, 32), s, 32 - s);
    JoinSplit(buf, n, 0, s);
    LowOfSmall(buf, n);
    var w := Shr(buf, s);
    BufferSplit(w, n - s);
    RevSplit(w, n - s, 32 - n);
    ShrOfShort(w, n, s);
    RevZero(32 - n);
    ShlIsProduct(Rev(w, n - s), 32 - (n - s));
    ShlIsProduct(Rev(w, n - s), 32 - n);
    ShlIsProduct(Rev(w, 32 - s), s);
    ShlAdd(Rev(w, n - s), 32 - n, s);
  }

  lemma ShrOfShort(w: nat, n: nat, s: nat)
    requires s <= n <= 32 && w < Pow2(n - s)
    ensures Shr(w, n - s) == 0
  {
    LowOfSmall(w, n - s);
  }

  /** The top `n` bits of the buffer are the next `n` bits of the stream, when that many
      are buffered or nothing is left to buffer. */
  lemma BufferWindow(buf: nat, nb: nat, rest: nat, n: nat)
    requires nb <= 32 && n <= 32 && buf < Pow2(nb) && (nb >= n || rest == 0)
    ensures Shr(Rev(buf, 32), 32 - n) == Rev(Join(buf, nb, rest), n)
  {
    hide Rev, Shl, Pow2, Shr, Low;
    RevPrefix(buf, n, 32 - n);
    if nb >= n {
      JoinSplit(buf, nb, rest, n);
      RevLow(buf, n);
      RevLow(Join(buf, nb, rest), n);
    } else {
      ShlZero(nb);
    }
  }

  class Reader {
    const data: seq<byte>
    var pos: nat
    var codeBuffer: nat
    var codeBits: int
    var nomore: bool
    var dcPred: int
    ghost var Buf: nat

    constructor (input: seq<byte>)
      ensures Valid() && data == input && dcPred == 0
      ensures State() == JState(StreamOf(Coming(input)), 0, |Coming(input)|, MarkerAhead(input), false)
    {
      data, pos := input, 0;
      codeBuffer, codeBits, nomore, dcPred := 0, 0, false, 0;
      Buf := 0;
      new;
      RevZero(32);
      assert input[0..] == input;
    }

    /** The buffer holds the bits `Buf`, the next one on top, and zeros below them. */
    ghost predicate Valid()
      reads this
    {
      pos <= |data| && 0 <= codeBits <= 32 && Buf < Pow2(codeBits) && codeBuffer == Rev(Buf, 32)
    }

    ghost function Unread(): seq<byte>
      reads this
      requires pos <= |data|
    {
      if nomore then [] else Coming(data[pos..])
    }

    ghost function State(): (z: JState)
      reads this
      requires Valid()
      ensures z.Valid()
    {
      JState(Join(Buf, codeBits, StreamOf(Unread())), codeBits, |Unread()|, nomore || MarkerAhead(data[pos..]), nomore)
    }

    method Get8() returns (b: byte)
      requires pos <= |data|
      modifies this`pos
      ensures pos <= |data|
      ensures if old(pos) < |data| then b == data[old(pos)] && pos == old(pos) + 1 else b == 0 && pos == old(pos)
    {
      if pos < |data| {
        b := data[pos];
        pos := pos + 1;
      } else {
        b := 0;
      }
    }

    /** The next entropy-coded byte, a zero past the end of the data, or the marker. */
    method NextByte() returns (b: byte, marker: bool)
      requires pos <= |data|
      modifies this`pos
      ensures pos <= |data|
      ensures var s, t := data[old(pos)..], data[pos..];
        if Coming(s) == [] then (marker <==> MarkerAhead(s)) && (!marker ==> b == 0 && Coming(t) == [] && !MarkerAhead(t))
        else !marker && b == Coming(s)[0] && Coming(t) == Coming(s)[1..] && MarkerAhead(t) == MarkerAhead(s)
    {
      ghost var s := data[pos..];
      b := Get8();
      marker := false;
      if b == 255 {
        ghost var p := pos;
        assert s[1..] == data[p..];
        var c := Get8();
        while c == 255
          invariant p < pos <= |data| || (c == 0 && pos == |data|)
          invariant c == 255 ==> pos > p && Fill(data[p..]) == Fill(data[pos..])
          invariant c != 255 ==> (if Fill(data[p..]) == [] then c == 0 && pos == |data|
                                  else c == Fill(data[p..])[0] && data[pos..] == Fill(data[p..])[1..])
          decreases |data| - pos, if c == 255 then 1 else 0
        {
          c := Get8();
        }
        if c != 0 {
          marker := true;
        }
      }
    }

    /** Tops up the buffer; the bytes are appended to its bits unchanged. */
    method GrowBufferUnsafe()
      requires Valid() && codeBits <= 24
      modifies this`pos, this`codeBuffer, this`codeBits, this`nomore, this`Buf
      ensures Valid() && State() == Grow(old(State()))
    {
      hide Coming, MarkerAhead, Join, StreamOf, Rev, Pow2, Shl, BitOr, JState.Real;
      var more := true;
      while more
        invariant Valid() && (more ==> codeBits <= 24 && Grow(State()) == Grow(old(State())))
        invariant !more ==> State() == Grow(old(State()))
        decreases 32 - codeBits, more
      {
        ghost var z, u := State(), Unread();
        var b: byte, marker := 0, false;
        if !nomore {
          b, marker := NextByte();
        }
        if marker {
          nomore := true;
          more := false;
        } else {
          StreamHead(u, b, Unread());
          BufferByte(Buf, codeBits, b, codeBuffer, StreamOf(Unread()));
          codeBuffer := BitOr(Shl(b, 24 - codeBits), codeBuffer);
          Buf := Buf + Shl(Rev(b, 8), codeBits);
          codeBits := codeBits + 8;
          more := codeBits <= 24;
        }
      }
    }

    method Ensure(n: nat)
      requires Valid() && n <= 16
      modifies this`pos, this`codeBuffer, this`codeBits, this`nomore, this`Buf
      ensures Valid() && State() == Need(old(State()), n)
    {
      if codeBits < n {
        GrowBufferUnsafe();
      }
    }

    method Drop(s: nat)
      requires Valid() && s <= codeBits
      modifies this`codeBuffer, this`codeBits, this`Buf
      ensures Valid() && State() == old(State()).Consume(s)
    {
      hide Rev, Shl, Low, Join, Shr, Pow2, Coming, MarkerAhead, StreamOf;
      BufferShift(Buf, codeBits, s);
      JoinSplit(Buf, codeBits, StreamOf(Unread()), s);
      codeBuffer := Low(Shl(codeBuffer, s), 32);
      Buf := Shr(Buf, s);
      codeBits := codeBits - s;
    }

    /** The top `n` bits of the buffer. */
    method Peek(n: nat) returns (v: nat)
      requires Valid() && n <= 16 && (codeBits >= n || State().left == 0)
      ensures v == Rev(State().rem, n)
    {
      hide Rev, Shr, Join, Coming, MarkerAhead;
      NoBytes(Unread());
      BufferWindow(Buf, codeBits, StreamOf(Unread()), n);
      v := Shr(codeBuffer, 32 - n);
    }

    method SearchLength(h: Huffman, temp: nat) returns (k: nat)
      requires h.Shaped()
      ensures k == h.SlowLength(temp, FAST_BITS + 1)
    {
      k := FAST_BITS + 1;
      while k < 17 && temp >= h.maxcode[k]
        invariant FAST_BITS + 1 <= k <= 17
        invariant h.SlowLength(temp, FAST_BITS + 1) == h.SlowLength(temp, k)
      {
        k := k + 1;
      }
    }

    /** A symbol by the fast table, or length by length. */
    method HuffDecodeNext(h: Huffman, ghost code: HuffCode) returns (r: int)
      requires Valid() && h.Shaped() && h.Represents(code.count) && h.values == code.values && code.Valid()
      modifies this`pos, this`codeBuffer, this`codeBits, this`nomore, this`Buf
      ensures r < 0 ==> HuffDecode(old(State()), code) == None
      ensures r >= 0 ==> r <= 255 && Valid() && HuffDecode(old(State()), code) == Some((r, State()))
    {
      hide Rev, Huffman.Represents, HuffDecode, Join, Coming, MarkerAhead, HuffCode.Valid, Shr, Need, JState.Consume;
      hide Pow2, StreamOf, Huffman.SlowLength;
      DecodeByLookup(h, code, State());
      Ensure(16);
      FastIndex(State().rem);
      var c := Peek(FAST_BITS);
      var k := h.fast[c];
      if k < NOT_FAST {
        var s := h.size[k];
        if s > codeBits {
          return -1;
        }
        Drop(s);
        return h.values[k];
      }
      var temp := Peek(16);
      k := SearchLength(h, temp);
      if k == 17 {
        codeBits := codeBits - 16;
        return -1;
      }
      if k > codeBits {
        return -1;
      }
      var window := Peek(k);
      var id := window + h.delta[k];
      if id < 0 || id >= 256 {
        return -1;
      }
      Drop(k);
      r := h.values[id];
    }

    /** Receives `n` magnitude bits and extends their sign. */
    method ExtendReceive(n: nat) returns (v: int)
      requires Valid() && 1 <= n <= 15
      modifies this`pos, this`codeBuffer, this`codeBits, this`nomore, this`Buf
      ensures Valid() && (v, State()) == ReceiveExtend(old(State()), n)
    {
      hide Rev, Join, Coming, MarkerAhead, Shr, Need, Pow2;
      Ensure(n);
      if codeBits < n {
        return 0;
      }
      var first := Peek(1);
      var k := Peek(n);
      OneBit(State().rem);
      Drop(n);
      v := if first == 1 then k else k - (Pow2(n) - 1);
    }

    /** One AC symbol and its magnitude: a single lookup when the table has an entry. */
    method AcNext(h: Huffman, fac: seq<int>, ghost code: HuffCode) returns (c: Option<Coefficient>)
      requires Valid() && h.Shaped() && h.Represents(code.count) && h.values == code.values && code.Valid()
      requires FastTable(h, fac)
      modifies this`pos, this`codeBuffer, this`codeBits, this`nomore, this`Buf
      ensures c.None? ==> AcSymbol(old(State()), code) == None
      ensures c.Some? ==> Valid() && AcSymbol(old(State()), code) == Some((c.value, State()))
    {
      hide Rev, Huffman.Represents, HuffDecode, Join, Coming, MarkerAhead, HuffCode.Valid, Shr, Need, JState.Consume;
      hide FastTable, FastAc, ReceiveExtend;
      Ensure(16);
      FastEntry(h, fac, code, State().rem);
      var w := Peek(FAST_BITS);
      var r := fac[w];
      if r != 0 {
        var run := r / 16 % 16;
        var s := r % 16;
        if s > codeBits {
          return None;
        }
        Drop(s);
        return Some(Value(run, r / 256));
      }
      var rs := HuffDecodeNext(h, code);
      if rs < 0 {
        return None;
      }
      var s := rs % 16;
      if s == 0 {
        return Some(if rs != 0xF0 then End else Zeros16);
      }
      var v := ExtendReceive(s);
      c := Some(Value(rs / 16, v));
    }

    /** The DC symbol and difference. */
    method DcNext(h: Huffman, ghost code: HuffCode) returns (ok: bool, diff: int)
      requires Valid() && h.Shaped() && h.Represents(code.count) && h.values == code.values && code.Valid()
      modifies this`pos, this`codeBuffer, this`codeBits, this`nomore, this`Buf
      ensures var r := HuffDecode(Need(old(State()), 16), code);
        if ok
        then Valid() && r.Some? && r.value.0 <= 15
          && (diff, State()) == (if r.value.0 > 0 then ReceiveExtend(r.value.1, r.value.0) else (0, r.value.1))
        else r.None? || r.value.0 > 15
    {
      hide Huffman.Represents, HuffDecode, Join, Coming, MarkerAhead, HuffCode.Valid, Need, JState.Consume, ReceiveExtend, Rev;
      Ensure(16);
      var t := HuffDecodeNext(h, code);
      if t < 0 || t > 15 {
        return false, 0;
      }
      diff := 0;
      if t != 0 {
        diff := ExtendReceive(t);
      }
      ok := true;
    }

    /** The AC coefficients, into their places. */
    method AcLoop(data: array<int>, h: Huffman, fac: seq<int>, dequant: seq<nat>, ghost code: HuffCode) returns (ok: bool)
      requires Valid() && data.Length == 64 && |dequant| == 64
      requires h.Shaped() && h.Represents(code.count) && h.values == code.values && code.Valid() && FastTable(h, fac)
      modifies this`pos, this`codeBuffer, this`codeBits, this`nomore, this`Buf, data
      ensures !ok ==> AcRest(old(State()), code, dequant, old(data[..]), 1) == None
      ensures ok ==> Valid() && AcRest(old(State()), code, dequant, old(data[..]), 1) == Some((data[..], State()))
    {
      hide Huffman.Represents, HuffDecode, Join, Coming, MarkerAhead, HuffCode.Valid, Need, JState.Consume, AcSymbol, Short, Zig;
      hide FastTable, ReceiveExtend, Rev;
      ghost var goal := AcRest(State(), code, dequant, data[..], 1);
      var k := 1;
      while k < 64
        invariant Valid() && 1 <= k
        invariant goal == if k < 64 then AcRest(State(), code, dequant, data[..], k) else Some((data[..], State()))
        decreases 64 - k
      {
        var c := AcNext(h, fac, code);
        if c.None? {
          return false;
        }
        match c.value {
          case End =>
            return true;
          case Zeros16 =>
            k := k + 16;
          case Value(run, v) =>
            k := k + run;
            var zig := Zig(k);
            data[zig] := Short(v * dequant[zig]);
            k := k + 1;
        }
      }
      ok := true;
    }

    /** Decodes a block into `data`. */
    method DecodeOneBlock(data: array<int>, hdc: Huffman, hac: Huffman, fac: seq<int>, dequant: seq<nat>,
                          ghost dc: HuffCode, ghost ac: HuffCode) returns (ok: bool)
      requires Valid() && data.Length == 64 && |dequant| == 64
      requires hdc.Shaped() && hdc.Represents(dc.count) && hdc.values == dc.values && dc.Valid()
      requires hac.Shaped() && hac.Represents(ac.count) && hac.values == ac.values && ac.Valid() && FastTable(hac, fac)
      modifies this, data
      ensures var r := DecodeBlock(old(State()), old(dcPred), dc, ac, dequant);
        if ok then Valid() && r == Some((data[..], dcPred, State())) else r == None
    {
      hide Huffman.Represents, HuffDecode, Join, Coming, MarkerAhead, HuffCode.Valid, Need, JState.Consume, AcRest, Short, Zig;
      hide FastTable, ReceiveExtend, Rev;
      var diff;
      ok, diff := DcNext(hdc, dc);
      if !ok {
        return;
      }
      ZeroFill(data);
      var level := dcPred + diff;
      if !(INT_MIN <= level <= INT_MAX) {
        return false;
      }
      dcPred := level;
      if !ShortProduct(level, dequant[0]) {
        return false;
      }
      data[0] := Short(level * dequant[0]);
      ok := AcLoop(data, hac, fac, dequant, ac);
    }
  }

  method ZeroFill(data: array<int>)
    requires data.Length == 64
    modifies data
    ensures data[..] == ZeroBlock()
  {
    var i := 0;
    while i < 64
      invariant i <= 64 && forall k :: 0 <= k < i ==> data[k] == 0
    {
      data[i] := 0;
      i := i + 1;
    }
  }

  /** The second table belongs to the first. */
  predicate FastTable(h: Huffman, fac: seq<int>)
    reads h
    requires h.Shaped()
  {
    && |fac| == 512
    && forall i :: 0 <= i < 512 ==> h.fast[i] <= 255 && fac[i] == Entry(h.fast[i], h.values[h.fast[i]], h.size[h.fast[i]], i)
  }

  lemma FastEntry(h: Huffman, fac: seq<int>, code: HuffCode, v: nat)
    requires h.Shaped() && h.Represents(code.count) && h.values == code.values && code.Valid() && FastTable(h, fac)
    ensures |fac| == 512 && Rev(v, FAST_BITS) < 512
    ensures var e := fac[Rev(v, FAST_BITS)];
      if e == 0 then FastAc(code, v) == None else FastAc(code, v) == Some((e / 16 % 16, e / 256, e % 16))
  {
    hide Entry, FastAc, Huffman.Represents, HuffCode.Valid, Rev;
    FastIndex(v);
    EntryIsFastAc(h, code, v);
  }

  lemma StreamHead(u: seq<byte>, b: byte, t: seq<byte>)
    requires (u == [] && b == 0 && t == []) || (u != [] && b == u[0] && t == u[1..])
    ensures StreamOf(u) == Rev(b, 8) + 256 * StreamOf(t)
  {
    if u == [] {
      RevZero(8);
    } else {
      assert Reversed(u)[1..] == Reversed(t);
    }
  }

  lemma NoBytes(u: seq<byte>)
    ensures u == [] ==> StreamOf(u) == 0
  {
  }

  lemma OneBit(v: nat)
    ensures Rev(v, 1) == v % 2
  {
    assert Pow2(0) == 1 && Rev(v / 2, 0) == 0;
  }

  /** Decoding is looking up, unless the code is not fully buffered. */
  lemma DecodeByLookup(h: Huffman, code: HuffCode, z: JState)
    requires z.Valid() && h.Shaped() && h.Represents(code.count) && h.values == code.values && code.Valid()
    ensures var y := Need(z, 16); var (i, len) := h.Lookup(y.rem);
      HuffDecode(z, code) ==
        if i < 0 || i >= 256 || len > y.nb then None else Some((h.values[i], y.Consume(len)))
  {
    hide Sizes, Rev, Shr;
    LookupIsFront(h, code.count, z.rem);
  }
}
