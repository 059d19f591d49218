/** The inflater: a reader object with a 32-bit bit buffer, two Huffman tables and
    a growing output buffer. Every method is proved to compute the corresponding
    function of InflateSpec on the abstract stream. */
module Inflater {
  import opened Bits
  import opened CanonicalCode
  import opened ZHuffman
  import opened InflateSpec
  import opened Wrappers
  import opened FixedCode

  class ZBuf {
    const zbuffer: seq<byte>
    var zpos: nat
    var numBits: int
    var hitZeofOnce: bool
    var codeBuffer: nat

    var zout: seq<byte>
    var limit: nat
    const zExpandable: bool

    const zLength: Table
    const zDistance: Table

    constructor (input: seq<byte>, capacity: nat, expandable: bool)
      requires capacity <= UINT_MAX && (expandable ==> capacity > 0)
      ensures Valid() && fresh(zLength) && fresh(zDistance)
      ensures zbuffer == input && zpos == 0 && numBits == 0 && !hitZeofOnce
      ensures Out() == Output([], capacity, expandable)
    {
      zbuffer, zpos := input, 0;
      numBits, codeBuffer, hitZeofOnce := 0, 0, false;
      zout, limit, zExpandable := [], capacity, expandable;
      zLength := new Table();
      zDistance := new Table();
    }

    /** The bit buffer holds exactly `numBits` bits and never more than 32, and the
        output fits its capacity. */
    ghost predicate Valid()
      reads this
    {
      && zpos <= |zbuffer| && 0 <= numBits <= 32 && codeBuffer < Pow2(numBits)
      && Out().Valid() && zLength != zDistance
    }

    ghost function Out(): Output
      reads this
    {
      Output(zout, limit, zExpandable)
    }

    /** The unread stream: the buffered bits, then the bytes not yet loaded. */
    ghost function State(): BitState
      reads this
      requires Valid()
    {
      BitState(Join(codeBuffer, numBits, LE(zbuffer[zpos..])), numBits, |zbuffer| - zpos, hitZeofOnce)
    }

    // ------------------------------------------------------------- bit reading

    predicate Zeof()
      reads this
    {
      zpos >= |zbuffer|
    }

    method ZGet8() returns (b: byte)
      requires zpos <= |zbuffer|
      modifies this`zpos
      ensures zpos == if old(Zeof()) then old(zpos) else old(zpos) + 1
      ensures LE(zbuffer[old(zpos)..]) == b + 256 * LE(zbuffer[zpos..]) && zpos <= |zbuffer|
    {
      if Zeof() {
        b := 0;
      } else {
        b := zbuffer[zpos];
        assert zbuffer[zpos..][1..] == zbuffer[zpos + 1..];
        zpos := zpos + 1;
      }
    }

    /** Moves one byte into the buffer. The guard against a buffer with stray high
        bits never fires. */
    method LoadByte()
      requires Valid() && numBits <= 24
      modifies this`zpos, this`codeBuffer, this`numBits
      ensures Valid() && State().rem == old(State()).rem && numBits == old(numBits) + 8
      ensures zpos == if old(Zeof()) then old(zpos) else old(zpos) + 1
    {
      hide LE, Shl, BitOr, Join, Pow2;
      if codeBuffer >= Pow2(numBits) {
        assert false;
      }
      var b := ZGet8();
      JoinByte(codeBuffer, numBits, b, LE(zbuffer[zpos..]));
      ShiftFits(b, numBits);
      OrAbove(codeBuffer, b, numBits);
      codeBuffer := BitOr(codeBuffer, Shl(b, numBits) % UINT32_MODULUS);
      numBits := numBits + 8;
    }

    /** Loads bytes until more than 24 bits are buffered. */
    method FillBits()
      requires Valid() && numBits <= 24
      modifies this`zpos, this`codeBuffer, this`numBits
      ensures Valid() && State() == Refill(old(State()))
    {
      hide LE, Join, Pow2;
      ghost var was, n := State(), 0;
      var more := true;
      while more
        invariant Valid() && State().rem == was.rem && numBits == was.nb + 8 * n
        invariant |zbuffer| - zpos == if was.left < n then 0 else was.left - n
        invariant more <==> numBits <= 24
        invariant !more ==> n > 0 && was.nb + 8 * (n - 1) <= 24
        decreases 32 - numBits
      {
        LoadByte();
        n := n + 1;
        more := numBits <= 24;
      }
    }

    method ZReceive(n: nat) returns (k: nat)
      requires Valid() && n <= 24
      modifies this`zpos, this`codeBuffer, this`numBits
      ensures Valid() && (k, State()) == Receive(old(State()), n)
    {
      hide LE, Join, Pow2, Shr, Low, Refill;
      if numBits < n {
        FillBits();
      }
      JoinSplit(codeBuffer, numBits, LE(zbuffer[zpos..]), n);
      k := Low(codeBuffer, n);
      codeBuffer := Shr(codeBuffer, n);
      numBits := numBits - n;
    }

    // -------------------------------------------------------- symbol decoding

    /** Drops `s` buffered bits. */
    method Skip(s: nat)
      requires Valid() && s <= numBits
      modifies this`codeBuffer, this`numBits
      ensures Valid() && State() == Consume(old(State()), s)
    {
      JoinSplit(codeBuffer, numBits, LE(zbuffer[zpos..]), s);
      codeBuffer := Shr(codeBuffer, s);
      numBits := numBits - s;
    }

    /** The search by code length. Neither the range check nor the size check fires. */
    method ZHuffmanDecodeSlowpath(t: Table, ghost lens: Lengths) returns (r: int)
      requires Valid() && numBits >= 16 && t.Represents(lens)
      requires t.fast[FastIndex(codeBuffer)] == 0
      modifies this`codeBuffer, this`numBits
      ensures Valid() && r == Symbol(lens, old(State()).rem)
      ensures r >= 0 ==> lens[r] <= 15 && State() == Consume(old(State()), lens[r])
    {
      ghost var rem := State().rem;
      WindowAgrees(codeBuffer, numBits, LE(zbuffer[zpos..]));
      var k := BitReverse(codeBuffer, 16);
      BitReverseIsRev(codeBuffer, 16);
      FastLookup(lens, rem, t.fast[FastIndex(codeBuffer)]);
      Pow2Values();
      var s := FAST_BITS + 1;
      while k >= t.maxcode[s]
        invariant FAST_BITS < s <= 16 && MaxCode(lens, s - 1) <= k
        decreases 16 - s
      {
        s := s + 1;
      }
      if s >= 16 {
        NoMatch(lens, rem);
        return -1;
      }
      ghost var i := SlowMatch(lens, s, rem);
      var b := Shr(k, 16 - s) - t.firstcode[s] + t.firstsymbol[s];
      assert b == Position(lens, i);
      if b >= NSYMS {
        assert false;
      }
      if t.size[b] != s {
        assert false;
      }
      Skip(s);
      r := t.value[b];
    }

    /** Makes 16 bits available; at the end of the input, once, by counting 16 zero
        bits that the stream does not have. */
    method Refill16() returns (ok: bool)
      requires Valid()
      modifies this`zpos, this`codeBuffer, this`numBits, this`hitZeofOnce
      ensures Valid() && (ok <==> Ensure16(old(State())).Some?)
      ensures ok ==> Ensure16(old(State())) == Some(State())
    {
      if numBits < 16 {
        if Zeof() {
          if !hitZeofOnce {
            PadZeros(codeBuffer, numBits);
            hitZeofOnce := true;
            numBits := numBits + 16;
          } else {
            return false;
          }
        } else {
          FillBits();
        }
      }
      ok := true;
    }

    /** Reads one symbol, or -1 when the input is used up or no code matches. */
    method ZHuffmanDecode(t: Table, ghost lens: Lengths) returns (r: int)
      requires Valid() && t.Represents(lens)
      modifies this`zpos, this`codeBuffer, this`numBits, this`hitZeofOnce
      ensures Valid()
      ensures r < 0 <==> Decode(old(State()), lens).None?
      ensures r >= 0 ==> Decode(old(State()), lens) == Some((r, State()))
    {
      hide LE, Join, Pow2, Shr, Low, Ensure16;
      var ok := Refill16();
      if !ok {
        return -1;
      }
      var b := t.fast[FastIndex(codeBuffer)];
      if b != 0 {
        FastHit(lens, codeBuffer, numBits, LE(zbuffer[zpos..]), b);
        Skip(Shr(b, 9));
        return Low(b, 9);
      }
      r := ZHuffmanDecodeSlowpath(t, lens);
    }

    // ------------------------------------------------------------- output

    /** Enlarges the output buffer so that `n` more bytes fit. */
    method ZExpand(n: nat) returns (ok: bool)
      requires Valid() && |zout| + n > limit
      modifies this`limit
      ensures Valid() && (ok <==> old(Out()).Room(n).Some?)
      ensures ok ==> old(Out()).Room(n) == Some(Out())
    {
      if !zExpandable {
        return false;
      }
      var cur, newLimit := |zout|, limit;
      if UINT_MAX - cur < n {
        return false;
      }
      while cur + n > newLimit
        invariant 0 < newLimit <= UINT_MAX
        invariant Doubled(newLimit, cur + n) == Doubled(limit, cur + n)
        decreases UINT_MAX - newLimit
      {
        if newLimit > UINT_MAX / 2 {
          return false;
        }
        newLimit := newLimit * 2;
      }
      limit := newLimit;
      ok := true;
    }

    method MakeRoom(n: nat) returns (ok: bool)
      requires Valid()
      modifies this`limit
      ensures Valid() && (ok <==> old(Out()).Room(n).Some?)
      ensures ok ==> old(Out()).Room(n) == Some(Out())
    {
      ok := true;
      if n > limit - |zout| {
        ok := ZExpand(n);
      }
    }

    /** Copies a match; a distance of one repeats the last byte. */
    method CopyOut(len: nat, dist: nat)
      requires Valid() && 1 <= dist <= |zout| && |zout| + len <= limit
      modifies this`zout
      ensures Valid() && zout == CopyMatch(old(zout), len, dist)
    {
      var n := len;
      if dist == 1 {
        var v := zout[|zout| - 1];
        while n > 0
          invariant |zout| + n <= limit && 1 <= |zout| && zout[|zout| - 1] == v
          invariant CopyMatch(zout, n, 1) == CopyMatch(old(zout), len, 1)
        {
          zout := zout + [v];
          n := n - 1;
        }
      } else {
        while n > 0
          invariant |zout| + n <= limit && dist <= |zout|
          invariant CopyMatch(zout, n, dist) == CopyMatch(old(zout), len, dist)
        {
          zout := zout + [zout[|zout| - dist]];
          n := n - 1;
        }
      }
    }

    // ------------------------------------------------------------- blocks

    method ReceiveOptional(n: nat) returns (k: nat)
      requires Valid() && n <= 24
      modifies this`zpos, this`codeBuffer, this`numBits
      ensures Valid() && (k, State()) == ReceiveExtra(old(State()), n)
    {
      k := 0;
      if n != 0 {
        k := ZReceive(n);
      }
    }

    /** The length and distance after a length symbol. */
    method ReceiveMatch(sym: nat, ghost dlens: Lengths) returns (ok: bool, len: nat, dist: nat)
      requires Valid() && zDistance.Represents(dlens) && 257 <= sym < 286
      modifies this`zpos, this`codeBuffer, this`numBits, this`hitZeofOnce
      ensures Valid()
      ensures ok <==> MatchFields(old(State()), sym, dlens).Some?
      ensures ok ==> MatchFields(old(State()), sym, dlens) == Some((len, dist, State()))
    {
      hide Join, LE, Pow2, Low, Shr, Decode, LengthBase, LengthExtra, DistBase, DistExtra;
      dist := 0;
      var z := sym - 257;
      len := ReceiveOptional(LengthExtra(z));
      len := LengthBase(z) + len;
      var d := ZHuffmanDecode(zDistance, dlens);
      if d < 0 || d >= 30 {
        return false, len, dist;
      }
      dist := ReceiveOptional(DistExtra(d));
      dist := DistBase(d) + dist;
      ok := true;
    }

    /** The rest of a match, and the copy. */
    method ParseMatch(sym: nat, ghost dlens: Lengths) returns (ok: bool)
      requires Valid() && zDistance.Represents(dlens) && 257 <= sym < 286
      modifies this`zpos, this`codeBuffer, this`numBits, this`hitZeofOnce, this`zout, this`limit
      ensures Valid() && (ok <==> AfterMatch(old(State()), old(Out()), sym, dlens).Some?)
      ensures ok ==> AfterMatch(old(State()), old(Out()), sym, dlens) == Some((State(), Out()))
    {
      hide Join, LE, Pow2, Low, Shr, Decode, CopyMatch, MatchFields;
      var len, dist;
      ok, len, dist := ReceiveMatch(sym, dlens);
      if !ok {
        return;
      }
      if |zout| < dist {
        return false;
      }
      ok := MakeRoom(len);
      if !ok {
        return;
      }
      CopyOut(len, dist);
    }

    /** Decodes symbols to the end of the block. It always ends: every symbol fails
        or adds a byte, and the buffer cannot grow past UINT_MAX bytes. */
    method ParseHuffmanBlock(ghost lens: Lengths, ghost dlens: Lengths) returns (ok: bool)
      requires Valid() && zLength.Represents(lens) && zDistance.Represents(dlens)
      modifies this
      ensures Valid()
      ensures ok <==> HuffmanBlock(old(State()), old(Out()), lens, dlens).Some?
      ensures ok ==> HuffmanBlock(old(State()), old(Out()), lens, dlens) == Some((State(), Out()))
    {
      hide Join, LE, Pow2, Low, Shr, Decode, CopyMatch, AfterMatch, Doubled;
      while true
        invariant Valid() && zLength.Represents(lens) && zDistance.Represents(dlens)
        invariant HuffmanBlock(State(), Out(), lens, dlens)
          == HuffmanBlock(old(State()), old(Out()), lens, dlens)
        decreases UINT_MAX - |zout|
      {
        var z := ZHuffmanDecode(zLength, lens);
        if z < 256 {
          if z < 0 {
            return false;
          }
          ok := MakeRoom(1);
          if !ok {
            return;
          }
          zout := zout + [z];
        } else if z == 256 {
          return !(hitZeofOnce && numBits < 16);
        } else if z >= 286 {
          return false;
        } else {
          ok := ParseMatch(z, dlens);
          if !ok {
            return;
          }
        }
      }
    }

    method DrainByte() returns (b: byte)
      requires Valid() && numBits >= 8
      modifies this`codeBuffer, this`numBits
      ensures Valid() && b == LowByte(old(State()).rem) && State() == Consume(old(State()), 8)
    {
      JoinSplit(codeBuffer, numBits, LE(zbuffer[zpos..]), 8);
      b := LowByte(codeBuffer);
      Skip(8);
    }

    /** With the buffer empty, the next byte of the stream is the next input byte. */
    method NextByte() returns (b: byte)
      requires Valid() && numBits == 0
      modifies this`zpos
      ensures Valid() && b == LowByte(old(State()).rem)
      ensures State() == BitState(Shr(old(State()).rem, 8), 0, Less(old(State()).left, 1), old(State()).hit)
    {
      assert Pow2(0) == 1 && codeBuffer == 0;
      ghost var rest := LE(zbuffer[zpos..]);
      b := ZGet8();
      Pow2Values();
      LowShrUnique(rest, 8, LE(zbuffer[zpos..]), b);
    }

    /** The four bytes LEN and NLEN: first whatever whole bytes are still buffered,
        at most three, then bytes of the input. No payload byte is drained. */
    method ReadStoredHeader() returns (header: seq<byte>)
      requires Valid() && numBits <= 31 && numBits % 8 == 0
      modifies this`zpos, this`codeBuffer, this`numBits
      ensures Valid() && numBits == 0 && header == TakeBytes(old(State()).rem, 4)
      ensures State() == StoredHeaderRead(old(State()))
    {
      hide Join, LE, Pow2, Low, Shr, LowByte, TakeBytes;
      ghost var y := State();
      header := [];
      HeaderStart(y.rem);
      while numBits > 0
        invariant Valid() && |header| <= 3 && header == TakeBytes(y.rem, |header|)
        invariant y.nb == numBits + 8 * |header|
        invariant State() == y.(rem := Shr(y.rem, 8 * |header|), nb := numBits)
        decreases numBits
      {
        HeaderStep(y.rem, |header|);
        assert |header| < 4;
        var b := DrainByte();
        header := header + [b];
      }
      if numBits < 0 {
        assert false;
      }
      ghost var k := |header|;
      while |header| < 4
        invariant Valid() && k <= |header| <= 4 && header == TakeBytes(y.rem, |header|)
        invariant State() == BitState(Shr(y.rem, 8 * |header|), 0, Less(y.left, |header| - k), y.hit)
      {
        HeaderStep(y.rem, |header|);
        var b := NextByte();
        header := header + [b];
      }
    }

    /** Drops the bits before the next byte boundary. */
    method Realign()
      requires Valid() && numBits <= 31
      modifies this`zpos, this`codeBuffer, this`numBits
      ensures Valid() && State() == Receive(old(State()), old(numBits) % 8).1 && numBits <= 31 && numBits % 8 == 0
    {
      hide Join, LE, Pow2, Low, Shr, Receive;
      AlignedReceive(State());
      if numBits % 8 != 0 {
        var _ := ZReceive(numBits % 8);
      }
    }

    /** Copies a stored block. */
    method ParseUncompressedBlock() returns (ok: bool)
      requires Valid() && numBits <= 31
      modifies this
      ensures Valid() && (ok <==> StoredBlock(old(State()), old(Out())).Some?)
      ensures ok ==> StoredBlock(old(State()), old(Out())) == Some((State(), Out()))
    {
      hide Join, LE, Pow2, Low, Shr, LowByte, TakeBytes, Doubled, Receive;
      Realign();
      ghost var y := State();
      var header := ReadStoredHeader();
      StoredHeaderFields(y.rem);
      var len: nat := header[1] as int * 256 + header[0];
      var nlen: nat := header[3] as int * 256 + header[2];
      if nlen != 0xFFFF - len {
        return false;
      }
      if zpos + len > |zbuffer| {
        return false;
      }
      ok := MakeRoom(len);
      if ok {
        CopyStored(len);
      }
    }

    /** Copies `len` input bytes to the output. */
    method CopyStored(len: nat)
      requires Valid() && numBits == 0 && zpos + len <= |zbuffer| && |zout| + len <= limit
      modifies this`zout, this`zpos
      ensures Valid() && Out() == old(Out()).Append(TakeBytes(old(State()).rem, len))
      ensures State() == BitState(Shr(old(State()).rem, 8 * len), 0, old(State()).left - len, hitZeofOnce)
    {
      assert Pow2(0) == 1 && codeBuffer == 0;
      LETakeDrop(zbuffer[zpos..], len);
      assert zbuffer[zpos..][..len] == zbuffer[zpos..zpos + len];
      assert zbuffer[zpos..][len..] == zbuffer[zpos + len..];
      zout := zout + zbuffer[zpos..zpos + len];
      zpos := zpos + len;
    }

    // ------------------------------------------------------------ code lengths

    method ReceiveSmall(n: nat) returns (k: nat)
      requires Valid() && n <= 5
      modifies this`zpos, this`codeBuffer, this`numBits
      ensures Valid() && (k, State()) == Receive(old(State()), n)
      ensures (n == 3 ==> k < 8) && (n == 4 ==> k < 16) && (n == 5 ==> k < 32)
    {
      SmallBits(State().rem, n);
      k := ZReceive(n);
    }

    method ReadCodeLengthSizes(hclen: nat) returns (sizes: Lengths)
      requires Valid() && hclen <= 19
      modifies this`zpos, this`codeBuffer, this`numBits
      ensures Valid() && (sizes, State()) == CodeLengthSizes(old(State()), hclen, 0, Repeat(0, 19))
    {
      hide Join, LE, Pow2, Low, Shr;
      sizes := Repeat(0, 19);
      var i := 0;
      while i < hclen
        invariant 0 <= i <= hclen && Valid() && |sizes| == 19 && ValidLengths(sizes)
        invariant CodeLengthSizes(State(), hclen, i, sizes)
          == CodeLengthSizes(old(State()), hclen, 0, Repeat(0, 19))
      {
        var s := ReceiveSmall(3);
        sizes := sizes[LENGTH_DEZIGZAG[i] := s];
        i := i + 1;
      }
    }

    /** Reads the repeat count of code-length symbol `c`. */
    method ReadRepeat(c: nat) returns (n: nat)
      requires Valid() && 16 <= c < 19
      modifies this`zpos, this`codeBuffer, this`numBits
      ensures Valid() && n >= 3
      ensures Receive(old(State()), RepeatBits(c)) == (n - RepeatBase(c), State())
    {
      n := ZReceive(RepeatBits(c));
      n := n + RepeatBase(c);
    }

    method ReadCodeLengths(t: Table, ghost clens: Lengths, ntot: nat) returns (ok: bool, lencodes: Lengths)
      requires Valid() && t.Represents(clens)
      modifies this`zpos, this`codeBuffer, this`numBits, this`hitZeofOnce
      ensures Valid() && (ok <==> CodeLengths(old(State()), clens, ntot, []).Some?)
      ensures ok ==> CodeLengths(old(State()), clens, ntot, []) == Some((lencodes, State()))
    {
      hide Join, LE, Pow2, Low, Shr, Decode, Receive;
      lencodes := [];
      while |lencodes| < ntot
        invariant Valid() && ValidLengths(lencodes) && |lencodes| <= ntot
        invariant CodeLengths(State(), clens, ntot, lencodes) == CodeLengths(old(State()), clens, ntot, [])
        decreases ntot - |lencodes|
      {
        var c := ZHuffmanDecode(t, clens);
        if c < 0 || c >= 19 {
          return false, lencodes;
        }
        if c < 16 {
          lencodes := lencodes + [c];
        } else {
          var n := ReadRepeat(c);
          var fill := 0;
          if c == 16 {
            if |lencodes| == 0 {
              return false, lencodes;
            }
            fill := lencodes[|lencodes| - 1];
          }
          if ntot - |lencodes| < n {
            return false, lencodes;
          }
          lencodes := lencodes + Repeat(fill, n);
        }
      }
      ok := true;
    }

    /** Reads the code lengths of a dynamic block and builds both tables. */
    method ComputeHuffmanCodes() returns (ok: bool, ghost lens: Lengths, ghost dlens: Lengths)
      requires Valid()
      modifies this`zpos, this`codeBuffer, this`numBits, this`hitZeofOnce, zLength, zDistance
      ensures Valid() && (ok <==> DynamicCodes(old(State())).Some?)
      ensures ok ==> DynamicCodes(old(State())) == Some((lens, dlens, State()))
      ensures ok ==> zLength.Represents(lens) && zDistance.Represents(dlens)
    {
      hide Join, LE, Pow2, Low, Shr, CodeLengths, CodeLengthSizes, Receive, KraftOk, FastIn, BoundsIn, SymbolsIn;
      lens, dlens := [], [];
      var hlit := ReceiveSmall(5);
      var hdist := ReceiveSmall(5);
      var hclen := ReceiveSmall(4);
      hlit, hdist, hclen := hlit + 257, hdist + 1, hclen + 4;
      var sizes := ReadCodeLengthSizes(hclen);
      var zCodelength := new Table();
      ok := zCodelength.Build(sizes);
      if !ok {
        return;
      }
      var lencodes;
      ok, lencodes := ReadCodeLengths(zCodelength, sizes, hlit + hdist);
      if !ok {
        return;
      }
      lens, dlens := lencodes[..hlit], lencodes[hlit..];
      ok := zLength.Build(lencodes[..hlit]);
      if !ok {
        return;
      }
      ok := zDistance.Build(lencodes[hlit..]);
    }

    // ------------------------------------------------------------ whole streams

    method ParseZlibHeader() returns (ok: bool)
      requires Valid() && zpos == 0
      modifies this`zpos
      ensures Valid() && (ok <==> HeaderOk(zbuffer)) && (ok ==> zpos == 2)
    {
      assert zbuffer[0..] == zbuffer;
      var cmf := ZGet8();
      var cm := cmf % 16;
      var flg := ZGet8();
      if Zeof() {
        return false;
      }
      HeaderBytes(zbuffer);
      if (cmf as int * 256 + flg) % 31 != 0 {
        return false;
      }
      if flg / 32 % 2 != 0 {
        return false;
      }
      if cm != 8 {
        return false;
      }
      ok := true;
    }

    /** The blocks of a stream up to the final one. */
    method ParseBlocks() returns (ok: bool)
      requires Valid()
      modifies this, zLength, zDistance
      ensures Valid() && (ok <==> Blocks(old(State()), old(Out())).Some?)
      ensures ok ==> Blocks(old(State()), old(Out())) == Some((State(), Out()))
    {
      hide Join, LE, Pow2, Low, Shr, StoredBlock, HuffmanBlock, DynamicCodes, FixedLengths, FixedDistances;
      var final := 0;
      while final == 0
        invariant Valid()
        invariant final == 0 ==> Blocks(State(), Out()) == Blocks(old(State()), old(Out()))
        invariant final != 0 ==> Blocks(old(State()), old(Out())) == Some((State(), Out()))
        decreases if final == 0 then 1 else 0, State().rem
      {
        ghost var z := State();
        HeaderConsumes(z.rem);
        HeaderBits(z.rem);
        final := ZReceive(1);
        assert numBits <= 31;
        var kind := ZReceive(2);
        assert numBits <= 31;
        ok := ParseBlock(kind);
        if !ok {
          return;
        }
      }
      ok := true;
    }

    method ParseBlock(kind: nat) returns (ok: bool)
      requires Valid() && numBits <= 31 && kind <= 3
      modifies this, zLength, zDistance
      ensures Valid() && (ok <==> Block(old(State()), old(Out()), kind).Some?)
      ensures ok ==> Block(old(State()), old(Out()), kind) == Some((State(), Out()))
    {
      hide Join, LE, Pow2, Low, Shr, StoredBlock, HuffmanBlock, DynamicCodes, FixedLengths;
      hide KraftOk, KraftBelow, FastIn, BoundsIn, SymbolsIn;
      if kind == 0 {
        ok := ParseUncompressedBlock();
      } else if kind == 3 {
        ok := false;
      } else {
        ghost var lens, dlens;
        if kind == 1 {
          FixedIsComplete();
          lens, dlens := FixedLengths(), FixedDistances();
          ok := zLength.Build(FixedLengths());
          if !ok {
            return;
          }
          ok := zDistance.Build(FixedDistances());
        } else {
          ok, lens, dlens := ComputeHuffmanCodes();
        }
        if !ok {
          return;
        }
        ok := ParseHuffmanBlock(lens, dlens);
      }
    }

    /** Inflates the whole input. */
    method ParseZlib(parseHeader: bool) returns (ok: bool)
      requires Valid() && zpos == 0 && zout == []
      modifies this, zLength, zDistance
      ensures Valid()
      ensures ok <==> Inflate(zbuffer, old(limit), zExpandable, parseHeader).Some?
      ensures ok ==> Inflate(zbuffer, old(limit), zExpandable, parseHeader) == Some(zout)
    {
      hide Join, LE, Pow2, Blocks, HeaderOk;
      if parseHeader {
        ok := ParseZlibHeader();
        if !ok {
          return;
        }
      }
      numBits, codeBuffer, hitZeofOnce := 0, 0, false;
      StartState(zbuffer, zpos);
      assert zbuffer[zpos..] == Body(zbuffer, parseHeader);
      assert State() == Start(zbuffer, parseHeader);
      ok := ParseBlocks();
    }
  }

  /** Dropping `n` bits of a stream. */
  function Consume(z: BitState, n: nat): BitState
    requires n <= z.nb
  {
    z.(rem := Shr(z.rem, n), nb := z.nb - n)
  }

  lemma SmallBits(v: nat, n: nat)
    ensures n == 3 ==> Low(v, n) < 8
    ensures n == 4 ==> Low(v, n) < 16
    ensures n == 5 ==> Low(v, n) < 32
  {
    LowShr(v, n);
    assert Pow2(3) == 8 && Pow2(4) == 16 && Pow2(5) == 32;
  }

  lemma HeaderBytes(input: seq<byte>)
    requires |input| > 2
    ensures input[1..][0] == input[1] && LE(input) == input[0] + 256 * LE(input[1..])
    ensures LE(input[1..]) == input[1] + 256 * LE(input[2..])
  {
    assert input[1..][1..] == input[2..];
  }

  lemma HeaderBits(rem: nat)
    ensures Low(rem, 1) <= 1 && Low(Shr(rem, 1), 2) <= 3
  {
    LowShr(rem, 1);
    LowShr(Shr(rem, 1), 2);
    assert Pow2(1) == 2 && Pow2(2) == 4;
  }

  lemma StartState(input: seq<byte>, pos: nat)
    requires pos <= |input|
    ensures 0 < Pow2(0) && Join(0, 0, LE(input[pos..])) == LE(input[pos..])
    ensures input[0..] == input
  {
  }

  lemma HeaderStart(rem: nat)
    ensures TakeBytes(rem, 0) == [] && Shr(rem, 0) == rem
  {
  }

  lemma HeaderStep(rem: nat, k: nat)
    ensures TakeBytes(rem, k + 1) == TakeBytes(rem, k) + [LowByte(Shr(rem, 8 * k))]
    ensures Shr(Shr(rem, 8 * k), 8) == Shr(rem, 8 * (k + 1))
  {
    TakeBytesSnoc(rem, k);
    ShrAdd(rem, 8 * k, 8);
  }

  /** Byte-aligned state after the four header bytes of a stored block. */
  function StoredHeaderRead(y: BitState): BitState
    requires y.nb <= 31
  {
    BitState(Shr(y.rem, 32), 0, Less(y.left, 4 - y.nb / 8), y.hit)
  }

  lemma StoredHeaderFields(rem: nat)
    ensures var h := TakeBytes(rem, 4);
      h[1] as int * 256 + h[0] == Low(rem, 16) && h[3] as int * 256 + h[2] == Low(Shr(rem, 16), 16)
  {
    Pow2Values();
    ShrAdd(rem, 8, 8);
    ShrAdd(rem, 16, 8);
    LowAdd(rem, 8, 8);
    LowAdd(Shr(rem, 16), 8, 8);
    var h := TakeBytes(rem, 4);
    assert h[0] == LowByte(rem) && h[1..] == TakeBytes(Shr(rem, 8), 3);
    assert h[1] == LowByte(Shr(rem, 8)) && h[1..][1..] == TakeBytes(Shr(rem, 16), 2);
    assert h[2] == LowByte(Shr(rem, 16)) && h[1..][1..][1..] == TakeBytes(Shr(Shr(rem, 16), 8), 1);
    assert h[3] == LowByte(Shr(Shr(rem, 16), 8));
  }

  lemma ShiftFits(b: byte, n: nat)
    requires n <= 24
    ensures Shl(b, n) < UINT32_MODULUS
  {
    ShlOrder(256, b, n);
    ShlPow2(8, n);
    Pow2Monotone(8 + n, 32);
    Pow2Values();
  }

  /** The zero bits added at the end of the input are the stream's own. */
  lemma PadZeros(buf: nat, n: nat)
    requires buf < Pow2(n)
    ensures buf < Pow2(n + 16) && Join(buf, n, 0) == Join(buf, n + 16, 0)
  {
    Pow2Monotone(n, n + 16);
    ShlZero(n);
    ShlZero(n + 16);
  }

  /** With 16 bits buffered, table lookups see what the stream holds. */
  lemma WindowAgrees(buf: nat, n: nat, rest: nat)
    requires n >= 16 && buf < Pow2(n)
    ensures Rev(buf, 16) == Rev(Join(buf, n, rest), 16)
    ensures Low(buf, FAST_BITS) == Low(Join(buf, n, rest), FAST_BITS)
  {
    JoinSplit(buf, n, rest, 16);
    JoinSplit(buf, n, rest, FAST_BITS);
    RevLow(buf, 16);
    RevLow(Join(buf, n, rest), 16);
  }

  lemma SymbolIs(lens: Lengths, rem: nat, i: nat)
    requires Matches(lens, i, rem)
    ensures Symbol(lens, rem) == i
  {
    PrefixFree(lens, i, Symbol(lens, rem), rem);
  }

  /** A hit in the fast table is the stream's symbol. */
  lemma FastHit(lens: Lengths, buf: nat, n: nat, rest: nat, e: nat)
    requires ValidLengths(lens) && |lens| <= NSYMS && n >= 16 && buf < Pow2(n) && e != 0
    requires FastCorrect(lens, |lens|, Low(buf, FAST_BITS), e)
    ensures Symbol(lens, Join(buf, n, rest)) == Low(e, 9) < |lens| && Shr(e, 9) == lens[Low(e, 9)] <= 15
  {
    WindowAgrees(buf, n, rest);
    FastLookup(lens, Join(buf, n, rest), e);
    SymbolIs(lens, Join(buf, n, rest), Low(e, 9));
  }

  lemma SlowMatch(lens: Lengths, s: nat, rem: nat) returns (i: nat)
    requires 1 <= s <= MAX_LENGTH && |lens| <= NSYMS && ValidLengths(lens)
    requires MaxCode(lens, s - 1) <= Rev(rem, 16) < MaxCode(lens, s)
    ensures i < |lens| && lens[i] == s && Symbol(lens, rem) == i
    ensures Shr(Rev(rem, 16), 16 - s) - FirstCode(lens, s) + FirstSymbol(lens, s) == Position(lens, i) < NSYMS
  {
    i := WindowMatch(lens, s, rem);
    SymbolIs(lens, rem, i);
    PositionInRange(lens, i);
  }

  lemma NoMatch(lens: Lengths, rem: nat)
    requires ValidLengths(lens) && MaxCode(lens, MAX_LENGTH) <= Rev(rem, 16)
    ensures Symbol(lens, rem) == -1
  {
    var i := Symbol(lens, rem);
    if i >= 0 {
      MatchWindow(lens, i, rem);
      MaxCodeMonotone(lens, lens[i], MAX_LENGTH);
    }
  }

  /** Receiving the bits of the broken byte leaves whole bytes, and nothing changes without. */
  lemma AlignedReceive(z: BitState)
    requires z.nb <= 31
    ensures var y := Receive(z, z.nb % 8).1;
      y.nb <= 31 && y.nb % 8 == 0 && (z.nb % 8 == 0 ==> y == z)
  {
    hide Low;
    ShrNothing(z.rem);
    var q := z.nb / 8;
    assert z.nb - z.nb % 8 == 8 * q;
  }
}
