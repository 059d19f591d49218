/** Inflating what a compressor may write gives the data back. */
module DeflateRoundTrip {
  import opened Bits
  import opened BitFields
  import opened CanonicalCode
  import opened InflateSpec
  import opened Wrappers
  import opened FixedCode
  import opened DeflateSpec

  // ------------------------------------------------------- output capacity

  /** The output buffer is, or may grow to be, large enough for `n` bytes. */
  predicate CanHold(o: Output, n: nat) {
    o.Valid() && (n <= o.cap || (o.expandable && n <= INT_MAX))
  }

  lemma {:induction false} DoublingReaches(cap: nat, need: nat)
    requires 0 < cap <= UINT_MAX && need <= INT_MAX
    ensures Doubled(cap, need).Some?
    decreases UINT_MAX - cap
  {
    if need > cap {
      DoublingReaches(2 * cap, need);
    }
  }

  lemma RoomFor(o: Output, n: nat, total: nat)
    requires CanHold(o, total) && |o.bytes| + n <= total
    ensures o.Room(n).Some? && CanHold(o.Room(n).value, total)
  {
    if |o.bytes| + n > o.cap {
      DoublingReaches(o.cap, |o.bytes| + n);
    }
  }

  // ---------------------------------------------------- blocks in any code

  lemma DecodeCode(z: BitState, lens: Lengths, n: nat, rest: nat, bits: nat) returns (y: BitState)
    requires IsCode(lens) && Has(lens, n) && Roomy(z, CodeField(lens, n).width + bits)
    requires z.rem == Join(CodeField(lens, n).value, CodeField(lens, n).width, rest)
    ensures Decode(z, lens) == Some((n, y)) && y.rem == rest && Roomy(y, bits) && Moved(z, y, CodeField(lens, n).width)
  {
    CodeFieldFits(lens, n);
    y := DecodeSymbol(z, lens, n, rest, bits);
  }

  lemma MatchSplit(t: Token, lens: Lengths, dlens: Lengths, more: seq<Field>, tail: nat)
    requires Codable(t, lens, dlens) && t.Match?
    ensures Stream(CodedFields(t, lens, dlens) + more, tail)
      == Join(CodeField(lens, 257 + t.lsym).value, CodeField(lens, 257 + t.lsym).width,
              Stream(MatchTail(t, dlens), Stream(more, tail)))
    ensures Width(CodedFields(t, lens, dlens)) == CodeField(lens, 257 + t.lsym).width + Width(MatchTail(t, dlens))
  {
    hide CodeField, MatchTail;
    var f := CodeField(lens, 257 + t.lsym);
    StreamConcat(CodedFields(t, lens, dlens), more, tail);
    StreamConcat([f], MatchTail(t, dlens), Stream(more, tail));
    OneField(f, Stream(MatchTail(t, dlens), Stream(more, tail)));
  }

  lemma ExtraWidth(value: nat, width: nat)
    ensures Width(Extra(value, width)) == width
  {
    if width > 0 {
      OneField(Field(value, width), 0);
    }
  }

  lemma MatchTailWidth(t: Token, dlens: Lengths)
    requires t.Valid() && t.Match? && Has(dlens, t.dsym)
    ensures Width(MatchTail(t, dlens)) == LengthExtra(t.lsym) + CodeField(dlens, t.dsym).width + DistExtra(t.dsym)
  {
    hide CodeField, LengthExtra, DistExtra, Width, Stream;
    var a, d, b := Extra(t.lextra, LengthExtra(t.lsym)), CodeField(dlens, t.dsym), Extra(t.dextra, DistExtra(t.dsym));
    StreamConcat(a, [d] + b, 0);
    StreamConcat([d], b, 0);
    OneField(d, 0);
    ExtraWidth(t.lextra, LengthExtra(t.lsym));
    ExtraWidth(t.dextra, DistExtra(t.dsym));
  }

  /** The distance symbol and its extra bits. */
  lemma DecodeDistance(z: BitState, t: Token, dlens: Lengths, rest: nat, bits: nat) returns (w: BitState, y: BitState)
    requires t.Valid() && t.Match? && IsCode(dlens) && Has(dlens, t.dsym)
    requires Roomy(z, CodeField(dlens, t.dsym).width + DistExtra(t.dsym) + bits)
    requires z.rem == Stream([CodeField(dlens, t.dsym)] + Extra(t.dextra, DistExtra(t.dsym)), rest)
    ensures Decode(z, dlens) == Some((t.dsym, w))
    ensures ReceiveExtra(w, DistExtra(t.dsym)) == (t.dextra, y) && y.rem == rest && Roomy(y, bits)
    ensures Moved(z, y, CodeField(dlens, t.dsym).width + DistExtra(t.dsym))
  {
    hide DistExtra, DistBase, IsCode, CodeField, Stream, Join;
    var m, d := DistExtra(t.dsym), CodeField(dlens, t.dsym);
    StreamConcat([d], Extra(t.dextra, m), rest);
    OneField(d, Stream(Extra(t.dextra, m), rest));
    w := DecodeCode(z, dlens, t.dsym, Stream(Extra(t.dextra, m), rest), m + bits);
    y := ReceiveExtraField(w, t.dextra, m, rest, bits);
    MovedOn(z, w, y, d.width, m);
  }

  /** The written length and distance are the ones that are read. */
  lemma DecodeMatch(z: BitState, t: Token, dlens: Lengths, rest: nat, bits: nat) returns (y: BitState)
    requires t.Valid() && t.Match? && IsCode(dlens) && Has(dlens, t.dsym)
    requires Roomy(z, Width(MatchTail(t, dlens)) + bits) && z.rem == Stream(MatchTail(t, dlens), rest)
    ensures MatchFields(z, 257 + t.lsym, dlens) == Some((t.Len(), t.Dist(), y))
    ensures y.rem == rest && Roomy(y, bits) && Moved(z, y, Width(MatchTail(t, dlens)))
  {
    hide DistExtra, DistBase, LengthExtra, LengthBase, Decode, Stream, CodeField, KraftOk, Pow2;
    var n, m, f := LengthExtra(t.lsym), DistExtra(t.dsym), CodeField(dlens, t.dsym);
    var d := [f] + Extra(t.dextra, m);
    MatchTailWidth(t, dlens);
    StreamConcat(Extra(t.lextra, n), d, rest);
    var u := ReceiveExtraField(z, t.lextra, n, Stream(d, rest), f.width + m + bits);
    var w;
    w, y := DecodeDistance(u, t, dlens, rest, bits);
    MovedOn(z, u, y, n, f.width + m);
  }

  /** One literal, read back. */
  lemma LiteralStep(z: BitState, out: Output, t: Token, lens: Lengths, dlens: Lengths, more: seq<Field>, tail: nat,
                    bits: nat) returns (x: BitState)
    requires t.Literal? && Codable(t, lens, dlens) && IsCode(lens) && IsCode(dlens) && out.Valid() && out.Room(1).Some?
    requires Roomy(z, Width(CodedFields(t, lens, dlens)) + (Width(more) + bits))
    requires z.rem == Stream(CodedFields(t, lens, dlens) + more, tail)
    ensures x.rem == Stream(more, tail) && Roomy(x, Width(more) + bits) && Moved(z, x, Width(CodedFields(t, lens, dlens)))
    ensures HuffmanBlock(z, out, lens, dlens) == HuffmanBlock(x, out.Room(1).value.Append([t.b]), lens, dlens)
  {
    hide CodeField, Decode, Symbol, CopyMatch, MatchFields, KraftOk, Join;
    StreamConcat(CodedFields(t, lens, dlens), more, tail);
    OneField(CodeField(lens, t.b), Stream(more, tail));
    x := DecodeCode(z, lens, t.b, Stream(more, tail), Width(more) + bits);
  }

  /** One match, read back. */
  lemma MatchStep(z: BitState, out: Output, t: Token, lens: Lengths, dlens: Lengths, more: seq<Field>, tail: nat,
                  bits: nat) returns (x: BitState)
    requires t.Fits(out.bytes) && t.Match? && Codable(t, lens, dlens) && IsCode(lens) && IsCode(dlens)
    requires out.Valid() && out.Room(t.Len()).Some?
    requires Roomy(z, Width(CodedFields(t, lens, dlens)) + (Width(more) + bits))
    requires z.rem == Stream(CodedFields(t, lens, dlens) + more, tail)
    ensures x.rem == Stream(more, tail) && Roomy(x, Width(more) + bits) && Moved(z, x, Width(CodedFields(t, lens, dlens)))
    ensures HuffmanBlock(z, out, lens, dlens)
      == HuffmanBlock(x, out.Room(t.Len()).value.(bytes := t.Apply(out.bytes)), lens, dlens)
  {
    hide CodeField, Decode, Symbol, CopyMatch, MatchFields, KraftOk, LengthBase, DistBase;
    hide LengthExtra, DistExtra, Stream, Width, MatchTail, CodedFields;
    MatchSplit(t, lens, dlens, more, tail);
    var rest := Stream(more, tail);
    var y := DecodeCode(z, lens, 257 + t.lsym, Stream(MatchTail(t, dlens), rest),
                        Width(MatchTail(t, dlens)) + (Width(more) + bits));
    x := DecodeMatch(y, t, dlens, rest, Width(more) + bits);
    MovedOn(z, y, x, CodeField(lens, 257 + t.lsym).width, Width(MatchTail(t, dlens)));
  }

  lemma EndStep(z: BitState, out: Output, lens: Lengths, dlens: Lengths, tail: nat, bits: nat) returns (y: BitState)
    requires out.Valid() && IsCode(lens) && IsCode(dlens) && Has(lens, 256)
    requires Roomy(z, Width([CodeField(lens, 256)]) + bits) && z.rem == Stream([CodeField(lens, 256)], tail)
    ensures y.rem == tail && Roomy(y, bits) && HuffmanBlock(z, out, lens, dlens) == Some((y, out))
    ensures Moved(z, y, Width([CodeField(lens, 256)]))
  {
    hide CodeField, Decode, Symbol, CopyMatch, MatchFields, KraftOk;
    OneField(CodeField(lens, 256), tail);
    y := DecodeCode(z, lens, 256, tail, bits);
  }

  /** Decoding the fields of any tokens that expand to `final` yields `final`, in any codes
      that have their symbols. */
  lemma {:induction false} DecodeTokens(z: BitState, out: Output, tokens: seq<Token>, lens: Lengths, dlens: Lengths,
                                        final: seq<byte>, tail: nat, bits: nat) returns (y: BitState, o: Output)
    requires Expands(tokens, out.bytes, final) && CanHold(out, |final|)
    requires IsCode(lens) && IsCode(dlens) && AllCodable(tokens, lens, dlens)
    requires Roomy(z, Width(BodyFields(tokens, lens, dlens)) + bits) && z.rem == Stream(BodyFields(tokens, lens, dlens), tail)
    ensures HuffmanBlock(z, out, lens, dlens) == Some((y, o)) && CanHold(o, |final|)
    ensures o.bytes == final && y.rem == tail && Roomy(y, bits) && Moved(z, y, Width(BodyFields(tokens, lens, dlens)))
    ensures forall k :: CanHold(out, k) && |final| <= k ==> CanHold(o, k)
    decreases |tokens|
  {
    hide HuffmanBlock, Stream, Width, CodeField, CodedFields, KraftOk;
    hide LengthBase, LengthExtra, DistBase, DistExtra, CopyMatch, Pow2, Doubled;
    if tokens == [] {
      y := EndStep(z, out, lens, dlens, tail, bits);
      o := out;
    } else {
      var t, more := tokens[0], BodyFields(tokens[1..], lens, dlens);
      StreamConcat(CodedFields(t, lens, dlens), more, tail);
      ExpandsGrows(tokens[1..], t.Apply(out.bytes), final);
      RoomFor(out, t.Len(), |final|);
      var x: BitState;
      if t.Literal? {
        x := LiteralStep(z, out, t, lens, dlens, more, tail, bits);
      } else {
        x := MatchStep(z, out, t, lens, dlens, more, tail, bits);
      }
      var next := out.Room(t.Len()).value.(bytes := t.Apply(out.bytes));
      y, o := DecodeTokens(x, next, tokens[1..], lens, dlens, final, tail, bits);
      MovedOn(z, x, y, Width(CodedFields(t, lens, dlens)), Width(more));
    }
  }

  // --------------------------------------------------- blocks in the fixed code

  lemma FixedSymbol(n: nat)
    requires n < 288
    ensures Has(FixedLengths(), n) && SymbolField(n) == CodeField(FixedLengths(), n)
  {
  }

  lemma FixedDistance(n: nat)
    requires n < 30
    ensures Has(FixedDistances(), n) && Field(Rev(n, 5), 5) == CodeField(FixedDistances(), n)
  {
    DistanceCodeOf(n);
  }

  lemma FixedToken(t: Token)
    requires t.Valid()
    ensures Codable(t, FixedLengths(), FixedDistances())
    ensures t.Fields() == CodedFields(t, FixedLengths(), FixedDistances())
  {
    hide FixedLengths, FixedDistances, SymbolField, CodeField, LengthExtra, DistExtra, Rev;
    if t.Literal? {
      FixedSymbol(t.b);
    } else {
      FixedSymbol(257 + t.lsym);
      FixedDistance(t.dsym);
      assert t.Fields() == CodedFields(t, FixedLengths(), FixedDistances());
    }
  }

  /** The writer's fields are those of the fixed codes. */
  lemma {:induction false} FixedBody(tokens: seq<Token>)
    requires forall i :: 0 <= i < |tokens| ==> tokens[i].Valid()
    ensures AllCodable(tokens, FixedLengths(), FixedDistances())
    ensures TokenFields(tokens) + [SymbolField(256)] == BodyFields(tokens, FixedLengths(), FixedDistances())
  {
    hide FixedLengths, FixedDistances, SymbolField, CodeField, CodedFields, Token.Fields, Token.Valid, Codable;
    FixedSymbol(256);
    forall i | 0 <= i < |tokens| ensures Codable(tokens[i], FixedLengths(), FixedDistances()) {
      FixedToken(tokens[i]);
    }
    if tokens == [] {
      assert [] + [SymbolField(256)] == [SymbolField(256)];
    } else {
      FixedToken(tokens[0]);
      FixedBody(tokens[1..]);
      var a, b, c := tokens[0].Fields(), TokenFields(tokens[1..]), [SymbolField(256)];
      assert (a + b) + c == a + (b + c);
    }
  }

  // ------------------------------------------------------------ whole streams

  function ByteState(s: seq<byte>): BitState {
    BitState(LE(s), 0, |s|, false)
  }

  /** The stream from `z` inflates, and the output becomes `bytes`. */
  ghost predicate Yields(z: BitState, out: Output, bytes: seq<byte>)
    requires z.nb <= 32 && out.Valid()
  {
    Blocks(z, out).Some? && Blocks(z, out).value.1.bytes == bytes
  }

  /** Fields packed into bytes and followed by other bytes read as one stream. */
  lemma PackedStream(bytes: seq<byte>, fields: seq<Field>, after: seq<byte>) returns (tail: nat)
    requires Packed(bytes, fields)
    ensures LE(bytes + after) == Stream(fields, tail)
  {
    var pad := 8 * |bytes| - Width(fields);
    tail := Shl(LE(after), pad);
    LEAppend(bytes, after);
    StreamTail(fields, tail);
    ShlAdd(LE(after), pad, Width(fields));
  }

  /** The fields of a fixed block after its header. */
  function BlockFields(tokens: seq<Token>): seq<Field>
    requires forall i :: 0 <= i < |tokens| ==> tokens[i].Valid()
  {
    TokenFields(tokens) + [SymbolField(256)]
  }

  lemma BlockFieldsAre(tokens: seq<Token>)
    requires forall i :: 0 <= i < |tokens| ==> tokens[i].Valid()
    ensures BlockFields(tokens) == TokenFields(tokens) + [SymbolField(256)]
  {
  }

  /** A fixed block is its three header bits, then the fields of its tokens. */
  lemma FixedStream(tokens: seq<Token>, tail: nat)
    requires forall i :: 0 <= i < |tokens| ==> tokens[i].Valid()
    ensures Stream(FixedFields(tokens), tail) == Join(1, 1, Join(1, 2, Stream(BlockFields(tokens), tail)))
    ensures Width(FixedFields(tokens)) == 3 + Width(BlockFields(tokens))
  {
    hide Stream, Width, Join, TokenFields, SymbolField;
    var fields := BlockFields(tokens);
    var one, two := [Field(1, 1)], [Field(1, 2)];
    assert one + (two + fields) == [Field(1, 1), Field(1, 2)] + fields;
    StreamConcat(one, two + fields, tail);
    StreamConcat(two, fields, tail);
    OneField(Field(1, 1), Stream(two + fields, tail));
    OneField(Field(1, 2), Stream(fields, tail));
  }

  /** BFINAL and BTYPE, read back. */
  lemma BlockStart(z: BitState, last: bool, kind: nat, rest: nat, bits: nat) returns (w: BitState)
    requires kind <= 2 && Roomy(z, 3 + bits) && z.rem == Join(if last then 1 else 0, 1, Join(kind, 2, rest))
    ensures Receive(z, 1).0 == (if last then 1 else 0) && Receive(Receive(z, 1).1, 2) == (kind, w)
    ensures w.rem == rest && Roomy(w, bits) && w.nb <= 30 && Moved(z, w, 3)
  {
    hide Join, Low, Shr;
    assert Pow2(1) == 2 && Pow2(2) == 4;
    var u := ReceiveField(z, Field(if last then 1 else 0, 1), Join(kind, 2, rest), 2 + bits);
    w := ReceiveField(u, Field(kind, 2), rest, bits);
    MovedOn(z, u, w, 1, 2);
  }

  /** A block in the fixed codes, after its header bits. */
  lemma FixedRead(z: BitState, out: Output, tokens: seq<Token>, mid: seq<byte>, tail: nat, bits: nat)
    returns (y: BitState, o: Output)
    requires AllCodable(tokens, FixedLengths(), FixedDistances()) && Expands(tokens, out.bytes, mid) && CanHold(out, |mid|)
    requires z.nb <= 30 && Roomy(z, Width(BodyFields(tokens, FixedLengths(), FixedDistances())) + bits)
    requires z.rem == Stream(BodyFields(tokens, FixedLengths(), FixedDistances()), tail)
    ensures Block(z, out, 1) == Some((y, o)) && o.bytes == mid && y.rem == tail && Roomy(y, bits)
    ensures Moved(z, y, Width(BodyFields(tokens, FixedLengths(), FixedDistances())))
    ensures forall k :: CanHold(out, k) && |mid| <= k ==> CanHold(o, k)
  {
    hide HuffmanBlock, BodyFields, Stream, Width, AllCodable, FixedLengths, FixedDistances, KraftBelow, Expands, Moved;
    FixedIsComplete();
    y, o := DecodeTokens(z, out, tokens, FixedLengths(), FixedDistances(), mid, tail, bits);
  }

  /** Inflating a fixed-code stream yields what its tokens expand to. */
  lemma FixedInflates(bytes: seq<byte>, tokens: seq<Token>, data: seq<byte>, after: seq<byte>, out: Output)
    requires Expands(tokens, [], data) && forall i :: 0 <= i < |tokens| ==> tokens[i].Valid()
    requires Packed(bytes, FixedFields(tokens))
    requires out.bytes == [] && CanHold(out, |data|)
    ensures Yields(ByteState(bytes + after), out, data)
  {
    hide SymbolField, Expands, LE, Stream, Width, Join, BlockFields, FixedFields, Receive, Blocks, Block, TokenFields;
    hide Token.Valid, BodyFields, AllCodable, FixedLengths, FixedDistances, Pow2;
    var z := ByteState(bytes + after);
    var tail := PackedStream(bytes, FixedFields(tokens), after);
    FixedStream(tokens, tail);
    FixedBody(tokens);
    assert BlockFields(tokens) == BodyFields(tokens, FixedLengths(), FixedDistances()) by {
      BlockFieldsAre(tokens);
    }
    var w := FixedStart(z, tokens, tail);
    var y, o := FixedRead(w, out, tokens, data, tail, 0);
    BlocksStep(z, w, out, true, 1, y, o);
  }

  lemma FixedStart(z: BitState, tokens: seq<Token>, tail: nat) returns (w: BitState)
    requires forall i :: 0 <= i < |tokens| ==> tokens[i].Valid()
    requires Roomy(z, Width(FixedFields(tokens))) && z.rem == Stream(FixedFields(tokens), tail)
    ensures Receive(z, 1).0 == 1 && Receive(Receive(z, 1).1, 2) == (1, w) && w.nb <= 30
    ensures w.rem == Stream(BlockFields(tokens), tail) && Roomy(w, Width(BlockFields(tokens)))
  {
    hide Token.Valid, Stream, Width, BlockFields, FixedFields, Receive, Join, Moved;
    FixedStream(tokens, tail);
    w := BlockStart(z, true, 1, Stream(BlockFields(tokens), tail), Width(BlockFields(tokens)));
  }

  /** A block and, unless it is the final one, the blocks after it. */
  lemma BlocksStep(z: BitState, w: BitState, out: Output, last: bool, kind: nat, y: BitState, o: Output)
    requires z.nb <= 32 && w.nb <= 30 && out.Valid() && Block(w, out, kind) == Some((y, o))
    requires Receive(z, 1).0 == (if last then 1 else 0) && Receive(Receive(z, 1).1, 2) == (kind, w)
    ensures Blocks(z, out) == if last then Some((y, o)) else Blocks(y, o)
  {
    hide Block, Receive;
  }

  function U16(lo: byte, hi: byte): nat {
    lo as int + 256 * (hi as int)
  }

  lemma StoredHeaderFields(n: nat, last: bool)
    requires n <= BLOCK_MAX
    ensures var h := StoredHeader(n, last); U16(h[1], h[2]) == n && U16(h[3], h[4]) == 0xFFFF - n
  {
    hide U16, UChar;
    BytePair(n);
    BytePair(0xFFFF - n);
    Complement(n);
  }

  lemma BytePair(v: nat)
    requires v < 0x10000
    ensures U16(UChar(v), UChar(v / 256)) == v
  {
    var q, r := v / 256, v % 256;
    assert q < 256;
  }

  /** In sixteen bits, minus one minus `n` is the complement of `n`. */
  lemma Complement(n: int)
    requires 0 <= n < 0x10000
    ensures UChar(-n - 1) == UChar(0xFFFF - n) && UChar((-n - 1) / 256) == UChar((0xFFFF - n) / 256)
  {
    var v, m := 0xFFFF - n, -n - 1;
    assert m == v - 256 * 256;
    assert m / 256 == v / 256 - 256;
  }

  lemma TwoBytes(s: seq<byte>, rest: seq<byte>)
    requires |s| >= 2 && s[2..] == rest
    ensures Low(LE(s), 16) == U16(s[0], s[1]) && Shr(LE(s), 16) == LE(rest)
  {
    Pow2Values();
    assert s[1..][1..] == rest;
    var hi, lo := s[1], s[0];
    assert LE(s[1..]) == hi as int + 256 * LE(rest);
    assert LE(s) == lo as int + 256 * LE(s[1..]);
    LowShrUnique(LE(s), 16, LE(rest), U16(lo, hi));
  }

  /** The first byte holds BFINAL and BTYPE. */
  lemma FirstByte(s: seq<byte>)
    requires |s| >= 1 && s[0] <= 1
    ensures Low(LE(s), 1) == s[0] && Low(Shr(LE(s), 1), 2) == 0 && Shr(LE(s), 8) == LE(s[1..])
  {
    Pow2Values();
    var t := LE(s[1..]);
    assert Pow2(1) == 2 && Pow2(2) == 4;
    LowShrUnique(LE(s), 8, t, s[0]);
    LowShrUnique(LE(s), 1, 128 * t, s[0]);
    LowShrUnique(128 * t, 2, 32 * t, 0);
  }

  /** A stored block at a byte boundary is copied to the output. */
  lemma StoredStepBlock(s: seq<byte>, n: nat, last: bool, rest: seq<byte>, out: Output)
    requires n <= BLOCK_MAX && s == StoredHeader(n, last) + rest && n <= |rest|
    requires out.Valid() && out.Room(n).Some?
    ensures var (f, z1) := Receive(ByteState(s), 1); var (k, z2) := Receive(z1, 2);
      && f == (if last then 1 else 0) && k == 0 && z2.nb == 29
      && StoredBlock(z2, out) == Some((ByteState(rest[n..]), out.Room(n).value.Append(rest[..n])))
  {
    var v := LE(s);
    StoredHeaderFields(n, last);
    FirstByte(s);
    TwoBytes(s[1..], s[3..]);
    TwoBytes(s[3..], rest);
    LETakeDrop(rest, n);
    ShrAdd(v, 1, 2);
    ShrAdd(v, 3, 5);
    ShrAdd(Shr(v, 8), 16, 16);
    StoredStepState(v, n, LE(rest), |s|, out);
  }

  lemma StoredStepState(v: nat, n: nat, rest: nat, len: nat, out: Output)
    requires len >= n + 5 && out.Valid() && out.Room(n).Some?
    requires Shr(Shr(Shr(v, 1), 2), 5) == Shr(v, 8)
    requires Low(Shr(v, 8), 16) == n && Low(Shr(Shr(v, 8), 16), 16) == 0xFFFF - n
    requires Shr(Shr(v, 8), 32) == rest
    ensures var z2 := Receive(Receive(BitState(v, 0, len, false), 1).1, 2).1;
      z2.nb == 29 && StoredBlock(z2, out)
        == Some((BitState(Shr(rest, 8 * n), 0, len - 5 - n, false), out.Room(n).value.Append(TakeBytes(rest, n))))
  {
    hide Shr, Low, TakeBytes, Doubled;
  }

  /** One stored block is copied through. */
  lemma StoredStep(payload: seq<byte>, last: bool, more: seq<byte>, out: Output, total: nat) returns (o: Output)
    requires 0 < |payload| <= BLOCK_MAX && CanHold(out, total) && |out.bytes| + |payload| <= total
    ensures CanHold(o, total) && o.bytes == out.bytes + payload
    ensures Blocks(ByteState(StoredHeader(|payload|, last) + (payload + more)), out)
      == if last then Some((ByteState(more), o)) else Blocks(ByteState(more), o)
  {
    var n, rest := |payload|, payload + more;
    RoomFor(out, n, total);
    o := out.Room(n).value.Append(payload);
    assert rest[..n] == payload && rest[n..] == more;
    StoredStepBlock(StoredHeader(n, last) + rest, n, last, rest, out);
    hide StoredBlock, Receive, LE, Shr, Low, StoredHeader, HuffmanBlock;
  }

  /** Inflating stored blocks yields the stored data. */
  lemma {:induction false} StoredInflates(data: seq<byte>, after: seq<byte>, out: Output, total: nat)
    requires data != [] && CanHold(out, total) && |out.bytes| + |data| <= total
    ensures Yields(ByteState(StoredBlocks(data) + after), out, out.bytes + data)
    decreases |data|
  {
    hide Blocks, LE, StoredHeader, StoredBlocks, Doubled;
    var n := if |data| > BLOCK_MAX then BLOCK_MAX else |data|;
    var more := StoredBlocks(data[n..]) + after;
    var o := StoredStep(data[..n], n == |data|, more, out, total);
    FirstStored(data, after, n);
    if n < |data| {
      StoredInflates(data[n..], after, o, total);
      assert out.bytes + data[..n] + data[n..] == out.bytes + data;
    } else {
      assert data[..n] == data && data[n..] == [];
      NoneStored(after);
    }
  }

  lemma NoneStored(after: seq<byte>)
    ensures StoredBlocks([]) + after == after
  {
  }

  lemma FirstStored(data: seq<byte>, after: seq<byte>, n: nat)
    requires data != [] && n == if |data| > BLOCK_MAX then BLOCK_MAX else |data|
    ensures StoredBlocks(data) + after == StoredHeader(n, n == |data|) + (data[..n] + (StoredBlocks(data[n..]) + after))
  {
    hide StoredHeader, StoredBlocks;
    UnfoldStored(data, n);
    Regroup(StoredHeader(n, n == |data|), data[..n], StoredBlocks(data[n..]), after);
  }

  lemma UnfoldStored(data: seq<byte>, n: nat)
    requires data != [] && n == if |data| > BLOCK_MAX then BLOCK_MAX else |data|
    ensures StoredBlocks(data) == StoredHeader(n, n == |data|) + data[..n] + StoredBlocks(data[n..])
  {
    hide StoredHeader;
  }

  lemma Regroup(a: seq<byte>, b: seq<byte>, c: seq<byte>, d: seq<byte>)
    ensures a + b + c + d == a + (b + (c + d))
  {
  }
}
