/** The converse of DeflateStream: whatever inflates is a zlib stream as RFC 1950 and RFC 1951
    describe it, and the result is what its blocks make. A stream that is cut short is read
    as if zero bits followed it. */
module DeflateAccepted {
  import opened Bits
  import opened BitFields
  import opened CanonicalCode
  import opened InflateSpec
  import opened Wrappers
  import opened FixedCode
  import opened DeflateSpec
  import opened DeflateRoundTrip
  import opened DynamicRoundTrip
  import opened DeflateStream

  // -------------------------------------------------------------- fields and symbols

  lemma Joined(v: nat, n: nat)
    ensures v == Join(Low(v, n), n, Shr(v, n)) && Low(v, n) < Pow2(n)
  {
    LowShr(v, n);
    ShlIsProduct(Shr(v, n), n);
  }

  lemma FieldTaken(z: BitState, n: nat)
    requires z.nb <= 32 && n <= 24
    ensures var (v, y) := Receive(z, n); v < Pow2(n) && z.rem == Join(v, n, y.rem) && Moved(z, y, n)
  {
    hide Join, Low, Shr, Pow2;
    Joined(z.rem, n);
    ReceiveMoves(z, n);
  }

  lemma ExtraTaken(z: BitState, n: nat)
    requires z.nb <= 32 && n <= 24
    ensures var (v, y) := ReceiveExtra(z, n);
      v < Pow2(n) && z.rem == Stream(Extra(v, n), y.rem) && Moved(z, y, n) && Width(Extra(v, n)) == n
  {
    hide Join, Receive, Pow2;
    var v := ReceiveExtra(z, n).0;
    ExtraWidth(v, n);
    if n > 0 {
      FieldTaken(z, n);
      OneField(Field(v, n), Receive(z, n).1.rem);
    }
  }

  lemma CodeTaken(z: BitState, lens: Lengths, n: nat, y: BitState)
    requires z.nb <= 32 && IsCode(lens) && Decode(z, lens) == Some((n, y))
    ensures Has(lens, n) && z.rem == Join(CodeField(lens, n).value, CodeField(lens, n).width, y.rem)
    ensures Moved(z, y, CodeField(lens, n).width)
  {
    hide Join, Code, KraftOk, Low, Shr, Rev, Pow2;
    assert Matches(lens, n, z.rem);
    RevInvolutive(z.rem, lens[n]);
    Joined(z.rem, lens[n]);
    EnsureMoves(z, lens[n]);
  }

  // ------------------------------------------------------------------------- tokens

  lemma DistanceTaken(z: BitState, dlens: Lengths, d: nat, x: BitState)
    requires z.nb <= 32 && IsCode(dlens) && Decode(z, dlens) == Some((d, x)) && d < 30
    ensures Has(dlens, d)
    ensures var (f, w) := ReceiveExtra(x, DistExtra(d)); var fields := [CodeField(dlens, d)] + Extra(f, DistExtra(d));
      && f < Pow2(DistExtra(d)) && z.rem == Stream(fields, w.rem) && Moved(z, w, Width(fields))
  {
    hide IsCode, CodeField, Decode, ReceiveExtra, DistExtra, Extra, Stream, Width, Join, Pow2;
    CodeTaken(z, dlens, d, x);
    ExtraTaken(x, DistExtra(d));
    var (f, w) := ReceiveExtra(x, DistExtra(d));
    ConsField(CodeField(dlens, d), Extra(f, DistExtra(d)), w.rem);
    MovedOn(z, x, w, CodeField(dlens, d).width, DistExtra(d));
  }

  /** The length and distance that are read are those of a token. */
  lemma MatchTaken(z: BitState, sym: nat, dlens: Lengths, len: nat, dist: nat, y: BitState) returns (t: Token)
    requires z.nb <= 32 && 257 <= sym < 286 && IsCode(dlens) && MatchFields(z, sym, dlens) == Some((len, dist, y))
    ensures t.Match? && t.Valid() && t.lsym == sym - 257 && Has(dlens, t.dsym) && t.Len() == len && t.Dist() == dist
    ensures z.rem == Stream(MatchTail(t, dlens), y.rem) && Moved(z, y, Width(MatchTail(t, dlens)))
  {
    hide CodeField, KraftOk, Decode, ReceiveExtra, DistExtra, LengthExtra, DistBase, LengthBase, Extra, Stream, Width, Pow2;
    var l := sym - 257;
    ExtraTaken(z, LengthExtra(l));
    var (e, u) := ReceiveExtra(z, LengthExtra(l));
    var (d, x) := Decode(u, dlens).value;
    DistanceTaken(u, dlens, d, x);
    var (f, w) := ReceiveExtra(x, DistExtra(d));
    t := Match(l, e, d, f);
    StreamConcat(Extra(e, LengthExtra(l)), [CodeField(dlens, d)] + Extra(f, DistExtra(d)), w.rem);
    MovedOn(z, u, w, LengthExtra(l), Width([CodeField(dlens, d)] + Extra(f, DistExtra(d))));
  }

  /** From `z` to `y` the stream spells the tokens and the end of the block. */
  ghost predicate TokensAre(z: BitState, y: BitState, tokens: seq<Token>, lens: Lengths, dlens: Lengths,
                            out: seq<byte>, final: seq<byte>)
  {
    && AllCodable(tokens, lens, dlens) && Expands(tokens, out, final)
    && z.rem == Stream(BodyFields(tokens, lens, dlens), y.rem) && Moved(z, y, Width(BodyFields(tokens, lens, dlens)))
  }

  /** From `z` to `y` the stream spells one token that fits after `out`. */
  ghost predicate TokenIs(z: BitState, y: BitState, t: Token, lens: Lengths, dlens: Lengths, out: seq<byte>) {
    && Codable(t, lens, dlens) && t.Fits(out)
    && z.rem == Stream(CodedFields(t, lens, dlens), y.rem) && Moved(z, y, Width(CodedFields(t, lens, dlens)))
  }

  lemma ConsToken(z: BitState, x: BitState, y: BitState, t: Token, more: seq<Token>, lens: Lengths, dlens: Lengths,
                  out: seq<byte>, final: seq<byte>)
    requires TokenIs(z, x, t, lens, dlens, out) && TokensAre(x, y, more, lens, dlens, t.Apply(out), final)
    ensures TokensAre(z, y, [t] + more, lens, dlens, out, final)
  {
    hide Codable, CodedFields, Stream, Width, CodeField, Token.Fits, Token.Apply, Moved;
    var all := [t] + more;
    assert all[0] == t && all[1..] == more;
    StreamConcat(CodedFields(t, lens, dlens), BodyFields(more, lens, dlens), y.rem);
    MovedOn(z, x, y, Width(CodedFields(t, lens, dlens)), Width(BodyFields(more, lens, dlens)));
  }

  lemma EndTaken(z: BitState, y: BitState, lens: Lengths, dlens: Lengths, out: seq<byte>)
    requires z.nb <= 32 && IsCode(lens) && Decode(z, lens) == Some((256, y))
    ensures TokensAre(z, y, [], lens, dlens, out, out)
  {
    hide IsCode, Decode, CodeField, Stream, Width;
    CodeTaken(z, lens, 256, y);
    OneField(CodeField(lens, 256), y.rem);
  }

  lemma LiteralTaken(z: BitState, x: BitState, sym: byte, lens: Lengths, dlens: Lengths, out: seq<byte>)
    requires z.nb <= 32 && IsCode(lens) && Decode(z, lens) == Some((sym as nat, x))
    ensures TokenIs(z, x, Literal(sym), lens, dlens, out)
  {
    hide IsCode, Decode, CodeField, Stream, Width;
    CodeTaken(z, lens, sym, x);
    OneField(CodeField(lens, sym), x.rem);
  }

  /** A buffer that may not grow has not grown. */
  predicate SameRoom(out: Output, o: Output) {
    o.expandable == out.expandable && (!out.expandable ==> o.cap == out.cap)
  }

  lemma MatchTokenTaken(z: BitState, u: BitState, x: BitState, sym: nat, lens: Lengths, dlens: Lengths, out: Output, o: Output)
    returns (t: Token)
    requires z.nb <= 32 && IsCode(lens) && IsCode(dlens) && out.Valid() && Decode(z, lens) == Some((sym, u))
    requires 257 <= sym < 286 && AfterMatch(u, out, sym, dlens) == Some((x, o))
    ensures TokenIs(z, x, t, lens, dlens, out.bytes) && o.bytes == t.Apply(out.bytes) && SameRoom(out, o)
  {
    hide KraftOk, Decode, CodeField, Stream, Width, MatchFields, MatchTail, LengthBase, DistBase, DistExtra, LengthExtra;
    hide CopyMatch, Doubled, Pow2;
    CodeTaken(z, lens, sym, u);
    var (len, dist, w) := MatchFields(u, sym, dlens).value;
    t := MatchTaken(u, sym, dlens, len, dist, w);
    ConsField(CodeField(lens, sym), MatchTail(t, dlens), x.rem);
    MovedOn(z, u, x, CodeField(lens, sym).width, Width(MatchTail(t, dlens)));
  }

  /** A block that decodes spells tokens, and its output is what they expand to. */
  lemma {:induction false} BlockTaken(z: BitState, out: Output, lens: Lengths, dlens: Lengths, y: BitState, o: Output)
    returns (tokens: seq<Token>)
    requires z.nb <= 32 && out.Valid() && IsCode(lens) && IsCode(dlens) && HuffmanBlock(z, out, lens, dlens) == Some((y, o))
    ensures TokensAre(z, y, tokens, lens, dlens, out.bytes, o.bytes) && SameRoom(out, o)
    decreases UINT_MAX - |out.bytes|
  {
    hide KraftOk, Decode, AfterMatch, TokensAre, TokenIs, Doubled, Token.Apply;
    var (sym, u) := Decode(z, lens).value;
    if sym < 256 {
      var o1 := out.Room(1).value.Append([sym]);
      var more := BlockTaken(u, o1, lens, dlens, y, o);
      LiteralTaken(z, u, sym, lens, dlens, out.bytes);
      LiteralApplies(sym, out.bytes);
      ConsToken(z, u, y, Literal(sym), more, lens, dlens, out.bytes, o.bytes);
      tokens := [Literal(sym)] + more;
    } else if sym == 256 {
      EndTaken(z, u, lens, dlens, out.bytes);
      tokens := [];
    } else {
      var (x, o1) := AfterMatch(u, out, sym, dlens).value;
      var t := MatchTokenTaken(z, u, x, sym, lens, dlens, out, o1);
      var more := BlockTaken(x, o1, lens, dlens, y, o);
      ConsToken(z, x, y, t, more, lens, dlens, out.bytes, o.bytes);
      tokens := [t] + more;
    }
  }

  lemma LiteralApplies(b: byte, out: seq<byte>)
    ensures Literal(b).Fits(out) && Literal(b).Apply(out) == out + [b]
  {
  }

  // ------------------------------------------------------------- the dynamic header

  /** Nothing is placed from `i` on, and what is placed has at most three bits. */
  predicate PlacedBelow(sizes: Lengths, i: nat) {
    |sizes| == 19 && (forall v :: 0 <= v < 19 ==> sizes[v] <= 7) && forall j :: i <= j < 19 ==> sizes[Order(j)] == 0
  }

  lemma PlaceNext(sizes: Lengths, i: nat, v: nat)
    requires i < 19 && PlacedBelow(sizes, i) && v <= 7
    ensures Order(i) < 19 && PlacedBelow(sizes[Order(i) := v], i + 1)
    ensures forall j :: 0 <= j < i ==> Order(j) < 19 && sizes[Order(i) := v][Order(j)] == sizes[Order(j)]
  {
    hide Order, Rank;
    forall j | 0 <= j < 19 ensures Order(j) < 19 && (Order(j) == Order(i) ==> j == i) {
      OrderIs(j);
      OrderIs(i);
      OrderRank(j);
      OrderBack(j);
      OrderBack(i);
    }
  }

  lemma OrderBack(i: nat)
    requires i < 19
    ensures Order(i) < 19 && Rank(Order(i)) == i
  {
  }

  lemma {:induction false} SizesTaken(z: BitState, m: nat, i: nat, sizes: Lengths, clens: Lengths, w: BitState)
    requires z.nb <= 32 && i <= m <= 19 && PlacedBelow(sizes, i) && ValidLengths(sizes)
    requires CodeLengthSizes(z, m, i, sizes) == (clens, w)
    ensures |clens| == 19 && PlacedBelow(clens, m)
    ensures forall j :: 0 <= j < i ==> Order(j) < 19 && clens[Order(j)] == sizes[Order(j)]
    ensures z.rem == Stream(SizeFields(clens, i, m), w.rem) && Moved(z, w, Width(SizeFields(clens, i, m)))
    decreases m - i
  {
    hide Order, Rank, Receive, Stream, Width, Join;
    if i == m {
      forall j | 0 <= j < i ensures Order(j) < 19 {
        OrderBack(j);
      }
      NoFields(z.rem);
    } else {
      assert Pow2(3) == 8;
      FieldTaken(z, 3);
      var (s, y) := Receive(z, 3);
      OrderIs(i);
      PlaceNext(sizes, i, s);
      SizesTaken(y, m, i + 1, sizes[Order(i) := s], clens, w);
      assert clens[Order(i)] == s;
      ConsField(Field(s, 3), SizeFields(clens, i + 1, m), w.rem);
      MovedOn(z, y, w, 3, Width(SizeFields(clens, i + 1, m)));
    }
  }

  /** From `z` to `w` the stream spells an item that can follow the lengths `acc`. */
  predicate ItemIs(z: BitState, w: BitState, item: LengthItem, clens: Lengths, acc: Lengths) {
    && item.Fits(acc) && Has(clens, item.Symbol()) && ValidLengths(item.After(acc))
    && z.rem == Stream(item.Fields(clens), w.rem) && Moved(z, w, Width(item.Fields(clens)))
  }

  /** From `z` to `w` the stream spells items that make `all` after the lengths `acc`. */
  predicate ItemsAre(z: BitState, w: BitState, items: seq<LengthItem>, clens: Lengths, acc: Lengths, all: Lengths) {
    && ItemsMoved(z, w, clens, items, acc, all) && z.rem == Stream(ItemFields(items, clens, acc, all), w.rem)
  }

  lemma ConsItem(z: BitState, x: BitState, w: BitState, item: LengthItem, more: seq<LengthItem>, clens: Lengths,
                 acc: Lengths, all: Lengths)
    requires ItemIs(z, x, item, clens, acc) && ItemsAre(x, w, more, clens, item.After(acc), all)
    ensures ItemsAre(z, w, [item] + more, clens, acc, all)
  {
    hide LengthItem.Fields, LengthItem.After, LengthItem.Symbol, LengthItem.InRange, Has, Stream, Width, ItemFields, Moved;
    var items := [item] + more;
    assert items[0] == item && items[1..] == more;
    assert Give(items, acc, all) && AllHave(items, clens);
    FirstItem(items, clens, acc, all);
    StreamConcat(item.Fields(clens), ItemFields(more, clens, item.After(acc), all), w.rem);
    ItemsMovedOn(z, x, w, clens, items, acc, all);
  }

  /** A symbol and its count. */
  lemma CountTaken(z: BitState, clens: Lengths, n: nat, y: BitState, width: nat)
    requires z.nb <= 32 && IsCode(clens) && Decode(z, clens) == Some((n, y)) && width <= 24
    ensures Has(clens, n)
    ensures var (k, x) := Receive(y, width); var fields := [CodeField(clens, n), Field(k, width)];
      k < Pow2(width) && z.rem == Stream(fields, x.rem) && Moved(z, x, Width(fields))
  {
    hide CodeField, IsCode, Join, Decode, Receive, Stream, Width;
    CodeTaken(z, clens, n, y);
    FieldTaken(y, width);
    var (k, x) := Receive(y, width);
    var c, f := CodeField(clens, n), Field(k, width);
    assert [c, f] == [c] + [f];
    OneField(f, x.rem);
    ConsField(c, [f], x.rem);
    MovedOn(z, y, x, c.width, width);
  }

  lemma LengthTaken(z: BitState, clens: Lengths, c: nat, y: BitState, acc: Lengths)
    requires z.nb <= 32 && IsCode(clens) && Decode(z, clens) == Some((c, y)) && c < 16 && ValidLengths(acc)
    ensures ItemIs(z, y, Length(c), clens, acc)
  {
    hide CodeField, IsCode, Decode, Stream, Width;
    CodeTaken(z, clens, c, y);
    OneField(CodeField(clens, c), y.rem);
  }

  /** One item. */
  lemma ItemTaken(z: BitState, clens: Lengths, total: nat, acc: Lengths) returns (item: LengthItem, x: BitState)
    requires z.nb <= 32 && IsCode(clens) && |clens| == 19 && ValidLengths(acc) && |acc| < total
    requires CodeLengths(z, clens, total, acc).Some?
    ensures ItemIs(z, x, item, clens, acc) && |acc| < |item.After(acc)| <= total && x.nb <= 32
    ensures CodeLengths(z, clens, total, acc) == CodeLengths(x, clens, total, item.After(acc))
  {
    hide CodeField, KraftOk, Decode, Receive, Stream, Width;
    CountPowers();
    hide Pow2;
    var (c, y) := Decode(z, clens).value;
    if c < 16 {
      LengthTaken(z, clens, c, y, acc);
      item, x := Length(c), y;
    } else if c == 16 {
      CountTaken(z, clens, c, y, 2);
      item, x := Again(Receive(y, 2).0 + 3), Receive(y, 2).1;
    } else if c == 17 {
      CountTaken(z, clens, c, y, 3);
      item, x := ShortZeros(Receive(y, 3).0 + 3), Receive(y, 3).1;
    } else {
      CountTaken(z, clens, c, y, 7);
      item, x := LongZeros(Receive(y, 7).0 + 11), Receive(y, 7).1;
    }
  }

  lemma {:induction false} ItemsTaken(z: BitState, clens: Lengths, acc: Lengths, all: Lengths, w: BitState)
    returns (items: seq<LengthItem>)
    requires z.nb <= 32 && IsCode(clens) && |clens| == 19 && ValidLengths(acc) && |acc| <= |all|
    requires CodeLengths(z, clens, |all|, acc) == Some((all, w))
    ensures ItemsAre(z, w, items, clens, acc, all)
    decreases |all| - |acc|
  {
    hide IsCode, Decode, Receive, LengthItem.After;
    if |acc| == |all| {
      items := [];
    } else {
      var item, x := ItemTaken(z, clens, |all|, acc);
      hide CodeLengths;
      var more := ItemsTaken(x, clens, item.After(acc), all, w);
      ConsItem(z, x, w, item, more, clens, acc, all);
      items := [item] + more;
    }
  }

  /** The three counts. */
  lemma CountsTaken(z: BitState, rest: nat)
    requires z.nb <= 32
    ensures var (a, z1) := Receive(z, 5); var (b, z2) := Receive(z1, 5); var (c, z3) := Receive(z2, 4);
      && a < 32 && b < 32 && c < 16 && Moved(z, z3, 14)
      && z.rem == Join(a, 5, Join(b, 5, Join(c, 4, z3.rem)))
  {
    hide Receive, Join, Moved;
    SmallPower(5);
    SmallPower(4);
    FieldTaken(z, 5);
    var z1 := Receive(z, 5).1;
    FieldTaken(z1, 5);
    var z2 := Receive(z1, 5).1;
    FieldTaken(z2, 4);
    MovedOn(z, z1, z2, 5, 5);
    MovedOn(z, z2, Receive(z2, 4).1, 10, 4);
  }

  lemma NonePlaced()
    ensures PlacedBelow(Repeat(0, 19), 0)
  {
    hide Order;
    forall j | 0 <= j < 19 ensures Order(j) < 19 {
      OrderIs(j);
    }
  }

  /** A header that is accepted is one the format allows. */
  lemma HeaderTaken(z: BitState, lens: Lengths, dlens: Lengths, w: BitState) returns (h: DynamicHeader)
    requires z.nb <= 32 && DynamicCodes(z) == Some((lens, dlens, w))
    ensures h.Valid() && h.lens == lens && h.dlens == dlens
    ensures z.rem == Stream(h.Fields(), w.rem) && Moved(z, w, Width(h.Fields()))
  {
    hide Receive, Join, Stream, Width, KraftOk, CodeLengths, CodeLengthSizes, Order, DynamicHeader.Fields, Moved;
    hide Give, AllHave, ItemFields, SizeFields;
    CountsTaken(z, w.rem);
    var (a, z1) := Receive(z, 5);
    var (b, z2) := Receive(z1, 5);
    var (c, z3) := Receive(z2, 4);
    var m := c + 4;
    var (clens, z4) := CodeLengthSizes(z3, m, 0, Repeat(0, 19));
    NonePlaced();
    SizesTaken(z3, m, 0, Repeat(0, 19), clens, z4);
    var all := CodeLengths(z4, clens, a + b + 258, []).value.0;
    var items := ItemsTaken(z4, clens, [], all, w);
    h := DynamicHeader(lens, dlens, clens, m, items);
    assert lens + dlens == all;
    HeaderParts(h, w.rem);
    MovedOn(z, z3, z4, 14, Width(SizeFields(clens, 0, m)));
    MovedOn(z, z4, w, 14 + Width(SizeFields(clens, 0, m)), Width(ItemFields(items, clens, [], all)));
  }

  // -------------------------------------------------------------------- stored blocks

  lemma {:induction false} BytesTaken(v: nat, n: nat)
    ensures v == Stream(ByteFields(TakeBytes(v, n)), Shr(v, 8 * n))
    decreases n
  {
    hide Stream, Width, Join, Low;
    if n == 0 {
      NoFields(v);
    } else {
      var b, more := LowByte(v), TakeBytes(Shr(v, 8), n - 1);
      Joined(v, 8);
      BytesTaken(Shr(v, 8), n - 1);
      ShrAdd(v, 8, 8 * (n - 1));
      ConsField(Field(b, 8), ByteFields(more), Shr(v, 8 * n));
      assert TakeBytes(v, n)[1..] == more;
    }
  }

  lemma LengthsTaken(v: nat)
    requires Low(Shr(v, 16), 16) == 0xFFFF - Low(v, 16)
    ensures Low(v, 16) <= 0xFFFF
    ensures var n := Low(v, 16); var data := TakeBytes(Shr(v, 32), n);
      v == Stream([Field(n, 16)] + ([Field(0xFFFF - n, 16)] + ByteFields(data)), Shr(Shr(v, 32), 8 * n))
  {
    hide Stream, Width, Join, Low, Shr, ByteFields, TakeBytes;
    Pow2Values();
    var n := Low(v, 16);
    Joined(v, 16);
    Joined(Shr(v, 16), 16);
    ShrAdd(v, 16, 16);
    BytesTaken(Shr(v, 32), n);
    var data, rest := TakeBytes(Shr(v, 32), n), Shr(Shr(v, 32), 8 * n);
    ConsField(Field(0xFFFF - n, 16), ByteFields(data), rest);
    ConsField(Field(n, 16), [Field(0xFFFF - n, 16)] + ByteFields(data), rest);
  }

  lemma StoredTaken(z: BitState, out: Output, y: BitState, o: Output) returns (data: seq<byte>, pad: nat)
    requires z.nb <= 31 && out.Valid() && StoredBlock(z, out) == Some((y, o))
    ensures |data| <= 0xFFFF && pad < Pow2(z.nb % 8) && o.bytes == out.bytes + data && y.nb == 0 && SameRoom(out, o)
    ensures z.rem == Stream(StoredFields(data, pad, z.nb % 8), y.rem)
    ensures Width(StoredFields(data, pad, z.nb % 8)) == z.nb % 8 + 32 + 8 * |data|
  {
    hide Stream, Width, Low, Shr, ByteFields, TakeBytes, Doubled, Pow2;
    var width := z.nb % 8;
    pad := Low(z.rem, width);
    Joined(z.rem, width);
    var v := Receive(z, width).1.rem;
    LengthsTaken(v);
    data := TakeBytes(Shr(v, 32), Low(v, 16));
    var rest := [Field(|data|, 16)] + ([Field(0xFFFF - |data|, 16)] + ByteFields(data));
    StreamConcat(Extra(pad, width), rest, y.rem);
    ExtraWidth(pad, width);
    PadTaken(pad, width, v);
    LengthsRead(data, y.rem);
  }

  lemma PadTaken(pad: nat, width: nat, v: nat)
    requires pad < Pow2(width)
    ensures Stream(Extra(pad, width), v) == Join(pad, width, v)
  {
    hide Join;
    if width == 0 {
      assert Join(0, 0, v) == v by {
        assert Shl(v, 0) == v;
        UnfoldJoin(0, 0, v);
      }
    } else {
      OneField(Field(pad, width), v);
    }
  }

  lemma UnfoldJoin(b: nat, n: nat, v: nat)
    ensures Join(b, n, v) == b + Shl(v, n)
  {
  }

  // -------------------------------------------------------------------- whole streams

  /** From `z` to `y` the stream spells a block. */
  ghost predicate SegmentIs(z: BitState, y: BitState, seg: Segment, pos: nat, out: seq<byte>, final: seq<byte>) {
    && seg.Fits(pos) && seg.Gives(out, final)
    && z.rem == Stream(seg.Body(pos), y.rem) && Aligned(y, pos + 3 + Width(seg.Body(pos)))
  }

  lemma FixedTaken(z: BitState, out: Output, pos: nat, y: BitState, o: Output) returns (seg: Segment)
    requires z.nb <= 31 && out.Valid() && Aligned(z, pos + 3) && Block(z, out, 1) == Some((y, o))
    ensures seg.Kind() == 1 && SegmentIs(z, y, seg, pos, out.bytes, o.bytes) && SameRoom(out, o)
  {
    hide HuffmanBlock, BodyFields, Stream, Width, AllCodable, FixedLengths, FixedDistances, KraftBelow, Expands;
    FixedIsComplete();
    var tokens := BlockTaken(z, out, FixedLengths(), FixedDistances(), y, o);
    seg := Fixed(tokens);
  }

  lemma DynamicTaken(z: BitState, out: Output, pos: nat, y: BitState, o: Output) returns (seg: Segment)
    requires z.nb <= 31 && out.Valid() && Aligned(z, pos + 3) && Block(z, out, 2) == Some((y, o))
    ensures seg.Kind() == 2 && SegmentIs(z, y, seg, pos, out.bytes, o.bytes) && SameRoom(out, o)
  {
    hide HuffmanBlock, BodyFields, Stream, Width, AllCodable, KraftOk, Expands, DynamicCodes, DynamicHeader.Fields, Give;
    hide AllHave, Order, Moved;
    var (lens, dlens, w) := DynamicCodes(z).value;
    var h := HeaderTaken(z, lens, dlens, w);
    var tokens := BlockTaken(w, out, lens, dlens, y, o);
    seg := Dynamic(h, tokens);
    StreamConcat(h.Fields(), BodyFields(tokens, lens, dlens), y.rem);
    MovedOn(z, w, y, Width(h.Fields()), Width(BodyFields(tokens, lens, dlens)));
    AlignedOn(z, y, pos + 3, Width(DynamicBody(h, tokens)));
  }

  lemma StoredSegment(z: BitState, out: Output, pos: nat, y: BitState, o: Output) returns (seg: Segment)
    requires z.nb <= 31 && out.Valid() && Aligned(z, pos + 3) && Block(z, out, 0) == Some((y, o))
    ensures seg.Kind() == 0 && SegmentIs(z, y, seg, pos, out.bytes, o.bytes) && SameRoom(out, o)
  {
    hide StoredBlock, StoredFields, Stream, Width, Pow2, Padding;
    PaddingIs(z, pos);
    var data, pad := StoredTaken(z, out, y, o);
    seg := Stored(data, pad);
    assert (pos + 3 + Padding(pos)) % 8 == 0;
  }

  lemma BodyTaken(z: BitState, out: Output, kind: nat, pos: nat, y: BitState, o: Output) returns (seg: Segment)
    requires z.nb <= 31 && out.Valid() && Aligned(z, pos + 3) && Block(z, out, kind) == Some((y, o))
    ensures seg.Kind() == kind && SegmentIs(z, y, seg, pos, out.bytes, o.bytes) && SameRoom(out, o)
  {
    hide HuffmanBlock, StoredBlock, DynamicCodes, SegmentIs;
    if kind == 0 {
      seg := StoredSegment(z, out, pos, y, o);
    } else if kind == 1 {
      seg := FixedTaken(z, out, pos, y, o);
    } else {
      seg := DynamicTaken(z, out, pos, y, o);
    }
  }

  /** From `z` the stream spells blocks, then `tail`. */
  ghost predicate SegmentsAre(z: BitState, segs: seq<Segment>, pos: nat, out: seq<byte>, final: seq<byte>, tail: nat) {
    segs != [] && AllFit(segs, pos) && AllGive(segs, out, final) && z.rem == Stream(SegmentFields(segs, pos), tail)
  }

  lemma LastSegment(z: BitState, seg: Segment, pos: nat, out: seq<byte>, final: seq<byte>, tail: nat)
    requires seg.Fits(pos) && seg.Gives(out, final) && z.rem == Stream(seg.Fields(true, pos), tail)
    ensures SegmentsAre(z, [seg], pos, out, final, tail)
  {
    hide Segment.Fits, Segment.Gives, Segment.Fields, Stream, Width;
    var segs := [seg];
    assert segs[0] == seg && segs[1..] == [];
    assert AllGive(segs[1..], final, final);
    assert SegmentFields(segs, pos) == seg.Fields(true, pos);
  }

  lemma ConsSegment(z: BitState, y: BitState, seg: Segment, more: seq<Segment>, pos: nat, out: seq<byte>, mid: seq<byte>,
                    final: seq<byte>, tail: nat)
    requires seg.Fits(pos) && seg.Gives(out, mid) && z.rem == Stream(seg.Fields(false, pos), y.rem)
    requires SegmentsAre(y, more, pos + Width(seg.Fields(false, pos)), mid, final, tail)
    ensures SegmentsAre(z, [seg] + more, pos, out, final, tail)
  {
    hide Segment.Fits, Segment.Gives, Segment.Fields, Stream, Width;
    var segs := [seg] + more;
    assert segs[0] == seg && segs[1..] == more;
    StreamConcat(seg.Fields(false, pos), SegmentFields(more, pos + Width(seg.Fields(false, pos))), tail);
  }

  lemma StartConsumes(z: BitState)
    requires z.nb <= 32
    ensures var (k, w) := Receive(Receive(z, 1).1, 2); w.nb <= 30 && w.rem <= z.rem && (k != 0 ==> w.rem < z.rem)
  {
    hide Low, Shr;
    HeaderConsumes(z.rem);
  }

  /** One block with its header bits. */
  lemma SegmentTaken(z: BitState, out: Output, pos: nat, y: BitState, o: Output)
    returns (last: bool, seg: Segment, w: BitState, u: Output)
    requires z.nb <= 32 && out.Valid() && Aligned(z, pos) && Blocks(z, out) == Some((y, o))
    ensures w.nb <= 32 && u.Valid() && seg.Fits(pos) && seg.Gives(out.bytes, u.bytes) && SameRoom(out, u)
    ensures z.rem == Stream(seg.Fields(last, pos), w.rem) && Aligned(w, pos + Width(seg.Fields(last, pos)))
    ensures if last then (y, o) == (w, u) else w.rem < z.rem && Blocks(w, u) == Some((y, o))
  {
    hide Block, Receive, Join, Stream, Width, Segment.Fits, Segment.Gives, Segment.Body, Segment.Kind, Moved;
    SmallPowers();
    assert Pow2(2) == 4;
    FieldTaken(z, 1);
    var (f, z1) := Receive(z, 1);
    FieldTaken(z1, 2);
    var (k, z2) := Receive(z1, 2);
    MovedOn(z, z1, z2, 1, 2);
    AlignedOn(z, z2, pos, 3);
    StartConsumes(z);
    w, u := Block(z2, out, k).value.0, Block(z2, out, k).value.1;
    last := f == 1;
    seg := BodyTaken(z2, out, k, pos, w, u);
    ConsField(Field(k, 2), seg.Body(pos), w.rem);
    ConsField(Field(f, 1), [Field(k, 2)] + seg.Body(pos), w.rem);
  }

  /** Whatever inflates is a sequence of blocks, and the result is what they make. */
  lemma {:induction false} StreamTaken(z: BitState, out: Output, pos: nat, y: BitState, o: Output)
    returns (segs: seq<Segment>)
    requires z.nb <= 32 && out.Valid() && Aligned(z, pos) && Blocks(z, out) == Some((y, o))
    ensures SegmentsAre(z, segs, pos, out.bytes, o.bytes, y.rem) && SameRoom(out, o)
    decreases z.rem
  {
    hide Blocks, SegmentsAre, Segment.Fits, Segment.Gives, Segment.Fields, Stream, Width, Aligned;
    var last, seg, w, u := SegmentTaken(z, out, pos, y, o);
    if last {
      LastSegment(z, seg, pos, out.bytes, o.bytes, y.rem);
      segs := [seg];
    } else {
      var more := StreamTaken(w, u, pos + Width(seg.Fields(false, pos)), y, o);
      ConsSegment(z, w, seg, more, pos, out.bytes, u.bytes, o.bytes, y.rem);
      segs := [seg] + more;
    }
  }

  /** Whatever is inflated starts with a zlib header and spells blocks that make the result,
      which fits the buffer when that may not grow. */
  lemma InflatedSpells(input: seq<byte>, cap: nat, expandable: bool, data: seq<byte>) returns (segs: seq<Segment>, tail: nat)
    requires cap <= UINT_MAX && (expandable ==> cap > 0) && Inflate(input, cap, expandable, true) == Some(data)
    ensures Spells(input, segs, tail, data) && |data| <= if expandable then UINT_MAX else cap
  {
    hide Blocks, HeaderOk, AllFit, AllGive, SegmentFields, Stream, LE, ZlibHeader;
    HeaderIs(input);
    var z, out := Start(input, true), Output([], cap, expandable);
    var y, o := Blocks(z, out).value.0, Blocks(z, out).value.1;
    segs := StreamTaken(z, out, 0, y, o);
    tail := y.rem;
  }
}
