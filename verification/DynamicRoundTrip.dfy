/** Blocks with dynamic Huffman codes (section 3.2.7 of RFC 1951): what their header means,
    and that inflating such a block appends what its tokens expand to. The writer never makes
    one; most other encoders do. */
module DynamicRoundTrip {
  import opened Bits
  import opened BitFields
  import opened CanonicalCode
  import opened InflateSpec
  import opened Wrappers
  import opened DeflateSpec
  import opened DeflateRoundTrip

  // ------------------------------------------------------- the tables of the format

  /** Length symbol 257 + i stands for this length and so many extra bits: single lengths up
      to 10, then four symbols for every doubling, and 258 by itself. */
  lemma LengthTable(i: nat)
    requires i < 29
    ensures i < 8 ==> LengthBase(i) == 3 + i && LengthExtra(i) == 0
    ensures 8 <= i < 28 ==> LengthExtra(i) == i / 4 - 1 && LengthBase(i) == 3 + (4 + i % 4) * Pow2(i / 4 - 1)
    ensures i == 28 ==> LengthBase(i) == 258 && LengthExtra(i) == 0
  {
    if 8 <= i < 28 {
      hide LengthBase, LengthExtra;
      SmallPower(i / 4 - 1);
      LengthEntry(i, i / 4 - 1);
    } else {
      SingleLength(i);
    }
  }

  lemma SingleLength(i: nat)
    requires i < 8 || i == 28
    ensures LengthExtra(i) == 0 && LengthBase(i) == if i == 28 then 258 else 3 + i
  {
  }

  lemma LengthEntry(i: nat, e: nat)
    requires 8 <= i < 28 && e == i / 4 - 1
    ensures LengthExtra(i) == e && LengthBase(i) == 3 + (4 + i % 4) * PowerOf(e)
  {
    hide LengthExtra, LengthBase, PowerOf;
    if i < 18 {
      ShortEntry(i, e);
    } else {
      LongEntry(i, e);
    }
  }

  lemma ShortEntry(i: nat, e: nat)
    requires 8 <= i < 18 && e == i / 4 - 1
    ensures LengthExtra(i) == e && LengthBase(i) == 3 + (4 + i % 4) * PowerOf(e)
  {
  }

  lemma LongEntry(i: nat, e: nat)
    requires 18 <= i < 28 && e == i / 4 - 1
    ensures LengthExtra(i) == e && LengthBase(i) == 3 + (4 + i % 4) * PowerOf(e)
  {
  }

  /** Distance symbol i: single distances up to 4, then two symbols for every doubling. */
  lemma DistanceTable(i: nat)
    requires i < 30
    ensures i < 4 ==> DistBase(i) == 1 + i && DistExtra(i) == 0
    ensures 4 <= i ==> DistExtra(i) == i / 2 - 1 && DistBase(i) == 1 + (2 + i % 2) * Pow2(i / 2 - 1)
  {
    if i >= 4 {
      hide DistBase, DistExtra;
      SmallPower(i / 2 - 1);
      DistanceEntry(i, i / 2 - 1);
    }
  }

  function PowerOf(e: nat): nat
    requires e < 14
  {
    [1, 2, 4, 8, 16, 32, 64, 128, 256, 512, 1024, 2048, 4096, 8192][e]
  }

  lemma {:induction false} SmallPower(e: nat)
    requires e < 14
    ensures Pow2(e) == PowerOf(e)
  {
    if e > 0 {
      SmallPower(e - 1);
    }
  }

  lemma DistanceEntry(i: nat, e: nat)
    requires 4 <= i < 30 && e == i / 2 - 1
    ensures DistExtra(i) == e && DistBase(i) == 1 + (2 + i % 2) * PowerOf(e)
  {
    if i < 16 {
      NearEntry(i, e);
    } else {
      FarEntry(i, e);
    }
  }

  lemma NearEntry(i: nat, e: nat)
    requires 4 <= i < 16 && e == i / 2 - 1
    ensures DistExtra(i) == e && DistBase(i) == 1 + (2 + i % 2) * PowerOf(e)
  {
  }

  lemma FarEntry(i: nat, e: nat)
    requires 16 <= i < 30 && e == i / 2 - 1
    ensures DistExtra(i) == e && DistBase(i) == 1 + (2 + i % 2) * PowerOf(e)
  {
  }

  // ------------------------------------------------------------ the block header

  /** An item of the list of code lengths: a length, 3 to 6 more copies of the last length,
      3 to 10 zeros, or 11 to 138 zeros. */
  datatype LengthItem = Length(n: nat) | Again(k: nat) | ShortZeros(k: nat) | LongZeros(k: nat) {
    predicate InRange() {
      match this
      case Length(n) => n <= 15
      case Again(k) => 3 <= k <= 6
      case ShortZeros(k) => 3 <= k <= 10
      case LongZeros(k) => 11 <= k <= 138
    }

    predicate Fits(acc: Lengths) {
      InRange() && (Again? ==> acc != [])
    }

    function After(acc: Lengths): (r: Lengths)
      requires Fits(acc)
      ensures |r| > |acc|
    {
      match this
      case Length(n) => acc + [n]
      case Again(k) => acc + Repeat(acc[|acc| - 1], k)
      case ShortZeros(k) => acc + Repeat(0, k)
      case LongZeros(k) => acc + Repeat(0, k)
    }

    function Symbol(): nat {
      match this
      case Length(n) => n
      case Again(_) => 16
      case ShortZeros(_) => 17
      case LongZeros(_) => 18
    }

    /** The item's symbol in the code-length code, and two, three or seven bits for a count. */
    function Fields(clens: Lengths): seq<Field>
      requires Has(clens, Symbol()) && InRange()
    {
      match this
      case Length(n) => [CodeField(clens, n)]
      case Again(k) => [CodeField(clens, 16), Field(k - 3, 2)]
      case ShortZeros(k) => [CodeField(clens, 17), Field(k - 3, 3)]
      case LongZeros(k) => [CodeField(clens, 18), Field(k - 11, 7)]
    }
  }

  /** The items, after the lengths `acc`, make up `all`. */
  predicate Give(items: seq<LengthItem>, acc: Lengths, all: Lengths) {
    if items == [] then acc == all
    else items[0].Fits(acc) && Give(items[1..], items[0].After(acc), all)
  }

  lemma {:induction false} GiveGrows(items: seq<LengthItem>, acc: Lengths, all: Lengths)
    requires Give(items, acc, all)
    ensures |acc| + |items| <= |all|
  {
    if items != [] {
      GiveGrows(items[1..], items[0].After(acc), all);
    }
  }

  predicate AllHave(items: seq<LengthItem>, clens: Lengths) {
    forall i :: 0 <= i < |items| ==> Has(clens, items[i].Symbol())
  }

  function ItemFields(items: seq<LengthItem>, clens: Lengths, acc: Lengths, all: Lengths): seq<Field>
    requires Give(items, acc, all) && AllHave(items, clens)
  {
    if items == [] then []
    else
      HaveRest(items, clens);
      items[0].Fields(clens) + ItemFields(items[1..], clens, items[0].After(acc), all)
  }

  /** The order in which the lengths of the code-length code are sent. */
  function Order(i: nat): nat
    requires i < 19
  {
    [16, 17, 18, 0, 8, 7, 9, 6, 10, 5, 11, 4, 12, 3, 13, 2, 14, 1, 15][i]
  }

  /** Three bits for each of the lengths from place `i` to place `m` of that order. */
  function SizeFields(clens: Lengths, i: nat, m: nat): seq<Field>
    requires |clens| == 19 && i <= m <= 19
    decreases m - i
  {
    if i == m then [] else [Field(clens[Order(i)], 3)] + SizeFields(clens, i + 1, m)
  }

  /** A header: the literal/length and distance code lengths, the code-length code, how many
      of its lengths are sent, and the items. */
  datatype DynamicHeader = DynamicHeader(lens: Lengths, dlens: Lengths, clens: Lengths, m: nat, items: seq<LengthItem>) {
    predicate Valid() {
      && 257 <= |lens| <= 288 && 1 <= |dlens| <= 32 && IsCode(lens) && IsCode(dlens)
      && |clens| == 19 && KraftOk(clens) && (forall i :: 0 <= i < 19 ==> clens[i] <= 7)
      && 4 <= m <= 19 && (forall i :: m <= i < 19 ==> clens[Order(i)] == 0)
      && Give(items, [], lens + dlens) && AllHave(items, clens)
    }

    function Fields(): seq<Field>
      requires Valid()
    {
      [Field(|lens| - 257, 5)] + ([Field(|dlens| - 1, 5)] + ([Field(m - 4, 4)]
        + (SizeFields(clens, 0, m) + ItemFields(items, clens, [], lens + dlens))))
    }
  }

  // --------------------------------------------------------------- reading it back

  lemma OrderIs(i: nat)
    requires i < 19
    ensures Order(i) < 19 && LENGTH_DEZIGZAG[i] == Order(i)
  {
  }

  function Rank(v: nat): (i: nat)
    requires v < 19
    ensures i < 19
  {
    [3, 17, 15, 13, 11, 9, 7, 5, 4, 6, 8, 10, 12, 14, 16, 18, 0, 1, 2][v]
  }

  lemma OrderRank(v: nat)
    requires v < 19
    ensures Order(Rank(v)) == v && Rank(Order(v)) == v
  {
  }

  /** The first `i` lengths in sending order are in place, the others are zero. */
  predicate SizesIn(sizes: Lengths, clens: Lengths, i: nat)
    requires |clens| == 19
  {
    |sizes| == 19 && forall v :: 0 <= v < 19 ==> sizes[v] == if Rank(v) < i then clens[v] else 0
  }

  lemma SizePlaced(sizes: Lengths, clens: Lengths, i: nat)
    requires |clens| == 19 && i < 19 && SizesIn(sizes, clens, i)
    ensures Order(i) < 19 && SizesIn(sizes[Order(i) := clens[Order(i)]], clens, i + 1)
  {
    hide Order, Rank;
    OrderIs(i);
    forall v | 0 <= v < 19 ensures Rank(v) == i <==> v == Order(i) {
      OrderRank(v);
      OrderRank(i);
    }
  }

  lemma AllPlaced(sizes: Lengths, clens: Lengths, m: nat)
    requires |clens| == 19 && m <= 19 && SizesIn(sizes, clens, m)
    requires forall i :: m <= i < 19 ==> clens[Order(i)] == 0
    ensures sizes == clens
  {
    hide Order, Rank;
    forall v | 0 <= v < 19 ensures sizes[v] == clens[v] {
      OrderRank(v);
    }
  }

  /** One step of the reader over the size fields. */
  lemma OneSize(z: BitState, y: BitState, m: nat, i: nat, sizes: Lengths, v: nat)
    requires z.nb <= 32 && y.nb <= 32 && i < m <= 19 && |sizes| == 19 && ValidLengths(sizes)
    requires Receive(z, 3) == (v, y) && v <= 7
    ensures Order(i) < 19 && ValidLengths(sizes[Order(i) := v])
    ensures CodeLengthSizes(z, m, i, sizes) == CodeLengthSizes(y, m, i + 1, sizes[Order(i) := v])
  {
    hide Receive, Order;
    OrderIs(i);
  }

  lemma NoSizes(z: BitState, m: nat, sizes: Lengths, rest: nat)
    requires z.nb <= 32 && m <= 19 && |sizes| == 19 && ValidLengths(sizes)
    ensures Stream([], rest) == rest && Width([]) == 0 && Moved(z, z, 0) && CodeLengthSizes(z, m, m, sizes) == (sizes, z)
  {
  }

  lemma {:induction false} SizesRead(z: BitState, clens: Lengths, i: nat, m: nat, sizes: Lengths, rest: nat, bits: nat)
    returns (w: BitState)
    requires |clens| == 19 && (forall v :: 0 <= v < 19 ==> clens[v] <= 7) && i <= m <= 19
    requires forall v :: m <= v < 19 ==> clens[Order(v)] == 0
    requires |sizes| == 19 && SizesIn(sizes, clens, i) && ValidLengths(sizes)
    requires Roomy(z, Width(SizeFields(clens, i, m)) + bits) && z.rem == Stream(SizeFields(clens, i, m), rest)
    ensures CodeLengthSizes(z, m, i, sizes) == (clens, w) && w.rem == rest && Roomy(w, bits)
    ensures Moved(z, w, Width(SizeFields(clens, i, m)))
    decreases m - i
  {
    hide Receive, Order, Join, SizesIn, Rank, Moved, Stream, Width, CodeLengthSizes, ValidLengths;
    if i == m {
      AllPlaced(sizes, clens, m);
      NoSizes(z, m, sizes, rest);
      w := z;
    } else {
      SizePlaced(sizes, clens, i);
      var f, more := Field(clens[Order(i)], 3), SizeFields(clens, i + 1, m);
      ConsField(f, more, rest);
      assert Pow2(3) == 8;
      var y := ReceiveField(z, f, Stream(more, rest), Width(more) + bits);
      OneSize(z, y, m, i, sizes, clens[Order(i)]);
      w := SizesRead(y, clens, i + 1, m, sizes[Order(i) := clens[Order(i)]], rest, bits);
      MovedOn(z, y, w, 3, Width(more));
    }
  }

  /** A symbol and its count. */
  lemma CountRead(z: BitState, clens: Lengths, n: nat, value: nat, width: nat, more: seq<Field>, rest: nat, bits: nat)
    returns (y: BitState, x: BitState)
    requires IsCode(clens) && Has(clens, n) && value < Pow2(width) && width <= 24
    requires Roomy(z, Width([CodeField(clens, n), Field(value, width)] + more) + bits)
    requires z.rem == Stream([CodeField(clens, n), Field(value, width)] + more, rest)
    ensures Decode(z, clens) == Some((n, y)) && y.nb <= 32 && Receive(y, width) == (value, x)
    ensures x.rem == Stream(more, rest) && Roomy(x, Width(more) + bits) && Moved(z, x, CodeField(clens, n).width + width)
  {
    hide CodeField, IsCode, Join, Decode, Receive, Stream, Width;
    var c, f := CodeField(clens, n), Field(value, width);
    assert [c, f] + more == [c] + ([f] + more);
    ConsField(c, [f] + more, rest);
    ConsField(f, more, rest);
    y := DecodeCode(z, clens, n, Stream([f] + more, rest), width + Width(more) + bits);
    x := ReceiveField(y, f, Stream(more, rest), Width(more) + bits);
    MovedOn(z, y, x, c.width, width);
  }

  /** One item, read back. */
  lemma ItemRead(z: BitState, clens: Lengths, item: LengthItem, acc: Lengths, total: nat, more: seq<Field>, rest: nat,
                 bits: nat) returns (x: BitState)
    requires IsCode(clens) && item.Fits(acc) && Has(clens, item.Symbol()) && ValidLengths(acc)
    requires |item.After(acc)| <= total
    requires Roomy(z, Width(item.Fields(clens) + more) + bits) && z.rem == Stream(item.Fields(clens) + more, rest)
    ensures x.rem == Stream(more, rest) && Roomy(x, Width(more) + bits) && ValidLengths(item.After(acc))
    ensures Moved(z, x, Width(item.Fields(clens)))
    ensures CodeLengths(z, clens, total, acc) == CodeLengths(x, clens, total, item.After(acc))
  {
    hide CodeField, KraftOk, Join, Decode, Receive, Stream, Width;
    CountPowers();
    hide Pow2;
    ItemWidth(item, clens);
    match item
    case Length(n) =>
      StreamConcat([CodeField(clens, n)], more, rest);
      OneField(CodeField(clens, n), Stream(more, rest));
      x := DecodeCode(z, clens, n, Stream(more, rest), Width(more) + bits);
    case Again(k) =>
      var y;
      y, x := CountRead(z, clens, 16, k - 3, 2, more, rest, bits);
    case ShortZeros(k) =>
      var y;
      y, x := CountRead(z, clens, 17, k - 3, 3, more, rest, bits);
    case LongZeros(k) =>
      var y;
      y, x := CountRead(z, clens, 18, k - 11, 7, more, rest, bits);
  }

  lemma ItemWidth(item: LengthItem, clens: Lengths)
    requires item.InRange() && Has(clens, item.Symbol())
    ensures var w := CodeField(clens, item.Symbol()).width;
      Width(item.Fields(clens)) == w + match item
        case Length(_) => 0
        case Again(_) => 2
        case ShortZeros(_) => 3
        case LongZeros(_) => 7
  {
    hide CodeField;
    var c := CodeField(clens, item.Symbol());
    OneField(c, 0);
    if !item.Length? {
      var f := item.Fields(clens)[1];
      assert item.Fields(clens) == [c] + [f];
      ConsField(c, [f], 0);
      OneField(f, 0);
    }
  }

  lemma CountPowers()
    ensures Pow2(2) == 4 && Pow2(3) == 8 && Pow2(7) == 128
  {
    SmallPower(7);
    SmallPower(3);
  }

  lemma HaveRest(items: seq<LengthItem>, clens: Lengths)
    requires AllHave(items, clens) && items != []
    ensures Has(clens, items[0].Symbol()) && AllHave(items[1..], clens)
  {
  }

  lemma NoItems(z: BitState, clens: Lengths, acc: Lengths, all: Lengths, rest: nat)
    requires z.nb <= 32 && IsCode(clens) && ValidLengths(acc) && Give([], acc, all) && AllHave([], clens)
    ensures ItemFields([], clens, acc, all) == [] && acc == all && CodeLengths(z, clens, |acc|, acc) == Some((acc, z))
    ensures Stream(ItemFields([], clens, acc, all), rest) == rest && Width(ItemFields([], clens, acc, all)) == 0
  {
  }

  /** What the first item contributes. */
  lemma FirstItem(items: seq<LengthItem>, clens: Lengths, acc: Lengths, all: Lengths)
    requires Give(items, acc, all) && AllHave(items, clens) && items != []
    ensures items[0].Fits(acc) && Has(clens, items[0].Symbol()) && AllHave(items[1..], clens)
    ensures Give(items[1..], items[0].After(acc), all) && |items[0].After(acc)| <= |all|
    ensures ItemFields(items, clens, acc, all)
      == items[0].Fields(clens) + ItemFields(items[1..], clens, items[0].After(acc), all)
  {
    hide LengthItem.Fields, LengthItem.Symbol, LengthItem.After;
    HaveRest(items, clens);
    GiveGrows(items[1..], items[0].After(acc), all);
  }

  /** Everything there is to know before the items are read. */
  predicate Sent(z: BitState, clens: Lengths, items: seq<LengthItem>, acc: Lengths, all: Lengths, rest: nat, bits: nat) {
    && IsCode(clens) && Give(items, acc, all) && ValidLengths(acc) && AllHave(items, clens)
    && Roomy(z, Width(ItemFields(items, clens, acc, all)) + bits)
    && z.rem == Stream(ItemFields(items, clens, acc, all), rest) && |acc| <= |all|
  }

  /** `w` is the fields of the items further than `z`. */
  predicate ItemsMoved(z: BitState, w: BitState, clens: Lengths, items: seq<LengthItem>, acc: Lengths, all: Lengths) {
    Give(items, acc, all) && AllHave(items, clens) && Moved(z, w, Width(ItemFields(items, clens, acc, all)))
  }

  lemma ItemsMovedOn(z: BitState, x: BitState, w: BitState, clens: Lengths, items: seq<LengthItem>, acc: Lengths, all: Lengths)
    requires Give(items, acc, all) && AllHave(items, clens) && items != []
    requires items[0].Fits(acc) && Has(clens, items[0].Symbol()) && Moved(z, x, Width(items[0].Fields(clens)))
    requires ItemsMoved(x, w, clens, items[1..], items[0].After(acc), all)
    ensures ItemsMoved(z, w, clens, items, acc, all)
  {
    hide Give, AllHave, Stream, Width, LengthItem.Fields, LengthItem.After, LengthItem.Symbol, ItemFields, Has, Moved;
    FirstItem(items, clens, acc, all);
    StreamConcat(items[0].Fields(clens), ItemFields(items[1..], clens, items[0].After(acc), all), 0);
    MovedOn(z, x, w, Width(items[0].Fields(clens)), Width(ItemFields(items[1..], clens, items[0].After(acc), all)));
  }

  lemma FirstRead(z: BitState, clens: Lengths, items: seq<LengthItem>, acc: Lengths, all: Lengths, rest: nat, bits: nat)
    returns (x: BitState)
    requires Sent(z, clens, items, acc, all, rest, bits) && items != []
    ensures items[0].Fits(acc) && Sent(x, clens, items[1..], items[0].After(acc), all, rest, bits)
    ensures Has(clens, items[0].Symbol()) && Moved(z, x, Width(items[0].Fields(clens)))
    ensures CodeLengths(z, clens, |all|, acc) == CodeLengths(x, clens, |all|, items[0].After(acc))
  {
    hide Give, AllHave, CodeLengths, Stream, Width, IsCode, LengthItem.Fields, LengthItem.After, LengthItem.Symbol;
    hide LengthItem.Fits, LengthItem.InRange, ItemFields, Has, ValidLengths, Roomy, CodeField, Moved;
    FirstItem(items, clens, acc, all);
    x := ItemRead(z, clens, items[0], acc, |all|, ItemFields(items[1..], clens, items[0].After(acc), all), rest, bits);
  }

  /** The items, read back. */
  lemma {:induction false} ItemsRead(z: BitState, clens: Lengths, items: seq<LengthItem>, acc: Lengths, all: Lengths,
                                     rest: nat, bits: nat) returns (w: BitState)
    requires Sent(z, clens, items, acc, all, rest, bits)
    ensures CodeLengths(z, clens, |all|, acc) == Some((all, w)) && w.rem == rest && Roomy(w, bits)
    ensures ItemsMoved(z, w, clens, items, acc, all)
    decreases |items|
  {
    hide ItemFields, Give, AllHave, Stream, Width, LengthItem.Fields, LengthItem.After, LengthItem.Symbol;
    if items == [] {
      NoItems(z, clens, acc, all, rest);
      w := z;
    } else {
      var x := FirstRead(z, clens, items, acc, all, rest, bits);
      w := ItemsRead(x, clens, items[1..], items[0].After(acc), all, rest, bits);
      hide CodeLengths, ItemsMoved, Moved;
      ItemsMovedOn(z, x, w, clens, items, acc, all);
    }
  }

  // ------------------------------------------------------------- the whole header

  lemma HeaderParts(h: DynamicHeader, rest: nat)
    requires h.Valid()
    ensures var items := ItemFields(h.items, h.clens, [], h.lens + h.dlens); var sizes := SizeFields(h.clens, 0, h.m);
      && Stream(h.Fields(), rest) == Join(|h.lens| - 257, 5, Join(|h.dlens| - 1, 5, Join(h.m - 4, 4,
           Stream(sizes, Stream(items, rest)))))
      && Width(h.Fields()) == 14 + Width(sizes) + Width(items)
  {
    hide Join, Stream, Width, Give, AllHave, ItemFields, SizeFields;
    var items, sizes := ItemFields(h.items, h.clens, [], h.lens + h.dlens), SizeFields(h.clens, 0, h.m);
    ThreeFields(Field(|h.lens| - 257, 5), Field(|h.dlens| - 1, 5), Field(h.m - 4, 4), sizes, items, rest);
  }

  lemma ThreeFields(a: Field, b: Field, c: Field, sizes: seq<Field>, items: seq<Field>, rest: nat)
    ensures var all := [a] + ([b] + ([c] + (sizes + items)));
      && Stream(all, rest) == Join(a.value, a.width, Join(b.value, b.width, Join(c.value, c.width,
           Stream(sizes, Stream(items, rest)))))
      && Width(all) == a.width + b.width + c.width + Width(sizes) + Width(items)
  {
    hide Join, Stream, Width;
    StreamConcat(sizes, items, rest);
    var r := sizes + items;
    ConsField(c, r, rest);
    ConsField(b, [c] + r, rest);
    ConsField(a, [b] + ([c] + r), rest);
  }

  /** The three counts at the front of the header. */
  lemma CountsRead(z: BitState, h: DynamicHeader, rest: nat, bits: nat) returns (z1: BitState, z2: BitState, z3: BitState)
    requires h.Valid() && Roomy(z, 14 + bits)
    requires z.rem == Join(|h.lens| - 257, 5, Join(|h.dlens| - 1, 5, Join(h.m - 4, 4, rest)))
    ensures Receive(z, 5) == (|h.lens| - 257, z1) && z1.nb <= 32 && Receive(z1, 5) == (|h.dlens| - 1, z2)
    ensures z2.nb <= 32 && Receive(z2, 4) == (h.m - 4, z3) && z3.rem == rest && Roomy(z3, bits) && Moved(z, z3, 14)
  {
    SmallPower(5);
    SmallPower(4);
    hide Join, Receive, IsCode, KraftOk, Give, Order, Pow2;
    z1 := ReceiveField(z, Field(|h.lens| - 257, 5), Join(|h.dlens| - 1, 5, Join(h.m - 4, 4, rest)), 9 + bits);
    z2 := ReceiveField(z1, Field(|h.dlens| - 1, 5), Join(h.m - 4, 4, rest), 4 + bits);
    z3 := ReceiveField(z2, Field(h.m - 4, 4), rest, bits);
    MovedOn(z, z1, z2, 5, 5);
    MovedOn(z, z2, z3, 10, 4);
  }

  lemma NothingPlaced(h: DynamicHeader)
    requires h.Valid()
    ensures SizesIn(Repeat(0, 19), h.clens, 0)
  {
  }

  /** The header means the two lists of code lengths. */
  lemma HeaderRead(z: BitState, h: DynamicHeader, rest: nat, bits: nat) returns (w: BitState)
    requires h.Valid() && Roomy(z, Width(h.Fields()) + bits) && z.rem == Stream(h.Fields(), rest)
    ensures DynamicCodes(z) == Some((h.lens, h.dlens, w)) && w.rem == rest && Roomy(w, bits)
    ensures Moved(z, w, Width(h.Fields()))
  {
    hide Join, Receive, DynamicHeader.Fields, Stream, Width, CodeLengths, CodeLengthSizes, KraftBelow, SizesIn, Order;
    hide ItemFields, SizeFields, Give;
    var items, sizes := ItemFields(h.items, h.clens, [], h.lens + h.dlens), SizeFields(h.clens, 0, h.m);
    HeaderParts(h, rest);
    var z1, z2, z3 := CountsRead(z, h, Stream(sizes, Stream(items, rest)), Width(sizes) + Width(items) + bits);
    NothingPlaced(h);
    var z4 := SizesRead(z3, h.clens, 0, h.m, Repeat(0, 19), Stream(items, rest), Width(items) + bits);
    w := ItemsRead(z4, h.clens, h.items, [], h.lens + h.dlens, rest, bits);
    MovedOn(z, z3, z4, 14, Width(sizes));
    MovedOn(z, z4, w, 14 + Width(sizes), Width(items));
    assert (h.lens + h.dlens)[..|h.lens|] == h.lens && (h.lens + h.dlens)[|h.lens|..] == h.dlens;
  }

  /** The block after its three header bits. */
  function DynamicBody(h: DynamicHeader, tokens: seq<Token>): seq<Field>
    requires h.Valid() && AllCodable(tokens, h.lens, h.dlens)
  {
    h.Fields() + BodyFields(tokens, h.lens, h.dlens)
  }

  /** A dynamic block appends what its tokens expand to, wherever in a stream it stands. */
  lemma BlockRead(z: BitState, out: Output, h: DynamicHeader, tokens: seq<Token>, final: seq<byte>, tail: nat,
                  bits: nat) returns (y: BitState, o: Output)
    requires h.Valid() && AllCodable(tokens, h.lens, h.dlens) && Expands(tokens, out.bytes, final)
    requires CanHold(out, |final|) && z.nb <= 31
    requires Roomy(z, Width(DynamicBody(h, tokens)) + bits) && z.rem == Stream(DynamicBody(h, tokens), tail)
    ensures Block(z, out, 2) == Some((y, o)) && o.bytes == final && y.rem == tail && Roomy(y, bits)
    ensures Moved(z, y, Width(DynamicBody(h, tokens))) && forall k :: CanHold(out, k) && |final| <= k ==> CanHold(o, k)
  {
    hide DynamicHeader.Fields, Stream, Width, BodyFields, HuffmanBlock, DynamicCodes, KraftOk, Expands, Give, Order;
    var body := BodyFields(tokens, h.lens, h.dlens);
    StreamConcat(h.Fields(), body, tail);
    var w := HeaderRead(z, h, Stream(body, tail), Width(body) + bits);
    y, o := DecodeTokens(w, out, tokens, h.lens, h.dlens, final, tail, bits);
    MovedOn(z, w, y, Width(h.Fields()), Width(body));
  }
}
