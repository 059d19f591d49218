/** Blocks as any encoder may write them (section F.1.2 of ITU-T T.81), with any Huffman
    tables the reader accepts: differences of up to fifteen bits, coefficients behind runs of
    up to fifteen zeros, sixteen zeros at a time anywhere, and an end of block, which every
    symbol without magnitude bits means but the one for sixteen zeros. */
module JpegSyntax {
  import opened Bits
  import opened BitFields
  import opened Wrappers
  import opened JpegSpec
  import opened JpegBlock

  datatype AcItem = Coefficient(run: nat, val: int) | Sixteen | Stop(r: nat) {
    predicate InRange() {
      match this
      case Coefficient(run, val) => run <= 15 && val != 0 && BitLength(Abs(val)) <= 15
      case Sixteen => true
      case Stop(r) => r <= 14
    }

    /** Run in the high four bits, size in the low four. */
    function Symbol(): (s: byte)
      requires InRange()
    {
      match this
      case Coefficient(run, val) => 16 * run + BitLength(Abs(val))
      case Sixteen => 0xF0
      case Stop(r) => 16 * r
    }

    function Fields(ht: CodeTable): seq<Field>
      requires InRange()
    {
      if Coefficient? then [CodeField(ht, Symbol()), MagnitudeField(val)] else [CodeField(ht, Symbol())]
    }
  }

  predicate ZerosFrom(du: seq<int>, i: nat, j: nat)
    requires |du| == 64
  {
    forall p :: i <= p < j && p < 64 ==> du[p] == 0
  }

  /** The items give the coefficients `du`, in zigzag order, from position `k` on. */
  predicate Fill(items: seq<AcItem>, k: nat, du: seq<int>)
    requires |du| == 64
    decreases |items|
  {
    if k >= 64 then items == []
    else
      items != [] && items[0].InRange() && match items[0]
        case Coefficient(run, val) =>
          k + run < 64 && ZerosFrom(du, k, k + run) && du[k + run] == val && Fill(items[1..], k + run + 1, du)
        case Sixteen => ZerosFrom(du, k, k + 16) && Fill(items[1..], k + 16, du)
        case Stop(_) => ZerosFrom(du, k, 64) && items[1..] == []
  }

  /** All symbols have codes, and the reader's table has them. */
  ghost predicate Coded(items: seq<AcItem>, ht: CodeTable, code: HuffCode) {
    forall i :: 0 <= i < |items| ==> items[i].InRange() && Agrees(ht, code, items[i].Symbol())
  }

  function ItemFields(items: seq<AcItem>, ht: CodeTable): seq<Field>
    requires forall i :: 0 <= i < |items| ==> items[i].InRange()
  {
    if items == [] then [] else items[0].Fields(ht) + ItemFields(items[1..], ht)
  }

  /** What the reader makes of an item. */
  function Meaning(item: AcItem): JpegSpec.Coefficient {
    match item
    case Coefficient(run, val) => Value(run, val)
    case Sixteen => Zeros16
    case Stop(_) => End
  }

  lemma SymbolParts(item: AcItem)
    requires item.InRange()
    ensures item.Coefficient? ==>
      item.val != 0 && item.Symbol() / 16 == item.run && item.Symbol() as int % 16 == BitLength(Abs(item.val))
    ensures !item.Coefficient? ==> item.Symbol() % 16 == 0 && (item.Symbol() == 0xF0 <==> item.Sixteen?)
  {
    hide BitLength;
  }

  /** An item, read back. */
  lemma ItemDecodes(z: JState, ht: CodeTable, code: HuffCode, item: AcItem, more: seq<Field>, tail: nat) returns (w: JState)
    requires code.Valid() && item.InRange() && Agrees(ht, code, item.Symbol()) && Ahead(z, item.Fields(ht) + more, tail)
    ensures AcSymbol(z, code) == Some((Meaning(item), w)) && Ahead(w, more, tail)
  {
    hide AcSymbol, Agrees, Ahead, BitLength, MagnitudeField, AcItem.Symbol, AcItem.InRange, CodeField;
    SymbolParts(item);
    if item.Coefficient? {
      w := ReadValue(z, ht, code, item.Symbol(), item.val, more, tail);
    } else {
      w := ReadMark(z, ht, code, item.Symbol(), more, tail);
    }
  }

  /** The block and the position after an item that does not end the block. */
  function Advance(item: AcItem, k: nat, data: seq<int>, dequant: seq<nat>): (seq<int>, nat)
    requires |data| == |dequant| == 64 && (item.Coefficient? ==> k + item.run < 64)
  {
    if item.Coefficient? then
      var i := k + item.run;
      (data[Zig(i) := Short(item.val * dequant[Zig(i)])], i + 1)
    else (data, k + 16)
  }

  lemma Advances(items: seq<AcItem>, k: nat, du: seq<int>, dequant: seq<nat>, data: seq<int>)
    requires |du| == |dequant| == 64 && 1 <= k < 64 && Fill(items, k, du) && Holds(data, du, dequant, k) && !items[0].Stop?
    ensures |data| == 64 && (items[0].Coefficient? ==> k + items[0].run < 64)
    ensures var (data', k') := Advance(items[0], k, data, dequant);
      1 <= k' && Fill(items[1..], k', du) && Holds(data', du, dequant, k')
  {
    hide Short, Zig, Holds, AcItem.InRange;
    HoldsLength(data, du, dequant, k);
    if items[0].Coefficient? {
      HoldsZeros(data, du, dequant, k, k + items[0].run);
      HoldsNext(data, du, dequant, k + items[0].run);
    } else {
      HoldsZeros(data, du, dequant, k, k + 16);
    }
  }

  lemma Stops(items: seq<AcItem>, k: nat, du: seq<int>, dequant: seq<nat>, data: seq<int>)
    requires |du| == |dequant| == 64 && k < 64 && Fill(items, k, du) && Holds(data, du, dequant, k) && items[0].Stop?
    ensures data == Restored(du, dequant) && items[1..] == []
  {
    hide Restored, Holds;
    HoldsZeros(data, du, dequant, k, 64);
    HoldsAll(data, du, dequant);
  }

  /** One step of the reader's loop. */
  lemma RestStep(z: JState, ac: HuffCode, item: AcItem, dequant: seq<nat>, data: seq<int>, k: nat, w: JState)
    requires z.Valid() && w.Valid() && ac.Valid() && |data| == |dequant| == 64 && k < 64
    requires AcSymbol(z, ac) == Some((Meaning(item), w)) && (item.Coefficient? ==> k + item.run < 64)
    ensures item.Stop? ==> AcRest(z, ac, dequant, data, k) == Some((data, w))
    ensures !item.Stop? ==>
      var (data', k') := Advance(item, k, data, dequant);
      && |data'| == 64
      && AcRest(z, ac, dequant, data, k) == if k' < 64 then AcRest(w, ac, dequant, data', k') else Some((data', w))
  {
    hide AcSymbol, Short, Zig, HuffCode.Valid;
  }

  lemma FirstInRange(items: seq<AcItem>, k: nat, du: seq<int>)
    requires |du| == 64 && k < 64 && Fill(items, k, du)
    ensures items != [] && items[0].InRange() && (items[0].Coefficient? ==> k + items[0].run < 64)
  {
    hide AcItem.InRange;
  }

  /** The items from position `k` on, read back. */
  lemma {:induction false} ItemsDecode(z: JState, ht: CodeTable, ac: HuffCode, items: seq<AcItem>, du: seq<int>,
                                       dequant: seq<nat>, data: seq<int>, k: nat, more: seq<Field>, tail: nat)
    returns (w: JState)
    requires ac.Valid() && |du| == |dequant| == 64 && Coded(items, ht, ac) && 1 <= k < 64 && Fill(items, k, du)
    requires Holds(data, du, dequant, k) && Ahead(z, ItemFields(items, ht) + more, tail)
    ensures |data| == 64 && z.Valid()
    ensures AcRest(z, ac, dequant, data, k) == Some((Restored(du, dequant), w)) && Ahead(w, more, tail)
    decreases |items|
  {
    hide AcSymbol, Agrees, Restored, Holds, HuffCode.Valid, AcItem.Fields, AcItem.Symbol, AcItem.InRange, AcRest, Fill;
    hide Advance, Stream, Width;
    HoldsLength(data, du, dequant, k);
    FirstInRange(items, k, du);
    var item, rest := items[0], ItemFields(items[1..], ht) + more;
    assert ItemFields(items, ht) + more == item.Fields(ht) + rest;
    w := ItemDecodes(z, ht, ac, item, rest, tail);
    RestStep(z, ac, item, dequant, data, k, w);
    if item.Stop? {
      Stops(items, k, du, dequant, data);
      assert [] + more == more;
    } else {
      Advances(items, k, du, dequant, data);
      var (data', k') := Advance(item, k, data, dequant);
      if k' < 64 {
        w := ItemsDecode(w, ht, ac, items[1..], du, dequant, data', k', more, tail);
      } else {
        Full(items[1..], k', du, dequant, data');
        assert [] + more == more;
      }
    }
  }

  lemma Full(items: seq<AcItem>, k: nat, du: seq<int>, dequant: seq<nat>, data: seq<int>)
    requires |du| == |dequant| == 64 && k >= 64 && Fill(items, k, du) && Holds(data, du, dequant, k)
    ensures items == [] && data == Restored(du, dequant)
  {
    HoldsAll(data, du, dequant);
  }

  /** A block of any encoder: the difference, then the items. The reader restores the
      coefficients, or refuses exactly when the DC level or its product is out of range. */
  lemma AnyBlock(z: JState, du: seq<int>, pred: int, items: seq<AcItem>, htdc: CodeTable, htac: CodeTable,
                 dc: HuffCode, ac: HuffCode, dequant: seq<nat>, more: seq<Field>, tail: nat) returns (w: JState)
    requires dc.Valid() && ac.Valid() && |du| == |dequant| == 64
    requires BitLength(Abs(du[0] - pred)) <= 15 && Agrees(htdc, dc, DcSymbol(du[0] - pred))
    requires Coded(items, htac, ac) && Fill(items, 1, du)
    requires Ahead(z, DcFields(du[0] - pred, htdc) + (ItemFields(items, htac) + more), tail)
    ensures if -0x8000_0000 <= du[0] <= 0x7FFF_FFFF && ShortProduct(du[0], dequant[0])
      then Ahead(w, more, tail) && DecodeBlock(z, pred, dc, ac, dequant) == Some((Restored(du, dequant), du[0], w))
      else DecodeBlock(z, pred, dc, ac, dequant) == None
  {
    hide AcRest, HuffDecode, ReceiveExtend, Restored, Holds, Short, Zig, Agrees, DcFields, Fill, Stream, Width;
    hide HuffCode.Valid, ShortProduct;
    var diff, rest := du[0] - pred, ItemFields(items, htac) + more;
    Settled(z, DcFields(diff, htdc) + rest, tail);
    var t, y, x := DcDecodes(Need(z, 16), htdc, dc, diff, rest, tail);
    w := x;
    if -0x8000_0000 <= du[0] <= 0x7FFF_FFFF && ShortProduct(du[0], dequant[0]) {
      FirstHolds(du, dequant);
      w := ItemsDecode(x, htac, ac, items, du, dequant, ZeroBlock()[0 := Short(du[0] * dequant[0])], 1, more, tail);
    }
  }
}
