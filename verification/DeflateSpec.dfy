/** What a compressor may write: LZ77 tokens in the fixed Huffman code, or stored
    blocks; and the proof that inflating either gives the data back. */
module DeflateSpec {
  import opened Bits
  import opened BitFields
  import opened CanonicalCode
  import opened InflateSpec
  import opened Wrappers

  // ------------------------------------------------------------------ tokens

  /** A literal byte, or a match given by its length and distance symbols with
      their extra bits. */
  datatype Token =
    | Literal(b: byte)
    | Match(lsym: nat, lextra: nat, dsym: nat, dextra: nat)
  {
    predicate Valid() {
      Match? ==>
        lsym < 29 && lextra < Pow2(LengthExtra(lsym)) && dsym < 30 && dextra < Pow2(DistExtra(dsym))
    }

    function Len(): nat
      requires Valid()
    {
      if Literal? then 1 else LengthBase(lsym) + lextra
    }

    function Dist(): nat
      requires Valid() && Match?
    {
      DistBase(dsym) + dextra
    }

    /** The token makes sense after the bytes `out`. */
    predicate Fits(out: seq<byte>) {
      Valid() && (Match? ==> Dist() <= |out|)
    }

    function Apply(out: seq<byte>): (r: seq<byte>)
      requires Fits(out)
      ensures |r| == |out| + Len() && out <= r
    {
      if Literal? then out + [b] else CopyMatch(out, Len(), Dist())
    }

    function Fields(): (f: seq<Field>)
      requires Valid()
    {
      if Literal? then [SymbolField(b)]
      else [SymbolField(257 + lsym)] + Extra(lextra, LengthExtra(lsym))
           + [Field(Rev(dsym, 5), 5)] + Extra(dextra, DistExtra(dsym))
    }
  }

  /** An extra-bits field, left out when it has no bits. */
  function Extra(value: nat, width: nat): seq<Field> {
    if width == 0 then [] else [Field(value, width)]
  }

  /** Symbol `n` has a code. */
  predicate Has(lens: Lengths, n: nat) {
    n < |lens| && lens[n] > 0
  }

  /** Symbol `n` of the code with lengths `lens`, most significant code bit first. */
  function CodeField(lens: Lengths, n: nat): Field
    requires Has(lens, n)
  {
    Field(Rev(Code(lens, n), lens[n]), lens[n])
  }

  /** The lengths of a code: at most 15 bits each, and not over-subscribed. */
  predicate IsCode(lens: Lengths) {
    ValidLengths(lens) && KraftOk(lens)
  }

  lemma CodeFieldFits(lens: Lengths, n: nat)
    requires IsCode(lens) && Has(lens, n)
    ensures Code(lens, n) < Pow2(lens[n]) && CodeField(lens, n).Valid() && CodeField(lens, n).width <= 15
  {
    KraftPerLength(lens);
    CodeInRange(lens, n);
  }

  /** The symbols of the token have codes. */
  predicate Codable(t: Token, lens: Lengths, dlens: Lengths) {
    t.Valid() && if t.Literal? then Has(lens, t.b) else Has(lens, 257 + t.lsym) && Has(dlens, t.dsym)
  }

  /** The token in the codes with lengths `lens` and `dlens`. */
  function CodedFields(t: Token, lens: Lengths, dlens: Lengths): seq<Field>
    requires Codable(t, lens, dlens)
  {
    if t.Literal? then [CodeField(lens, t.b)]
    else [CodeField(lens, 257 + t.lsym)] + MatchTail(t, dlens)
  }

  /** The fields after the length symbol of a match. */
  function MatchTail(t: Token, dlens: Lengths): seq<Field>
    requires t.Valid() && t.Match? && Has(dlens, t.dsym)
  {
    Extra(t.lextra, LengthExtra(t.lsym)) + ([CodeField(dlens, t.dsym)] + Extra(t.dextra, DistExtra(t.dsym)))
  }

  predicate AllCodable(tokens: seq<Token>, lens: Lengths, dlens: Lengths) {
    Has(lens, 256) && forall i :: 0 <= i < |tokens| ==> Codable(tokens[i], lens, dlens)
  }

  /** The tokens of a block and the end-of-block symbol. */
  function BodyFields(tokens: seq<Token>, lens: Lengths, dlens: Lengths): seq<Field>
    requires AllCodable(tokens, lens, dlens)
  {
    if tokens == [] then [CodeField(lens, 256)]
    else CodedFields(tokens[0], lens, dlens) + BodyFields(tokens[1..], lens, dlens)
  }

  /** Symbol `n` of the fixed code, most significant code bit first. */
  function SymbolField(n: nat): (f: Field)
    requires n < 288
    ensures f.Valid() && 7 <= f.width <= 9
  {
    Field(Rev(Code(FixedLengths(), n), FixedLength(n)), FixedLength(n))
  }

  /** `tokens`, applied after `out`, produce `final`. */
  predicate Expands(tokens: seq<Token>, out: seq<byte>, final: seq<byte>) {
    if tokens == [] then out == final
    else tokens[0].Fits(out) && Expands(tokens[1..], tokens[0].Apply(out), final)
  }

  lemma {:induction false} ExpandsGrows(tokens: seq<Token>, out: seq<byte>, final: seq<byte>)
    requires Expands(tokens, out, final)
    ensures |out| <= |final|
  {
    if tokens != [] {
      ExpandsGrows(tokens[1..], tokens[0].Apply(out), final);
    }
  }

  lemma {:induction false} ExpandsSnoc(tokens: seq<Token>, out: seq<byte>, mid: seq<byte>, t: Token)
    requires Expands(tokens, out, mid) && t.Fits(mid)
    ensures Expands(tokens + [t], out, t.Apply(mid))
  {
    if tokens == [] {
      assert ([t])[1..] == [];
    } else {
      assert (tokens + [t])[1..] == tokens[1..] + [t];
      ExpandsSnoc(tokens[1..], tokens[0].Apply(out), mid, t);
    }
  }

  /** The fields of a token sequence. */
  function TokenFields(tokens: seq<Token>): seq<Field>
    requires forall i :: 0 <= i < |tokens| ==> tokens[i].Valid()
  {
    if tokens == [] then [] else tokens[0].Fields() + TokenFields(tokens[1..])
  }

  lemma {:induction false} ExpandsValid(tokens: seq<Token>, out: seq<byte>, final: seq<byte>)
    requires Expands(tokens, out, final)
    ensures forall i :: 0 <= i < |tokens| ==> tokens[i].Valid()
  {
    if tokens != [] {
      ExpandsValid(tokens[1..], tokens[0].Apply(out), final);
      forall i | 0 <= i < |tokens| ensures tokens[i].Valid() {
        assert i > 0 ==> tokens[i] == tokens[1..][i - 1];
      }
    }
  }

  lemma {:induction false} TokenFieldsSnoc(tokens: seq<Token>, t: Token)
    requires t.Valid() && forall i :: 0 <= i < |tokens| ==> tokens[i].Valid()
    ensures TokenFields(tokens + [t]) == TokenFields(tokens) + t.Fields()
  {
    hide Token.Fields, Token.Valid;
    if tokens == [] {
      assert ([t])[1..] == [] && [] + [t] == [t];
      assert TokenFields([t]) == t.Fields() + TokenFields([]) == t.Fields();
    } else {
      assert (tokens + [t])[1..] == tokens[1..] + [t];
      TokenFieldsSnoc(tokens[1..], t);
    }
  }

  // ------------------------------------------------- reading fields back

  /** At least `bits` bits are left, not counting the zeros the reader padded with. */
  predicate Roomy(z: BitState, bits: nat) {
    z.nb <= 32 && (z.hit ==> z.left == 0) && z.nb + 8 * z.left >= bits + if z.hit then 16 else 0
  }

  /** `w` bits on, the buffer has the same number of bits left over from whole bytes. */
  predicate Moved(z: BitState, y: BitState, w: nat) {
    (z.nb - w - y.nb) % 8 == 0
  }

  lemma MovedOn(z: BitState, u: BitState, y: BitState, a: nat, b: nat)
    requires Moved(z, u, a) && Moved(u, y, b)
    ensures Moved(z, y, a + b)
  {
  }

  lemma ReceiveField(z: BitState, f: Field, rest: nat, bits: nat) returns (y: BitState)
    requires Roomy(z, f.width + bits) && f.Valid() && f.width <= 24
    requires z.rem == Join(f.value, f.width, rest)
    ensures Receive(z, f.width) == (f.value, y) && y.rem == rest && Roomy(y, bits) && Moved(z, y, f.width)
  {
    ReadField(f.value, f.width, rest);
    y := Receive(z, f.width).1;
    ReceiveMoves(z, f.width);
  }

  lemma ReceiveMoves(z: BitState, n: nat)
    requires z.nb <= 32 && n <= 24
    ensures Moved(z, Receive(z, n).1, n)
  {
    hide Low, Shr;
    var k := (24 - z.nb) / 8 + 1;
    assert (-8 * k) % 8 == 0;
  }

  lemma ReceiveExtraField(z: BitState, value: nat, width: nat, rest: nat, bits: nat) returns (y: BitState)
    requires Roomy(z, width + bits) && value < Pow2(width) && width <= 24
    requires z.rem == Stream(Extra(value, width), rest)
    ensures ReceiveExtra(z, width) == (value, y) && y.rem == rest && Roomy(y, bits) && Moved(z, y, width)
  {
    if width == 0 {
      assert Pow2(0) == 1;
      y := z;
    } else {
      y := ReceiveField(z, Field(value, width), rest, bits);
    }
  }

  /** A symbol written with its code reversed is the symbol that is read. */
  lemma DecodeSymbol(z: BitState, lens: Lengths, n: nat, rest: nat, bits: nat) returns (y: BitState)
    requires ValidLengths(lens) && n < |lens| && lens[n] > 0 && Code(lens, n) < Pow2(lens[n])
    requires Roomy(z, lens[n] + bits) && z.rem == Join(Rev(Code(lens, n), lens[n]), lens[n], rest)
    ensures Decode(z, lens) == Some((n, y)) && y.rem == rest && Roomy(y, bits) && Moved(z, y, lens[n])
  {
    var s, c := lens[n], Code(lens, n);
    ReadField(Rev(c, s), s, rest);
    RevLow(z.rem, s);
    RevInvolutive(c, s);
    LowOfSmall(c, s);
    assert Matches(lens, n, z.rem);
    PrefixFree(lens, n, Symbol(lens, z.rem), z.rem);
    y := Decode(z, lens).value.1;
    EnsureMoves(z, s);
  }

  lemma EnsureMoves(z: BitState, s: nat)
    requires z.nb <= 32 && Ensure16(z).Some?
    ensures (z.nb - Ensure16(z).value.nb) % 8 == 0
  {
    var k := (24 - z.nb) / 8 + 1;
    assert (-8 * k) % 8 == 0;
  }

  // ------------------------------------------------------------ whole streams

  const BLOCK_MAX: nat := 32767

  /** BFINAL, BTYPE 0, LEN and its complement NLEN. */
  function StoredHeader(n: int, last: bool): (h: seq<byte>)
    requires 0 <= n <= BLOCK_MAX
    ensures |h| == 5
  {
    [if last then 1 else 0, UChar(n), UChar(n / 256), UChar(-n - 1), UChar((-n - 1) / 256)]
  }

  /** `data` as stored blocks of at most 32767 bytes. */
  function StoredBlocks(data: seq<byte>): (s: seq<byte>)
    ensures |s| == |data| + 5 * ((|data| + BLOCK_MAX - 1) / BLOCK_MAX)
  {
    if data == [] then []
    else
      var n := if |data| > BLOCK_MAX then BLOCK_MAX else |data|;
      StoredHeader(n, n == |data|) + data[..n] + StoredBlocks(data[n..])
  }

  /** `bytes` hold exactly `fields`, padded with zero bits to a whole byte. */
  predicate Packed(bytes: seq<byte>, fields: seq<Field>) {
    LE(bytes) == Stream(fields, 0) && Width(fields) <= 8 * |bytes| < Width(fields) + 8
  }

  /** BFINAL = 1 and BTYPE = 1, then the block. */
  function FixedFields(tokens: seq<Token>): seq<Field>
    requires forall i :: 0 <= i < |tokens| ==> tokens[i].Valid()
  {
    [Field(1, 1), Field(1, 2)] + (TokenFields(tokens) + [SymbolField(256)])
  }
}
