/** What inflating a stream means, stated on the bit stream itself.
    The unread part of the stream is one natural number `rem`, least significant
    bit first, so reading past the end yields zeros. Huffman symbols are taken
    from the canonical code of the length lists (section 3.2.2 of RFC 1951), with
    no tables. `nb`, `left` and `hit` record how far the reader has buffered,
    which decides when it reports a truncated stream. */
module InflateSpec {
  import opened Bits
  import opened CanonicalCode
  import opened Wrappers

  const UINT_MAX: nat := 0xFFFF_FFFF

  /** `rem`: unread stream; `nb`: buffered bits; `left`: unbuffered bytes;
      `hit`: the reader has already padded once at the end of its input. */
  datatype BitState = BitState(rem: nat, nb: nat, left: nat, hit: bool)

  /** Subtraction that stops at zero. */
  function Less(a: nat, b: nat): nat {
    if a < b then 0 else a - b
  }

  /** Loads whole bytes until more than 24 bits are buffered. */
  function Refill(z: BitState): (r: BitState)
    requires z.nb <= 24
    ensures 24 < r.nb <= 32 && r.rem == z.rem
    ensures r.nb + 8 * r.left >= z.nb + 8 * z.left
  {
    var k := (24 - z.nb) / 8 + 1;
    z.(nb := z.nb + 8 * k, left := Less(z.left, k))
  }

  /** Reads `n` bits as a number. */
  function Receive(z: BitState, n: nat): (r: (nat, BitState))
    requires z.nb <= 32 && n <= 24
    ensures r.1.nb <= 32 && r.1.rem <= z.rem && r.1.hit == z.hit
  {
    var y := if z.nb < n then Refill(z) else z;
    ShrSmaller(z.rem, n);
    (Low(z.rem, n), y.(rem := Shr(z.rem, n), nb := y.nb - n))
  }

  /** Makes at least 16 bits available, padding once with zeros at the end of the
      input; fails when that padding is used up. */
  function Ensure16(z: BitState): (r: Option<BitState>)
    requires z.nb <= 32
    ensures r.Some? ==> 16 <= r.value.nb <= 32 && r.value.rem == z.rem
  {
    if z.nb >= 16 then Some(z)
    else if z.left > 0 then Some(Refill(z))
    else if z.hit then None
    else Some(z.(hit := true, nb := z.nb + 16))
  }

  /** Reads one symbol of the canonical code of `lens`. */
  ghost function Decode(z: BitState, lens: Lengths): (r: Option<(nat, BitState)>)
    requires z.nb <= 32 && ValidLengths(lens)
    ensures r.Some? ==> r.value.1.nb <= 32 && r.value.1.rem <= z.rem && r.value.0 < |lens|
  {
    var y :- Ensure16(z);
    var sym := Symbol(lens, z.rem);
    if sym < 0 then None
    else
      ShrSmaller(z.rem, lens[sym]);
      Some((sym, y.(rem := Shr(z.rem, lens[sym]), nb := y.nb - lens[sym])))
  }

  // ------------------------------------------------------- the output buffer

  /** Doubles the capacity until `need` bytes fit. */
  function Doubled(cap: nat, need: nat): (r: Option<nat>)
    requires 0 < cap <= UINT_MAX
    ensures r.Some? ==> cap <= r.value <= UINT_MAX && need <= r.value
    decreases UINT_MAX - cap
  {
    if need <= cap then Some(cap)
    else if cap > UINT_MAX / 2 then None
    else Doubled(2 * cap, need)
  }

  datatype Output = Output(bytes: seq<byte>, cap: nat, expandable: bool) {
    predicate Valid() {
      |bytes| <= cap <= UINT_MAX && (expandable ==> cap > 0)
    }

    /** Makes room for `n` more bytes. */
    function Room(n: nat): (r: Option<Output>)
      requires Valid()
      ensures r.Some? ==> r.value.Valid() && r.value.bytes == bytes && |bytes| + n <= r.value.cap
      ensures r.Some? ==> r.value.expandable == expandable
    {
      if |bytes| + n <= cap then Some(this)
      else if !expandable || UINT_MAX - |bytes| < n then None
      else
        var c :- Doubled(cap, |bytes| + n);
        Some(this.(cap := c))
    }

    function Append(s: seq<byte>): Output {
      this.(bytes := bytes + s)
    }
  }

  /** `len` bytes copied one by one from `dist` bytes back, so that a copy may
      read bytes it has just written. */
  function CopyMatch(out: seq<byte>, len: nat, dist: nat): (r: seq<byte>)
    requires 1 <= dist <= |out|
    ensures |r| == |out| + len && out <= r
    decreases len
  {
    if len == 0 then out else CopyMatch(out + [out[|out| - dist]], len - 1, dist)
  }

  // ------------------------------------------------------------------ tables

  function LengthBase(i: nat): (r: nat)
    requires i < 31
    ensures i < 29 ==> 3 <= r <= 258
  {
    [3, 4, 5, 6, 7, 8, 9, 10, 11, 13, 15, 17, 19, 23, 27, 31,
     35, 43, 51, 59, 67, 83, 99, 115, 131, 163, 195, 227, 258, 0, 0][i]
  }

  function LengthExtra(i: nat): (r: nat)
    requires i < 31
    ensures r <= 5
  {
    [0, 0, 0, 0, 0, 0, 0, 0, 1, 1, 1, 1, 2, 2, 2, 2,
     3, 3, 3, 3, 4, 4, 4, 4, 5, 5, 5, 5, 0, 0, 0][i]
  }

  function DistBase(i: nat): (r: nat)
    requires i < 32
    ensures i < 30 ==> 1 <= r <= 24577
  {
    [1, 2, 3, 4, 5, 7, 9, 13, 17, 25, 33, 49, 65, 97, 129, 193, 257, 385, 513, 769, 1025, 1537,
     2049, 3073, 4097, 6145, 8193, 12289, 16385, 24577, 0, 0][i]
  }

  function DistExtra(i: nat): (r: nat)
    requires i < 30
    ensures r <= 13
  {
    [0, 0, 0, 0, 1, 1, 2, 2, 3, 3, 4, 4, 5, 5, 6, 6, 7, 7, 8, 8, 9, 9, 10, 10, 11, 11, 12, 12, 13, 13][i]
  }

  const LENGTH_DEZIGZAG: seq<nat> := [16, 17, 18, 0, 8, 7, 9, 6, 10, 5, 11, 4, 12, 3, 13, 2, 14, 1, 15]

  /** The fixed code of section 3.2.6. */
  function FixedLength(i: nat): nat {
    if i <= 143 then 8 else if i <= 255 then 9 else if i <= 279 then 7 else 8
  }

  function FixedLengths(): (lens: Lengths)
    ensures |lens| == 288 && ValidLengths(lens)
    ensures forall i :: 0 <= i < 288 ==> lens[i] == FixedLength(i)
  {
    seq(288, i requires 0 <= i => FixedLength(i))
  }

  function FixedDistances(): Lengths {
    Repeat(5, 32)
  }

  // -------------------------------------------------------------- one block

  /** Reads an optional extra-bits field. */
  function ReceiveExtra(z: BitState, n: nat): (r: (nat, BitState))
    requires z.nb <= 32 && n <= 24
    ensures r.1.nb <= 32 && r.1.rem <= z.rem && r.1.hit == z.hit
  {
    if n == 0 then (0, z) else Receive(z, n)
  }

  /** The length/distance pair that follows length symbol `sym`. */
  ghost function MatchFields(z: BitState, sym: nat, dlens: Lengths): (r: Option<(nat, nat, BitState)>)
    requires z.nb <= 32 && 257 <= sym < 286 && ValidLengths(dlens)
    ensures r.Some? ==> r.value.0 >= 3 && r.value.1 >= 1 && r.value.2.nb <= 32 && r.value.2.rem <= z.rem
  {
    var li := sym - 257;
    var (e, y) := ReceiveExtra(z, LengthExtra(li));
    var (d, x) :- Decode(y, dlens);
    if d >= 30 then None
    else
      var (f, w) := ReceiveExtra(x, DistExtra(d));
      Some((LengthBase(li) + e, DistBase(d) + f, w))
  }

  /** Reads the rest of a match and copies it. */
  ghost function AfterMatch(z: BitState, out: Output, sym: nat, dlens: Lengths): (r: Option<(BitState, Output)>)
    requires z.nb <= 32 && out.Valid() && ValidLengths(dlens) && 257 <= sym < 286
    ensures r.Some? ==> r.value.0.nb <= 32 && r.value.0.rem <= z.rem
    ensures r.Some? ==> r.value.1.Valid() && r.value.1.expandable == out.expandable
    ensures r.Some? ==> |r.value.1.bytes| > |out.bytes|
  {
    var (len, dist, x) :- MatchFields(z, sym, dlens);
    if |out.bytes| < dist then None
    else
      var o :- out.Room(len);
      Some((x, o.(bytes := CopyMatch(o.bytes, len, dist))))
  }

  /** Decodes symbols up to the end-of-block symbol. */
  ghost function HuffmanBlock(z: BitState, out: Output, lens: Lengths,
                              dlens: Lengths): (r: Option<(BitState, Output)>)
    requires z.nb <= 32 && out.Valid() && ValidLengths(lens) && ValidLengths(dlens)
    ensures r.Some? ==> r.value.0.nb <= 32 && r.value.0.rem <= z.rem
    ensures r.Some? ==> r.value.1.Valid() && r.value.1.expandable == out.expandable
    decreases UINT_MAX - |out.bytes|
  {
    var (sym, y) :- Decode(z, lens);
    if sym < 256 then
      var o :- out.Room(1);
      HuffmanBlock(y, o.Append([sym]), lens, dlens)
    else if sym == 256 then
      if y.hit && y.nb < 16 then None else Some((y, out))
    else if sym >= 286 then None
    else
      var (x, o) :- AfterMatch(y, out, sym, dlens);
      HuffmanBlock(x, o, lens, dlens)
  }

  /** Skips to a byte boundary, checks LEN against NLEN and copies LEN bytes. */
  function StoredBlock(z: BitState, out: Output): (r: Option<(BitState, Output)>)
    requires z.nb <= 31 && out.Valid()
    ensures r.Some? ==> r.value.0.nb <= 32 && r.value.0.rem <= z.rem
    ensures r.Some? ==> z.rem > 0 && r.value.0.rem < z.rem
    ensures r.Some? ==> r.value.1.Valid() && r.value.1.expandable == out.expandable
  {
    var y := Receive(z, z.nb % 8).1;
    var buffered := y.nb / 8;
    var len, nlen := Low(y.rem, 16), Low(Shr(y.rem, 16), 16);
    var rest := Shr(y.rem, 32);
    var left := Less(y.left, 4 - buffered);
    if nlen != 0xFFFF - len || len > left then None
    else
      var o :- out.Room(len);
      StoredConsumes(y.rem, len);
      Some((BitState(Shr(rest, 8 * len), 0, left - len, y.hit), o.Append(TakeBytes(rest, len))))
  }

  /** LEN and its complement cannot both be read from trailing zeros. */
  lemma StoredConsumes(rem: nat, len: nat)
    requires Low(Shr(rem, 16), 16) == 0xFFFF - Low(rem, 16)
    ensures Shr(Shr(rem, 32), 8 * len) < rem
  {
    ShrZero(16);
    ShrSmaller(rem, 32);
    ShrSmaller(Shr(rem, 32), 8 * len);
  }

  lemma ShrZero(n: nat)
    ensures Shr(0, n) == 0 && Low(0, n) == 0
  {
    LowOfSmall(0, n);
  }

  // ------------------------------------------------------- dynamic code lengths

  function CodeLengthSizes(z: BitState, n: nat, i: nat, sizes: Lengths): (r: (Lengths, BitState))
    requires z.nb <= 32 && i <= n <= 19 && |sizes| == 19 && ValidLengths(sizes)
    ensures |r.0| == 19 && ValidLengths(r.0) && r.1.nb <= 32 && r.1.rem <= z.rem
    decreases n - i
  {
    if i == n then (sizes, z)
    else
      var (s, y) := Receive(z, 3);
      LowShr(z.rem, 3);
      assert Pow2(3) == 8;
      CodeLengthSizes(y, n, i + 1, sizes[LENGTH_DEZIGZAG[i] := s])
  }

  function RepeatBits(c: nat): nat {
    if c == 16 then 2 else if c == 17 then 3 else 7
  }

  function RepeatBase(c: nat): nat {
    if c == 18 then 11 else 3
  }

  /** Reads `total` code lengths after the first |acc|, with the repeat codes 16 to 18. */
  ghost function CodeLengths(z: BitState, clens: Lengths, total: nat, acc: Lengths): (r: Option<(Lengths, BitState)>)
    requires z.nb <= 32 && ValidLengths(clens) && ValidLengths(acc) && |acc| <= total
    ensures r.Some? ==> |r.value.0| == total && ValidLengths(r.value.0)
    ensures r.Some? ==> r.value.1.nb <= 32 && r.value.1.rem <= z.rem
    decreases total - |acc|
  {
    if |acc| == total then Some((acc, z))
    else
      var (c, y) :- Decode(z, clens);
      if c >= 19 then None
      else if c < 16 then CodeLengths(y, clens, total, acc + [c])
      else
        var (k, x) := Receive(y, RepeatBits(c));
        var n := k + RepeatBase(c);
        if (c == 16 && acc == []) || total - |acc| < n then None
        else CodeLengths(x, clens, total, acc + Repeat(if c == 16 then acc[|acc| - 1] else 0, n))
  }

  /** The literal/length and distance code lengths of a dynamic block. */
  ghost function DynamicCodes(z: BitState): (r: Option<(Lengths, Lengths, BitState)>)
    requires z.nb <= 32
    ensures r.Some? ==> ValidLengths(r.value.0) && ValidLengths(r.value.1)
    ensures r.Some? ==> |r.value.0| <= 288 && |r.value.1| <= 32
    ensures r.Some? ==> r.value.2.nb <= 32 && r.value.2.rem <= z.rem
  {
    var (a, z1) := Receive(z, 5);
    var (b, z2) := Receive(z1, 5);
    var (c, z3) := Receive(z2, 4);
    LowShr(z.rem, 5);
    LowShr(z1.rem, 5);
    LowShr(z2.rem, 4);
    assert Pow2(5) == 32 && Pow2(4) == 16;
    var hlit, hdist, hclen := a + 257, b + 1, c + 4;
    var (sizes, z4) := CodeLengthSizes(z3, hclen, 0, Repeat(0, 19));
    if !KraftOk(sizes) then None
    else
      var (lens, z5) :- CodeLengths(z4, sizes, hlit + hdist, []);
      if !KraftOk(lens[..hlit]) || !KraftOk(lens[hlit..]) then None
      else Some((lens[..hlit], lens[hlit..], z5))
  }

  // ------------------------------------------------------------- whole streams

  /** One block after its three header bits. */
  ghost function Block(z: BitState, out: Output, kind: nat): (r: Option<(BitState, Output)>)
    requires z.nb <= 31 && out.Valid()
    ensures r.Some? ==> r.value.0.nb <= 32 && r.value.0.rem <= z.rem
    ensures r.Some? && kind == 0 ==> r.value.0.rem < z.rem
    ensures r.Some? ==> r.value.1.Valid() && r.value.1.expandable == out.expandable
  {
    if kind == 0 then StoredBlock(z, out)
    else if kind == 1 then HuffmanBlock(z, out, FixedLengths(), FixedDistances())
    else if kind == 2 then
      var (lens, dlens, y) :- DynamicCodes(z);
      HuffmanBlock(y, out, lens, dlens)
    else None
  }

  /** Blocks up to and including the one marked final. A further block is only
      reached after a non-zero bit, so the recursion ends although `rem` supplies
      zeros for ever. */
  ghost function Blocks(z: BitState, out: Output): (r: Option<(BitState, Output)>)
    requires z.nb <= 32 && out.Valid()
    ensures r.Some? ==> r.value.1.Valid()
    decreases z.rem
  {
    var (final, z1) := Receive(z, 1);
    var (kind, z2) := Receive(z1, 2);
    HeaderConsumes(z.rem);
    var (y, o) :- Block(z2, out, kind);
    if final == 1 then Some((y, o)) else Blocks(y, o)
  }

  lemma HeaderConsumes(rem: nat)
    ensures Low(Shr(rem, 1), 2) != 0 ==> Shr(Shr(rem, 1), 2) < rem
    ensures Shr(Shr(rem, 1), 2) <= rem
  {
    ShrSmaller(rem, 1);
    ShrSmaller(Shr(rem, 1), 2);
    if Shr(rem, 1) == 0 {
      ShrZero(2);
    }
  }

  /** The two-byte zlib header: DEFLATE, no preset dictionary, checksum divisible
      by 31, and at least one byte after it. */
  predicate HeaderOk(input: seq<byte>) {
    |input| > 2 && (input[0] as int * 256 + input[1]) % 31 == 0 && input[1] / 32 % 2 == 0 && input[0] % 16 == 8
  }

  function Body(input: seq<byte>, header: bool): seq<byte> {
    if header && |input| >= 2 then input[2..] else input
  }

  /** The stream at its start. */
  function Start(input: seq<byte>, header: bool): BitState {
    var body := Body(input, header);
    BitState(LE(body), 0, |body|, false)
  }

  /** The bytes that inflating `input` yields, starting with capacity `cap`. */
  ghost function Inflate(input: seq<byte>, cap: nat, expandable: bool, header: bool): Option<seq<byte>>
    requires cap <= UINT_MAX && (expandable ==> cap > 0)
  {
    if header && !HeaderOk(input) then None
    else
      var (_, o) :- Blocks(Start(input, header), Output([], cap, expandable));
      Some(o.bytes)
  }
}
