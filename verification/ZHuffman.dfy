/** The inflater's two-level Huffman table: a 512-entry table indexed by the next
    nine stream bits, and per-length bounds for the codes that are longer. */
module ZHuffman {
  import opened Bits
  import opened CanonicalCode

  const FAST_BITS := 9
  const FAST_SIZE := 512
  const NSYMS := 288

  // The decoder's fixed-size tables.
  type Seq16 = s: seq<nat> | |s| == 16 witness seq(16, _ => 0)
  type Seq17 = s: seq<nat> | |s| == 17 witness seq(17, _ => 0)
  type SymbolSeq = s: seq<nat> | |s| == NSYMS witness seq(NSYMS, _ => 0)
  type FastSeq = s: seq<nat> | |s| == FAST_SIZE witness seq(FAST_SIZE, _ => 0)

  function AsUint16(v: nat): nat {
    v % 0x10000
  }

  // ------------------------------------------------------------ bit reversal

  /** Exchange the two `g`-bit halves of each of `blocks` consecutive `2g`-bit
      fields: one masked-shift line of the 16-bit reversal. */
  function SwapFields(n: nat, g: nat, blocks: nat): nat
    decreases blocks
  {
    if blocks == 0 then 0
    else Shr(Low(n, 2 * g), g) + Pow2(g) * Low(n, g)
         + Pow2(2 * g) * SwapFields(Shr(n, 2 * g), g, blocks - 1)
  }

  function BitReverse16(n: nat): nat {
    SwapFields(SwapFields(SwapFields(SwapFields(n, 1, 8), 2, 4), 4, 2), 8, 1)
  }

  function BitReverse(v: nat, bits: nat): nat
    requires bits <= 16
  {
    Shr(BitReverse16(v), 16 - bits)
  }

  /** Each of `blocks` consecutive `g`-bit fields reversed in place. */
  function FieldRev(n: nat, g: nat, blocks: nat): nat
    decreases blocks
  {
    if blocks == 0 then 0 else Rev(n, g) + Pow2(g) * FieldRev(Shr(n, g), g, blocks - 1)
  }

  lemma TwoFields(a: nat, b: nat, rest: nat, g: nat) returns (v: nat)
    requires a < Pow2(g) && b < Pow2(g)
    ensures v == a + Pow2(g) * (b + Pow2(g) * rest)
    ensures Low(v, g) == a && Shr(Low(v, 2 * g), g) == b && Shr(v, 2 * g) == rest
  {
    var mid := b + Pow2(g) * rest;
    v := a + Pow2(g) * mid;
    LowShrUnique(v, g, mid, a);
    LowShrUnique(mid, g, rest, b);
    ShrAdd(v, g, g);
    LowAdd(v, g, g);
    LowShrUnique(Low(v, 2 * g), g, b, a);
  }

  /** Swapping the halves of fields whose halves are reversed reverses the fields. */
  lemma {:induction false} SwapFieldRev(n: nat, g: nat, blocks: nat)
    ensures SwapFields(FieldRev(n, g, 2 * blocks), g, blocks) == FieldRev(n, 2 * g, blocks)
    decreases blocks
  {
    if blocks > 0 {
      var rest := FieldRev(Shr(Shr(n, g), g), g, 2 * blocks - 2);
      var v := TwoFields(Rev(n, g), Rev(Shr(n, g), g), rest, g);
      assert FieldRev(Shr(n, g), g, 2 * blocks - 1) == Rev(Shr(n, g), g) + Pow2(g) * rest;
      assert v == FieldRev(n, g, 2 * blocks);
      RevSplit(n, g, g);
      ShrAdd(n, g, g);
      SwapFieldRev(Shr(n, 2 * g), g, blocks - 1);
    }
  }

  lemma {:induction false} FieldRevOne(n: nat, blocks: nat)
    ensures FieldRev(n, 1, blocks) == Low(n, blocks)
  {
    if blocks > 0 {
      assert Pow2(0) == 1 && Rev(n / 2, 0) == 0 && Rev(n, 1) == n % 2;
      assert Pow2(1) == 2 && Shr(n, 1) == Shr(n / 2, 0) == n / 2;
      FieldRevOne(n / 2, blocks - 1);
    }
  }

  lemma {:induction false} SwapFieldsLow(n: nat, g: nat, blocks: nat)
    ensures SwapFields(n, g, blocks) == SwapFields(Low(n, 2 * g * blocks), g, blocks)
    decreases blocks
  {
    if blocks > 0 {
      var m := 2 * g * (blocks - 1);
      assert 2 * g * blocks == 2 * g + m;
      LowLow(n, 2 * g, 2 * g + m);
      LowLow(n, g, 2 * g + m);
      ShrOfLow(n, 2 * g, m);
      SwapFieldsLow(Shr(n, 2 * g), g, blocks - 1);
    }
  }

  /** The four swap stages reverse the low 16 bits. */
  lemma BitReverse16IsRev(n: nat)
    ensures BitReverse16(n) == Rev(n, 16)
  {
    SwapFieldsLow(n, 1, 8);
    FieldRevOne(n, 16);
    SwapFieldRev(n, 1, 8);
    SwapFieldRev(n, 2, 4);
    SwapFieldRev(n, 4, 2);
    SwapFieldRev(n, 8, 1);
    assert FieldRev(n, 16, 1) == Rev(n, 16) + Pow2(16) * FieldRev(Shr(n, 16), 16, 0);
  }

  /** `BitReverse(v, bits)` reverses the low `bits` bits of `v`. */
  lemma BitReverseIsRev(v: nat, bits: nat)
    requires bits <= 16
    ensures BitReverse(v, bits) == Rev(v, bits)
  {
    BitReverse16IsRev(v);
    RevPrefix(v, bits, 16 - bits);
  }

  // ------------------------------------------------- positions in code order

  /** How many symbols have a length in 1..s-1. */
  function FirstSymbol(lens: Lengths, s: nat): nat {
    if s <= 1 then 0 else FirstSymbol(lens, s - 1) + Total(lens, s - 1)
  }

  /** The place of symbol `i` when symbols are sorted by code. */
  function Position(lens: Lengths, i: nat): nat
    requires i < |lens|
  {
    FirstSymbol(lens, lens[i]) + CountBelow(lens, lens[i], i)
  }

  lemma {:induction false} FirstSymbolMonotone(lens: Lengths, s: nat, t: nat)
    requires 1 <= s < t
    ensures FirstSymbol(lens, s) + Total(lens, s) <= FirstSymbol(lens, t)
  {
    if s < t - 1 {
      FirstSymbolMonotone(lens, s, t - 1);
    }
  }

  /** How many of the first `n` symbols have a length in 1..s-1. */
  function UsedBelow(lens: Lengths, s: nat, n: nat): (c: nat)
    requires n <= |lens|
    ensures c <= n
  {
    if n == 0 then 0 else UsedBelow(lens, s, n - 1) + if 0 < lens[n - 1] < s then 1 else 0
  }

  lemma {:induction false} UsedBelowStep(lens: Lengths, s: nat, n: nat)
    requires 1 <= s && n <= |lens|
    ensures UsedBelow(lens, s + 1, n) == UsedBelow(lens, s, n) + CountBelow(lens, s, n)
    ensures UsedBelow(lens, 1, n) == 0
  {
    if n > 0 {
      UsedBelowStep(lens, s, n - 1);
    }
  }

  lemma {:induction false} FirstSymbolIsUsedBelow(lens: Lengths, s: nat)
    requires 1 <= s
    ensures FirstSymbol(lens, s) == UsedBelow(lens, s, |lens|)
  {
    UsedBelowStep(lens, 1, |lens|);
    if s > 1 {
      FirstSymbolIsUsedBelow(lens, s - 1);
      UsedBelowStep(lens, s - 1, |lens|);
    }
  }

  lemma PositionInRange(lens: Lengths, i: nat)
    requires i < |lens| && lens[i] > 0
    ensures Position(lens, i) < |lens|
  {
    CountMonotone(lens, lens[i], i, |lens|);
    FirstSymbolIsUsedBelow(lens, lens[i] + 1);
  }

  /** Different symbols have different places. */
  lemma PositionInjective(lens: Lengths, i: nat, j: nat)
    requires i < j < |lens| && lens[i] > 0 && lens[j] > 0
    ensures Position(lens, i) != Position(lens, j)
  {
    var s, t := lens[i], lens[j];
    CountMonotone(lens, s, i, |lens|);
    CountMonotone(lens, t, j, |lens|);
    if s == t {
      CountMonotone(lens, s, i, j);
    } else if s < t {
      FirstSymbolMonotone(lens, s, t);
    } else {
      FirstSymbolMonotone(lens, t, s);
    }
  }

  // -------------------------------------------------------- the fast table

  function FastValue(lens: Lengths, i: nat): nat
    requires i < |lens|
  {
    lens[i] * 512 + i
  }

  /** `v & STBI__ZFAST_MASK`. */
  function FastIndex(v: nat): (i: nat)
    ensures i < FAST_SIZE && i == Low(v, FAST_BITS)
  {
    LowShr(v, 9);
    assert Pow2(9) == 512;
    Low(v, 9)
  }

  /** `(s << 9) | i` as a 16-bit table entry. */
  function PackFast(s: nat, i: nat): (e: nat)
    requires s <= MAX_LENGTH && i < 512
    ensures e == s * 512 + i
  {
    OrAbove(i, s, 9);
    ShlByte(s);
    assert Pow2(9) == 512;
    AsUint16(BitOr(i, Shl(s, 9)))
  }

  predicate FastMatches(lens: Lengths, i: nat, w: nat) {
    Matches(lens, i, w) && lens[i] <= FAST_BITS
  }

  /** Entry `e` for the nine bits `w`, once the first `n` symbols are entered. */
  ghost predicate FastCorrect(lens: Lengths, n: nat, w: nat, e: nat)
    requires n <= |lens|
  {
    && (forall i: nat :: i < n && FastMatches(lens, i, w) ==> e == FastValue(lens, i))
    && (e != 0 ==> exists i: nat :: i < n && FastMatches(lens, i, w) && e == FastValue(lens, i))
  }

  lemma FastMatchesLow(lens: Lengths, i: nat, v: nat)
    ensures FastMatches(lens, i, Low(v, FAST_BITS)) <==> FastMatches(lens, i, v)
  {
    if i < |lens| && lens[i] <= FAST_BITS {
      LowLow(v, lens[i], FAST_BITS);
      RevLow(v, lens[i]);
      RevLow(Low(v, FAST_BITS), lens[i]);
    }
  }

  /** What a fast lookup says about the stream `v`: a hit gives the matching symbol
      and its length, a miss means that no code of at most nine bits matches; and
      a hit happens exactly when the reversed window is below `maxcode[9]`. */
  lemma FastLookup(lens: Lengths, v: nat, e: nat)
    requires ValidLengths(lens) && |lens| <= NSYMS
    requires FastCorrect(lens, |lens|, Low(v, FAST_BITS), e)
    ensures e != 0 ==> Matches(lens, Low(e, 9), v) && lens[Low(e, 9)] == Shr(e, 9)
    ensures e == 0 ==> forall i: nat :: i < |lens| && Matches(lens, i, v) ==> lens[i] > FAST_BITS
    ensures e != 0 <==> Rev(v, 16) < MaxCode(lens, FAST_BITS)
  {
    if e != 0 {
      var i: nat :| i < |lens| && FastMatches(lens, i, Low(v, FAST_BITS)) && e == FastValue(lens, i);
      FastMatchesLow(lens, i, v);
      assert Pow2(9) == 512;
      LowShrUnique(e, 9, lens[i], i);
      MatchWindow(lens, i, v);
      MaxCodeMonotone(lens, lens[i], FAST_BITS);
    } else {
      forall i: nat | i < |lens| && Matches(lens, i, v) ensures lens[i] > FAST_BITS {
        FastMatchesLow(lens, i, v);
      }
      if Rev(v, 16) < MaxCode(lens, FAST_BITS) {
        var s := LeastBound(lens, Rev(v, 16), FAST_BITS);
        var i := WindowMatch(lens, s, v);
        assert false;
      }
    }
  }

  /** The least length whose bound lies above `k`. */
  lemma {:induction false} LeastBound(lens: Lengths, k: nat, t: nat) returns (s: nat)
    requires t <= 16 && k < MaxCode(lens, t)
    ensures 1 <= s <= t && MaxCode(lens, s - 1) <= k < MaxCode(lens, s)
  {
    ShlZero(16);
    if k < MaxCode(lens, t - 1) {
      s := LeastBound(lens, k, t - 1);
    } else {
      s := t;
    }
  }

  /** Entry `w` is filled for symbol `i` exactly at stride 2^length from the
      reversed code. */
  lemma StrideMatches(lens: Lengths, i: nat, w: nat)
    requires i < |lens| && lens[i] > 0 && Code(lens, i) < Pow2(lens[i])
    ensures Matches(lens, i, w) <==> Low(w, lens[i]) == Rev(Code(lens, i), lens[i])
  {
    var s, c := lens[i], Code(lens, i);
    RevInvolutive(c, s);
    LowOfSmall(c, s);
    RevInjective(w, Rev(c, s), s);
    RevInvolutive(Rev(c, s), s);
    RevLow(Rev(c, s), s);
    LowOfSmall(Rev(c, s), s);
  }

  /** The per-length bounds for lengths below `n`. */
  ghost predicate BoundsIn(lens: Lengths, n: nat, firstcode: Seq16, firstsymbol: Seq16, maxcode: Seq17)
    requires n <= 16
  {
    forall s :: 1 <= s < n ==>
      firstcode[s] == FirstCode(lens, s) && firstsymbol[s] == FirstSymbol(lens, s)
      && maxcode[s] == MaxCode(lens, s)
  }

  lemma BoundsExtend(lens: Lengths, i: nat, firstcode: Seq16, firstsymbol: Seq16, maxcode: Seq17)
    requires 1 <= i < 16 && |lens| <= NSYMS && FitsBelow(lens, i)
    requires BoundsIn(lens, i, firstcode, firstsymbol, maxcode)
    ensures BoundsIn(lens, i + 1, firstcode[i := AsUint16(FirstCode(lens, i))],
                     firstsymbol[i := AsUint16(FirstSymbol(lens, i))], maxcode[i := MaxCode(lens, i)])
  {
    hide FirstCode, FirstSymbol, MaxCode, FitsBelow;
    FirstCodeSmall(lens, i);
    FirstSymbolIsUsedBelow(lens, i);
  }

  /** The symbols below `n` are in their places in code order. */
  ghost predicate SymbolsIn(lens: Lengths, n: nat, size: SymbolSeq, value: SymbolSeq)
    requires n <= |lens| <= NSYMS
  {
    forall i :: 0 <= i < n && lens[i] > 0 ==>
      Position(lens, i) < NSYMS && size[Position(lens, i)] == lens[i] && value[Position(lens, i)] == i
  }

  ghost predicate FastIn(lens: Lengths, n: nat, fast: FastSeq)
    requires n <= |lens|
  {
    forall w :: 0 <= w < FAST_SIZE ==> FastCorrect(lens, n, w, fast[w])
  }

  lemma SymbolPlaced(lens: Lengths, i: nat, size: SymbolSeq, value: SymbolSeq)
    requires i < |lens| <= NSYMS && lens[i] > 0
    requires SymbolsIn(lens, i, size, value)
    ensures Position(lens, i) < NSYMS
    ensures SymbolsIn(lens, i + 1, size[Position(lens, i) := lens[i]], value[Position(lens, i) := i])
  {
    PositionInRange(lens, i);
    forall j | 0 <= j < i && lens[j] > 0 ensures Position(lens, j) != Position(lens, i) {
      PositionInjective(lens, j, i);
    }
  }

  lemma FastSkips(lens: Lengths, i: nat, fast: FastSeq)
    requires i < |lens| && FastIn(lens, i, fast)
    requires lens[i] == 0 || lens[i] > FAST_BITS
    ensures FastIn(lens, i + 1, fast)
  {
    forall w | 0 <= w < FAST_SIZE ensures FastCorrect(lens, i + 1, w, fast[w]) {
      assert FastCorrect(lens, i, w, fast[w]);
      assert !FastMatches(lens, i, w);
    }
  }

  /** The entries at stride 2^length of symbol `i` were all empty before. */
  lemma FillsDisjoint(lens: Lengths, i: nat, w: nat, e: nat)
    requires i < |lens| && FastMatches(lens, i, w) && FastCorrect(lens, i, w, e)
    ensures e == 0
  {
    if e != 0 {
      var j: nat :| j < i && FastMatches(lens, j, w) && e == FastValue(lens, j);
      PrefixFree(lens, i, j, w);
    }
  }

  lemma FastFilled(lens: Lengths, i: nat, fast: FastSeq, fast': FastSeq)
    requires i < |lens| && 0 < lens[i] <= FAST_BITS
    requires FastIn(lens, i, fast)
    requires forall w :: 0 <= w < FAST_SIZE ==>
      fast'[w] == if Matches(lens, i, w) then FastValue(lens, i) else fast[w]
    ensures FastIn(lens, i + 1, fast')
  {
    forall w | 0 <= w < FAST_SIZE ensures FastCorrect(lens, i + 1, w, fast'[w]) {
      assert FastCorrect(lens, i, w, fast[w]);
      if Matches(lens, i, w) {
        forall j: nat | j < i && FastMatches(lens, j, w) ensures false {
          PrefixFree(lens, i, j, w);
        }
        assert FastMatches(lens, i, w);
      }
    }
  }

  /** Between two neighbouring stride positions the low bits differ. */
  lemma StrideGap(w: nat, j: nat, s: nat)
    requires j < w < j + Pow2(s)
    ensures Low(w, s) != Low(j, s)
  {
    LowShr(w, s);
    LowShr(j, s);
    GapArithmetic(Pow2(s), Shr(w, s), Shr(j, s));
  }

  lemma GapArithmetic(p: nat, a: nat, b: nat)
    ensures a <= b ==> p * a <= p * b
    ensures a > b ==> p * a >= p * b + p
  {
    if a > b {
      MulSign(p, a - b);
      assert p * (a - b) == p * a - p * b;
    } else {
      assert p * (b - a) == p * b - p * a;
    }
  }

  lemma StrideStep(j: nat, s: nat)
    ensures Low(j + Pow2(s), s) == Low(j, s)
  {
    LowShr(j, s);
    LowShrUnique(j + Pow2(s), s, Shr(j, s) + 1, Low(j, s));
  }

  lemma BelowStride(w: nat, r: nat, s: nat)
    requires w < r < Pow2(s)
    ensures Low(w, s) != r
  {
    LowOfSmall(w, s);
  }

  method CountSizes(sizelist: Lengths) returns (sizes: Seq17)
    requires ValidLengths(sizelist)
    ensures sizes[0] == 0
    ensures forall s :: 1 <= s <= 16 ==> sizes[s] == Total(sizelist, s)
  {
    sizes := seq(17, _ => 0);
    var i := 0;
    while i < |sizelist|
      invariant 0 <= i <= |sizelist| 
      invariant forall s :: 0 <= s <= 16 ==> sizes[s] == CountBelow(sizelist, s, i)
    {
      sizes := sizes[sizelist[i] := sizes[sizelist[i]] + 1];
      i := i + 1;
    }
    sizes := sizes[0 := 0];
  }

  method SizesFit(sizes: Seq17) returns (ok: bool)
    ensures ok <==> forall s :: 1 <= s < 16 ==> sizes[s] <= Pow2(s)
  {
    var i := 1;
    while i < 16
      invariant 1 <= i <= 16
      invariant forall s :: 1 <= s < i ==> sizes[s] <= Pow2(s)
    {
      if sizes[i] > Pow2(i) {
        return false;
      }
      i := i + 1;
    }
    ok := true;
  }

  /** `nextCode` holds, for each length, the code of its next symbol from `n` on. */
  ghost predicate NextCodes(lens: Lengths, n: nat, nextCode: Seq16)
    requires n <= |lens|
  {
    forall s :: 1 <= s < 16 ==> nextCode[s] == FirstCode(lens, s) + CountBelow(lens, s, n)
  }

  lemma NextCodeStep(lens: Lengths, i: nat, nextCode: Seq16)
    requires i < |lens| && ValidLengths(lens) && NextCodes(lens, i, nextCode)
    ensures lens[i] == 0 ==> NextCodes(lens, i + 1, nextCode)
    ensures lens[i] != 0 ==> nextCode[lens[i]] == Code(lens, i)
    ensures lens[i] != 0 ==> NextCodes(lens, i + 1, nextCode[lens[i] := nextCode[lens[i]] + 1])
  {
  }

  lemma OverFull(lens: Lengths, s: nat)
    requires 1 <= s <= MAX_LENGTH && EndCode(lens, s) > Pow2(s)
    ensures !KraftOk(lens)
  {
    KraftPerLength(lens);
  }

  lemma FastEmpty(lens: Lengths, fast: FastSeq)
    requires fast == seq(FAST_SIZE, _ => 0)
    ensures FastIn(lens, 0, fast)
  {
  }

  lemma CodeFits(lens: Lengths, i: nat)
    requires i < |lens| && lens[i] > 0 && ValidLengths(lens) && KraftOk(lens)
    ensures Code(lens, i) < Pow2(lens[i])
  {
    KraftPerLength(lens);
    CodeInRange(lens, i);
  }

  lemma AllFit(lens: Lengths)
    requires FitsBelow(lens, 16)
    ensures KraftOk(lens)
  {
    KraftPerLength(lens);
  }

  lemma OverFullSize(lens: Lengths, sizes: Seq17)
    requires exists s :: 1 <= s < 16 && sizes[s] > Pow2(s)
    requires forall s :: 1 <= s <= 16 ==> sizes[s] == Total(lens, s)
    ensures !KraftOk(lens)
  {
    var s :| 1 <= s < 16 && sizes[s] > Pow2(s);
    OverFull(lens, s);
  }

  lemma NothingLaid(lens: Lengths, firstcode: Seq16, firstsymbol: Seq16, maxcode: Seq17)
    ensures FirstCode(lens, 1) == 0 && FirstSymbol(lens, 1) == 0 && FitsBelow(lens, 1)
    ensures BoundsIn(lens, 1, firstcode, firstsymbol, maxcode)
  {
  }

  lemma NextFits(lens: Lengths, i: nat)
    requires 1 <= i && FitsBelow(lens, i) && EndCode(lens, i) <= Pow2(i)
    ensures FitsBelow(lens, i + 1) && FirstSymbol(lens, i + 1) == FirstSymbol(lens, i) + Total(lens, i)
  {
  }

  lemma NextFromFirst(lens: Lengths, nextCode: Seq16)
    requires forall s :: 1 <= s < 16 ==> nextCode[s] == FirstCode(lens, s)
    ensures NextCodes(lens, 0, nextCode)
  {
  }

  lemma FirstCodeSmall(lens: Lengths, s: nat)
    requires 1 <= s <= 15 && FitsBelow(lens, s)
    ensures FirstCode(lens, s) <= Pow2(s) <= 0x8000
  {
    Pow2Monotone(s, 15);
    assert Pow2(15) == 0x8000;
    if s > 1 {
      assert FirstCode(lens, s) == 2 * EndCode(lens, s - 1);
    }
  }

  class Table {
    var fast: FastSeq
    var firstcode: Seq16
    var maxcode: Seq17
    var firstsymbol: Seq16
    var size: SymbolSeq
    var value: SymbolSeq

    /** The table decodes the canonical code of `lens`. */
    ghost predicate Represents(lens: Lengths)
      reads this
    {
      && ValidLengths(lens) && |lens| <= NSYMS && KraftOk(lens)
      && BoundsIn(lens, 16, firstcode, firstsymbol, maxcode) && maxcode[16] == 0x10000
      && SymbolsIn(lens, |lens|, size, value) && FastIn(lens, |lens|, fast)
    }

    constructor () {
      fast := seq(FAST_SIZE, _ => 0);
      firstcode := seq(16, _ => 0);
      maxcode := seq(17, _ => 0);
      firstsymbol := seq(16, _ => 0);
      size := seq(NSYMS, _ => 0);
      value := seq(NSYMS, _ => 0);
    }

    /** Enters symbol `i` at every index whose low bits are its reversed code. */
    method FillFast(lens: Lengths, i: nat, code: nat, fastv: nat)
      requires i < |lens| && 0 < lens[i] <= FAST_BITS
      requires code == Code(lens, i) < Pow2(lens[i]) && fastv == FastValue(lens, i)
      requires FastIn(lens, i, fast)
      modifies this`fast
      ensures FastIn(lens, i + 1, fast)
    {
      var s := lens[i];
      var j := BitReverse(code, s);
      BitReverseIsRev(code, s);
      ghost var r, was := j, fast;
      LowOfSmall(r, s);
      forall w | 0 <= w < r ensures Low(w, s) != r {
        BelowStride(w, r, s);
      }
      while j < FAST_SIZE
        invariant Low(j, s) == r
        invariant forall w :: 0 <= w < FAST_SIZE ==>
          fast[w] == if w < j && Low(w, s) == r then fastv else was[w]
        decreases FAST_SIZE - j
      {
        StrideMatches(lens, i, j);
        FillsDisjoint(lens, i, j, was[j]);
        assert fast[j] == 0;
        fast := fast[j := fastv];
        StrideStep(j, s);
        forall w | j < w < j + Pow2(s) ensures Low(w, s) != r {
          StrideGap(w, j, s);
        }
        j := j + Pow2(s);
      }
      forall w | 0 <= w < FAST_SIZE ensures Matches(lens, i, w) <==> Low(w, s) == r {
        StrideMatches(lens, i, w);
      }
      FastFilled(lens, i, was, fast);
    }

    /** Records the bounds of length `i` and moves on to the first code of length `i + 1`. */
    method EnterLength(lens: Lengths, i: nat, code: nat, k: nat, size: nat) returns (ok: bool, code': nat)
      requires 1 <= i < 16 && |lens| <= NSYMS && BoundsIn(lens, i, firstcode, firstsymbol, maxcode) && FitsBelow(lens, i)
      requires code == FirstCode(lens, i) && k == FirstSymbol(lens, i) && size == Total(lens, i)
      modifies this
      ensures fast == old(fast)
      ensures ok <==> EndCode(lens, i) <= Pow2(i)
      ensures ok ==> BoundsIn(lens, i + 1, firstcode, firstsymbol, maxcode) && code' == FirstCode(lens, i + 1)
    {
      BoundsExtend(lens, i, firstcode, firstsymbol, maxcode);
      code' := code + size;
      assert code' == EndCode(lens, i);
      FirstCodeSmall(lens, i);
      firstcode := firstcode[i := AsUint16(code)];
      firstsymbol := firstsymbol[i := AsUint16(k)];
      if size != 0 {
        if code' - 1 >= Pow2(i) {
          return false, code';
        }
      }
      maxcode := maxcode[i := Shl(code', 16 - i)];
      code' := code' * 2;
      ok := true;
    }

    /** Lays out the codes length by length, stopping at the first over-full one. */
    method LayOut(lens: Lengths, sizes: Seq17) returns (ok: bool, nextCode: Seq16)
      requires ValidLengths(lens) && |lens| <= NSYMS
      requires forall s :: 1 <= s <= 16 ==> sizes[s] == Total(lens, s)
      modifies this
      ensures fast == old(fast) && (ok <==> KraftOk(lens))
      ensures ok ==> BoundsIn(lens, 16, firstcode, firstsymbol, maxcode) && maxcode[16] == 0x10000
      ensures ok ==> NextCodes(lens, 0, nextCode)
    {
      hide FirstCode, EndCode, CountBelow, Pow2, FitsBelow, FirstSymbol;
      nextCode := seq(16, _ => 0);
      NothingLaid(lens, firstcode, firstsymbol, maxcode);
      var code, k, i := 0, 0, 1;
      while i < 16
        invariant 1 <= i <= 16 && fast == old(fast)
        invariant code == FirstCode(lens, i) && k == FirstSymbol(lens, i)
        invariant FitsBelow(lens, i) && BoundsIn(lens, i, firstcode, firstsymbol, maxcode)
        invariant forall s :: 1 <= s < i ==> nextCode[s] == FirstCode(lens, s)
      {
        nextCode := nextCode[i := code];
        ok, code := EnterLength(lens, i, code, k, sizes[i]);
        if !ok {
          OverFull(lens, i);
          return;
        }
        NextFits(lens, i);
        k := k + sizes[i];
        i := i + 1;
      }
      maxcode := maxcode[16 := 0x10000];
      AllFit(lens);
      NextFromFirst(lens, nextCode);
      ok := true;
    }

    method BuildBounds(sizelist: Lengths) returns (ok: bool, nextCode: Seq16)
      requires ValidLengths(sizelist) && |sizelist| <= NSYMS
      modifies this
      ensures fast == old(fast) && (ok <==> KraftOk(sizelist))
      ensures ok ==> BoundsIn(sizelist, 16, firstcode, firstsymbol, maxcode) && maxcode[16] == 0x10000
      ensures ok ==> NextCodes(sizelist, 0, nextCode)
    {
      var sizes := CountSizes(sizelist);
      ok := SizesFit(sizes);
      if ok {
        ok, nextCode := LayOut(sizelist, sizes);
      } else {
        OverFullSize(sizelist, sizes);
        nextCode := seq(16, _ => 0);
      }
    }

    /** Puts symbol `i` in its place in code order and in the fast table. */
    method EnterSymbol(lens: Lengths, i: nat, code: nat)
      requires ValidLengths(lens) && i < |lens| <= NSYMS && lens[i] > 0
      requires BoundsIn(lens, 16, firstcode, firstsymbol, maxcode) && code == Code(lens, i) < Pow2(lens[i])
      requires SymbolsIn(lens, i, size, value) && FastIn(lens, i, fast)
      modifies this`size, this`value, this`fast
      ensures SymbolsIn(lens, i + 1, size, value) && FastIn(lens, i + 1, fast)
    {
      var s := lens[i];
      var c := code - firstcode[s] + firstsymbol[s];
      var fastv := PackFast(s, i);
      SymbolPlaced(lens, i, size, value);
      size, value := size[c := s], value[c := i];
      if s <= FAST_BITS {
        FillFast(lens, i, code, fastv);
      } else {
        FastSkips(lens, i, fast);
      }
    }

    /** Builds the table, refusing exactly the over-subscribed lists. */
    method Build(sizelist: Lengths) returns (ok: bool)
      requires ValidLengths(sizelist) && |sizelist| <= NSYMS
      modifies this
      ensures ok <==> KraftOk(sizelist)
      ensures ok ==> Represents(sizelist)
    {
      hide KraftOk, FirstCode, Code, CountBelow, Pow2, FastCorrect, BoundsIn;
      fast := seq(FAST_SIZE, _ => 0);
      FastEmpty(sizelist, fast);
      var nextCode: Seq16;
      ok, nextCode := BuildBounds(sizelist);
      if !ok {
        return;
      }
      var i := 0;
      while i < |sizelist|
        invariant 0 <= i <= |sizelist|
        invariant BoundsIn(sizelist, 16, firstcode, firstsymbol, maxcode) && maxcode[16] == 0x10000
        invariant NextCodes(sizelist, i, nextCode)
        invariant SymbolsIn(sizelist, i, size, value) && FastIn(sizelist, i, fast)
      {
        var s := sizelist[i];
        NextCodeStep(sizelist, i, nextCode);
        if s != 0 {
          CodeFits(sizelist, i);
          EnterSymbol(sizelist, i, nextCode[s]);
          nextCode := nextCode[s := nextCode[s] + 1];
        } else {
          FastSkips(sizelist, i, fast);
        }
        i := i + 1;
      }
    }
  }
}
