/** The fixed Huffman code of section 3.2.6 of RFC 1951, worked out from its lengths. */
module FixedCode {
  import opened Bits
  import opened CanonicalCode
  import opened InflateSpec

  function Min(a: nat, b: nat): nat {
    if a < b then a else b
  }

  /** How many of the first `n` fixed lengths equal `s`. */
  function FixedCount(s: nat, n: nat): nat {
    if s == 7 then Min(Less(n, 256), 24)
    else if s == 8 then Min(n, 144) + Less(n, 280)
    else if s == 9 then Min(Less(n, 144), 112)
    else 0
  }

  lemma {:induction false} FixedCountBelow(s: nat, n: nat)
    requires n <= 288
    ensures CountBelow(FixedLengths(), s, n) == FixedCount(s, n)
  {
    if n > 0 {
      FixedCountBelow(s, n - 1);
      assert FixedLengths()[n - 1] == FixedLength(n - 1);
    }
  }

  /** The four ranges of the fixed literal/length code. */
  lemma FixedFirstCodes()
    ensures forall s :: 0 <= s <= 7 ==> FirstCode(FixedLengths(), s) == 0
    ensures FirstCode(FixedLengths(), 8) == 0x30 && FirstCode(FixedLengths(), 9) == 0x190
    ensures EndCode(FixedLengths(), 9) == 0x200
  {
    var lens := FixedLengths();
    forall s | 0 <= s <= 7 ensures FirstCode(lens, s) == 0 {
      NoShortCodes(s);
    }
    FixedCountBelow(7, 288);
    FixedCountBelow(8, 288);
    FixedCountBelow(9, 288);
    assert EndCode(lens, 7) == 24;
    assert EndCode(lens, 8) == 0x30 + 152;
  }

  lemma {:induction false} NoShortCodes(s: nat)
    requires s <= 7
    ensures FirstCode(FixedLengths(), s) == 0
  {
    if s > 1 {
      NoShortCodes(s - 1);
      FixedCountBelow(s - 1, 288);
    }
  }

  lemma FixedCodeOf(n: nat)
    requires n < 288
    ensures Code(FixedLengths(), n) ==
      if n <= 143 then 0x30 + n else if n <= 255 then 0x190 + n - 144
      else if n <= 279 then n - 256 else 0xC0 + n - 280
  {
    FixedFirstCodes();
    FixedCountBelow(FixedLength(n), n);
  }

  lemma {:induction false} DistanceCount(s: nat, n: nat)
    requires n <= 32
    ensures CountBelow(FixedDistances(), s, n) == if s == 5 then n else 0
  {
    if n > 0 {
      DistanceCount(s, n - 1);
    }
  }

  lemma {:induction false} NoShortDistances(s: nat)
    requires s <= 5
    ensures FirstCode(FixedDistances(), s) == 0
  {
    if s > 1 {
      NoShortDistances(s - 1);
      DistanceCount(s - 1, 32);
    }
  }

  lemma DistanceCodeOf(n: nat)
    requires n < 32
    ensures Code(FixedDistances(), n) == n
  {
    NoShortDistances(5);
    DistanceCount(5, n);
  }

  /** Both fixed codes use every code word: their Kraft sums are exactly 1. */
  lemma FixedIsComplete()
    ensures KraftBelow(FixedLengths(), 288, MAX_LENGTH) == KraftBelow(FixedDistances(), 32, MAX_LENGTH) == Pow2(MAX_LENGTH)
    ensures KraftOk(FixedLengths()) && KraftOk(FixedDistances()) && ValidLengths(FixedDistances())
  {
    FixedFirstCodes();
    FullCode(FixedLengths(), 9);
    NoShortDistances(5);
    DistanceCount(5, 32);
    assert Pow2(9) == 0x200 && Pow2(5) == 0x20;
    FullCode(FixedDistances(), 5);
  }

  lemma FullCode(lens: Lengths, s: nat)
    requires (lens == FixedLengths() && s == 9) || (lens == FixedDistances() && s == 5)
    requires EndCode(lens, s) == Pow2(s)
    ensures KraftBelow(lens, |lens|, MAX_LENGTH) == Pow2(MAX_LENGTH)
  {
    hide EndCode, FirstCode, CountBelow, KraftBelow, Pow2, Shl;
    GrowFrom(lens, s, MAX_LENGTH);
    KraftIsEndCode(lens, MAX_LENGTH);
    ShlPow2(s, MAX_LENGTH - s);
  }

  /** Past the longest length the code space only doubles. */
  lemma {:induction false} GrowFrom(lens: Lengths, s: nat, t: nat)
    requires 1 <= s <= t && ((lens == FixedLengths() && s >= 9) || (lens == FixedDistances() && s >= 5))
    ensures EndCode(lens, t) == Shl(EndCode(lens, s), t - s)
  {
    if s < t {
      GrowFrom(lens, s, t - 1);
      if lens == FixedLengths() {
        FixedCountBelow(t, 288);
      } else {
        DistanceCount(t, 32);
      }
    }
  }
}
