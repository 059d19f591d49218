/** The canonical Huffman code of section 3.2.2 of RFC 1951, defined from the
    list of code lengths alone. This is the reference the decoder's tables are
    measured against. */
module CanonicalCode {
  import opened Bits

  const MAX_LENGTH := 15

  /** One code length per symbol; 0 means the symbol is not used. */
  type Lengths = seq<nat>

  function Repeat(v: nat, n: nat): (s: Lengths)
    ensures |s| == n && forall i :: 0 <= i < n ==> s[i] == v
  {
    seq(n, _ => v)
  }

  predicate ValidLengths(lens: Lengths) {
    forall i :: 0 <= i < |lens| ==> lens[i] <= MAX_LENGTH
  }

  /** How many of the first `n` symbols have length `s`. */
  function CountBelow(lens: Lengths, s: nat, n: nat): (c: nat)
    requires n <= |lens|
    ensures c <= n
  {
    if n == 0 then 0 else CountBelow(lens, s, n - 1) + if lens[n - 1] == s then 1 else 0
  }

  function Total(lens: Lengths, s: nat): nat {
    CountBelow(lens, s, |lens|)
  }

  /** The numerically smallest code of length `s`. */
  function FirstCode(lens: Lengths, s: nat): nat
    decreases s, 0
  {
    if s <= 1 then 0 else 2 * EndCode(lens, s - 1)
  }

  /** One past the largest code of length `s`. */
  function EndCode(lens: Lengths, s: nat): nat
    decreases s, 1
  {
    if s == 0 then 0 else FirstCode(lens, s) + Total(lens, s)
  }

  function Code(lens: Lengths, i: nat): nat
    requires i < |lens|
  {
    FirstCode(lens, lens[i]) + CountBelow(lens, lens[i], i)
  }

  /** The bits at the front of `v`, first bit most significant, spell the code of `i`. */
  predicate Matches(lens: Lengths, i: nat, v: nat) {
    i < |lens| && lens[i] > 0 && Rev(v, lens[i]) == Code(lens, i)
  }

  /** The symbol whose code is a prefix of `v`, or -1. */
  ghost function Symbol(lens: Lengths, v: nat): (r: int)
    ensures r < 0 ==> r == -1 && forall i: nat :: !Matches(lens, i, v)
    ensures r >= 0 ==> Matches(lens, r, v)
  {
    if i: nat :| Matches(lens, i, v) then i else -1
  }

  /** No length below `n` has more codes than it has room for. */
  ghost predicate FitsBelow(lens: Lengths, n: nat) {
    forall s :: 1 <= s < n ==> EndCode(lens, s) <= Pow2(s)
  }

  // ------------------------------------------------------------- Kraft's sum

  /** The sum of 2^(s - length) over the first `n` symbols of lengths 1..s. */
  function KraftBelow(lens: Lengths, n: nat, s: nat): nat
    requires n <= |lens|
  {
    if n == 0 then 0
    else KraftBelow(lens, n - 1, s) + if 0 < lens[n - 1] <= s then Pow2(s - lens[n - 1]) else 0
  }

  /** Kraft's inequality, scaled by 2^15: the code is not over-subscribed. */
  predicate KraftOk(lens: Lengths) {
    KraftBelow(lens, |lens|, MAX_LENGTH) <= Pow2(MAX_LENGTH)
  }

  lemma {:induction false} KraftStep(lens: Lengths, n: nat, s: nat)
    requires n <= |lens| && s > 0
    ensures KraftBelow(lens, n, s) == 2 * KraftBelow(lens, n, s - 1) + CountBelow(lens, s, n)
  {
    if n == 0 {
    } else {
      KraftStep(lens, n - 1, s);
      assert Pow2(0) == 1;
    }
  }

  /** Summing over symbols and counting code by code give the same number. */
  lemma {:induction false} KraftIsEndCode(lens: Lengths, s: nat)
    ensures KraftBelow(lens, |lens|, s) == EndCode(lens, s)
  {
    if s == 0 {
      KraftZero(lens, |lens|);
    } else {
      KraftIsEndCode(lens, s - 1);
      KraftStep(lens, |lens|, s);
    }
  }

  lemma {:induction false} KraftZero(lens: Lengths, n: nat)
    requires n <= |lens|
    ensures KraftBelow(lens, n, 0) == 0
  {
    if n > 0 {
      KraftZero(lens, n - 1);
    }
  }

  /** Codes of a longer length start above everything used by a shorter one. */
  lemma {:induction false} EndCodeGrows(lens: Lengths, s: nat, t: nat)
    requires s <= t
    ensures Shl(EndCode(lens, s), t - s) <= EndCode(lens, t)
    ensures s < t ==> Shl(EndCode(lens, s), t - s) <= FirstCode(lens, t)
    decreases t
  {
    if s == t {
    } else {
      EndCodeGrows(lens, s, t - 1);
      if t == 1 {
        assert EndCode(lens, 0) == 0;
      }
    }
  }

  /** Kraft's inequality holds exactly when no length runs out of codes. */
  lemma KraftPerLength(lens: Lengths)
    ensures KraftOk(lens) <==> forall s :: 1 <= s <= MAX_LENGTH ==> EndCode(lens, s) <= Pow2(s)
  {
    KraftIsEndCode(lens, MAX_LENGTH);
    if KraftOk(lens) {
      forall s | 1 <= s <= MAX_LENGTH ensures EndCode(lens, s) <= Pow2(s) {
        EndCodeGrows(lens, s, MAX_LENGTH);
        ShlPow2(s, MAX_LENGTH - s);
        ShlOrder(EndCode(lens, s), Pow2(s), MAX_LENGTH - s);
      }
    }
  }

  // --------------------------------------------------- prefix-free decoding

  lemma {:induction false} CountMonotone(lens: Lengths, s: nat, m: nat, n: nat)
    requires m <= n <= |lens|
    ensures CountBelow(lens, s, m) <= CountBelow(lens, s, n)
    ensures m < n && lens[m] == s ==> CountBelow(lens, s, m) < CountBelow(lens, s, n)
  {
    if m < n {
      CountMonotone(lens, s, m, n - 1);
    }
  }

  lemma CodeInRange(lens: Lengths, i: nat)
    requires i < |lens| && lens[i] > 0
    ensures FirstCode(lens, lens[i]) <= Code(lens, i) < EndCode(lens, lens[i])
  {
    CountMonotone(lens, lens[i], i, |lens|);
  }

  /** No code is a prefix of another: at most one symbol matches any bits. */
  lemma PrefixFree(lens: Lengths, i: nat, j: nat, v: nat)
    requires Matches(lens, i, v) && Matches(lens, j, v)
    ensures i == j
  {
    if lens[i] <= lens[j] {
      PrefixFreeOrdered(lens, i, j, v);
    } else {
      PrefixFreeOrdered(lens, j, i, v);
    }
  }

  lemma PrefixFreeOrdered(lens: Lengths, i: nat, j: nat, v: nat)
    requires Matches(lens, i, v) && Matches(lens, j, v) && lens[i] <= lens[j]
    ensures i == j
  {
    var s, t := lens[i], lens[j];
    CodeInRange(lens, i);
    if s == t {
      CountMonotone(lens, s, if i < j then i else j, if i < j then j else i);
    } else {
      CodeInRange(lens, j);
      EndCodeGrows(lens, s, t);
      RevPrefix(v, s, t - s);
      ShlShrOrder(EndCode(lens, s), Code(lens, j), t - s);
    }
  }

  // ------------------------------------------------- decoding by code length

  /** Every code value in use belongs to a symbol. */
  lemma {:induction false} NthOfLength(lens: Lengths, s: nat, k: nat, n: nat) returns (i: nat)
    requires n <= |lens| && k < CountBelow(lens, s, n)
    ensures i < n && lens[i] == s && CountBelow(lens, s, i) == k
  {
    if k < CountBelow(lens, s, n - 1) {
      i := NthOfLength(lens, s, k, n - 1);
    } else {
      i := n - 1;
    }
  }

  /** One past the largest code of length `s`, aligned to a 16-bit window. */
  function MaxCode(lens: Lengths, s: nat): nat
    requires s <= 16
  {
    Shl(EndCode(lens, s), 16 - s)
  }

  /** MaxCode never decreases, and codes of length `s` start at the previous bound. */
  lemma MaxCodeStep(lens: Lengths, s: nat)
    requires 1 <= s <= 16
    ensures Shl(FirstCode(lens, s), 16 - s) == MaxCode(lens, s - 1) <= MaxCode(lens, s)
  {
    ShlDouble(EndCode(lens, s - 1), 16 - s);
    ShlOrder(FirstCode(lens, s), EndCode(lens, s), 16 - s);
  }

  lemma {:induction false} MaxCodeMonotone(lens: Lengths, s: nat, t: nat)
    requires s <= t <= 16
    ensures MaxCode(lens, s) <= MaxCode(lens, t)
  {
    if s < t {
      MaxCodeMonotone(lens, s, t - 1);
      MaxCodeStep(lens, t);
    }
  }

  /** A symbol of length `s` matches exactly when the reversed 16-bit window lies
      between the bounds of lengths `s - 1` and `s`. */
  lemma MatchWindow(lens: Lengths, i: nat, v: nat)
    requires Matches(lens, i, v) && lens[i] <= 16
    ensures MaxCode(lens, lens[i] - 1) <= Rev(v, 16) < MaxCode(lens, lens[i])
    ensures Shr(Rev(v, 16), 16 - lens[i]) == Code(lens, i)
  {
    var s := lens[i];
    CodeInRange(lens, i);
    RevPrefix(v, s, 16 - s);
    MaxCodeStep(lens, s);
    ShlShrOrder(FirstCode(lens, s), Rev(v, 16), 16 - s);
    ShlShrOrder(EndCode(lens, s), Rev(v, 16), 16 - s);
  }

  lemma WindowMatch(lens: Lengths, s: nat, v: nat) returns (i: nat)
    requires 1 <= s <= 16
    requires MaxCode(lens, s - 1) <= Rev(v, 16) < MaxCode(lens, s)
    ensures Matches(lens, i, v) && lens[i] == s
    ensures CountBelow(lens, s, i) == Shr(Rev(v, 16), 16 - s) - FirstCode(lens, s)
  {
    var k := Rev(v, 16);
    MaxCodeStep(lens, s);
    ShlShrOrder(FirstCode(lens, s), k, 16 - s);
    ShlShrOrder(EndCode(lens, s), k, 16 - s);
    i := NthOfLength(lens, s, Shr(k, 16 - s) - FirstCode(lens, s), |lens|);
    RevPrefix(v, s, 16 - s);
  }
}
