/** The baseline JPEG decoder's Huffman tables (sections C.2 and F.2.2.3 of ITU-T T.81):
    built from counts per length, looked up nine bits at a time and then length by length. */
module JpegHuffman {
  import opened Bits
  import opened CanonicalCode

  const FAST_BITS: nat := 9
  const NOT_FAST: nat := 255

  type Counts = s: seq<nat> | |s| == 16 witness seq(16, _ => 0)

  // ------------------------------------------------------- lengths in order

  /** The code lengths of all symbols of at most `n` bits, shortest first. */
  function Sizes(count: Counts, n: nat): Lengths
    requires n <= 16
  {
    if n == 0 then [] else Sizes(count, n - 1) + Repeat(n, count[n - 1])
  }

  /** The first symbol of length `s`. */
  function Start(count: Counts, s: nat): nat
    requires 1 <= s <= 17
  {
    if s == 1 then 0 else Start(count, s - 1) + count[s - 2]
  }

  lemma {:induction false} StartMonotone(count: Counts, s: nat, t: nat)
    requires 1 <= s <= t <= 17
    ensures Start(count, s) <= Start(count, t)
  {
    if s < t {
      StartMonotone(count, s, t - 1);
    }
  }

  lemma {:induction false} SizesShape(count: Counts, n: nat)
    requires n <= 16
    ensures |Sizes(count, n)| == Start(count, n + 1)
    ensures forall k :: 0 <= k < |Sizes(count, n)| ==>
      1 <= Sizes(count, n)[k] <= n && Start(count, Sizes(count, n)[k]) <= k < Start(count, Sizes(count, n)[k] + 1)
  {
    if n > 0 {
      SizesShape(count, n - 1);
    }
  }

  /** Symbol `k` has length `s` exactly when it lies between the starts of `s` and `s + 1`. */
  lemma SizeAt(count: Counts, s: nat, k: nat)
    requires 1 <= s <= 16 && k < Start(count, 17)
    ensures |Sizes(count, 16)| == Start(count, 17) && 1 <= Sizes(count, 16)[k] <= 16
    ensures Sizes(count, 16)[k] == s <==> Start(count, s) <= k < Start(count, s + 1)
  {
    SizesShape(count, 16);
    var t := Sizes(count, 16)[k];
    if s < t {
      StartMonotone(count, s + 1, t);
    } else if t < s {
      StartMonotone(count, t + 1, s);
    }
  }

  /** How many of the first `k` symbols have length `s`. */
  lemma {:induction false} CountInSizes(count: Counts, s: nat, k: nat)
    requires 1 <= s <= 16 && k <= Start(count, 17)
    ensures |Sizes(count, 16)| == Start(count, 17)
    ensures CountBelow(Sizes(count, 16), s, k) ==
      if k <= Start(count, s) then 0 else if k <= Start(count, s + 1) then k - Start(count, s) else count[s - 1]
  {
    SizesShape(count, 16);
    if k > 0 {
      CountInSizes(count, s, k - 1);
      SizeAt(count, s, k - 1);
    }
  }

  lemma SizesTotal(count: Counts, s: nat)
    requires 1 <= s <= 16
    ensures Total(Sizes(count, 16), s) == count[s - 1]
  {
    SizesShape(count, 16);
    StartMonotone(count, s + 1, 17);
    CountInSizes(count, s, |Sizes(count, 16)|);
  }

  /** At most 256 symbols, and no length with more codes than it has room for. */
  ghost predicate Accepted(count: Counts) {
    |Sizes(count, 16)| <= 256 && FitsBelow(Sizes(count, 16), 17)
  }

  // ------------------------------------------------------------- the fast table

  /** Symbol `i` is decided by nine bits, and these are `x`. */
  predicate Hits(lens: Lengths, i: nat, x: nat) {
    i < |lens| && 0 < lens[i] <= FAST_BITS && Shr(x, FAST_BITS - lens[i]) == Code(lens, i)
  }

  lemma HitsMatches(lens: Lengths, i: nat, v: nat)
    ensures Hits(lens, i, Rev(v, FAST_BITS)) <==> Matches(lens, i, v) && lens[i] <= FAST_BITS
  {
    if i < |lens| && 0 < lens[i] <= FAST_BITS {
      RevPrefix(v, lens[i], FAST_BITS - lens[i]);
    }
  }

  lemma HitsUnique(lens: Lengths, i: nat, j: nat, x: nat)
    requires Hits(lens, i, x) && Hits(lens, j, x) && x < Pow2(FAST_BITS)
    ensures i == j
  {
    var v := Rev(x, FAST_BITS);
    RevInvolutive(x, FAST_BITS);
    LowOfSmall(x, FAST_BITS);
    HitsMatches(lens, i, v);
    HitsMatches(lens, j, v);
    PrefixFree(lens, i, j, v);
  }

  /** The table after the first `n` symbols; entry 255 means "look further". */
  ghost predicate FastIn(lens: Lengths, n: nat, fast: seq<nat>) {
    && |fast| == 512
    && (forall x, i :: 0 <= x < 512 && 0 <= i < n && Hits(lens, i, x) ==> fast[x] == i)
    && (forall x :: 0 <= x < 512 && fast[x] != NOT_FAST ==> fast[x] < n && Hits(lens, fast[x], x))
  }

  // --------------------------------------------------------------- the tables

  class Huffman {
    var fast: seq<nat>
    var code: seq<nat>
    var values: seq<byte>
    var size: seq<nat>
    var maxcode: seq<nat>
    var delta: seq<int>

    constructor ()
      ensures Shaped()
    {
      fast, code, values := Repeat(NOT_FAST, 512), Repeat(0, 256), seq(256, _ => 0);
      size, maxcode, delta := Repeat(0, 257), Repeat(0, 18), Repeat(0, 17);
    }

    predicate Shaped()
      reads this
    {
      |fast| == 512 && |code| == 256 && |values| == 256 && |size| == 257 && |maxcode| == 18 && |delta| == 17
    }

    /** Bounds and index offsets of the lengths below `n`. */
    ghost predicate BoundsIn(count: Counts, n: nat)
      reads this
    {
      && Shaped() && n <= 17
      && forall s :: 1 <= s < n ==>
           maxcode[s] == MaxCode(Sizes(count, 16), s) && delta[s] == Start(count, s) - FirstCode(Sizes(count, 16), s)
    }

    /** The codes of the first `k` symbols. */
    ghost predicate CodesIn(lens: Lengths, k: nat)
      reads this
    {
      && k <= |lens| <= |code|
      && forall i :: 0 <= i < k ==> code[i] == Code(lens, i) % 0x1_0000
    }

    ghost predicate Represents(count: Counts)
      reads this
    {
      var lens := Sizes(count, 16);
      && Accepted(count) && BoundsIn(count, 17) && maxcode[17] == 0xFFFF_FFFF
      && size[..|lens|] == lens && FastIn(lens, |lens|, fast)
    }

    /** Lists the sizes; refused with 257 symbols or more. */
    method ListSizes(count: Counts) returns (ok: bool, k: nat)
      requires Shaped()
      modifies this`size
      ensures Shaped() && (ok <==> |Sizes(count, 16)| <= 256)
      ensures ok ==> k == |Sizes(count, 16)| && size[..k] == Sizes(count, 16) && size[k] == 0
    {
      k := 0;
      var i := 0;
      while i < 16
        invariant i <= 16 && k <= 256 && Shaped() && size[..k] == Sizes(count, i)
      {
        var j := 0;
        while j < count[i]
          invariant j <= count[i] && k <= 256 && Shaped() && size[..k] == Sizes(count, i) + Repeat(i + 1, j)
        {
          size := size[k := i + 1];
          k := k + 1;
          assert size[..k] == Sizes(count, i) + Repeat(i + 1, j + 1);
          if k >= 257 {
            TooMany(count, i, j + 1);
            return false, k;
          }
          j := j + 1;
        }
        i := i + 1;
      }
      size := size[k := 0];
      ok := true;
    }

    /** Gives the symbols of length `j` consecutive codes. */
    method EnterLength(count: Counts, j: nat, k: nat, c: nat) returns (k': nat, c': nat)
      requires Shaped() && 1 <= j <= 16 && |Sizes(count, 16)| <= 256
      requires size[..|Sizes(count, 16)|] == Sizes(count, 16) && size[|Sizes(count, 16)|] == 0
      requires k == Start(count, j) && c == FirstCode(Sizes(count, 16), j)
      requires CodesIn(Sizes(count, 16), k)
      modifies this`code
      ensures Shaped() && k' == Start(count, j + 1) && c' == EndCode(Sizes(count, 16), j)
      ensures CodesIn(Sizes(count, 16), k')
    {
      hide Sizes, FirstCode, CountBelow;
      ghost var lens := Sizes(count, 16);
      SizesShape(count, 16);
      StartMonotone(count, j, 17);
      StartMonotone(count, j + 1, 17);
      k', c' := k, c;
      while size[k'] == j
        invariant Start(count, j) <= k' <= Start(count, j + 1) && Shaped()
        invariant c' == FirstCode(lens, j) + (k' - Start(count, j))
        invariant CodesIn(lens, k')
        decreases Start(count, j + 1) - k'
      {
        SizeRead(count, size, j, k');
        CountInSizes(count, j, k');
        code := code[k' := c' % 0x1_0000];
        c', k' := c' + 1, k' + 1;
      }
      SizeRead(count, size, j, k');
      SizesTotal(count, j);
    }

    /** Lays out the codes length by length; refused when a length overflows. */
    method LayOut(count: Counts) returns (ok: bool)
      requires Shaped() && |Sizes(count, 16)| <= 256
      requires size[..|Sizes(count, 16)|] == Sizes(count, 16) && size[|Sizes(count, 16)|] == 0
      modifies this`code, this`maxcode, this`delta
      ensures Shaped() && (ok <==> Accepted(count))
      ensures ok ==> BoundsIn(count, 17) && maxcode[17] == 0xFFFF_FFFF
      ensures ok ==> CodesIn(Sizes(count, 16), |Sizes(count, 16)|)
    {
      hide FirstCode, EndCode, Total, Sizes, Start;
      ghost var lens := Sizes(count, 16);
      SizesShape(count, 16);
      FirstLength(count, lens);
      var c, k, j := 0, 0, 1;
      while j <= 16
        invariant 1 <= j <= 17 && BoundsIn(count, j) && FitsBelow(lens, j)
        invariant k == Start(count, j) && c == FirstCode(lens, j) && CodesIn(lens, k)
      {
        NextLength(count, lens, j, size, k);
        delta := delta[j := k - c];
        var used := size[k] == j;
        k, c := EnterLength(count, j, k, c);
        if used {
          if c - 1 >= Pow2(j) {
            assert !FitsBelow(lens, 17);
            return false;
          }
        }
        maxcode := maxcode[j := Shl(c, 16 - j)];
        j, c := j + 1, c * 2;
      }
      maxcode := maxcode[17 := 0xFFFF_FFFF];
      ok := true;
    }

    /** Enters symbol `i` at every index that begins with its code. */
    method FillFast(ghost lens: Lengths, i: nat, s: nat, code: nat)
      requires i < |lens| && s == lens[i] && 0 < s <= FAST_BITS && code == Code(lens, i) < Pow2(s)
      requires FastIn(lens, i, fast)
      modifies this`fast
      ensures FastIn(lens, i + 1, fast)
    {
      var c := Shl(code, FAST_BITS - s);
      var m := Shl(1, FAST_BITS - s);
      HitRange(lens, i);
      ghost var was := fast;
      var j := 0;
      while j < m
        invariant j <= m && |fast| == 512
        invariant forall x :: 0 <= x < 512 ==> fast[x] == if c <= x < c + j then i else was[x]
      {
        fast := fast[c + j := i];
        j := j + 1;
      }
      FastFilled(lens, i, was, fast);
    }

    /** Builds the tables; refused exactly when the counts are not acceptable. */
    method Build(count: Counts) returns (ok: bool)
      requires Shaped()
      modifies this
      ensures values == old(values) && (ok <==> Accepted(count))
      ensures ok ==> Represents(count)
    {
      hide Sizes, Code, EndCode, FastIn;
      var k;
      ok, k := ListSizes(count);
      if !ok {
        return;
      }
      ok := LayOut(count);
      if !ok {
        return;
      }
      ghost var lens := Sizes(count, 16);
      fast := Repeat(NOT_FAST, 512);
      NothingFast(lens, fast);
      var i := 0;
      while i < k
        invariant i <= k && BoundsIn(count, 17) && maxcode[17] == 0xFFFF_FFFF && CodesIn(lens, k)
        invariant size[..k] == lens && values == old(values) && FastIn(lens, i, fast) && |fast| == 512
      {
        var s := size[i];
        CodeFits(count, i);
        assert s == size[..k][i];
        if s <= FAST_BITS {
          FillFast(lens, i, s, code[i]);
        } else {
          NotFast(lens, i, fast);
        }
        i := i + 1;
      }
    }

    // ------------------------------------------------------------- decoding

    function SlowLength(temp: nat, k: nat): (r: nat)
      reads this
      requires Shaped() && k <= 17
      ensures k <= r <= 17
      decreases 17 - k
    {
      if k == 17 || temp < maxcode[k] then k else SlowLength(temp, k + 1)
    }

    /** The symbol index and code length at the front of the stream `v`, or -1. */
    function Lookup(v: nat): (r: (int, nat))
      reads this
      requires Shaped()
    {
      FastIndex(v);
      var f := fast[Rev(v, FAST_BITS)];
      if f < NOT_FAST then (f, size[f])
      else
        var k := SlowLength(Rev(v, 16), FAST_BITS + 1);
        if k == 17 then (-1, 0)
        else
          var c := Rev(v, k) + delta[k];
          if c < 0 || c >= 256 then (-1, 0) else (c, k)
    }
  }

  lemma FastIndex(v: nat)
    ensures Rev(v, FAST_BITS) < 512
  {
    Pow2Add(8, 1);
    Pow2Values();
  }

  /** What the canonical code makes of the stream. */
  ghost function Canonical(lens: Lengths, v: nat): (int, nat) {
    var i := Symbol(lens, v);
    if i < 0 then (-1, 0) else (i, lens[i])
  }

  /** The symbol whose index the last table entry could not express. */
  predicate Misplaced(lens: Lengths) {
    |lens| == 256 && lens[255] <= FAST_BITS
  }

  /** What the decoder makes of the stream. A short code of the last of 256 symbols is
      missed by the fast table; the length search then takes it for a code of ten bits,
      and the one or two bits after it choose among the last two or four symbols. */
  ghost function Front(count: Counts, v: nat): (r: (int, nat))
    requires Accepted(count)
    ensures -1 <= r.0 < 256 && r.1 <= 16
  {
    var lens := Sizes(count, 16);
    var i := Symbol(lens, v);
    if Misplaced(lens) && i == 255 then
      LastLength(count);
      ShortRest(lens[255]);
      var rest := FAST_BITS + 1 - lens[255];
      (256 - Pow2(rest) + Rev(Shr(v, lens[255]), rest), FAST_BITS + 1)
    else
      CanonicalRange(count, v);
      Canonical(lens, v)
  }

  lemma CanonicalRange(count: Counts, v: nat)
    requires Accepted(count)
    ensures -1 <= Canonical(Sizes(count, 16), v).0 < 256 && Canonical(Sizes(count, 16), v).1 <= 16
  {
    SizesShape(count, 16);
  }

  /** As many codes as symbols so far fit below the end of each length. */
  lemma {:induction false} EndCodeCovers(count: Counts, s: nat)
    requires s <= 16
    ensures EndCode(Sizes(count, 16), s) >= Start(count, s + 1)
  {
    if s > 0 {
      EndCodeCovers(count, s - 1);
      SizesTotal(count, s);
    }
  }

  /** The longest of 256 codes has at least eight bits. */
  lemma LastLength(count: Counts)
    requires Accepted(count) && Misplaced(Sizes(count, 16))
    ensures 8 <= Sizes(count, 16)[255] <= FAST_BITS
  {
    hide Sizes, EndCode;
    SizesShape(count, 16);
    var s := Sizes(count, 16)[255];
    EndCodeCovers(count, s);
    Pow2Values();
    assert Pow2(8) == 2 * Pow2(7);
    if s < 8 {
      Pow2Monotone(s, 7);
    }
  }

  lemma ShortRest(s: nat)
    requires 8 <= s <= FAST_BITS
    ensures 2 <= Pow2(FAST_BITS + 1 - s) <= 4
  {
    assert Pow2(1) == 2 && Pow2(2) == 4;
  }

  lemma FirstLength(count: Counts, lens: Lengths)
    ensures Start(count, 1) == 0 && FirstCode(lens, 1) == 0
  {
  }

  /** A length that is not in use cannot overflow, and the next one starts at twice the end. */
  lemma NextLength(count: Counts, lens: Lengths, j: nat, size: seq<nat>, k: nat)
    requires 1 <= j <= 16 && |size| == 257 && lens == Sizes(count, 16) && |lens| <= 256
    requires size[..|lens|] == lens && size[|lens|] == 0 && k == Start(count, j) && FitsBelow(lens, j)
    ensures k <= |lens| && (size[k] != j ==> EndCode(lens, j) <= Pow2(j))
    ensures size[k] == j ==> EndCode(lens, j) > 0
    ensures FirstCode(lens, j + 1) == 2 * EndCode(lens, j)
  {
    SizeRead(count, size, j, k);
    SizesTotal(count, j);
    if j > 1 {
      assert EndCode(lens, j - 1) <= Pow2(j - 1);
    }
  }

  lemma TooMany(count: Counts, i: nat, j: nat)
    requires i < 16 && j <= count[i] && |Sizes(count, i)| + j >= 257
    ensures |Sizes(count, 16)| >= 257
  {
    SizesShape(count, i);
    SizesShape(count, 16);
    StartMonotone(count, i + 2, 17);
  }

  /** What the size list says at the next symbol. */
  lemma SizeRead(count: Counts, size: seq<nat>, j: nat, k: nat)
    requires 1 <= j <= 16 && |size| == 257 && |Sizes(count, 16)| <= 256
    requires size[..|Sizes(count, 16)|] == Sizes(count, 16) && size[|Sizes(count, 16)|] == 0
    requires Start(count, j) <= k <= Start(count, j + 1)
    ensures k <= |Sizes(count, 16)| && (size[k] == j <==> k < Start(count, j + 1))
    ensures size[k] == j ==> k < |Sizes(count, 16)| && Sizes(count, 16)[k] == j
  {
    SizesShape(count, 16);
    StartMonotone(count, j + 1, 17);
    if k < Start(count, 17) {
      SizeAt(count, j, k);
      assert size[k] == size[..|Sizes(count, 16)|][k];
    }
  }

  lemma CodeFits(count: Counts, i: nat)
    requires Accepted(count) && i < |Sizes(count, 16)|
    ensures 0 < Sizes(count, 16)[i] <= 16 && Code(Sizes(count, 16), i) < Pow2(Sizes(count, 16)[i]) <= 0x1_0000
  {
    SizesShape(count, 16);
    var s := Sizes(count, 16)[i];
    CodeInRange(Sizes(count, 16), i);
    assert EndCode(Sizes(count, 16), s) <= Pow2(s);
    Pow2Monotone(s, 16);
    Pow2Values();
  }

  /** The indices that begin with a code are consecutive. */
  lemma HitRange(lens: Lengths, i: nat)
    requires i < |lens| && 0 < lens[i] <= FAST_BITS && Code(lens, i) < Pow2(lens[i])
    ensures var n := FAST_BITS - lens[i]; var c := Shl(Code(lens, i), n);
      && c + Shl(1, n) <= 512
      && forall x: nat :: Hits(lens, i, x) <==> c <= x < c + Shl(1, n)
  {
    var n, code := FAST_BITS - lens[i], Code(lens, i);
    ShlSum(code, 1, n);
    ShlOrder(code + 1, Pow2(lens[i]), n);
    ShlPow2(lens[i], n);
    FastIndex(0);
    assert Pow2(9) == 512;
    forall x: nat ensures Hits(lens, i, x) <==> Shl(code, n) <= x < Shl(code, n) + Shl(1, n) {
      ShlShrOrder(code, x, n);
      ShlShrOrder(code + 1, x, n);
    }
  }

  lemma FastFilled(lens: Lengths, i: nat, was: seq<nat>, fast: seq<nat>)
    requires FastIn(lens, i, was) && |fast| == 512
    requires forall x :: 0 <= x < 512 ==> fast[x] == if Hits(lens, i, x) then i else was[x]
    ensures FastIn(lens, i + 1, fast)
  {
    hide Hits;
    assert Pow2(FAST_BITS) == 512 by {
      Pow2Add(8, 1);
      Pow2Values();
    }
    forall x, j | 0 <= x < 512 && 0 <= j < i + 1 && Hits(lens, j, x) ensures fast[x] == j {
      if Hits(lens, i, x) {
        HitsUnique(lens, i, j, x);
      }
    }
  }

  lemma NothingFast(lens: Lengths, fast: seq<nat>)
    requires fast == Repeat(NOT_FAST, 512)
    ensures FastIn(lens, 0, fast)
  {
  }

  lemma NotFast(lens: Lengths, i: nat, fast: seq<nat>)
    requires FastIn(lens, i, fast) && i < |lens| && lens[i] > FAST_BITS
    ensures FastIn(lens, i + 1, fast)
  {
  }

  // ------------------------------------------------- lookup is canonical decoding

  /** A window below the bound of length `s` begins with a code of at most `s` bits. */
  lemma {:induction false} BelowBound(lens: Lengths, s: nat, v: nat) returns (i: nat)
    requires s <= 16 && Rev(v, 16) < MaxCode(lens, s)
    ensures Matches(lens, i, v) && lens[i] <= s
    decreases s
  {
    if s > 0 && Rev(v, 16) < MaxCode(lens, s - 1) {
      i := BelowBound(lens, s - 1, v);
    } else {
      ShlZero(16);
      i := WindowMatch(lens, s, v);
    }
  }

  /** The length search finds the code's length once short codes are ruled out. */
  lemma {:induction false} SlowSearch(h: Huffman, count: Counts, v: nat, k: nat)
    requires h.Shaped() && h.BoundsIn(count, 17) && 1 <= k <= 17
    requires MaxCode(Sizes(count, 16), k - 1) <= Rev(v, 16)
    ensures var lens := Sizes(count, 16); var r := h.SlowLength(Rev(v, 16), k);
      && (r < 17 ==> MaxCode(lens, r - 1) <= Rev(v, 16) < MaxCode(lens, r))
      && (r == 17 ==> MaxCode(lens, 16) <= Rev(v, 16))
    decreases 17 - k
  {
    hide MaxCode, Sizes, FirstCode, Start, Rev;
    if k < 17 && h.maxcode[k] <= Rev(v, 16) {
      SlowSearch(h, count, v, k + 1);
    }
  }

  /** Past the fast table, a stream that does not begin with a short code is decoded. */
  lemma SlowIsCanonical(h: Huffman, count: Counts, v: nat)
    requires h.Shaped() && h.Represents(count) && h.fast[Rev(v, FAST_BITS)] == NOT_FAST
    requires forall i: nat :: Matches(Sizes(count, 16), i, v) ==> Sizes(count, 16)[i] > FAST_BITS
    ensures h.Lookup(v) == Canonical(Sizes(count, 16), v)
  {
    hide Sizes, FirstCode, EndCode, FastIn, MaxCode, Rev, Start, Code, Pow2, Accepted;
    var lens := Sizes(count, 16);
    if Rev(v, 16) < MaxCode(lens, FAST_BITS) {
      var i := BelowBound(lens, FAST_BITS, v);
      assert false;
    }
    SlowSearch(h, count, v, FAST_BITS + 1);
    var k := h.SlowLength(Rev(v, 16), FAST_BITS + 1);
    if k == 17 {
      NoneBeyond(count, v);
    } else {
      WindowSymbol(count, k, v);
    }
  }

  /** A window between two bounds is decoded by the index offset of its length. */
  lemma WindowSymbol(count: Counts, k: nat, v: nat)
    requires Accepted(count) && 1 <= k <= 16
    requires MaxCode(Sizes(count, 16), k - 1) <= Rev(v, 16) < MaxCode(Sizes(count, 16), k)
    ensures var lens := Sizes(count, 16); var c := Rev(v, k) + (Start(count, k) - FirstCode(lens, k));
      0 <= c < 256 && (c, k) == Canonical(lens, v)
  {
    hide Sizes, FirstCode, EndCode, MaxCode, CountBelow, Accepted;
    var lens := Sizes(count, 16);
    var i := WindowMatch(lens, k, v);
    RevPrefix(v, k, 16 - k);
    PrefixFree(lens, i, Symbol(lens, v), v);
    SizesShape(count, 16);
    SizeAt(count, k, i);
    CountInSizes(count, k, i);
    AtMost256(count);
  }

  lemma AtMost256(count: Counts)
    requires Accepted(count)
    ensures |Sizes(count, 16)| <= 256
  {
  }

  lemma NoneBeyond(count: Counts, v: nat)
    requires MaxCode(Sizes(count, 16), 16) <= Rev(v, 16)
    ensures Symbol(Sizes(count, 16), v) == -1
  {
    var lens := Sizes(count, 16);
    var i := Symbol(lens, v);
    SizesShape(count, 16);
    if i >= 0 {
      MatchWindow(lens, i, v);
      MaxCodeMonotone(lens, lens[i], 16);
    }
  }

  /** Without a code of a length in between, the first code moves on by doubling. */
  lemma {:induction false} FirstCodeDoubles(count: Counts, s: nat, t: nat)
    requires 1 <= s < t <= 17 && Start(count, s + 1) == Start(count, 17)
    ensures FirstCode(Sizes(count, 16), t) == Shl(EndCode(Sizes(count, 16), s), t - s)
    ensures Start(count, t) == Start(count, 17)
  {
    hide Sizes;
    if s + 1 < t {
      FirstCodeDoubles(count, s, t - 1);
      StartMonotone(count, t, 17);
      SizesTotal(count, t - 1);
    } else {
      assert Shl(EndCode(Sizes(count, 16), s), 1) == 2 * Shl(EndCode(Sizes(count, 16), s), 0);
    }
  }

  /** The last symbol's code is the last one of its length. */
  lemma LastCode(count: Counts)
    requires Accepted(count) && Misplaced(Sizes(count, 16))
    ensures var lens := Sizes(count, 16);
      Start(count, lens[255] + 1) == Start(count, 17) == 256 && Code(lens, 255) + 1 == EndCode(lens, lens[255])
  {
    hide Sizes, FirstCode, Start;
    LastLength(count);
    SizesShape(count, 16);
    StartMonotone(count, Sizes(count, 16)[255] + 1, 17);
  }

  /** The length search on a short code of symbol 255. */
  lemma MisplacedSearch(h: Huffman, count: Counts, v: nat)
    requires h.Shaped() && h.Represents(count) && h.fast[Rev(v, FAST_BITS)] == NOT_FAST
    requires Misplaced(Sizes(count, 16)) && Matches(Sizes(count, 16), 255, v)
    ensures h.Lookup(v) == Front(count, v)
  {
    hide Sizes, FirstCode, EndCode, Start, Rev, Shr, Shl, Code, Accepted, FastIn;
    var lens := Sizes(count, 16);
    LastLength(count);
    LastCode(count);
    var s := lens[255];
    var rest := FAST_BITS + 1 - s;
    PrefixFree(lens, 255, Symbol(lens, v), v);
    MatchWindow(lens, 255, v);
    MaxCodeMonotone(lens, s, FAST_BITS + 1);
    FirstCodeDoubles(count, s, FAST_BITS + 1);
    RevSplit(v, s, rest);
    ShlIsProduct(EndCode(lens, s), rest);
    SearchOffset(Code(lens, 255), Rev(Shr(v, s), rest), Pow2(rest));
    ShortRest(s);
  }

  lemma SearchOffset(c: nat, low: nat, p: nat)
    ensures low + p * c + 256 - p * (c + 1) == 256 - p + low
  {
    assert p * (c + 1) == p * c + p;
  }

  /** Lookup finds what `Front` says, for every table that the builder accepts. */
  lemma LookupIsFront(h: Huffman, count: Counts, v: nat)
    requires h.Shaped() && h.Represents(count)
    ensures h.Lookup(v) == Front(count, v)
  {
    hide Sizes, FirstCode, EndCode, Shr, Rev, Pow2;
    var lens, x := Sizes(count, 16), Rev(v, FAST_BITS);
    FastIndex(v);
    var f := h.fast[x];
    if f != NOT_FAST {
      HitsMatches(lens, f, v);
      PrefixFree(lens, f, Symbol(lens, v), v);
      assert h.size[f] == h.size[..|lens|][f];
    } else if Misplaced(lens) && Matches(lens, 255, v) {
      MisplacedSearch(h, count, v);
    } else {
      forall i: nat | Matches(lens, i, v) ensures lens[i] > FAST_BITS {
        HitsMatches(lens, i, v);
      }
      SlowIsCanonical(h, count, v);
    }
  }

  /** Lookup finds the symbol of the canonical code, except the last of 256 symbols when
      its code is short: its index is the table's "look further" mark. */
  lemma LookupIsCanonical(h: Huffman, count: Counts, v: nat)
    requires h.Shaped() && h.Represents(count)
    ensures h.Lookup(v) == Canonical(Sizes(count, 16), v)
      <==> !(Misplaced(Sizes(count, 16)) && Matches(Sizes(count, 16), 255, v))
  {
    hide Sizes, FirstCode, EndCode, Shr, Rev, Pow2, Accepted;
    var lens := Sizes(count, 16);
    LookupIsFront(h, count, v);
    if Misplaced(lens) && Matches(lens, 255, v) {
      PrefixFree(lens, 255, Symbol(lens, v), v);
    }
  }

  // ------------------------------------------------------------ a misplaced symbol

  /** 255 codes of eight bits and one of nine: counts that a file can carry. */
  function ByteCounts(): Counts {
    [0, 0, 0, 0, 0, 0, 0, 255, 1, 0, 0, 0, 0, 0, 0, 0]
  }

  /** Where the codes of each length end. */
  lemma {:induction false} ByteEnds(s: nat)
    requires s <= 16
    ensures EndCode(Sizes(ByteCounts(), 16), s) == if s < 8 then 0 else if s == 8 then 255 else Shl(511, s - 9)
  {
    hide Sizes;
    if s > 0 {
      ByteEnds(s - 1);
      SizesTotal(ByteCounts(), s);
      ByteCount(s);
    }
  }

  lemma ByteCount(s: nat)
    requires 1 <= s <= 16
    ensures ByteCounts()[s - 1] == if s == 8 then 255 else if s == 9 then 1 else 0
  {
  }

  /** The builder accepts such a table, and then the last symbol, followed by a zero, is
      decoded as the one before it and takes a bit too many. */
  lemma LastSymbolLost(h: Huffman) returns (v: nat)
    requires h.Shaped() && h.Represents(ByteCounts())
    ensures Accepted(ByteCounts()) && forall k :: 0 <= k < 16 ==> ByteCounts()[k] <= 255
    ensures Canonical(Sizes(ByteCounts(), 16), v) == (255, 9) && h.Lookup(v) == (254, 10)
  {
    hide Sizes, EndCode, FirstCode, Shr, Rev, Accepted, ByteCounts;
    var lens := Sizes(ByteCounts(), 16);
    ByteShape();
    var c := Code(lens, 255);
    CodeFits(ByteCounts(), 255);
    v := Rev(c, 9);
    RevInvolutive(c, 9);
    LowOfSmall(c, 9);
    assert Matches(lens, 255, v);
    PrefixFree(lens, 255, Symbol(lens, v), v);
    LookupIsFront(h, ByteCounts(), v);
    NothingAfter(v);
    assert Pow2(1) == 2;
  }

  lemma NothingAfter(v: nat)
    requires v < Pow2(9)
    ensures Rev(Shr(v, 9), 1) == 0
  {
    LowShrUnique(v, 9, 0, v);
    assert Rev(0, 1) == Rev(0, 0) == 0;
  }

  /** The table's counts are acceptable. */
  lemma ByteShape()
    ensures Accepted(ByteCounts()) && |Sizes(ByteCounts(), 16)| == 256 && Sizes(ByteCounts(), 16)[255] == 9
    ensures forall k :: 0 <= k < 16 ==> ByteCounts()[k] <= 255
  {
    hide Sizes, EndCode, Shl, Pow2;
    var count := ByteCounts();
    SizesShape(count, 16);
    ByteStarts();
    Pow2Values();
    forall s | 1 <= s < 17 ensures EndCode(Sizes(count, 16), s) <= Pow2(s) {
      ByteEnds(s);
      if s >= 9 {
        ShlIsProduct(511, s - 9);
        Pow2Add(s - 9, 9);
        Nine(Pow2(s - 9));
      }
    }
    SizeAt(count, 9, 255);
  }

  lemma Nine(p: nat)
    ensures p * 511 <= p * Pow2(9)
  {
    assert Pow2(9) == 512;
  }

  lemma ByteStarts()
    ensures Start(ByteCounts(), 9) == 255 && Start(ByteCounts(), 10) == 256 && Start(ByteCounts(), 17) == 256
  {
    var c := ByteCounts();
    assert Start(c, 4) == 0;
    assert Start(c, 8) == 0;
    assert Start(c, 13) == 256;
    assert Start(c, 16) == 256;
  }
}
