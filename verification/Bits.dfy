/** Bit-level arithmetic shared by the DEFLATE reader and writer.
    A bit string is a natural number whose least significant bit comes first,
    the order in which section 3.1.1 of RFC 1951 packs bits into bytes. */
module Bits {

  type byte = x: int | 0 <= x < 256

  const UINT32_MODULUS := 0x1_0000_0000
  const INT_MAX: nat := 0x7FFF_FFFF

  function Abs(v: int): nat {
    if v < 0 then -v else v
  }

  /** Truncation to a byte. */
  function UChar(v: int): byte {
    v % 256
  }

  function Pow2(n: nat): (p: nat)
    ensures p > 0
  {
    if n == 0 then 1 else 2 * Pow2(n - 1)
  }

  lemma {:induction false} Pow2Add(m: nat, n: nat)
    ensures Pow2(m + n) == Pow2(m) * Pow2(n)
  {
    if m == 0 {
    } else {
      Pow2Add(m - 1, n);
      assert Pow2(m + n) == 2 * Pow2(m - 1 + n);
    }
  }

  lemma Pow2Values()
    ensures Pow2(8) == 0x100 && Pow2(16) == 0x10000 && Pow2(32) == UINT32_MODULUS
  {
    Pow2Add(8, 8);
    Pow2Add(16, 16);
    assert Pow2(4) == 16;
    Pow2Add(4, 4);
  }

  lemma SmallPowers()
    ensures Pow2(0) == 1 && Pow2(1) == 2
  {
  }

  lemma {:induction false} Pow2Monotone(m: nat, n: nat)
    requires m <= n
    ensures Pow2(m) <= Pow2(n)
  {
    if m < n {
      Pow2Monotone(m, n - 1);
    }
  }

  lemma MulSign(d: nat, k: int)
    ensures k >= 1 ==> d * k >= d
    ensures k <= -1 ==> d * k + d <= 0
  {
  }

  lemma MulDouble(a: nat, p: nat)
    ensures (2 * p) * a == 2 * (p * a) == p * (2 * a)
  {
  }

  /** `v >> n`. */
  function Shr(v: nat, n: nat): nat
  {
    if n == 0 then v else Shr(v / 2, n - 1)
  }

  /** `v & ((1 << n) - 1)`. */
  function Low(v: nat, n: nat): nat
  {
    if n == 0 then 0 else v % 2 + 2 * Low(v / 2, n - 1)
  }

  /** `v << n`. */
  function Shl(v: nat, n: nat): nat
  {
    if n == 0 then v else 2 * Shl(v, n - 1)
  }

  lemma {:induction false} ShlIsProduct(v: nat, n: nat)
    ensures Shl(v, n) == Pow2(n) * v
  {
    if n > 0 {
      ShlIsProduct(v, n - 1);
      MulDouble(v, Pow2(n - 1));
    }
  }

  lemma {:induction false} ShlDouble(v: nat, n: nat)
    ensures Shl(2 * v, n) == Shl(v, n + 1)
  {
    if n > 0 {
      ShlDouble(v, n - 1);
    }
  }

  lemma {:induction false} ShlOrder(a: nat, b: nat, n: nat)
    ensures a <= b <==> Shl(a, n) <= Shl(b, n)
  {
    if n > 0 {
      ShlOrder(a, b, n - 1);
    }
  }

  lemma {:induction false} ShlPow2(m: nat, n: nat)
    ensures Shl(Pow2(m), n) == Pow2(m + n)
  {
    if n > 0 {
      ShlPow2(m, n - 1);
    }
  }

  /** Left and right shift are adjoint. */
  lemma {:induction false} ShlShrOrder(a: nat, k: nat, n: nat)
    ensures Shl(a, n) <= k <==> a <= Shr(k, n)
  {
    if n > 0 {
      ShlShrOrder(a, k / 2, n - 1);
    }
  }

  /** The low bits and the rest make up the whole number ... */
  lemma {:induction false} LowShr(v: nat, n: nat)
    ensures v == Low(v, n) + Pow2(n) * Shr(v, n)
    ensures Low(v, n) < Pow2(n)
  {
    if n > 0 {
      LowShr(v / 2, n - 1);
      MulDouble(Shr(v / 2, n - 1), Pow2(n - 1));
    }
  }

  /** ... and are the only way to split it at bit `n`. */
  lemma {:induction false} LowShrUnique(v: nat, n: nat, q: nat, r: nat)
    requires r < Pow2(n) && v == r + Pow2(n) * q
    ensures Low(v, n) == r && Shr(v, n) == q
  {
    if n > 0 {
      MulDouble(q, Pow2(n - 1));
      LowShrUnique(v / 2, n - 1, q, r / 2);
    }
  }

  lemma {:induction false} ShrAdd(v: nat, m: nat, n: nat)
    ensures Shr(Shr(v, m), n) == Shr(v, m + n)
  {
    if m > 0 {
      ShrAdd(v / 2, m - 1, n);
    }
  }

  lemma {:induction false} LowAdd(v: nat, m: nat, n: nat)
    ensures Low(v, m + n) == Low(v, m) + Pow2(m) * Low(Shr(v, m), n)
  {
    if m > 0 {
      LowAdd(v / 2, m - 1, n);
      MulDouble(Low(Shr(v, m), n), Pow2(m - 1));
    }
  }

  lemma {:induction false} LowLow(v: nat, m: nat, n: nat)
    requires m <= n
    ensures Low(Low(v, n), m) == Low(v, m)
  {
    if m > 0 {
      LowLow(v / 2, m - 1, n - 1);
    }
  }

  lemma {:induction false} ShrOfLow(v: nat, m: nat, n: nat)
    ensures Shr(Low(v, m + n), m) == Low(Shr(v, m), n)
  {
    if m > 0 {
      ShrOfLow(v / 2, m - 1, n);
    }
  }

  lemma {:induction false} LowOfSmall(v: nat, n: nat)
    requires v < Pow2(n)
    ensures Low(v, n) == v && Shr(v, n) == 0
  {
    if n > 0 {
      LowOfSmall(v / 2, n - 1);
    }
  }

  lemma {:induction false} LowOfShl(x: nat, m: nat, n: nat)
    ensures Low(Shl(x, m), m + n) == Shl(Low(x, n), m)
  {
    if m > 0 {
      LowOfShl(x, m - 1, n);
    }
  }

  lemma {:induction false} ShrOfShl(x: nat, m: nat, n: nat)
    ensures Shr(Shl(x, m), m + n) == Shr(x, n)
  {
    if m > 0 {
      ShrOfShl(x, m - 1, n);
    }
  }

  // ---------------------------------------------------------------- bitwise or

  /** The bitwise `|` of two natural numbers. */
  function BitOr(a: nat, b: nat): nat
  {
    if a == 0 then b
    else if b == 0 then a
    else (if a % 2 == 1 || b % 2 == 1 then 1 else 0) + 2 * BitOr(a / 2, b / 2)
  }

  /** Or-ing a value in above the bits already present is an addition. */
  lemma {:induction false} OrAbove(a: nat, b: nat, n: nat)
    requires a < Pow2(n)
    ensures BitOr(a, Shl(b, n)) == a + Shl(b, n)
  {
    if n > 0 && a > 0 && Shl(b, n) > 0 {
      OrAbove(a / 2, b, n - 1);
    }
  }

  // ---------------------------------------------- a buffer in front of a stream

  /** The stream that continues with `rest` after the `n` buffered bits `buf`. */
  function Join(buf: nat, n: nat, rest: nat): nat {
    buf + Shl(rest, n)
  }

  /** Consuming buffered bits consumes the same bits of the whole stream. */
  lemma {:induction false} JoinSplit(buf: nat, n: nat, rest: nat, k: nat)
    requires k <= n && buf < Pow2(n)
    ensures Low(Join(buf, n, rest), k) == Low(buf, k)
    ensures Shr(Join(buf, n, rest), k) == Join(Shr(buf, k), n - k, rest)
    ensures Shr(buf, k) < Pow2(n - k)
  {
    if k > 0 {
      JoinSplit(buf / 2, n - 1, rest, k - 1);
    }
  }

  /** Moving the next byte of the rest into the buffer does not change the stream. */
  lemma JoinByte(buf: nat, n: nat, b: byte, rest: nat)
    requires buf < Pow2(n)
    ensures Join(buf, n, b + 256 * rest) == Join(buf + Shl(b, n), n + 8, rest)
    ensures buf + Shl(b, n) < Pow2(n + 8)
  {
    ShlSum(b, 256 * rest, n);
    ShlByte(rest);
    ShlAdd(rest, 8, n);
    ByteAbove(buf, n, b);
  }

  lemma ByteAbove(buf: nat, n: nat, b: byte)
    requires buf < Pow2(n)
    ensures buf + Shl(b, n) < Pow2(n + 8)
  {
    ShlOrder(b + 1, 256, n);
    ShlSum(b, 1, n);
    ShlPow2(8, n);
    ShlPow2(0, n);
    assert Pow2(8) == 256 && Pow2(0) == 1;
  }

  lemma ShlByte(v: nat)
    ensures Shl(v, 8) == 256 * v && Shl(v, 9) == 512 * v
  {
    assert Shl(v, 0) == v;
    assert Shl(v, 1) == 2 * v;
    assert Shl(v, 2) == 4 * v;
    assert Shl(v, 3) == 8 * v;
    assert Shl(v, 4) == 16 * v;
    assert Shl(v, 5) == 32 * v;
    assert Shl(v, 6) == 64 * v;
    assert Shl(v, 7) == 128 * v;
    assert Shl(v, 8) == 256 * v;
  }

  lemma {:induction false} ShlSum(a: nat, b: nat, n: nat)
    ensures Shl(a + b, n) == Shl(a, n) + Shl(b, n)
  {
    if n > 0 {
      ShlSum(a, b, n - 1);
    }
  }

  lemma {:induction false} ShlAdd(v: nat, m: nat, n: nat)
    ensures Shl(Shl(v, m), n) == Shl(v, m + n)
  {
    if n > 0 {
      ShlAdd(v, m, n - 1);
    }
  }

  lemma {:induction false} ShlZero(n: nat)
    ensures Shl(0, n) == 0
  {
    if n > 0 {
      ShlZero(n - 1);
    }
  }

  lemma {:induction false} ShrSmaller(v: nat, n: nat)
    ensures Shr(v, n) <= v
    ensures v > 0 && n > 0 ==> Shr(v, n) < v
  {
    if n > 0 {
      ShrSmaller(v / 2, n - 1);
    }
  }

  // -------------------------------------------------------------- bit reversal

  /** The low `n` bits of `v` in the opposite order. */
  function Rev(v: nat, n: nat): (r: nat)
    ensures r < Pow2(n)
  {
    if n == 0 then 0 else (if v % 2 == 1 then Pow2(n - 1) else 0) + Rev(v / 2, n - 1)
  }

  /** Reversal exchanges a low part of `m` bits with the high part above it. */
  lemma {:induction false} RevSplit(v: nat, m: nat, n: nat)
    ensures Rev(v, m + n) == Rev(Shr(v, m), n) + Pow2(n) * Rev(v, m)
  {
    if m > 0 {
      RevSplit(v / 2, m - 1, n);
      Pow2Add(m - 1, n);
      var p, lo := Pow2(m - 1), Rev(v / 2, m - 1);
      assert Pow2(n) * (p + lo) == p * Pow2(n) + Pow2(n) * lo;
    }
  }

  /** Only the low `n` bits matter. */
  lemma {:induction false} RevLow(v: nat, n: nat)
    ensures Rev(v, n) == Rev(Low(v, n), n)
  {
    if n > 0 {
      RevLow(v / 2, n - 1);
    }
  }

  /** The first `m` bits read are the top bits of any longer reversed window. */
  lemma RevPrefix(v: nat, m: nat, n: nat)
    ensures Shr(Rev(v, m + n), n) == Rev(v, m)
  {
    RevSplit(v, m, n);
    LowShrUnique(Rev(v, m + n), n, Rev(v, m), Rev(Shr(v, m), n));
  }

  lemma RevTopBit(bit: nat, rest: nat, n: nat)
    requires bit <= 1 && rest < Pow2(n)
    ensures Rev((if bit == 1 then Pow2(n) else 0) + rest, n + 1) == bit + 2 * Rev(rest, n)
  {
    var v := (if bit == 1 then Pow2(n) else 0) + rest;
    RevSplit(v, n, 1);
    LowShrUnique(v, n, bit, rest);
    RevLow(v, n);
    assert Rev(bit, 1) == bit && Pow2(1) == 2;
  }

  lemma {:induction false} RevInvolutive(v: nat, n: nat)
    ensures Rev(Rev(v, n), n) == Low(v, n)
  {
    if n > 0 {
      var rest := Rev(v / 2, n - 1);
      RevInvolutive(v / 2, n - 1);
      RevTopBit(v % 2, rest, n - 1);
    }
  }

  /** Two windows agree on their low bits exactly when their reversals agree. */
  lemma RevInjective(v: nat, w: nat, n: nat)
    ensures Rev(v, n) == Rev(w, n) <==> Low(v, n) == Low(w, n)
  {
    RevLow(v, n);
    RevLow(w, n);
    RevInvolutive(v, n);
    RevInvolutive(w, n);
  }

  // ------------------------------------------------- bytes as one little number

  /** The bit string formed by consecutive bytes. */
  function LE(s: seq<byte>): nat
  {
    if s == [] then 0 else s[0] + 256 * LE(s[1..])
  }

  lemma {:induction false} LEAppend(s: seq<byte>, t: seq<byte>)
    ensures LE(s + t) == LE(s) + Shl(LE(t), 8 * |s|)
  {
    if s == [] {
      assert s + t == t;
    } else {
      assert (s + t)[1..] == s[1..] + t;
      LEAppend(s[1..], t);
      ShlAdd(LE(t), 8 * |s[1..]|, 8);
      ShlByte(Shl(LE(t), 8 * |s[1..]|));
    }
  }

  /** The lowest `n` bytes of a bit string. */
  function TakeBytes(v: nat, n: nat): (s: seq<byte>)
    ensures |s| == n
    decreases n
  {
    if n == 0 then [] else [LowByte(v)] + TakeBytes(Shr(v, 8), n - 1)
  }

  function LowByte(v: nat): (b: byte)
    ensures b == Low(v, 8)
  {
    LowShr(v, 8);
    Pow2Values();
    Low(v, 8)
  }

  lemma ShrNothing(v: nat)
    ensures Shr(v, 0) == v
  {
  }

  lemma {:induction false} TakeBytesSnoc(v: nat, n: nat)
    ensures TakeBytes(v, n + 1) == TakeBytes(v, n) + [LowByte(Shr(v, 8 * n))]
    decreases n
  {
    hide Shr, LowByte;
    if n == 0 {
      ShrNothing(v);
      assert TakeBytes(Shr(v, 8), 0) == [];
    } else {
      TakeBytesSnoc(Shr(v, 8), n - 1);
      ShrAdd(v, 8, 8 * (n - 1));
    }
  }

  lemma {:induction false} LETakeDrop(s: seq<byte>, n: nat)
    requires n <= |s|
    ensures TakeBytes(LE(s), n) == s[..n] && Shr(LE(s), 8 * n) == LE(s[n..])
    decreases n
  {
    if n == 0 {
      assert s[0..] == s;
    } else {
      Pow2Values();
      LowShrUnique(LE(s), 8, LE(s[1..]), s[0]);
      LETakeDrop(s[1..], n - 1);
      ShrAdd(LE(s), 8, 8 * (n - 1));
      assert s[..n] == [s[0]] + s[1..][..n - 1];
      assert s[1..][n - 1..] == s[n..];
    }
  }
}
