/** The Adler-32 checksum of sections 2.2 and 8.2 of RFC 1950. */
module Adler {
  import opened Bits

  const MODULUS: nat := 65521
  const CHUNK: nat := 5552

  function Reduced(v: nat): (r: nat)
    ensures r < MODULUS
  {
    v % MODULUS
  }

  function Wrap32(v: nat): (r: nat)
    ensures v < UINT32_MODULUS ==> r == v
  {
    v % UINT32_MODULUS
  }

  /** `s1`: one plus the sum of all bytes, modulo 65521. */
  function AdlerA(data: seq<byte>): (r: nat)
    ensures r < MODULUS
  {
    if data == [] then 1 else Reduced(AdlerA(data[..|data| - 1]) + data[|data| - 1])
  }

  /** `s2`: the sum of every intermediate `s1`, modulo 65521. */
  function AdlerB(data: seq<byte>): (r: nat)
    ensures r < MODULUS
  {
    if data == [] then 0 else Reduced(AdlerB(data[..|data| - 1]) + AdlerA(data))
  }

  lemma AdlerStep(data: seq<byte>, n: nat)
    requires n < |data|
    ensures AdlerA(data[..n + 1]) == Reduced(AdlerA(data[..n]) + data[n])
    ensures AdlerB(data[..n + 1]) == Reduced(AdlerB(data[..n]) + AdlerA(data[..n + 1]))
  {
    var d := data[..n + 1];
    assert d[..|d| - 1] == data[..n];
  }

  function ByteSum(data: seq<byte>): nat {
    if data == [] then 0 else data[0] + ByteSum(data[1..])
  }

  /** The first byte counted |data| times, the next once less, and the last one once. */
  function WeightedSum(data: seq<byte>): nat {
    if data == [] then 0 else |data| * data[0] + WeightedSum(data[1..])
  }

  lemma {:induction false} SumsSnoc(data: seq<byte>, b: byte)
    ensures ByteSum(data + [b]) == ByteSum(data) + b
    ensures WeightedSum(data + [b]) == WeightedSum(data) + ByteSum(data) + b
  {
    if data == [] {
      assert [] + [b] == [b];
      assert ([b])[1..] == [];
    } else {
      assert (data + [b])[1..] == data[1..] + [b];
      SumsSnoc(data[1..], b);
      assert (|data| + 1) * data[0] == |data| * data[0] + data[0];
    }
  }

  lemma ReducedSum(x: nat, y: nat, v: nat)
    requires x == Reduced(v)
    ensures Reduced(x + y) == Reduced(v + y)
  {
    var q := v / MODULUS;
    assert v + y == x + y + q * MODULUS;
    MultipleDropped(x + y, q);
  }

  lemma {:induction false} MultipleDropped(v: nat, q: nat)
    ensures Reduced(v + q * MODULUS) == Reduced(v)
  {
    if q > 0 {
      MultipleDropped(v, q - 1);
      assert (v + q * MODULUS) == (v + (q - 1) * MODULUS) + MODULUS;
    }
  }

  /** The two sums in closed form. */
  lemma {:induction false} ClosedSums(data: seq<byte>)
    ensures AdlerA(data) == (1 + ByteSum(data)) % MODULUS
    ensures AdlerB(data) == (|data| + WeightedSum(data)) % MODULUS
  {
    if data != [] {
      var front, b := data[..|data| - 1], data[|data| - 1];
      assert data == front + [b];
      ClosedSums(front);
      SumsSnoc(front, b);
      ReducedSum(AdlerA(front), b, 1 + ByteSum(front));
      ReducedSum(AdlerB(front), AdlerA(data), |front| + WeightedSum(front));
      ReducedSum(AdlerA(data), |front| + WeightedSum(front), 1 + ByteSum(data));
    }
  }

  /** 1 + 2 + ... + n. */
  function Triangle(n: nat): nat {
    if n == 0 then 0 else Triangle(n - 1) + n
  }

  lemma {:induction false} TriangleClosed(n: nat)
    ensures 2 * Triangle(n) == n * (n + 1)
  {
    if n > 0 {
      TriangleClosed(n - 1);
    }
  }

  lemma {:induction false} TriangleMonotone(m: nat, n: nat)
    requires m <= n
    ensures Triangle(m) <= Triangle(n)
  {
    if m < n {
      TriangleMonotone(m, n - 1);
    }
  }

  /** The largest value the second sum can reach within one chunk fits 32 bits. */
  lemma ChunkFits(i: nat)
    requires i <= CHUNK
    ensures 65520 * (i + 1) + 255 * Triangle(i) < UINT32_MODULUS
  {
    TriangleMonotone(i, CHUNK);
    TriangleClosed(CHUNK);
  }

  /** Taking remainders late gives the same sums. */
  lemma SumStep(s1: nat, s2: nat, i: nat, d: byte)
    requires i < CHUNK && s1 <= 65520 + 255 * i && s2 <= 65520 * (i + 1) + 255 * Triangle(i)
    ensures s1 + d <= 65520 + 255 * (i + 1) < UINT32_MODULUS
    ensures s2 + (s1 + d) <= 65520 * (i + 2) + 255 * Triangle(i + 1) < UINT32_MODULUS
    ensures Reduced(s1 + d) == Reduced(Reduced(s1) + d)
    ensures Reduced(s2 + (s1 + d)) == Reduced(Reduced(s2) + Reduced(s1 + d))
  {
    hide Reduced;
    ChunkFits(i + 1);
    LateRemainder(s1, d);
    LateRemainder(s2, s1 + d);
    LateRemainder((s1 + d), Reduced(s2));
  }

  lemma LateRemainder(a: nat, b: nat)
    ensures Reduced(a + b) == Reduced(Reduced(a) + b)
  {
  }

  lemma ChunkStart(data: seq<byte>, j: nat)
    requires j <= |data|
    ensures Reduced(AdlerA(data[..j])) == AdlerA(data[..j]) <= 65520
    ensures Reduced(AdlerB(data[..j])) == AdlerB(data[..j]) <= 65520 && Triangle(0) == 0
  {
  }

  /** Adds up to 5552 bytes before taking remainders; the 32-bit sums never wrap. */
  method AddChunk(data: seq<byte>, j: nat, blocklen: nat, a: nat, b: nat) returns (s1: nat, s2: nat)
    requires blocklen <= CHUNK && j + blocklen <= |data|
    requires a == AdlerA(data[..j]) && b == AdlerB(data[..j])
    ensures s1 == AdlerA(data[..j + blocklen]) && s2 == AdlerB(data[..j + blocklen])
  {
    hide AdlerA, AdlerB, Triangle, Reduced, Wrap32;
    s1, s2 := a, b;
    ChunkStart(data, j);
    var i := 0;
    while i < blocklen
      invariant 0 <= i <= blocklen
      invariant s1 <= 65520 + 255 * i && s2 <= 65520 * (i + 1) + 255 * Triangle(i)
      invariant Reduced(s1) == AdlerA(data[..j + i]) && Reduced(s2) == AdlerB(data[..j + i])
    {
      AdlerStep(data, j + i);
      SumStep(s1, s2, i, data[j + i]);
      s1 := Wrap32(s1 + data[j + i]);
      s2 := Wrap32(s2 + s1);
      i := i + 1;
    }
    s1 := Reduced(s1);
    s2 := Reduced(s2);
  }

  /** The chunked loop equals the byte-by-byte definition. Only the first chunk may
      be empty, so the loop ends. */
  method Adler32(data: seq<byte>) returns (s1: nat, s2: nat)
    ensures s1 == AdlerA(data) && s2 == AdlerB(data)
  {
    s1, s2 := 1, 0;
    var blocklen, j := |data| % CHUNK, 0;
    ghost var chunks: int := |data| / CHUNK;
    while j < |data|
      invariant 0 <= j <= |data| && blocklen <= CHUNK
      invariant j > 0 ==> blocklen == CHUNK
      invariant |data| - j - blocklen == CHUNK * chunks
      invariant s1 == AdlerA(data[..j]) && s2 == AdlerB(data[..j])
      decreases |data| - j, CHUNK - blocklen
    {
      s1, s2 := AddChunk(data, j, blocklen, s1, s2);
      j := j + blocklen;
      blocklen := CHUNK;
      chunks := chunks - 1;
    }
    assert data[..j] == data;
  }
}
