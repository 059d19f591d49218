/** What the compressor writes is determined by the data and the quality alone: the lazy
    rule leaves one choice at every position, and the format one way to write it. */
module LazyMatching {
  import opened Bits
  import opened BitFields
  import opened InflateSpec
  import opened DeflateSpec
  import opened Deflater

  // --------------------------------------------------------- one token for a match

  lemma {:induction false} LengthsRise(i: nat, j: nat)
    requires i <= j < 29
    ensures LengthBase(i) <= LengthBase(j)
    decreases j
  {
    hide LengthBase, LengthExtra, LengthC, LengthEb, Pow2;
    if i < j {
      LengthsRise(i, j - 1);
      LengthRow(j - 1);
      LengthRow(j);
    }
  }

  lemma {:induction false} DistancesRise(i: nat, j: nat)
    requires i <= j < 30
    ensures DistBase(i) <= DistBase(j)
    decreases j
  {
    hide DistBase, DistExtra, DistC, DistEb, Pow2;
    if i < j {
      DistancesRise(i, j - 1);
      DistRow(j - 1);
      DistRow(j);
    }
  }

  /** The lengths of two symbols do not overlap, but for the extra way to write 258. */
  lemma LengthsMeet(j: nat)
    requires j < 28
    ensures LengthBase(j) + Pow2(LengthExtra(j)) == LengthBase(j + 1) + if j == 27 then 1 else 0
  {
    LowPowers();
    hide Pow2;
  }

  lemma DistancesMeet(j: nat)
    requires j < 29
    ensures DistBase(j) + Pow2(DistExtra(j)) == DistBase(j + 1)
  {
    hide DistBase, DistExtra, Pow2;
    if j < 16 {
      NearMeet(j);
    } else {
      FarMeet(j);
    }
  }

  lemma NearMeet(j: nat)
    requires j < 16
    ensures DistBase(j) + Pow2(DistExtra(j)) == DistBase(j + 1)
  {
    LowPowers();
    LargePowers();
    hide Pow2;
  }

  lemma FarMeet(j: nat)
    requires 16 <= j < 29
    ensures DistBase(j) + Pow2(DistExtra(j)) == DistBase(j + 1)
  {
    LargePowers();
    hide Pow2;
  }

  lemma LengthOrder(t: Token, u: Token)
    requires t.Match? && u.Match? && t.Valid() && u.Valid() && t.lsym < u.lsym
    requires u.Len() == 258 ==> t.lsym == 28
    ensures t.Len() < u.Len()
  {
    hide LengthBase, LengthExtra, Pow2;
    LengthsMeet(t.lsym);
    LengthsRise(t.lsym + 1, u.lsym);
    if t.lsym == 27 {
      LastLength();
    }
  }

  lemma LastLength()
    ensures LengthBase(28) == 258
  {
  }

  lemma DistanceOrder(t: Token, u: Token)
    requires t.Match? && u.Match? && t.Valid() && u.Valid() && t.dsym < u.dsym
    ensures t.Dist() < u.Dist()
  {
    hide DistBase, DistExtra, Pow2;
    DistancesMeet(t.dsym);
    DistancesRise(t.dsym + 1, u.dsym);
  }

  lemma OneToken(t: Token, u: Token)
    requires t.Match? && u.Match? && t.Valid() && u.Valid() && t.Len() == u.Len() && t.Dist() == u.Dist()
    requires t.Len() == 258 ==> t.lsym == u.lsym == 28
    ensures t == u
  {
    hide LengthBase, LengthExtra, DistBase, DistExtra, Pow2;
    if t.lsym < u.lsym {
      LengthOrder(t, u);
    } else if u.lsym < t.lsym {
      LengthOrder(u, t);
    }
    if t.dsym < u.dsym {
      DistanceOrder(t, u);
    } else if u.dsym < t.dsym {
      DistanceOrder(u, t);
    }
  }

  // -------------------------------------------------------- one choice at a position

  lemma OneLongest(data: seq<byte>, i: nat, hlist: seq<nat>, m: nat, n: nat)
    requires i <= |data| && AllBelow(hlist, i) && Longest(data, i, hlist, m) && Longest(data, i, hlist, n)
    ensures m == n
  {
    hide Agreement, InWindow;
  }

  lemma OneLatest(data: seq<byte>, i: nat, hlist: seq<nat>, n: nat, p: int, q: int)
    requires i <= |data| && AllBelow(hlist, i) && LatestAt(data, i, hlist, n, p) && LatestAt(data, i, hlist, n, q)
    ensures p == q
  {
    hide Agreement;
    var j: nat :| Latest(data, i, hlist, j, n) && hlist[j] == p;
    var k: nat :| Latest(data, i, hlist, k, n) && hlist[k] == q;
    assert j == k;
  }

  lemma OneChoice(data: seq<byte>, q: nat, before: seq<nat>, i: nat, t: Token, u: Token)
    requires t.Valid() && u.Valid() && LazyChoice(data, q, before, i, t) && LazyChoice(data, q, before, i, u)
    ensures t == u
  {
    hide Token.Valid, Token.Len, Token.Dist, Longest, LatestAt, HasMatch, Chain, AllBelow, Hash;
    if i + 3 < |data| {
      var here, next := Chain(data, before, Hash(data, i), q), Chain(data, before + [i], Hash(data, i + 1), q);
      if t.Match? && u.Match? {
        OneLongest(data, i, here, t.Len(), u.Len());
        OneLatest(data, i, here, t.Len(), i - t.Dist(), i - u.Dist());
        OneToken(t, u);
      } else if t.Match? {
        NotOutdone(data, i, here, next, t.Len());
      } else if u.Match? {
        NotOutdone(data, i, here, next, u.Len());
      }
    }
  }

  /** A match that is kept leaves no room for a literal. */
  lemma NotOutdone(data: seq<byte>, i: nat, here: seq<nat>, next: seq<nat>, n: nat)
    requires i < |data| && AllBelow(here, i) && AllBelow(next, i + 1)
    requires Longest(data, i, here, n) && !HasMatch(data, i + 1, next, n + 1)
    ensures HasMatch(data, i, here, 3) && forall m: nat :: !Outdone(data, i, here, next, m)
  {
    hide Agreement, InWindow;
    forall m: nat ensures !Outdone(data, i, here, next, m) {
      if Outdone(data, i, here, next, m) {
        OneLongest(data, i, here, m, n);
      }
    }
  }

  // ----------------------------------------------------------- one parse of the data

  lemma {:induction false} SameStart(data: seq<byte>, q: nat, a: seq<Token>, sa: seq<nat>, b: seq<Token>, sb: seq<nat>, k: nat)
    requires LazyTokens(data, q, a, sa) && LazyTokens(data, q, b, sb) && k <= |a| && k <= |b|
    ensures a[..k] == b[..k] && sa[..k + 1] == sb[..k + 1]
  {
    hide LazyChoice, Token.Valid, Token.Len;
    if k > 0 {
      SameStart(data, q, a, sa, b, sb, k - 1);
      assert ChosenAt(data, q, a, sa, k - 1) && ChosenAt(data, q, b, sb, k - 1);
      assert sa[..k][k - 1] == sb[..k][k - 1] && sa[..k - 1] == sa[..k][..k - 1] && sb[..k - 1] == sb[..k][..k - 1];
      OneChoice(data, q, sa[..k - 1], sa[k - 1], a[k - 1], b[k - 1]);
      assert a[..k] == a[..k - 1] + [a[k - 1]] && b[..k] == b[..k - 1] + [b[k - 1]];
      assert sa[..k + 1] == sa[..k] + [sa[k]] && sb[..k + 1] == sb[..k] + [sb[k]];
    }
  }

  lemma NotLonger(data: seq<byte>, q: nat, a: seq<Token>, sa: seq<nat>, b: seq<Token>, sb: seq<nat>)
    requires LazyTokens(data, q, a, sa) && LazyTokens(data, q, b, sb) && sa[|a|] == sb[|b|] == |data|
    ensures |b| <= |a|
  {
    hide LazyChoice, ChosenAt;
    if |a| < |b| {
      SameStart(data, q, a, sa, b, sb, |a|);
      assert sa[..|a| + 1][|a|] == sb[..|a| + 1][|a|];
      ChosenInside(data, q, b, sb, |a|);
    }
  }

  lemma ChosenInside(data: seq<byte>, q: nat, tokens: seq<Token>, starts: seq<nat>, k: nat)
    requires ChosenAt(data, q, tokens, starts, k)
    ensures k < |starts| && starts[k] < |data|
  {
  }

  /** The data and the quality determine the tokens. */
  lemma OneParse(data: seq<byte>, q: nat, a: seq<Token>, b: seq<Token>)
    requires LazyParse(data, q, a) && LazyParse(data, q, b)
    ensures a == b
  {
    hide LazyTokens;
    var sa :| LazyTokens(data, q, a, sa) && sa[|a|] == |data|;
    var sb :| LazyTokens(data, q, b, sb) && sb[|b|] == |data|;
    NotLonger(data, q, a, sa, b, sb);
    NotLonger(data, q, b, sb, a, sa);
    SameStart(data, q, a, sa, b, sb, |a|);
    assert a[..|a|] == a && b[..|b|] == b;
  }

  lemma {:induction false} SameBytes(a: seq<byte>, b: seq<byte>)
    requires |a| == |b| && LE(a) == LE(b)
    ensures a == b
    decreases |a|
  {
    if a != [] {
      var x, y := LE(a[1..]), LE(b[1..]);
      assert a[0] as int + 256 * x == b[0] as int + 256 * y;
      SameBytes(a[1..], b[1..]);
      assert a == [a[0]] + a[1..] && b == [b[0]] + b[1..];
    }
  }

  /** ... and so the whole stream. */
  lemma OneOutput(data: seq<byte>, q: nat, ta: seq<Token>, da: seq<byte>, a: seq<byte>, tb: seq<Token>, db: seq<byte>,
                  b: seq<byte>)
    requires IsCompressed(data, ta, da, a) && LazyParse(data, q, ta)
    requires IsCompressed(data, tb, db, b) && LazyParse(data, q, tb)
    ensures a == b
  {
    hide Expands, StoredBlocks, AdlerBytes, FixedFields, LE, Stream, Width, LazyParse;
    OneParse(data, q, ta, tb);
    SameBytes(da, db);
  }
}
