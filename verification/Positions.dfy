/** Positions of grid cells in flat buffers. */
module Positions {
  import opened Bits

  /** Position (i, j) in rows of length `n`. */
  function Flat(i: nat, j: nat, n: nat): nat {
    n * i + j
  }

  lemma FlatBound(i: nat, j: nat, m: nat, n: nat)
    requires i < m && j < n
    ensures Flat(i, j, n) < n * m
  {
    ScaledRow(n, i + 1, m);
  }

  lemma ScaledRow(n: nat, i: nat, m: nat)
    requires i <= m
    ensures n * i <= n * m && n * i + n == n * (i + 1)
  {
    MulSign(n, m - i);
    assert n * (m - i) == n * m - n * i;
  }

  lemma FlatInjective(i: nat, j: nat, i': nat, j': nat, n: nat)
    requires j < n && j' < n && Flat(i, j, n) == Flat(i', j', n)
    ensures i == i' && j == j'
  {
    var k := i - i';
    assert n * k == j' - j;
    MulSign(n, k);
  }

  /** Every position below `n * m` is that of exactly one pair. */
  lemma {:induction false} FlatSurjective(k: nat, m: nat, n: nat) returns (i: nat, j: nat)
    requires k < n * m
    ensures i < m && j < n && Flat(i, j, n) == k
    decreases m
  {
    ScaledRow(n, m - 1, m);
    if k < n * (m - 1) {
      i, j := FlatSurjective(k, m - 1, n);
    } else {
      i, j := m - 1, k - n * (m - 1);
    }
  }

  lemma FlatShift(i: nat, j: nat, k: nat, n: nat)
    ensures Flat(i + k, j, n) == n * k + Flat(i, j, n)
  {
  }

  lemma FlatDivMod(i: nat, j: nat, n: nat)
    requires j < n
    ensures Flat(i, j, n) / n == i && Flat(i, j, n) % n == j
  {
    var k := Flat(i, j, n);
    DivModParts(k, n);
    FlatInjective(i, j, k / n, k % n, n);
  }

  lemma DivModParts(k: nat, n: nat)
    requires n > 0
    ensures k == n * (k / n) + k % n && k % n < n
  {
  }

  /** The row and column of position `k` in a plane. */
  function RowColumn(k: nat, w: nat, h: nat): (r: (nat, nat))
    requires k < w * h
    ensures r.0 < h && r.1 < w && Flat(r.0, r.1, w) == k
  {
    PlaneInside(k, w, h);
    (k / w, k % w)
  }

  lemma PlaneInside(k: nat, w: nat, h: nat)
    requires k < w * h
    ensures w > 0 && k / w < h && k % w < w && Flat(k / w, k % w, w) == k
  {
    var y, x := FlatSurjective(k, h, w);
    FlatDivMod(y, x, w);
  }

  /** Where the channel-interleaved buffers keep value (y, x, c). */
  function Cell(w: nat, n: nat, y: nat, x: nat, c: nat): nat {
    Flat(Flat(y, x, w), c, n)
  }

  lemma CellInside(w: nat, h: nat, n: nat, y: nat, x: nat, c: nat)
    requires y < h && x < w && c < n
    ensures Cell(w, n, y, x, c) < n * (w * h)
  {
    FlatBound(y, x, h, w);
    FlatBound(Flat(y, x, w), c, w * h, n);
  }

  lemma CellInjective(w: nat, n: nat, y: nat, x: nat, c: nat, y': nat, x': nat, c': nat)
    requires x < w && c < n && x' < w && c' < n && Cell(w, n, y, x, c) == Cell(w, n, y', x', c')
    ensures y == y' && x == x' && c == c'
  {
    FlatInjective(Flat(y, x, w), c, Flat(y', x', w), c', n);
    FlatInjective(y, x, y', x', w);
  }

  /** Every byte of a buffer is some value's. */
  lemma CellSurjective(k: nat, w: nat, h: nat, n: nat) returns (y: nat, x: nat, c: nat)
    requires k < n * (w * h)
    ensures y < h && x < w && c < n && Cell(w, n, y, x, c) == k
  {
    var i;
    i, c := FlatSurjective(k, w * h, n);
    y, x := FlatSurjective(i, h, w);
  }
}
