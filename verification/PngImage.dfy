/** Filtered image data: the writer's choice of filters and the reader's reconstruction
    of whole images. */
module PngImage {
  import opened Bits
  import opened Wrappers
  import opened PngFilter

  // -------------------------------------------------------- filtered image data

  predicate Uniform(rows: seq<seq<byte>>, rowBytes: nat) {
    forall i :: 0 <= i < |rows| ==> |rows[i]| == rowBytes
  }

  predicate FilterTypes(types: seq<byte>, h: nat) {
    |types| == h && forall i :: 0 <= i < h ==> types[i] <= 4
  }

  /** A filter byte and a filtered line for every row, `up` being the row above. */
  function FilteredRows(rows: seq<seq<byte>>, types: seq<byte>, up: seq<byte>, n: nat): seq<byte>
    requires Uniform(rows, |up|) && |types| == |rows| && n > 0
  {
    if rows == [] then []
    else [types[0]] + Filtered(types[0], rows[0], up, n) + FilteredRows(rows[1..], types[1..], rows[0], n)
  }

  function Concat(rows: seq<seq<byte>>): seq<byte> {
    if rows == [] then [] else rows[0] + Concat(rows[1..])
  }

  /** What reading `k` rows of filtered data yields; nothing when a filter byte is bad. */
  function ReadRows(raw: seq<byte>, up: seq<byte>, n: nat, k: nat): (r: Option<seq<byte>>)
    requires n > 0
    ensures r.Some? ==> |r.value| == |up| * k
    decreases k
  {
    if k == 0 then Some([])
    else if |raw| <= |up| || raw[0] > 4 then None
    else
      var row := Unfiltered(raw[0], raw[1..|up| + 1], up, n);
      var rest :- ReadRows(raw[|up| + 1..], row, n, k - 1);
      ScaledStep(|up|, k);
      Some(row + rest)
  }

  lemma ScaledStep(n: nat, k: nat)
    requires k > 0
    ensures n + n * (k - 1) == n * k
  {
  }

  /** Whichever filter each row picked, reading restores the rows; data after the last
      row is not looked at. */
  lemma {:induction false} ReadFiltered(rows: seq<seq<byte>>, types: seq<byte>, up: seq<byte>, n: nat, extra: seq<byte>)
    requires Uniform(rows, |up|) && FilterTypes(types, |rows|) && n > 0
    ensures ReadRows(FilteredRows(rows, types, up, n) + extra, up, n, |rows|) == Some(Concat(rows))
    decreases |rows|
  {
    hide Filtered, Unfiltered;
    if rows != [] {
      var f := Filtered(types[0], rows[0], up, n);
      var rest := FilteredRows(rows[1..], types[1..], rows[0], n);
      FirstLine(types[0], f, rest, extra);
      UnfilterFiltered(types[0], rows[0], up, n);
      ReadFiltered(rows[1..], types[1..], rows[0], n, extra);
    }
  }

  lemma FirstLine(t: byte, f: seq<byte>, rest: seq<byte>, extra: seq<byte>)
    ensures var raw := [t] + f + rest + extra;
      |raw| > |f| && raw[0] == t && raw[1..|f| + 1] == f && raw[|f| + 1..] == rest + extra
  {
  }

  lemma {:induction false} FilteredRowsSnoc(rows: seq<seq<byte>>, types: seq<byte>, up: seq<byte>, n: nat, row: seq<byte>, t: byte)
    requires Uniform(rows, |up|) && |types| == |rows| && n > 0 && |row| == |up|
    ensures FilteredRows(rows + [row], types + [t], up, n)
      == FilteredRows(rows, types, up, n) + ([t] + Filtered(t, row, if rows == [] then up else rows[|rows| - 1], n))
    decreases |rows|
  {
    var all, ts := rows + [row], types + [t];
    if rows == [] {
      assert FilteredRows(all[1..], ts[1..], all[0], n) == [];
    } else {
      assert all[1..] == rows[1..] + [row] && ts[1..] == types[1..] + [t];
      FilteredRowsSnoc(rows[1..], types[1..], rows[0], n, row, t);
    }
  }

  // ------------------------------------------------------------------ the writer

  /** The rows of the picture in file order. */
  function Rows(s: Source, k: nat): (rows: seq<seq<byte>>)
    requires s.Valid() && k <= s.h
    ensures |rows| == k && Uniform(rows, s.RowBytes())
    ensures forall y :: 0 <= y < k ==> rows[y] == s.Row(y)
  {
    seq(k, y requires 0 <= y < k => s.Row(y))
  }

  /** Sum of the magnitudes of the line's bytes taken as signed numbers. */
  function Cost(line: seq<byte>): nat {
    if line == [] then 0
    else Cost(line[..|line| - 1]) + SignedMagnitude(line[|line| - 1])
  }

  function SignedMagnitude(b: byte): nat {
    if b < 128 then b else 256 - b
  }

  /** It is the magnitude of the signed number whose low eight bits are the byte. */
  lemma SignedIs(b: byte, v: int)
    requires -128 <= v <= 127 && UChar(v) == b
    ensures SignedMagnitude(b) == Abs(v)
  {
  }

  method Estimate(line: array<byte>) returns (est: nat)
    ensures est == Cost(line[..])
  {
    est := 0;
    var i := 0;
    while i < line.Length
      invariant i <= line.Length && est == Cost(line[..i])
    {
      assert line[..i + 1][..i] == line[..i];
      est := est + SignedMagnitude(line[i]);
      i := i + 1;
    }
    assert line[..i] == line[..];
  }

  function CostOf(s: Source, y: nat, t: nat): nat
    requires s.Valid() && y < s.h
  {
    Cost(Filtered(t, s.Row(y), s.Above(y), s.n))
  }

  /** The cheapest filter of a row, the first among equals. */
  ghost predicate Cheapest(s: Source, y: nat, t: nat)
    requires s.Valid() && y < s.h
  {
    && t <= 4
    && (forall u :: 0 <= u <= 4 && CostOf(s, y, u) < 0x7FFF_FFFF ==> CostOf(s, y, t) <= CostOf(s, y, u))
    && (forall u :: 0 <= u < t ==> CostOf(s, y, t) < CostOf(s, y, u))
  }

  /** Tries all five filters on a row and leaves the cheapest line in the buffer. */
  method BestLine(s: Source, y: nat, line: array<byte>) returns (filterType: nat)
    requires s.Valid() && y < s.h && line.Length == s.RowBytes()
    modifies line
    ensures Cheapest(s, y, filterType)
    ensures line[..] == Filtered(filterType, s.Row(y), s.Above(y), s.n)
  {
    var bestFilter, bestVal := 0, 0x7FFF_FFFF;
    filterType := 0;
    while filterType < 5
      invariant filterType <= 5 && bestFilter <= 4 && bestVal <= 0x7FFF_FFFF
      invariant bestVal < 0x7FFF_FFFF ==> bestFilter < filterType && bestVal == CostOf(s, y, bestFilter)
      invariant bestVal == 0x7FFF_FFFF ==> bestFilter == 0
      invariant forall u :: 0 <= u < filterType ==> bestVal <= CostOf(s, y, u)
      invariant forall u :: 0 <= u < bestFilter ==> bestVal < CostOf(s, y, u)
    {
      EncodePngLine(s, y, filterType, line);
      var est := Estimate(line);
      assert est == CostOf(s, y, filterType);
      if est < bestVal {
        bestVal := est;
        bestFilter := filterType;
      }
      filterType := filterType + 1;
    }
    if filterType != bestFilter {
      EncodePngLine(s, y, bestFilter, line);
      filterType := bestFilter;
    }
  }

  /** The filter each row gets: the forced one, or the cheapest. */
  ghost predicate Chosen(s: Source, force: int, types: seq<byte>)
    requires s.Valid()
  {
    && FilterTypes(types, |types|) && |types| <= s.h
    && forall y :: 0 <= y < |types| ==> if 0 <= force < 5 then types[y] == force else Cheapest(s, y, types[y])
  }

  /** The data handed to the compressor. */
  method FilterImage(s: Source, forceFilter: int) returns (filt: seq<byte>, ghost types: seq<byte>)
    requires s.Valid()
    ensures |types| == s.h && Chosen(s, forceFilter, types)
    ensures filt == FilteredRows(Rows(s, s.h), types, Zeros(s.RowBytes()), s.n)
  {
    hide Cheapest, Filtered, FilteredRows, Zeros, Rows, Source.Above;
    var force := if forceFilter >= 5 then -1 else forceFilter;
    var line := new byte[s.RowBytes()](_ => 0);
    filt, types := [], [];
    assert FilteredRows(Rows(s, 0), [], Zeros(s.RowBytes()), s.n) == [] by {
      NoRows(s);
    }
    var j := 0;
    while j < s.h
      invariant j <= s.h && |types| == j && Chosen(s, forceFilter, types)
      invariant filt == FilteredRows(Rows(s, j), types, Zeros(s.RowBytes()), s.n)
    {
      var filterType: nat;
      if force > -1 {
        filterType := force;
        EncodePngLine(s, j, force, line);
      } else {
        filterType := BestLine(s, j, line);
        assert filterType <= 4 by {
          CheapestIsFilter(s, j, filterType);
        }
      }
      NextRow(s, types, j, filterType);
      filt := filt + ([filterType] + line[..]);
      types := types + [filterType];
      j := j + 1;
    }
  }

  lemma NextRow(s: Source, types: seq<byte>, j: nat, t: byte)
    requires s.Valid() && j < s.h && |types| == j
    ensures FilteredRows(Rows(s, j + 1), types + [t], Zeros(s.RowBytes()), s.n)
      == FilteredRows(Rows(s, j), types, Zeros(s.RowBytes()), s.n) + ([t] + Filtered(t, s.Row(j), s.Above(j), s.n))
  {
    hide FilteredRows, Filtered, Zeros, Source.Row;
    FilteredRowsSnoc(Rows(s, j), types, Zeros(s.RowBytes()), s.n, s.Row(j), t);
    assert Rows(s, j + 1) == Rows(s, j) + [s.Row(j)];
  }

  lemma NoRows(s: Source)
    requires s.Valid()
    ensures FilteredRows(Rows(s, 0), [], Zeros(s.RowBytes()), s.n) == []
  {
  }

  lemma CheapestIsFilter(s: Source, y: nat, t: nat)
    requires s.Valid() && y < s.h && Cheapest(s, y, t)
    ensures t <= 4
  {
  }

  lemma {:induction false} FilteredRowsLength(rows: seq<seq<byte>>, types: seq<byte>, up: seq<byte>, n: nat)
    requires Uniform(rows, |up|) && |types| == |rows| && n > 0
    ensures |FilteredRows(rows, types, up, n)| == (|up| + 1) * |rows|
    decreases |rows|
  {
    if rows != [] {
      FilteredRowsLength(rows[1..], types[1..], rows[0], n);
      ScaledStep(|up| + 1, |rows|);
    }
  }

  // ------------------------------------------------------------------ the reader

  /** The filters that never look at the row above; 5 is the average filter of the first row. */
  function FirstRowFilter(t: nat): nat {
    match t
    case 0 => 0
    case 1 => 1
    case 2 => 0
    case 3 => 5
    case _ => 1
  }

  /** The reader's cases for a byte of the first pixel and for a later byte. */
  function DecodedFirst(filter: nat, v: byte, above: byte): byte {
    match filter
    case 2 => UChar(v + above)
    case 3 => UChar(v + above / 2)
    case 4 => UChar(v + above)
    case _ => v
  }

  function DecodedLater(filter: nat, v: byte, left: byte, above: byte, corner: byte): byte {
    match filter
    case 0 => v
    case 1 => UChar(v + left)
    case 2 => UChar(v + above)
    case 3 => UChar(v + (above as int + left as int) / 2)
    case 4 => UChar(v + Paeth(left, above, corner))
    case _ => UChar(v + left / 2)
  }

  /** The row above is in the buffer, or there is none and the filter does not need it. */
  predicate Usable(filter: nat, t: nat, up: seq<byte>, prior: seq<byte>) {
    t <= 4 && ((filter == t && up == prior) || (filter == FirstRowFilter(t) && up == Zeros(|up|)))
  }

  lemma DecodedFirstIs(filter: nat, t: nat, up: seq<byte>, prior: seq<byte>, n: nat, k: nat, v: byte, above: byte)
    requires Usable(filter, t, up, prior) && k < n && k < |up| == |prior|
    requires 2 <= filter <= 4 ==> above == prior[k]
    ensures DecodedFirst(filter, v, above) == UChar(v + Predict(t, 0, up[k], 0))
  {
  }

  lemma DecodedLaterIs(filter: nat, t: nat, up: seq<byte>, prior: seq<byte>, n: nat, k: nat, v: byte, left: byte, above: byte, corner: byte)
    requires Usable(filter, t, up, prior) && 0 < n <= k < |up| == |prior|
    requires 2 <= filter <= 4 ==> above == prior[k]
    requires filter == 4 ==> corner == prior[k - n]
    ensures DecodedLater(filter, v, left, above, corner) == UChar(v + Predict(t, left, up[k], up[k - n]))
  {
    if filter == t && up == prior {
      hide Paeth, PaethReference;
      PaethForms(left, above, corner);
    } else {
      hide Paeth;
      assert up[k] == 0 && up[k - n] == 0;
    }
  }

  lemma {:induction false} UnfilteredNext(t: nat, line: seq<byte>, up: seq<byte>, n: nat, k: nat)
    requires k < |line| <= |up| && n > 0
    ensures var row := Unfiltered(t, line[..k], up, n);
      Unfiltered(t, line[..k + 1], up, n)
        == row + [UChar(line[k] + Predict(t, Left(row, k, n), up[k], Left(up, k, n)))]
  {
    assert line[..k + 1][..k] == line[..k];
  }

  /** The first pixel of a row has no pixel to its left. */
  method UnfilterFirstPixel(buf: array<byte>, cur: nat, prior: nat, line: seq<byte>, filter: nat, n: nat, ghost t: nat, ghost up: seq<byte>)
    requires 0 < n <= |line| == |up| && cur + |up| <= buf.Length && prior + |up| <= buf.Length
    requires cur + |up| <= prior || prior + |up| <= cur
    requires Usable(filter, t, up, buf[prior..prior + |up|])
    modifies buf
    ensures buf[prior..prior + |up|] == old(buf[prior..prior + |up|])
    ensures buf[cur..cur + n] == Unfiltered(t, line[..n], up, n)
  {
    hide DecodedFirst, Predict, Usable, UChar;
    ghost var above0 := buf[prior..prior + |up|];
    var k := 0;
    while k < n
      invariant k <= n && buf[prior..prior + |up|] == above0
      invariant buf[cur..cur + k] == Unfiltered(t, line[..k], up, n)
    {
      var above := if 2 <= filter <= 4 then buf[prior + k] else 0;
      DecodedFirstIs(filter, t, up, above0, n, k, line[k], above);
      UnfilteredNext(t, line, up, n, k);
      buf[cur + k] := DecodedFirst(filter, line[k], above);
      k := k + 1;
    }
  }

  /** Reconstructs one row at `cur` from the row at `prior` of the same buffer. */
  method UnfilterRow(buf: array<byte>, cur: nat, prior: nat, line: seq<byte>, filter: nat, n: nat, ghost t: nat, ghost up: seq<byte>)
    requires 0 < n <= |line| == |up| && cur + |up| <= buf.Length && prior + |up| <= buf.Length
    requires cur + |up| <= prior || prior + |up| <= cur
    requires Usable(filter, t, up, buf[prior..prior + |up|])
    modifies buf
    ensures buf[cur..cur + |up|] == Unfiltered(t, line, up, n)
  {
    hide DecodedLater, Unfiltered, Predict, Usable, UChar;
    ghost var above0 := buf[prior..prior + |up|];
    UnfilterFirstPixel(buf, cur, prior, line, filter, n, t, up);
    var k := n;
    while k < |line|
      invariant n <= k <= |line| && buf[prior..prior + |up|] == above0
      invariant buf[cur..cur + k] == Unfiltered(t, line[..k], up, n)
    {
      var above := if 2 <= filter <= 4 then buf[prior + k] else 0;
      var corner := if filter == 4 then buf[prior + k - n] else 0;
      var left := buf[cur + k - n];
      assert left == buf[cur..cur + k][k - n];
      DecodedLaterIs(filter, t, up, above0, n, k, line[k], left, above, corner);
      UnfilteredNext(t, line, up, n, k);
      buf[cur + k] := DecodedLater(filter, line[k], left, above, corner);
      k := k + 1;
    }
    assert line[..k] == line;
  }

  /** The size checks made before any row is read. */
  predicate SizesValid(x: nat, y: nat, n: nat) {
    && x * y <= INT_MAX && x * y * n <= INT_MAX
    && n * x <= INT_MAX && n * x * 8 + 7 <= INT_MAX
    && (x * n) * y + x * n <= INT_MAX && x * n * 2 <= INT_MAX
  }

  /** What the reader makes of decompressed data. */
  function RawImage(raw: seq<byte>, x: nat, y: nat, n: nat): Option<seq<byte>>
    requires n > 0
  {
    if !SizesValid(x, y, n) || |raw| < (x * n + 1) * y then None
    else ReadRows(raw, Zeros(x * n), n, y)
  }

  function Prepend(done: seq<byte>, rest: Option<seq<byte>>): Option<seq<byte>> {
    if rest == None then None else Some(done + rest.value)
  }

  /** The bytes of `k` rows of `n` bytes. */
  function Span(n: nat, k: nat): nat {
    n * k
  }

  lemma SpanStep(n: nat, y: nat, j: nat)
    requires j < y
    ensures Span(n, j) + n == Span(n, j + 1) <= Span(n, y)
  {
    MulSign(n, y - j - 1);
    assert n * (y - j - 1) == n * y - n * (j + 1);
  }

  lemma ReadStep(raw: seq<byte>, pos: nat, up: seq<byte>, n: nat, k: nat)
    requires n > 0 && k > 0 && pos + 1 + |up| <= |raw|
    ensures raw[pos] > 4 ==> ReadRows(raw[pos..], up, n, k) == None
    ensures raw[pos] <= 4 ==>
      var row := Unfiltered(raw[pos], raw[pos + 1..pos + 1 + |up|], up, n);
      ReadRows(raw[pos..], up, n, k) == Prepend(row, ReadRows(raw[pos + 1 + |up|..], row, n, k - 1))
  {
    hide Unfiltered;
    assert raw[pos..][1..|up| + 1] == raw[pos + 1..pos + 1 + |up|];
    assert raw[pos..][|up| + 1..] == raw[pos + 1 + |up|..];
  }

  lemma PrependTwice(a: seq<byte>, b: seq<byte>, rest: Option<seq<byte>>)
    ensures Prepend(a, Prepend(b, rest)) == Prepend(a + b, rest)
  {
    if rest.Some? {
      assert a + (b + rest.value) == a + b + rest.value;
    }
  }

  /** Reconstructs an image, row by row, in two line buffers that change places. */
  method CreatePngImageRaw(raw: seq<byte>, x: nat, y: nat, n: nat) returns (ok: bool, out: array<byte>)
    requires x > 0 && 1 <= n <= 4
    ensures fresh(out) && (ok <==> RawImage(raw, x, y, n).Some?)
    ensures ok ==> RawImage(raw, x, y, n) == Some(out[..])
  {
    out := new byte[0];
    if !SizesValid(x, y, n) || |raw| < (x * n + 1) * y {
      return false, out;
    }
    hide SizesValid;
    assert Span(x * n + 1, y) <= |raw|;
    var rb := x * n;
    MulSign(n, x);
    ok, out := ReadAllRows(raw, rb, y, n);
  }

  /** One row: its filter byte, its reconstruction, and the copy to the image. */
  method ReadRow(raw: seq<byte>, pos: nat, j: nat, n: nat, rb: nat, filterBuf: array<byte>, out: array<byte>, dest: nat,
                 ghost up: seq<byte>) returns (ok: bool)
    requires 0 < n <= rb == |up| && pos + 1 + rb <= |raw| && dest + rb <= out.Length
    requires filterBuf.Length == rb * 2 && out != filterBuf
    requires if j == 0 then up == Zeros(rb) else up == filterBuf[LineBuffer(j + 1, rb)..LineBuffer(j + 1, rb) + rb]
    modifies filterBuf, out
    ensures ok <==> raw[pos] <= 4
    ensures ok ==> var row := Unfiltered(raw[pos], raw[pos + 1..pos + 1 + rb], up, n);
      out[..dest + rb] == old(out[..dest]) + row && filterBuf[LineBuffer(j, rb)..LineBuffer(j, rb) + rb] == row
  {
    hide Unfiltered, Zeros, FirstRowFilter;
    var cur, prior := LineBuffer(j, rb), LineBuffer(j + 1, rb);
    var filter: nat := raw[pos];
    if filter > 4 {
      return false;
    }
    ghost var t := filter;
    if j == 0 {
      filter := FirstRowFilter(filter);
    }
    UnfilterRow(filterBuf, cur, prior, raw[pos + 1..pos + 1 + rb], filter, n, t, up);
    CopyRow(filterBuf, cur, out, dest, rb);
    ok := true;
  }

  method ReadAllRows(raw: seq<byte>, rb: nat, y: nat, n: nat) returns (ok: bool, out: array<byte>)
    requires 0 < n <= rb && Span(rb + 1, y) <= |raw|
    ensures fresh(out) && (ok <==> ReadRows(raw, Zeros(rb), n, y).Some?)
    ensures ok ==> ReadRows(raw, Zeros(rb), n, y) == Some(out[..])
  {
    hide Unfiltered, ReadRows, Zeros, Span, LineBuffer;
    out := new byte[Span(rb, y)](_ => 0);
    var filterBuf := new byte[rb * 2](_ => 0);
    ghost var whole, up := ReadRows(raw, Zeros(rb), n, y), Zeros(rb);
    var j, pos, dest := 0, 0, 0;
    NothingRead(raw, out[..], whole, rb);
    while j < y
      invariant j <= y && pos == Span(rb + 1, j) && dest == Span(rb, j) && fresh(out) && fresh(filterBuf) && out != filterBuf
      invariant out.Length == Span(rb, y) && filterBuf.Length == rb * 2 && |up| == rb && dest <= out.Length && pos <= |raw|
      invariant j == 0 ==> up == Zeros(rb)
      invariant j > 0 ==> up == filterBuf[LineBuffer(j + 1, rb)..LineBuffer(j + 1, rb) + rb]
      invariant whole == Prepend(out[..dest], ReadRows(raw[pos..], up, n, y - j))
    {
      SpanStep(rb, y, j);
      SpanStep(rb + 1, y, j);
      ReadStep(raw, pos, up, n, y - j);
      ghost var row := Unfiltered(raw[pos], raw[pos + 1..pos + 1 + rb], up, n);
      PrependTwice(out[..dest], row, ReadRows(raw[pos + 1 + rb..], row, n, y - j - 1));
      ok := ReadRow(raw, pos, j, n, rb, filterBuf, out, dest, up);
      if !ok {
        return;
      }
      up := row;
      Alternate(j, rb);
      j, pos, dest := j + 1, pos + 1 + rb, dest + rb;
    }
    AllRead(raw[pos..], up, n, out[..]);
    ok := true;
  }

  /** Which half of the workspace row `j` uses. */
  function LineBuffer(j: nat, rb: nat): (r: nat)
    ensures r == 0 || r == rb
  {
    if j % 2 == 0 then 0 else rb
  }

  lemma Alternate(j: nat, rb: nat)
    ensures LineBuffer(j + 2, rb) == LineBuffer(j, rb)
  {
  }

  lemma NothingRead(raw: seq<byte>, out: seq<byte>, whole: Option<seq<byte>>, rb: nat)
    ensures Span(rb, 0) == Span(rb + 1, 0) == 0 && raw[0..] == raw && whole == Prepend(out[..0], whole)
  {
    if whole.Some? {
      assert out[..0] + whole.value == whole.value;
    }
  }

  lemma AllRead(raw: seq<byte>, up: seq<byte>, n: nat, out: seq<byte>)
    requires n > 0
    ensures Prepend(out[..|out|], ReadRows(raw, up, n, 0)) == Some(out)
  {
    assert out[..|out|] + [] == out;
  }

  method CopyRow(from: array<byte>, cur: nat, out: array<byte>, dest: nat, rb: nat)
    requires cur + rb <= from.Length && dest + rb <= out.Length && from != out
    modifies out
    ensures out[..dest + rb] == old(out[..dest]) + from[cur..cur + rb]
  {
    var k := 0;
    while k < rb
      invariant k <= rb && out[..dest + k] == old(out[..dest]) + from[cur..cur + k]
    {
      out[dest + k] := from[cur + k];
      k := k + 1;
    }
  }
}
