/** The four Huffman tables that every JPEG file of the writer carries (section K.3 of
    ITU-T T.81), and the code words the writer keeps beside them. */
module JpegTables {
  import opened Bits
  import opened CanonicalCode
  import opened JpegHuffman
  import opened JpegSpec
  import opened JpegBlock
  import opened JpegWriter

  datatype Standard = LumDc | LumAc | ChromDc | ChromAc

  /** How many symbols have each length, as written to the file. */
  function NrCodes(t: Standard): Counts {
    match t
    case LumDc => [0, 1, 5, 1, 1, 1, 1, 1, 1, 0, 0, 0, 0, 0, 0, 0]
    case LumAc => [0, 2, 1, 3, 3, 2, 4, 3, 5, 5, 4, 4, 0, 0, 1, 125]
    case ChromDc => [0, 3, 1, 1, 1, 1, 1, 1, 1, 1, 1, 0, 0, 0, 0, 0]
    case ChromAc => [0, 2, 1, 2, 4, 4, 3, 4, 7, 5, 4, 4, 0, 1, 2, 119]
  }

  // The symbols in code order, sixteen at a time.

  function LumAcValues(q: nat): seq<byte> {
    match q
    case 0 => [0x01, 0x02, 0x03, 0x00, 0x04, 0x11, 0x05, 0x12, 0x21, 0x31, 0x41, 0x06, 0x13, 0x51, 0x61, 0x07]
    case 1 => [0x22, 0x71, 0x14, 0x32, 0x81, 0x91, 0xA1, 0x08, 0x23, 0x42, 0xB1, 0xC1, 0x15, 0x52, 0xD1, 0xF0]
    case 2 => [0x24, 0x33, 0x62, 0x72, 0x82, 0x09, 0x0A, 0x16, 0x17, 0x18, 0x19, 0x1A, 0x25, 0x26, 0x27, 0x28]
    case 3 => [0x29, 0x2A, 0x34, 0x35, 0x36, 0x37, 0x38, 0x39, 0x3A, 0x43, 0x44, 0x45, 0x46, 0x47, 0x48, 0x49]
    case 4 => [0x4A, 0x53, 0x54, 0x55, 0x56, 0x57, 0x58, 0x59, 0x5A, 0x63, 0x64, 0x65, 0x66, 0x67, 0x68, 0x69]
    case 5 => [0x6A, 0x73, 0x74, 0x75, 0x76, 0x77, 0x78, 0x79, 0x7A, 0x83, 0x84, 0x85, 0x86, 0x87, 0x88, 0x89]
    case 6 => [0x8A, 0x92, 0x93, 0x94, 0x95, 0x96, 0x97, 0x98, 0x99, 0x9A, 0xA2, 0xA3, 0xA4, 0xA5, 0xA6, 0xA7]
    case 7 => [0xA8, 0xA9, 0xAA, 0xB2, 0xB3, 0xB4, 0xB5, 0xB6, 0xB7, 0xB8, 0xB9, 0xBA, 0xC2, 0xC3, 0xC4, 0xC5]
    case 8 => [0xC6, 0xC7, 0xC8, 0xC9, 0xCA, 0xD2, 0xD3, 0xD4, 0xD5, 0xD6, 0xD7, 0xD8, 0xD9, 0xDA, 0xE1, 0xE2]
    case 9 => [0xE3, 0xE4, 0xE5, 0xE6, 0xE7, 0xE8, 0xE9, 0xEA, 0xF1, 0xF2, 0xF3, 0xF4, 0xF5, 0xF6, 0xF7, 0xF8]
    case _ => [0xF9, 0xFA]
  }

  function ChromAcValues(q: nat): seq<byte> {
    match q
    case 0 => [0x00, 0x01, 0x02, 0x03, 0x11, 0x04, 0x05, 0x21, 0x31, 0x06, 0x12, 0x41, 0x51, 0x07, 0x61, 0x71]
    case 1 => [0x13, 0x22, 0x32, 0x81, 0x08, 0x14, 0x42, 0x91, 0xA1, 0xB1, 0xC1, 0x09, 0x23, 0x33, 0x52, 0xF0]
    case 2 => [0x15, 0x62, 0x72, 0xD1, 0x0A, 0x16, 0x24, 0x34, 0xE1, 0x25, 0xF1, 0x17, 0x18, 0x19, 0x1A, 0x26]
    case 3 => [0x27, 0x28, 0x29, 0x2A, 0x35, 0x36, 0x37, 0x38, 0x39, 0x3A, 0x43, 0x44, 0x45, 0x46, 0x47, 0x48]
    case 4 => [0x49, 0x4A, 0x53, 0x54, 0x55, 0x56, 0x57, 0x58, 0x59, 0x5A, 0x63, 0x64, 0x65, 0x66, 0x67, 0x68]
    case 5 => [0x69, 0x6A, 0x73, 0x74, 0x75, 0x76, 0x77, 0x78, 0x79, 0x7A, 0x82, 0x83, 0x84, 0x85, 0x86, 0x87]
    case 6 => [0x88, 0x89, 0x8A, 0x92, 0x93, 0x94, 0x95, 0x96, 0x97, 0x98, 0x99, 0x9A, 0xA2, 0xA3, 0xA4, 0xA5]
    case 7 => [0xA6, 0xA7, 0xA8, 0xA9, 0xAA, 0xB2, 0xB3, 0xB4, 0xB5, 0xB6, 0xB7, 0xB8, 0xB9, 0xBA, 0xC2, 0xC3]
    case 8 => [0xC4, 0xC5, 0xC6, 0xC7, 0xC8, 0xC9, 0xCA, 0xD2, 0xD3, 0xD4, 0xD5, 0xD6, 0xD7, 0xD8, 0xD9, 0xDA]
    case 9 => [0xE2, 0xE3, 0xE4, 0xE5, 0xE6, 0xE7, 0xE8, 0xE9, 0xEA, 0xF2, 0xF3, 0xF4, 0xF5, 0xF6, 0xF7, 0xF8]
    case _ => [0xF9, 0xFA]
  }

  function ValueRow(t: Standard, q: nat): seq<byte> {
    if t.LumAc? then LumAcValues(q)
    else if t.ChromAc? then ChromAcValues(q)
    else [0, 1, 2, 3, 4, 5, 6, 7, 8, 9, 10, 11]
  }

  /** The symbol in place `i`; there is none past the last code. */
  function Value(t: Standard, i: nat): byte {
    if i % 16 < |ValueRow(t, i / 16)| then ValueRow(t, i / 16)[i % 16] else 0
  }

  // The writer's words and lengths: a row for each run, up to its last size in use.

  function LumAcWords(run: nat): seq<(nat, nat)> {
    match run
    case 0 => [(10, 4), (0, 2), (1, 2), (4, 3), (11, 4), (26, 5), (120, 7), (248, 8), (1014, 10), (65410, 16),
               (65411, 16)]
    case 1 => [(0, 0), (12, 4), (27, 5), (121, 7), (502, 9), (2038, 11), (65412, 16), (65413, 16), (65414, 16),
               (65415, 16), (65416, 16)]
    case 2 => [(0, 0), (28, 5), (249, 8), (1015, 10), (4084, 12), (65417, 16), (65418, 16), (65419, 16), (65420, 16),
               (65421, 16), (65422, 16)]
    case 3 => [(0, 0), (58, 6), (503, 9), (4085, 12), (65423, 16), (65424, 16), (65425, 16), (65426, 16), (65427, 16),
               (65428, 16), (65429, 16)]
    case 4 => [(0, 0), (59, 6), (1016, 10), (65430, 16), (65431, 16), (65432, 16), (65433, 16), (65434, 16),
               (65435, 16), (65436, 16), (65437, 16)]
    case 5 => [(0, 0), (122, 7), (2039, 11), (65438, 16), (65439, 16), (65440, 16), (65441, 16), (65442, 16),
               (65443, 16), (65444, 16), (65445, 16)]
    case 6 => [(0, 0), (123, 7), (4086, 12), (65446, 16), (65447, 16), (65448, 16), (65449, 16), (65450, 16),
               (65451, 16), (65452, 16), (65453, 16)]
    case 7 => [(0, 0), (250, 8), (4087, 12), (65454, 16), (65455, 16), (65456, 16), (65457, 16), (65458, 16),
               (65459, 16), (65460, 16), (65461, 16)]
    case 8 => [(0, 0), (504, 9), (32704, 15), (65462, 16), (65463, 16), (65464, 16), (65465, 16), (65466, 16),
               (65467, 16), (65468, 16), (65469, 16)]
    case 9 => [(0, 0), (505, 9), (65470, 16), (65471, 16), (65472, 16), (65473, 16), (65474, 16), (65475, 16),
               (65476, 16), (65477, 16), (65478, 16)]
    case 10 => [(0, 0), (506, 9), (65479, 16), (65480, 16), (65481, 16), (65482, 16), (65483, 16), (65484, 16),
                (65485, 16), (65486, 16), (65487, 16)]
    case 11 => [(0, 0), (1017, 10), (65488, 16), (65489, 16), (65490, 16), (65491, 16), (65492, 16), (65493, 16),
                (65494, 16), (65495, 16), (65496, 16)]
    case 12 => [(0, 0), (1018, 10), (65497, 16), (65498, 16), (65499, 16), (65500, 16), (65501, 16), (65502, 16),
                (65503, 16), (65504, 16), (65505, 16)]
    case 13 => [(0, 0), (2040, 11), (65506, 16), (65507, 16), (65508, 16), (65509, 16), (65510, 16), (65511, 16),
                (65512, 16), (65513, 16), (65514, 16)]
    case 14 => [(0, 0), (65515, 16), (65516, 16), (65517, 16), (65518, 16), (65519, 16), (65520, 16), (65521, 16),
                (65522, 16), (65523, 16), (65524, 16)]
    case _ => [(2041, 11), (65525, 16), (65526, 16), (65527, 16), (65528, 16), (65529, 16), (65530, 16), (65531, 16),
               (65532, 16), (65533, 16), (65534, 16)]
  }

  function ChromAcWords(run: nat): seq<(nat, nat)> {
    match run
    case 0 => [(0, 2), (1, 2), (4, 3), (10, 4), (24, 5), (25, 5), (56, 6), (120, 7), (500, 9), (1014, 10), (4084, 12)]
    case 1 => [(0, 0), (11, 4), (57, 6), (246, 8), (501, 9), (2038, 11), (4085, 12), (65416, 16), (65417, 16),
               (65418, 16), (65419, 16)]
    case 2 => [(0, 0), (26, 5), (247, 8), (1015, 10), (4086, 12), (32706, 15), (65420, 16), (65421, 16), (65422, 16),
               (65423, 16), (65424, 16)]
    case 3 => [(0, 0), (27, 5), (248, 8), (1016, 10), (4087, 12), (65425, 16), (65426, 16), (65427, 16), (65428, 16),
               (65429, 16), (65430, 16)]
    case 4 => [(0, 0), (58, 6), (502, 9), (65431, 16), (65432, 16), (65433, 16), (65434, 16), (65435, 16),
               (65436, 16), (65437, 16), (65438, 16)]
    case 5 => [(0, 0), (59, 6), (1017, 10), (65439, 16), (65440, 16), (65441, 16), (65442, 16), (65443, 16),
               (65444, 16), (65445, 16), (65446, 16)]
    case 6 => [(0, 0), (121, 7), (2039, 11), (65447, 16), (65448, 16), (65449, 16), (65450, 16), (65451, 16),
               (65452, 16), (65453, 16), (65454, 16)]
    case 7 => [(0, 0), (122, 7), (2040, 11), (65455, 16), (65456, 16), (65457, 16), (65458, 16), (65459, 16),
               (65460, 16), (65461, 16), (65462, 16)]
    case 8 => [(0, 0), (249, 8), (65463, 16), (65464, 16), (65465, 16), (65466, 16), (65467, 16), (65468, 16),
               (65469, 16), (65470, 16), (65471, 16)]
    case 9 => [(0, 0), (503, 9), (65472, 16), (65473, 16), (65474, 16), (65475, 16), (65476, 16), (65477, 16),
               (65478, 16), (65479, 16), (65480, 16)]
    case 10 => [(0, 0), (504, 9), (65481, 16), (65482, 16), (65483, 16), (65484, 16), (65485, 16), (65486, 16),
                (65487, 16), (65488, 16), (65489, 16)]
    case 11 => [(0, 0), (505, 9), (65490, 16), (65491, 16), (65492, 16), (65493, 16), (65494, 16), (65495, 16),
                (65496, 16), (65497, 16), (65498, 16)]
    case 12 => [(0, 0), (506, 9), (65499, 16), (65500, 16), (65501, 16), (65502, 16), (65503, 16), (65504, 16),
                (65505, 16), (65506, 16), (65507, 16)]
    case 13 => [(0, 0), (2041, 11), (65508, 16), (65509, 16), (65510, 16), (65511, 16), (65512, 16), (65513, 16),
                (65514, 16), (65515, 16), (65516, 16)]
    case 14 => [(0, 0), (16352, 14), (65517, 16), (65518, 16), (65519, 16), (65520, 16), (65521, 16), (65522, 16),
                (65523, 16), (65524, 16), (65525, 16)]
    case _ => [(1018, 10), (32707, 15), (65526, 16), (65527, 16), (65528, 16), (65529, 16), (65530, 16), (65531, 16),
               (65532, 16), (65533, 16), (65534, 16)]
  }

  function WordRow(t: Standard, r: nat): seq<(nat, nat)> {
    match t
    case LumAc => LumAcWords(r)
    case ChromAc => ChromAcWords(r)
    case LumDc => if r > 0 then [] else
      [(0, 2), (2, 3), (3, 3), (4, 3), (5, 3), (6, 3), (14, 4), (30, 5), (62, 6), (126, 7), (254, 8), (510, 9)]
    case ChromDc => if r > 0 then [] else
      [(0, 2), (1, 2), (2, 2), (6, 3), (14, 4), (30, 5), (62, 6), (126, 7), (254, 8), (510, 9), (1022, 10), (2046, 11)]
  }

  function Word(t: Standard, sym: nat): (nat, nat) {
    if sym % 16 < |WordRow(t, sym / 16)| then WordRow(t, sym / 16)[sym % 16] else (0, 0)
  }

  /** The table as the writer indexes it. */
  function Words(t: Standard): CodeTable {
    seq(256, sym requires 0 <= sym < 256 => Word(t, sym))
  }

  /** The symbols as listed in the file. */
  function Symbols(t: Standard): (s: seq<byte>)
    ensures |s| <= 256
  {
    seq(if t.LumDc? || t.ChromDc? then 12 else 162, i requires i >= 0 => Value(t, i))
  }

  /** The table as the reader finds it in the file; the rest of its array is not used. */
  predicate Carries(code: HuffCode, t: Standard) {
    code.count == NrCodes(t) && |code.values| == 256 && Symbols(t) <= code.values
  }

  // ------------------------------------------------------- where each length starts

  /** The first code and the first place of each length, and one past the longest. */
  function Layout(t: Standard): seq<(nat, nat)> {
    match t
    case LumDc => [(0, 0), (0, 0), (2, 1), (14, 6), (30, 7), (62, 8), (126, 9), (254, 10), (510, 11), (1022, 12),
                   (2044, 12), (4088, 12), (8176, 12), (16352, 12), (32704, 12), (65408, 12), (130816, 12)]
    case LumAc => [(0, 0), (0, 0), (4, 2), (10, 3), (26, 6), (58, 9), (120, 11), (248, 15), (502, 18), (1014, 23),
                   (2038, 28), (4084, 32), (8176, 36), (16352, 36), (32704, 36), (65410, 37), (131070, 162)]
    case ChromDc => [(0, 0), (0, 0), (6, 3), (14, 4), (30, 5), (62, 6), (126, 7), (254, 8), (510, 9), (1022, 10),
                     (2046, 11), (4094, 12), (8188, 12), (16376, 12), (32752, 12), (65504, 12), (131008, 12)]
    case ChromAc => [(0, 0), (0, 0), (4, 2), (10, 3), (24, 5), (56, 9), (120, 13), (246, 16), (500, 20), (1014, 27),
                     (2038, 32), (4084, 36), (8176, 40), (16352, 40), (32706, 41), (65416, 43), (131070, 162)]
  }

  lemma LayoutStep(t: Standard, s: nat)
    requires 1 <= s <= 16
    ensures |Layout(t)| == 17 && Layout(t)[0] == (0, 0)
    ensures var (code, place) := Layout(t)[s - 1]; var n := NrCodes(t)[s - 1]; Layout(t)[s] == (2 * (code + n), place + n)
  {
    match t
    case LumDc =>
    case LumAc =>
    case ChromDc =>
    case ChromAc =>
  }

  lemma {:induction false} LayoutIsCanonical(t: Standard, s: nat)
    requires 1 <= s <= 17
    ensures |Layout(t)| == 17 && Layout(t)[s - 1] == (FirstCode(Sizes(NrCodes(t), 16), s), Start(NrCodes(t), s))
  {
    hide Sizes, Layout, NrCodes;
    if s > 1 {
      LayoutIsCanonical(t, s - 1);
      LayoutStep(t, s - 1);
      SizesTotal(NrCodes(t), s - 1);
    } else {
      LayoutStep(t, 1);
    }
  }

  lemma LayoutEnd(t: Standard)
    ensures |Layout(t)| == 17 && Layout(t)[16].0 <= 0x2_0000 && Layout(t)[16].1 == |Symbols(t)| <= 162
  {
  }

  lemma NextFirst(lens: Lengths, s: nat)
    requires s >= 1
    ensures FirstCode(lens, s + 1) == 2 * EndCode(lens, s)
  {
  }

  /** The reader accepts each of the four tables. */
  lemma StandardValid(t: Standard, code: HuffCode)
    requires Carries(code, t)
    ensures code.Valid()
  {
    hide Sizes, Layout, NrCodes, FirstCode, EndCode, Start, Shl, Pow2;
    var count := NrCodes(t);
    var lens := Sizes(count, 16);
    LayoutEnd(t);
    LayoutIsCanonical(t, 17);
    NextFirst(lens, 16);
    SizesShape(count, 16);
    Pow2Values();
    forall s | 1 <= s < 17 ensures EndCode(lens, s) <= Pow2(s) {
      EndCodeGrows(lens, s, 16);
      ShlPow2(s, 16 - s);
      ShlOrder(EndCode(lens, s), Pow2(s), 16 - s);
    }
  }

  // --------------------------------------------------------- the words are the codes

  /** A DC size up to 11; a run with a size from 1 to 10, or one of the two marks. */
  predicate Used(t: Standard, sym: byte) {
    if t.LumDc? || t.ChromDc? then sym <= 11 else 1 <= sym % 16 <= 10 || sym == 0 || sym == 0xF0
  }

  /** The word of `sym` stands, by its length and value, in the place where the file lists it. */
  predicate Placed(t: Standard, sym: byte) {
    var (w, s) := Word(t, sym);
    && 1 <= s <= 16 && |Layout(t)| == 17
    && var (code, place) := Layout(t)[s - 1];
      code <= w && place + w - code < Layout(t)[s].1 && Value(t, place + w - code) == sym
  }

  lemma PlacedAgrees(t: Standard, sym: byte, code: HuffCode)
    requires Placed(t, sym) && Carries(code, t)
    ensures Agrees(Words(t), code, sym)
    ensures Word(t, sym).0 < Pow2(Word(t, sym).1) && Word(t, sym).1 <= 16
  {
    hide Sizes, Layout, NrCodes, FirstCode, Start, Value, Word, CountBelow;
    var (w, s) := Word(t, sym);
    var count := NrCodes(t);
    LayoutIsCanonical(t, s);
    LayoutIsCanonical(t, s + 1);
    LayoutIsCanonical(t, 17);
    LayoutEnd(t);
    StandardValid(t, code);
    StartMonotone(count, s + 1, 17);
    var i := Layout(t)[s - 1].1 + w - Layout(t)[s - 1].0;
    SizesShape(count, 16);
    SizeAt(count, s, i);
    CountInSizes(count, s, i);
    CodeFits(count, i);
    assert Words(t)[sym] == Word(t, sym);
    assert code.values[i] == code.values[..|Symbols(t)|][i] == Value(t, i);
  }

  lemma LumDcPlaced(sym: byte)
    requires sym <= 11
    ensures Placed(LumDc, sym)
  {
  }

  lemma ChromDcPlaced(sym: byte)
    requires sym <= 11
    ensures Placed(ChromDc, sym)
  {
  }

  // Run by run, the run/size symbols that have a code.

  lemma LumRun0Low(c: nat)
    requires c <= 5
    ensures Placed(LumAc, c)
  {
  }

  lemma LumRun0High(c: nat)
    requires 6 <= c <= 10
    ensures Placed(LumAc, c)
  {
  }

  lemma LumRun1(c: nat)
    requires 1 <= c <= 10
    ensures Placed(LumAc, 16 + c)
  {
  }

  lemma LumRun2(c: nat)
    requires 1 <= c <= 10
    ensures Placed(LumAc, 32 + c)
  {
  }

  lemma LumRun3(c: nat)
    requires 1 <= c <= 10
    ensures Placed(LumAc, 48 + c)
  {
  }

  lemma LumRun4(c: nat)
    requires 1 <= c <= 10
    ensures Placed(LumAc, 64 + c)
  {
  }

  lemma LumRun5(c: nat)
    requires 1 <= c <= 10
    ensures Placed(LumAc, 80 + c)
  {
  }

  lemma LumRun6(c: nat)
    requires 1 <= c <= 10
    ensures Placed(LumAc, 96 + c)
  {
  }

  lemma LumRun7(c: nat)
    requires 1 <= c <= 10
    ensures Placed(LumAc, 112 + c)
  {
  }

  lemma LumRun8(c: nat)
    requires 1 <= c <= 10
    ensures Placed(LumAc, 128 + c)
  {
  }

  lemma LumRun9(c: nat)
    requires 1 <= c <= 10
    ensures Placed(LumAc, 144 + c)
  {
  }

  lemma LumRun10(c: nat)
    requires 1 <= c <= 10
    ensures Placed(LumAc, 160 + c)
  {
  }

  lemma LumRun11(c: nat)
    requires 1 <= c <= 10
    ensures Placed(LumAc, 176 + c)
  {
  }

  lemma LumRun12(c: nat)
    requires 1 <= c <= 10
    ensures Placed(LumAc, 192 + c)
  {
  }

  lemma LumRun13(c: nat)
    requires 1 <= c <= 10
    ensures Placed(LumAc, 208 + c)
  {
  }

  lemma LumRun14(c: nat)
    requires 1 <= c <= 10
    ensures Placed(LumAc, 224 + c)
  {
  }

  lemma LumRun15(c: nat)
    requires c <= 10
    ensures Placed(LumAc, 240 + c)
  {
  }

  lemma ChromRun0Low(c: nat)
    requires c <= 5
    ensures Placed(ChromAc, c)
  {
  }

  lemma ChromRun0High(c: nat)
    requires 6 <= c <= 10
    ensures Placed(ChromAc, c)
  {
  }

  lemma ChromRun1(c: nat)
    requires 1 <= c <= 10
    ensures Placed(ChromAc, 16 + c)
  {
  }

  lemma ChromRun2(c: nat)
    requires 1 <= c <= 10
    ensures Placed(ChromAc, 32 + c)
  {
  }

  lemma ChromRun3(c: nat)
    requires 1 <= c <= 10
    ensures Placed(ChromAc, 48 + c)
  {
  }

  lemma ChromRun4(c: nat)
    requires 1 <= c <= 10
    ensures Placed(ChromAc, 64 + c)
  {
  }

  lemma ChromRun5(c: nat)
    requires 1 <= c <= 10
    ensures Placed(ChromAc, 80 + c)
  {
  }

  lemma ChromRun6(c: nat)
    requires 1 <= c <= 10
    ensures Placed(ChromAc, 96 + c)
  {
  }

  lemma ChromRun7(c: nat)
    requires 1 <= c <= 10
    ensures Placed(ChromAc, 112 + c)
  {
  }

  lemma ChromRun8(c: nat)
    requires 1 <= c <= 10
    ensures Placed(ChromAc, 128 + c)
  {
  }

  lemma ChromRun9(c: nat)
    requires 1 <= c <= 10
    ensures Placed(ChromAc, 144 + c)
  {
  }

  lemma ChromRun10(c: nat)
    requires 1 <= c <= 10
    ensures Placed(ChromAc, 160 + c)
  {
  }

  lemma ChromRun11(c: nat)
    requires 1 <= c <= 10
    ensures Placed(ChromAc, 176 + c)
  {
  }

  lemma ChromRun12(c: nat)
    requires 1 <= c <= 10
    ensures Placed(ChromAc, 192 + c)
  {
  }

  lemma ChromRun13(c: nat)
    requires 1 <= c <= 10
    ensures Placed(ChromAc, 208 + c)
  {
  }

  lemma ChromRun14(c: nat)
    requires 1 <= c <= 10
    ensures Placed(ChromAc, 224 + c)
  {
  }

  lemma ChromRun15(c: nat)
    requires c <= 10
    ensures Placed(ChromAc, 240 + c)
  {
  }

  lemma LumAcPlaced(sym: byte)
    requires Used(LumAc, sym)
    ensures Placed(LumAc, sym)
  {
    hide Placed;
    var r, c := sym / 16, sym % 16;
    match r
    case 0 => if c <= 5 { LumRun0Low(c); } else { LumRun0High(c); }
    case 1 => LumRun1(c);
    case 2 => LumRun2(c);
    case 3 => LumRun3(c);
    case 4 => LumRun4(c);
    case 5 => LumRun5(c);
    case 6 => LumRun6(c);
    case 7 => LumRun7(c);
    case 8 => LumRun8(c);
    case 9 => LumRun9(c);
    case 10 => LumRun10(c);
    case 11 => LumRun11(c);
    case 12 => LumRun12(c);
    case 13 => LumRun13(c);
    case 14 => LumRun14(c);
    case _ => LumRun15(c);
  }

  lemma ChromAcPlaced(sym: byte)
    requires Used(ChromAc, sym)
    ensures Placed(ChromAc, sym)
  {
    hide Placed;
    var r, c := sym / 16, sym % 16;
    match r
    case 0 => if c <= 5 { ChromRun0Low(c); } else { ChromRun0High(c); }
    case 1 => ChromRun1(c);
    case 2 => ChromRun2(c);
    case 3 => ChromRun3(c);
    case 4 => ChromRun4(c);
    case 5 => ChromRun5(c);
    case 6 => ChromRun6(c);
    case 7 => ChromRun7(c);
    case 8 => ChromRun8(c);
    case 9 => ChromRun9(c);
    case 10 => ChromRun10(c);
    case 11 => ChromRun11(c);
    case 12 => ChromRun12(c);
    case 13 => ChromRun13(c);
    case 14 => ChromRun14(c);
    case _ => ChromRun15(c);
  }

  lemma LumUnused(sym: byte)
    requires !Used(LumAc, sym)
    ensures Word(LumAc, sym) == (0, 0)
  {
  }

  lemma ChromUnused(sym: byte)
    requires !Used(ChromAc, sym)
    ensures Word(ChromAc, sym) == (0, 0)
  {
  }

  /** The words of the symbols that have no code are zero. */
  lemma Unused(t: Standard, sym: byte)
    requires !Used(t, sym)
    ensures Word(t, sym) == (0, 0)
  {
    hide LumAcWords, ChromAcWords;
    match t
    case LumAc => LumUnused(sym);
    case ChromAc => ChromUnused(sym);
    case _ =>
  }

  lemma UsedPlaced(t: Standard, sym: byte)
    requires Used(t, sym)
    ensures Placed(t, sym)
  {
    hide Placed;
    match t
    case LumDc => LumDcPlaced(sym);
    case ChromDc => ChromDcPlaced(sym);
    case LumAc => LumAcPlaced(sym);
    case ChromAc => ChromAcPlaced(sym);
  }

  /** Each of the writer's words fits its length, which is at most 16. */
  lemma WordsFit(t: Standard, code: HuffCode)
    requires Carries(code, t)
    ensures Codes(Words(t))
  {
    hide Placed, Used, Pow2, WordRow, Carries;
    Pow2Zero();
    forall sym: byte ensures Words(t)[sym].0 < Pow2(Words(t)[sym].1) && Words(t)[sym].1 <= 16 {
      if Used(t, sym) {
        UsedPlaced(t, sym);
        PlacedAgrees(t, sym, code);
      } else {
        Unused(t, sym);
      }
    }
  }

  lemma Pow2Zero()
    ensures Pow2(0) == 1
  {
  }

  function Dc(chroma: bool): Standard {
    if chroma then ChromDc else LumDc
  }

  function Ac(chroma: bool): Standard {
    if chroma then ChromAc else LumAc
  }

  /** The tables in the file are the writer's own: every word it can emit is the canonical
      code of its symbol. */
  lemma StandardTables(chroma: bool, dc: HuffCode, ac: HuffCode)
    requires Carries(dc, Dc(chroma)) && Carries(ac, Ac(chroma))
    ensures SameTables(Words(Dc(chroma)), Words(Ac(chroma)), dc, ac)
    ensures Codes(Words(Dc(chroma))) && Codes(Words(Ac(chroma)))
  {
    hide Placed, Agrees, HuffCode.Valid, Words, Carries, Codes;
    StandardValid(Dc(chroma), dc);
    StandardValid(Ac(chroma), ac);
    WordsFit(Dc(chroma), dc);
    WordsFit(Ac(chroma), ac);
    forall t: byte | t <= 11 ensures Agrees(Words(Dc(chroma)), dc, t) {
      UsedPlaced(Dc(chroma), t);
      PlacedAgrees(Dc(chroma), t, dc);
    }
    forall rs: byte | Used(LumAc, rs) ensures Agrees(Words(Ac(chroma)), ac, rs) {
      UsedPlaced(Ac(chroma), rs);
      PlacedAgrees(Ac(chroma), rs, ac);
    }
    assert Used(LumAc, 0) && Used(LumAc, 0xF0);
  }

  /** The counts are accepted, and there are as many symbols as they say. */
  lemma StandardAccepted(t: Standard)
    ensures Accepted(NrCodes(t)) && |Symbols(t)| == Start(NrCodes(t), 17)
  {
    hide Accepted, NrCodes, Layout, Start;
    StandardValid(t, HuffCode(NrCodes(t), Symbols(t) + seq(256 - |Symbols(t)|, _ => 0)));
    LayoutEnd(t);
    LayoutIsCanonical(t, 17);
  }

  // ------------------------------------------------------------ reading the file

  /** Reads a table from the file: builds it from the counts, then stores the symbols.
      Refused exactly when the counts are not acceptable. */
  method ReadTable(count: Counts, symbols: seq<byte>) returns (ok: bool, h: Huffman)
    requires |symbols| == Start(count, 17)
    ensures ok <==> Accepted(count)
    ensures fresh(h) && (ok ==> h.Shaped() && h.Represents(count) && symbols <= h.values)
  {
    hide Sizes, FirstCode, EndCode, Accepted, FastIn;
    h := new Huffman();
    SizesShape(count, 16);
    assert Accepted(count) ==> |Sizes(count, 16)| <= 256 by {
      if Accepted(count) {
        AtMost256(count);
      }
    }
    var n, k := 0, 0;
    while k < 16
      invariant k <= 16 && n == Start(count, k + 1)
    {
      n, k := n + count[k], k + 1;
    }
    if n > 256 {
      return false, h;
    }
    ok := h.Build(count);
    if !ok {
      return;
    }
    var i := 0;
    while i < n
      invariant i <= n && h.Shaped() && h.Represents(count)
      invariant forall k :: 0 <= k < i ==> h.values[k] == symbols[k]
    {
      h.values := h.values[i := symbols[i]];
      i := i + 1;
    }
  }
}
