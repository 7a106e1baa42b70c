/** One round of each fast encoder: the characters it stores for the bytes in the register it loads. */
module EncodeBlocks {
  import opened Tables
  import opened Rfc4648
  import opened Simd

  // Generic words: 12-bit table lookups on a big-endian value.

  function Load32(e: Endian, v: Vec): bv32
    requires |v| == 4
  {
    match e
    case Little => Dword(Lane(v[0], v[1], v[2], v[3]))
    case Big => Dword(Lane(v[3], v[2], v[1], v[0]))
  }

  function Swap32(w: bv32): bv32 {
    var l := OfDword(w);
    Dword(Lane(l.b3, l.b2, l.b1, l.b0))
  }

  /** BASE64_HTOBE32 */
  function ToBigEndian32(e: Endian, w: bv32): bv32 {
    match e
    case Little => Swap32(w)
    case Big => w
  }

  /** The two bytes that memcpy finds at entry `n` of the 12-bit table. */
  function Pair(e: Endian, n: bv16): Vec
    requires n < 4096
  {
    var w := Enc12(e, n);
    match e
    case Little => [Low(w), High(w)]
    case Big => [High(w), Low(w)]
  }

  lemma WordRoundTrip(lo: byte, hi: byte)
    ensures Low(Word(lo, hi)) == lo && High(Word(lo, hi)) == hi
  {
  }

  lemma EntryIsWord(e: Endian, n: bv16)
    requires n < 4096
    ensures var first, second := Enc6(((n >> 6) & 0x3F) as byte), Enc6((n & 0x3F) as byte);
            Enc12(e, n) == if e == Little then Word(first, second) else Word(second, first)
  {
    hide Enc6;
  }

  lemma PairBytes(e: Endian, n: bv16)
    requires n < 4096
    ensures Pair(e, n) == [Enc6(((n >> 6) & 0x3F) as byte), Enc6((n & 0x3F) as byte)]
  {
    hide Enc6, Enc12, Word, Low, High;
    var first, second := Enc6(((n >> 6) & 0x3F) as byte), Enc6((n & 0x3F) as byte);
    EntryIsWord(e, n);
    WordRoundTrip(first, second);
    WordRoundTrip(second, first);
  }

  /** Two 12-bit indices that hold the four 6-bit values of a group. */
  ghost predicate HoldGroup(i: bv16, j: bv16, a: byte, b: byte, c: byte) {
    var g := Group(a, b, c);
    ((i >> 6) & 0x3F) as byte == Sextet(g, 0) && (i & 0x3F) as byte == Sextet(g, 1) &&
    ((j >> 6) & 0x3F) as byte == Sextet(g, 2) && (j & 0x3F) as byte == Sextet(g, 3)
  }

  lemma PairsOfGroup(e: Endian, i: bv16, j: bv16, a: byte, b: byte, c: byte)
    requires i < 4096 && j < 4096 && HoldGroup(i, j, a, b, c)
    ensures Pair(e, i) + Pair(e, j) == EncodeQuad(a, b, c)
  {
    hide Pair, Sextet, Enc6, Group;
    PairBytes(e, i);
    PairBytes(e, j);
  }

  function Index32(w: bv32): (bv16, bv16) {
    (((w >> 20) & 0xFFF) as bv16, ((w >> 8) & 0xFFF) as bv16)
  }

  lemma IndexBound32(w: bv32)
    ensures Index32(w).0 < 4096 && Index32(w).1 < 4096
  {
  }

  /** enc_loop_generic_32_inner */
  function Round32(e: Endian, v: Vec): Vec
    requires |v| == 4
  {
    var src := ToBigEndian32(e, Load32(e, v));
    IndexBound32(src);
    Pair(e, Index32(src).0) + Pair(e, Index32(src).1)
  }

  /** After the byte swap the value is the same on both byte orders. */
  lemma SameValue32(e: Endian, a: byte, b: byte, c: byte, d: byte)
    ensures ToBigEndian32(e, Load32(e, [a, b, c, d])) == Dword(Lane(d, c, b, a))
  {
    hide Dword, OfDword;
    DwordRoundTrip(Lane(a, b, c, d));
  }

  lemma IndexBits32(a: byte, b: byte, c: byte, d: byte)
    ensures var (i, j) := Index32(Dword(Lane(d, c, b, a)));
            HoldGroup(i, j, a, b, c)
  {
    EncodeBits(a, b, c);
  }

  lemma Round32Encodes(e: Endian, v: Vec)
    requires |v| == 4
    ensures Round32(e, v) == EncodeQuad(v[0], v[1], v[2])
  {
    hide Load32, ToBigEndian32, Index32, Pair, Dword, HoldGroup, EncodeQuad;
    assert v == [v[0], v[1], v[2], v[3]];
    SameValue32(e, v[0], v[1], v[2], v[3]);
    IndexBits32(v[0], v[1], v[2], v[3]);
    var w := Dword(Lane(v[3], v[2], v[1], v[0]));
    IndexBound32(w);
    PairsOfGroup(e, Index32(w).0, Index32(w).1, v[0], v[1], v[2]);
  }

  // SSSE3: split by multiplication, translate by saturating offsets.

  const SPLIT: seq<int> := [1, 0, 2, 1, 4, 3, 5, 4, 7, 6, 8, 7, 10, 9, 11, 10]

  /** The two halves of the split, with 0x0FC0FC00, 0x04000040, 0x003F03F0 and 0x01000010 as lanes. */
  function SplitHigh(l: Lane): Lane {
    MulHi16(Lane(0, l.b1 & 0xFC, l.b2 & 0xC0, l.b3 & 0x0F), Lane(0x40, 0x00, 0x00, 0x04))
  }

  function SplitLow(l: Lane): Lane {
    MulLo16(Lane(l.b0 & 0xF0, l.b1 & 0x03, l.b2 & 0x3F, 0), Lane(0x10, 0x00, 0x00, 0x01))
  }

  function SplitLane(l: Lane): Lane {
    var t1, t3 := SplitHigh(l), SplitLow(l);
    Lane(t1.b0 | t3.b0, t1.b1 | t3.b1, t1.b2 | t3.b2, t1.b3 | t3.b3)
  }

  lemma SplitBits(a: byte, b: byte, c: byte)
    ensures var g := Group(a, b, c);
            SplitLane(Lane(b, a, c, b)) == Lane(Sextet(g, 0), Sextet(g, 1), Sextet(g, 2), Sextet(g, 3))
  {
  }

  const ENC_OFFSETS := Table16(65, 71, 252, 252, 252, 252, 252, 252, 252, 252, 252, 252, 237, 240, 0, 0)

  /** enc_translate, on one byte */
  function EncIndex(v: byte): byte {
    SubsByte(v, 51) - GtByte(v, 25)
  }

  function EncTranslate(v: byte): byte {
    v + LookupByte(ENC_OFFSETS, EncIndex(v))
  }

  lemma EncTranslateIsEnc6(v: byte)
    requires v < 64
    ensures EncTranslate(v) == Enc6(v)
  {
  }

  function Load64(e: Endian, v: Vec): bv64
    requires |v| == 8
  {
    match e
    case Little => Qword(Lane(v[0], v[1], v[2], v[3]), Lane(v[4], v[5], v[6], v[7]))
    case Big => Qword(Lane(v[7], v[6], v[5], v[4]), Lane(v[3], v[2], v[1], v[0]))
  }

  /** BASE64_HTOBE64 */
  function ToBigEndian64(e: Endian, q: bv64): bv64 {
    match e
    case Little =>
      var l, h := OfDword(LowDword(q)), OfDword(HighDword(q));
      Qword(Lane(h.b3, h.b2, h.b1, h.b0), Lane(l.b3, l.b2, l.b1, l.b0))
    case Big => q
  }

  function Index64(q: bv64, k: nat): bv16
    requires k < 4
  {
    if k == 0 then ((q >> 52) & 0xFFF) as bv16
    else if k == 1 then ((q >> 40) & 0xFFF) as bv16
    else if k == 2 then ((q >> 28) & 0xFFF) as bv16
    else ((q >> 16) & 0xFFF) as bv16
  }

  lemma IndexBound64(q: bv64)
    ensures Index64(q, 0) < 4096 && Index64(q, 1) < 4096 && Index64(q, 2) < 4096 && Index64(q, 3) < 4096
  {
  }

  /** enc_loop_generic_64_inner */
  function Round64(e: Endian, v: Vec): Vec
    requires |v| == 8
  {
    var src := ToBigEndian64(e, Load64(e, v));
    IndexBound64(src);
    Pair(e, Index64(src, 0)) + Pair(e, Index64(src, 1)) + Pair(e, Index64(src, 2)) + Pair(e, Index64(src, 3))
  }

  lemma SameValue64(e: Endian, v: Vec)
    requires |v| == 8
    ensures ToBigEndian64(e, Load64(e, v)) == Qword(Lane(v[7], v[6], v[5], v[4]), Lane(v[3], v[2], v[1], v[0]))
  {
    hide Dword, OfDword, Qword, LowDword, HighDword;
    var l, h := Lane(v[0], v[1], v[2], v[3]), Lane(v[4], v[5], v[6], v[7]);
    QwordRoundTrip(l, h);
    DwordRoundTrip(l);
    DwordRoundTrip(h);
  }

  /** The first two indices are those of the high half, the other two those of the 32 bits from bit 8 on. */
  lemma IndexHalves64(q: bv64)
    ensures (Index64(q, 0), Index64(q, 1)) == Index32(HighDword(q))
    ensures (Index64(q, 2), Index64(q, 3)) == Index32(LowDword(q >> 8))
  {
  }

  lemma MiddleDword(l: Lane, h: Lane)
    ensures LowDword(Qword(h, l) >> 8) == Dword(Lane(h.b1, h.b2, h.b3, l.b0))
  {
  }

  lemma FirstIndices64(l: Lane, h: Lane)
    ensures var q := Qword(h, l); HoldGroup(Index64(q, 0), Index64(q, 1), l.b3, l.b2, l.b1)
  {
    hide Index64, Index32, Qword, Dword, HighDword, HoldGroup;
    IndexHalves64(Qword(h, l));
    QwordRoundTrip(h, l);
    IndexBits32(l.b3, l.b2, l.b1, l.b0);
  }

  lemma LastIndices64(l: Lane, h: Lane)
    ensures var q := Qword(h, l); HoldGroup(Index64(q, 2), Index64(q, 3), l.b0, h.b3, h.b2)
  {
    hide Index64, Index32, Qword, Dword, LowDword, HoldGroup;
    IndexHalves64(Qword(h, l));
    MiddleDword(l, h);
    IndexBits32(l.b0, h.b3, h.b2, h.b1);
  }

  lemma Round64Encodes(e: Endian, v: Vec)
    requires |v| == 8
    ensures Round64(e, v) == EncodeQuad(v[0], v[1], v[2]) + EncodeQuad(v[3], v[4], v[5])
  {
    hide Load64, ToBigEndian64, Index64, Pair, Qword, HoldGroup, EncodeQuad;
    SameValue64(e, v);
    var l, h := Lane(v[3], v[2], v[1], v[0]), Lane(v[7], v[6], v[5], v[4]);
    FirstIndices64(l, h);
    LastIndices64(l, h);
    var q := Qword(h, l);
    IndexBound64(q);
    PairsOfGroup(e, Index64(q, 0), Index64(q, 1), v[0], v[1], v[2]);
    PairsOfGroup(e, Index64(q, 2), Index64(q, 3), v[3], v[4], v[5]);
    Assoc(Pair(e, Index64(q, 0)) + Pair(e, Index64(q, 1)), Pair(e, Index64(q, 2)), Pair(e, Index64(q, 3)));
  }

  // SSSE3 and AVX2 registers.

  function EncodedLane(l: Lane): Lane {
    var s := SplitLane(l);
    Lane(EncTranslate(s.b0), EncTranslate(s.b1), EncTranslate(s.b2), EncTranslate(s.b3))
  }

  lemma EncodedLaneIsQuad(a: byte, b: byte, c: byte)
    ensures BytesOf(EncodedLane(Lane(b, a, c, b))) == EncodeQuad(a, b, c)
  {
    hide SplitLane, EncTranslate, Sextet, Enc6, Group;
    SplitBits(a, b, c);
    var g := Group(a, b, c);
    EncTranslateIsEnc6(Sextet(g, 0));
    EncTranslateIsEnc6(Sextet(g, 1));
    EncTranslateIsEnc6(Sextet(g, 2));
    EncTranslateIsEnc6(Sextet(g, 3));
  }

  function EncodedByte(v: Vec, i: nat): byte
    requires i < |v| && |v| % 4 == 0
  {
    BytesOf(EncodedLane(LaneOf(v, i / 4)))[i % 4]
  }

  /** The reshuffled register, split and translated in every lane. */
  function Encoded(v: Vec): (r: Vec)
    requires |v| % 4 == 0
    ensures |r| == |v|
  {
    seq(|v|, i requires 0 <= i < |v| => EncodedByte(v, i))
  }

  /** Lane `g` of a shuffled register holds bytes 3g + 1, 3g, 3g + 2 and 3g + 1 of the data. */
  ghost predicate SpreadAt(data: Vec, v: Vec, g: nat)
    requires 3 * g + 2 < |data| && 4 * g + 3 < |v|
  {
    LaneOf(v, g) == Lane(data[3 * g + 1], data[3 * g], data[3 * g + 2], data[3 * g + 1])
  }

  lemma EncodedAt(v: Vec, g: nat, k: nat)
    requires |v| % 4 == 0 && 4 * g + 3 < |v| && k < 4
    ensures Encoded(v)[4 * g + k] == BytesOf(EncodedLane(LaneOf(v, g)))[k]
  {
    hide EncodedLane, BytesOf, LaneOf;
    assert (4 * g + k) / 4 == g && (4 * g + k) % 4 == k;
  }

  lemma EncodedQuad(data: Vec, v: Vec, g: nat)
    requires |v| % 4 == 0 && 3 * g + 2 < |data| && 4 * g + 3 < |v| && SpreadAt(data, v, g)
    ensures EncodesAt(data, Encoded(v), g)
  {
    hide EncodedLane, EncodeQuad, Encoded, BytesOf;
    EncodedLaneIsQuad(data[3 * g], data[3 * g + 1], data[3 * g + 2]);
    EncodedAt(v, g, 0);
    EncodedAt(v, g, 1);
    EncodedAt(v, g, 2);
    EncodedAt(v, g, 3);
  }

  lemma EncodedIsEncode(data: Vec, v: Vec, n: nat)
    requires |v| == 4 * n && |v| % 4 == 0 && |data| == 3 * n
    requires forall g :: 0 <= g < n ==> SpreadAt(data, v, g)
    ensures Encoded(v) == Encode(data)
  {
    hide Encoded, Encode, EncodesAt, SpreadAt, EncodeQuad, LaneOf;
    forall g | 0 <= g < n
      ensures EncodesAt(data, Encoded(v), g)
    {
      EncodedQuad(data, v, g);
    }
    EncodeByQuads(data, Encoded(v), n);
  }

  /** enc_loop_ssse3_inner: the register it stores */
  function RoundSsse3(v: Vec): Vec
    requires |v| == 16
  {
    Encoded(Shuffle(v, SPLIT))
  }

  lemma SplitSpreads(v: Vec)
    requires |v| == 16
    ensures forall g :: 0 <= g < 4 ==> SpreadAt(v[..12], Shuffle(v, SPLIT), g)
  {
  }

  lemma RoundSsse3Encodes(v: Vec)
    requires |v| == 16
    ensures RoundSsse3(v) == Encode(v[..12])
  {
    hide Encoded, Encode, Shuffle;
    SplitSpreads(v);
    EncodedIsEncode(v[..12], Shuffle(v, SPLIT), 4);
  }

  const SPLIT_LOW: seq<int> := [5, 4, 6, 5, 8, 7, 9, 8, 11, 10, 12, 11, 14, 13, 15, 14]

  /** enc_loop_avx2_inner: the register it stores; the data stands at offset 4 */
  function RoundAvx2(v: Vec): Vec
    requires |v| == 32
  {
    Encoded(ShuffleHalves(v, SPLIT_LOW, SPLIT))
  }

  lemma SplitLowSpreads(v: Vec)
    requires |v| == 16
    ensures forall g :: 0 <= g < 4 ==> SpreadAt(v[4..], Shuffle(v, SPLIT_LOW), g)
  {
  }

  lemma RoundAvx2Encodes(v: Vec)
    requires |v| == 32
    ensures RoundAvx2(v) == Encode(v[4..28])
  {
    hide Encoded, Encode, Shuffle;
    SplitLowSpreads(v[..16]);
    SplitSpreads(v[16..]);
    var low, high := Shuffle(v[..16], SPLIT_LOW), Shuffle(v[16..], SPLIT);
    forall g | 0 <= g < 8
      ensures SpreadAt(v[4..28], low + high, g)
    {
      if g < 4 {
        assert SpreadAt(v[..16][4..], low, g);
      } else {
        assert SpreadAt(v[16..][..12], high, g - 4);
      }
    }
    EncodedIsEncode(v[4..28], low + high, 8);
  }

  // AVX512: byte permutation, multishift, 64-entry lookup.

  /** The byte pattern 0x01020001, 0x04050304, ..., one lane at a time. */
  const PERMUTE: seq<(nat, nat, nat, nat)> := [
    (1, 0, 2, 1), (4, 3, 5, 4), (7, 6, 8, 7), (10, 9, 11, 10),
    (13, 12, 14, 13), (16, 15, 17, 16), (19, 18, 20, 19), (22, 21, 23, 22),
    (25, 24, 26, 25), (28, 27, 29, 28), (31, 30, 32, 31), (34, 33, 35, 34),
    (37, 36, 38, 37), (40, 39, 41, 40), (43, 42, 44, 43), (46, 45, 47, 46)]

  lemma PermuteIsSplit(g: nat)
    requires g < 16
    ensures PERMUTE[g] == (3 * g + 1, 3 * g, 3 * g + 2, 3 * g + 1)
  {
  }

  function PermutedLane(v: Vec, g: nat): (l: Lane)
    requires |v| == 64 && g < 16
    ensures l == Lane(v[3 * g + 1], v[3 * g], v[3 * g + 2], v[3 * g + 1])
  {
    PermuteIsSplit(g);
    var p := PERMUTE[g];
    Lane(v[p.0], v[p.1], v[p.2], v[p.3])
  }

  function PermutedByte(v: Vec, i: nat): byte
    requires |v| == 64 && i < 64
  {
    BytesOf(PermutedLane(v, i / 4))[i % 4]
  }

  /** vpermb by the constant pattern */
  function Permuted(v: Vec): (r: Vec)
    requires |v| == 64
    ensures |r| == 64
  {
    seq(64, i requires 0 <= i < 64 => PermutedByte(v, i))
  }

  /** vpmultishiftqb: eight unaligned bytes of a quadword, at the offsets 10, 4, 22, 16, 42, 36, 54, 48. */
  function Multishift(q: bv64, k: nat): byte
    requires k < 8
  {
    var w :=
      if k == 0 then q >> 10
      else if k == 1 then q >> 4
      else if k == 2 then q >> 22
      else if k == 3 then q >> 16
      else if k == 4 then q >> 42
      else if k == 5 then q >> 36
      else if k == 6 then q >> 54
      else q >> 48;
    (w & 0xFF) as byte
  }

  /** vpermb with the alphabet as its table uses the low six bits of each index. */
  function Translated(q: bv64, k: nat): byte
    requires k < 8
  {
    Enc6(Multishift(q, k) & 0x3F)
  }

  /** The `k`-th byte of the multishift has the `m`-th value of the group in its low six bits. */
  ghost predicate Selects(q: bv64, k: nat, g: bv24, m: nat)
    requires k < 8 && m < 4
  {
    Multishift(q, k) & 0x3F == Sextet(g, m)
  }

  lemma MultishiftBits(a: byte, b: byte, c: byte, d: byte, e: byte, f: byte)
    ensures var q := Qword(Lane(b, a, c, b), Lane(e, d, f, e));
            var g, h := Group(a, b, c), Group(d, e, f);
            && Selects(q, 0, g, 0) && Selects(q, 1, g, 1) && Selects(q, 2, g, 2) && Selects(q, 3, g, 3)
            && Selects(q, 4, h, 0) && Selects(q, 5, h, 1) && Selects(q, 6, h, 2) && Selects(q, 7, h, 3)
  {
  }

  lemma SelectedChar(q: bv64, k: nat, g: bv24, m: nat)
    requires k < 8 && m < 4 && Selects(q, k, g, m)
    ensures Translated(q, k) == Char(g, m)
  {
  }

  function Byte512(v: Vec, i: nat): byte
    requires |v| == 64 && i < 64
  {
    var j := i / 8;
    Translated(Qword(LaneOf(v, 2 * j), LaneOf(v, 2 * j + 1)), i % 8)
  }

  function Translate512(v: Vec): (r: Vec)
    requires |v| == 64
    ensures |r| == 64
  {
    seq(64, i requires 0 <= i < 64 => Byte512(v, i))
  }

  /** enc_reshuffle_translate */
  function RoundAvx512(v: Vec): Vec
    requires |v| == 64
  {
    Translate512(Permuted(v))
  }

  lemma PermutedAt(v: Vec, g: nat, k: nat)
    requires |v| == 64 && g < 16 && k < 4
    ensures Permuted(v)[4 * g + k] == BytesOf(PermutedLane(v, g))[k]
  {
    hide PermutedLane, BytesOf;
    assert (4 * g + k) / 4 == g && (4 * g + k) % 4 == k;
  }

  lemma PermuteSpreads(v: Vec, g: nat)
    requires |v| == 64 && g < 16
    ensures SpreadAt(v[..48], Permuted(v), g)
  {
    hide PermutedLane, Permuted;
    PermutedAt(v, g, 0);
    PermutedAt(v, g, 1);
    PermutedAt(v, g, 2);
    PermutedAt(v, g, 3);
  }

  lemma TranslatedAt(v: Vec, j: nat, k: nat)
    requires |v| == 64 && j < 8 && k < 8
    ensures Translate512(v)[8 * j + k] == Translated(Qword(LaneOf(v, 2 * j), LaneOf(v, 2 * j + 1)), k)
  {
    hide Translated, Qword;
    assert (8 * j + k) / 8 == j && (8 * j + k) % 8 == k;
  }

  lemma TranslatedQword(low: Lane, high: Lane, d: seq<byte>)
    requires |d| == 6 && low == Lane(d[1], d[0], d[2], d[1]) && high == Lane(d[4], d[3], d[5], d[4])
    ensures var q := Qword(low, high);
            [Translated(q, 0), Translated(q, 1), Translated(q, 2), Translated(q, 3)] == EncodeQuad(d[0], d[1], d[2]) &&
            [Translated(q, 4), Translated(q, 5), Translated(q, 6), Translated(q, 7)] == EncodeQuad(d[3], d[4], d[5])
  {
    hide Qword, Translated, Char, Group, Selects;
    var q, g, h := Qword(low, high), Group(d[0], d[1], d[2]), Group(d[3], d[4], d[5]);
    MultishiftBits(d[0], d[1], d[2], d[3], d[4], d[5]);
    SelectedChar(q, 0, g, 0);
    SelectedChar(q, 1, g, 1);
    SelectedChar(q, 2, g, 2);
    SelectedChar(q, 3, g, 3);
    SelectedChar(q, 4, h, 0);
    SelectedChar(q, 5, h, 1);
    SelectedChar(q, 6, h, 2);
    SelectedChar(q, 7, h, 3);
  }

  lemma TranslatedPair(data: Vec, v: Vec, j: nat)
    requires |data| == 48 && |v| == 64 && j < 8 && SpreadAt(data, v, 2 * j) && SpreadAt(data, v, 2 * j + 1)
    ensures EncodesAt(data, Translate512(v), 2 * j) && EncodesAt(data, Translate512(v), 2 * j + 1)
  {
    hide Qword, Translated, EncodeQuad, Translate512;
    TranslatedQword(LaneOf(v, 2 * j), LaneOf(v, 2 * j + 1), data[6 * j..6 * j + 6]);
    TranslatedAt(v, j, 0);
    TranslatedAt(v, j, 1);
    TranslatedAt(v, j, 2);
    TranslatedAt(v, j, 3);
    TranslatedAt(v, j, 4);
    TranslatedAt(v, j, 5);
    TranslatedAt(v, j, 6);
    TranslatedAt(v, j, 7);
  }

  lemma RoundAvx512Encodes(v: Vec)
    requires |v| == 64
    ensures RoundAvx512(v) == Encode(v[..48])
  {
    hide Encode, Translate512, Permuted, EncodesAt, SpreadAt;
    var p := Permuted(v);
    forall g | 0 <= g < 16
      ensures EncodesAt(v[..48], Translate512(p), g)
    {
      var j := g / 2;
      PermuteSpreads(v, 2 * j);
      PermuteSpreads(v, 2 * j + 1);
      TranslatedPair(v[..48], p, j);
    }
    EncodeByQuads(v[..48], Translate512(p), 16);
  }
}
