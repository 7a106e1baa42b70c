/** One round of each fast decoder: which blocks it refuses, and the bytes it stores for the others. */
module DecodeBlocks {
  import opened Tables
  import opened Rfc4648
  import opened Simd
  import TableGenerator

  // SSSE3 and AVX2: validation and translation of one lane.

  const LUT_LO := Table16(
    0x15, 0x11, 0x11, 0x11, 0x11, 0x11, 0x11, 0x11, 0x11, 0x11, 0x13, 0x1A, 0x1B, 0x1B, 0x1B, 0x1A)

  const LUT_HI := Table16(
    0x10, 0x10, 0x01, 0x02, 0x04, 0x08, 0x04, 0x08, 0x10, 0x10, 0x10, 0x10, 0x10, 0x10, 0x10, 0x10)

  /** -65 and -71 as bytes are 191 and 185. */
  const LUT_ROLL := Table16(0, 16, 19, 4, 191, 191, 185, 185, 0, 0, 0, 0, 0, 0, 0, 0)

  /**
   * A byte `c` and its image under the 32-bit shift are looked up in two tables, and the results ANDed:
   * nonzero in the bytes that are not in the alphabet.
   */
  function Classify(c: byte, shifted: byte): byte {
    LookupByte(LUT_LO, c & 0x2F) & LookupByte(LUT_HI, shifted & 0x2F)
  }

  /** The perfect hash selects the offset that maps the character to its value. */
  function Translate(c: byte, shifted: byte): byte {
    c + LookupByte(LUT_ROLL, EqByte(c, 0x2F) + (shifted & 0x2F))
  }

  function ClassifyLane(l: Lane): Lane {
    var s := Srl4(l);
    Lane(Classify(l.b0, s.b0), Classify(l.b1, s.b1), Classify(l.b2, s.b2), Classify(l.b3, s.b3))
  }

  function TranslateLane(l: Lane): Lane {
    var s := Srl4(l);
    Lane(Translate(l.b0, s.b0), Translate(l.b1, s.b1), Translate(l.b2, s.b2), Translate(l.b3, s.b3))
  }

  /** Each byte of the 32-bit shift holds its own high nibble, whatever leaks in above it. */
  lemma ShiftLeaks(l: Lane)
    ensures var s := Srl4(l);
            s.b0 & 0x0F == l.b0 >> 4 && s.b1 & 0x0F == l.b1 >> 4 &&
            s.b2 & 0x0F == l.b2 >> 4 && s.b3 & 0x0F == l.b3 >> 4
  {
  }

  /** A byte is flagged exactly if it is not in the alphabet; flags are positive as signed bytes. */
  lemma ClassifyIsExact(c: byte, shifted: byte)
    requires shifted & 0x0F == c >> 4
    ensures Classify(c, shifted) == 0 <==> IsAlpha(c)
    ensures GtByte(Classify(c, shifted), 0) == 0 <==> IsAlpha(c)
  {
  }

  lemma TranslateIsExact(c: byte, shifted: byte)
    requires shifted & 0x0F == c >> 4 && IsAlpha(c)
    ensures Translate(c, shifted) == Dec8(c)
  {
  }

  predicate AlphaLane(l: Lane) {
    IsAlpha(l.b0) && IsAlpha(l.b1) && IsAlpha(l.b2) && IsAlpha(l.b3)
  }

  /** _mm_movemask_epi8 of the signed comparison with zero, on one lane. */
  predicate Flagged(k: Lane) {
    GtByte(k.b0, 0) != 0 || GtByte(k.b1, 0) != 0 || GtByte(k.b2, 0) != 0 || GtByte(k.b3, 0) != 0
  }

  /** _mm256_testz_si256, on one lane: the lookups are not disjoint. */
  predicate NotDisjoint(k: Lane) {
    k != Lane(0, 0, 0, 0)
  }

  ghost predicate Exact(c: byte, shifted: byte) {
    && (Classify(c, shifted) == 0 <==> IsAlpha(c))
    && (GtByte(Classify(c, shifted), 0) == 0 <==> IsAlpha(c))
    && (IsAlpha(c) ==> Translate(c, shifted) == Dec8(c))
  }

  lemma ByteIsExact(c: byte, shifted: byte)
    requires shifted & 0x0F == c >> 4
    ensures Exact(c, shifted)
  {
    hide Classify, Translate, IsAlpha, Dec8, GtByte;
    ClassifyIsExact(c, shifted);
    if IsAlpha(c) {
      TranslateIsExact(c, shifted);
    }
  }

  lemma BytesAreExact(l: Lane)
    ensures var s := Srl4(l);
            Exact(l.b0, s.b0) && Exact(l.b1, s.b1) && Exact(l.b2, s.b2) && Exact(l.b3, s.b3)
  {
    hide *;
    var s := Srl4(l);
    ShiftLeaks(l);
    ByteIsExact(l.b0, s.b0);
    ByteIsExact(l.b1, s.b1);
    ByteIsExact(l.b2, s.b2);
    ByteIsExact(l.b3, s.b3);
  }

  lemma LaneIsExact(l: Lane)
    ensures Flagged(ClassifyLane(l)) <==> !AlphaLane(l)
    ensures NotDisjoint(ClassifyLane(l)) <==> !AlphaLane(l)
    ensures AlphaLane(l) ==> TranslateLane(l) == Lane(Dec8(l.b0), Dec8(l.b1), Dec8(l.b2), Dec8(l.b3))
  {
    hide Classify, Translate, IsAlpha, Dec8, GtByte, Srl4;
    BytesAreExact(l);
  }

  /** 0x01400140 and 0x00011000 as lanes. */
  const MERGE_PAIRS := Lane(0x40, 0x01, 0x40, 0x01)
  const MERGE_WORDS := Lane(0x00, 0x10, 0x01, 0x00)

  /** The two multiply-adds of dec_reshuffle. */
  function Merge(l: Lane): Lane {
    Madd16(MaddUbs16(l, MERGE_PAIRS), MERGE_WORDS)
  }

  lemma MergeLane(p: byte, q: byte, r: byte, t: byte)
    requires p < 64 && q < 64 && r < 64 && t < 64
    ensures var g := Join(p, q, r, t);
            Merge(Lane(p, q, r, t)) == Lane(Octet(g, 2), Octet(g, 1), Octet(g, 0), 0)
  {
  }

  function ByteIn(l: Lane, k: nat): byte {
    if k == 0 then l.b0 else if k == 1 then l.b1 else if k == 2 then l.b2 else l.b3
  }

  function MergedByte(v: Vec, i: nat): byte
    requires i < |v| && |v| % 4 == 0
  {
    ByteIn(Merge(TranslateLane(LaneOf(v, i / 4))), i % 4)
  }

  /** Offsets added and bits merged in every lane of a register. */
  function Merged(v: Vec): (r: Vec)
    requires |v| % 4 == 0
    ensures |r| == |v|
  {
    seq(|v|, i requires 0 <= i < |v| => MergedByte(v, i))
  }

  lemma MergedAt(v: Vec, g: nat, k: nat)
    requires |v| % 4 == 0 && 4 * g + 3 < |v| && k < 4
    ensures Merged(v)[4 * g + k] == ByteIn(Merge(TranslateLane(LaneOf(v, g))), k)
  {
    hide Merge, TranslateLane, LaneOf, ByteIn;
    assert (4 * g + k) / 4 == g && (4 * g + k) % 4 == k;
  }

  lemma MergedLane(v: Vec, g: nat)
    requires |v| % 4 == 0 && 4 * g + 3 < |v| && AlphaLane(LaneOf(v, g))
    ensures var d := DecodeQuad(v[4 * g], v[4 * g + 1], v[4 * g + 2], v[4 * g + 3]);
            var m := Merged(v);
            m[4 * g + 2] == d[0] && m[4 * g + 1] == d[1] && m[4 * g] == d[2] && m[4 * g + 3] == 0
  {
    hide Dec8, IsAlpha, Join, Octet, Merge, TranslateLane, Merged;
    var l := LaneOf(v, g);
    LaneIsExact(l);
    MergeLane(Dec8(l.b0), Dec8(l.b1), Dec8(l.b2), Dec8(l.b3));
    MergedAt(v, g, 0);
    MergedAt(v, g, 1);
    MergedAt(v, g, 2);
    MergedAt(v, g, 3);
  }

  const PACK: seq<int> := [2, 1, 0, 6, 5, 4, 10, 9, 8, 14, 13, 12, -1, -1, -1, -1]

  const PACK_LANES: seq<int> := [0, 1, 2, 4, 5, 6, -1, -1]

  /** The three bytes of lane `g` of a merged register stand in order at offset `3 * g`. */
  ghost predicate PackedAt(m: Vec, r: Vec, g: nat)
    requires 4 * g + 3 < |m| && 3 * g + 2 < |r|
  {
    r[3 * g] == m[4 * g + 2] && r[3 * g + 1] == m[4 * g + 1] && r[3 * g + 2] == m[4 * g]
  }

  lemma PackSsse3(m: Vec)
    requires |m| == 16
    ensures forall g :: 0 <= g < 4 ==> PackedAt(m, Shuffle(m, PACK), g)
  {
  }

  /** Byte `i` of lane `g` of either half, of which the first three lanes are kept. */
  lemma PackedLane(a: Vec, b: Vec, g: nat, i: nat)
    requires |a| == |b| == 16 && g < 3 && i < 4
    ensures PickDword(a + b, PACK_LANES, 4 * g + i) == a[4 * g + i]
    ensures PickDword(a + b, PACK_LANES, 12 + (4 * g + i)) == b[4 * g + i]
  {
    assert (4 * g + i) / 4 == g && (4 * g + i) % 4 == i;
    assert (12 + (4 * g + i)) / 4 == 3 + g && (12 + (4 * g + i)) % 4 == i;
  }

  lemma PackLanes(a: Vec, b: Vec)
    requires |a| == |b| == 16
    ensures var r := Permute8x32(a + b, PACK_LANES);
            forall k :: 0 <= k < 12 ==> r[k] == a[k] && r[12 + k] == b[k]
  {
    hide PickDword;
    forall k | 0 <= k < 12
      ensures PickDword(a + b, PACK_LANES, k) == a[k] && PickDword(a + b, PACK_LANES, 12 + k) == b[k]
    {
      PackedLane(a, b, k / 4, k % 4);
    }
  }

  lemma PackAvx2(m: Vec)
    requires |m| == 32
    ensures var r := Permute8x32(ShuffleHalves(m, PACK, PACK), PACK_LANES);
            forall g :: 0 <= g < 8 ==> PackedAt(m, r, g)
  {
    hide Shuffle, Permute8x32;
    var a, b := Shuffle(m[..16], PACK), Shuffle(m[16..], PACK);
    PackSsse3(m[..16]);
    PackSsse3(m[16..]);
    PackLanes(a, b);
    var r := Permute8x32(a + b, PACK_LANES);
    forall g | 0 <= g < 8
      ensures PackedAt(m, r, g)
    {
      if g < 4 {
        assert PackedAt(m[..16], a, g);
      } else {
        assert PackedAt(m[16..], b, g - 4);
        var k := 3 * (g - 4);
        assert r[12 + k] == b[k] && r[12 + (k + 1)] == b[k + 1] && r[12 + (k + 2)] == b[k + 2];
      }
    }
  }

  // Generic words: the four generated tables ORed together.

  function Or4(x: bv32, y: bv32, z: bv32, w: bv32): bv32 {
    x | y | z | w
  }

  function Ored(e: Endian, l: Lane): bv32 {
    Or4(TableGenerator.Entry(e, 0, l.b0), TableGenerator.Entry(e, 1, l.b1),
        TableGenerator.Entry(e, 2, l.b2), TableGenerator.Entry(e, 3, l.b3))
  }

  /** The sentinel bit, which no valid entry sets. */
  predicate Sentinel(e: Endian, w: bv32) {
    match e
    case Little => w & 0x80000000 != 0
    case Big => w & 1 != 0
  }

  /** memcpy of a word, in the machine's byte order. */
  function InMemory(e: Endian, w: bv32): Vec {
    var l := OfDword(w);
    match e
    case Little => [l.b0, l.b1, l.b2, l.b3]
    case Big => [l.b3, l.b2, l.b1, l.b0]
  }

  function PlacedAll(e: Endian, p: byte, q: byte, r: byte, t: byte): bv32 {
    Or4(TableGenerator.Placed(e, 0, p as bv32), TableGenerator.Placed(e, 1, q as bv32),
        TableGenerator.Placed(e, 2, r as bv32), TableGenerator.Placed(e, 3, t as bv32))
  }

  lemma PlacedLittle(p: byte, q: byte, r: byte, t: byte)
    requires p < 64 && q < 64 && r < 64 && t < 64
    ensures OfDword(PlacedAll(Little, p, q, r, t)) == Lane((p << 2) | (q >> 4), (q << 4) | (r >> 2), (r << 6) | t, 0)
    ensures PlacedAll(Little, p, q, r, t) & 0x80000000 == 0
  {
  }

  lemma PlacedBig(p: byte, q: byte, r: byte, t: byte)
    requires p < 64 && q < 64 && r < 64 && t < 64
    ensures OfDword(PlacedAll(Big, p, q, r, t)) == Lane(0, (r << 6) | t, (q << 4) | (r >> 2), (p << 2) | (q >> 4))
    ensures PlacedAll(Big, p, q, r, t) & 1 == 0
  {
  }

  /** On either byte order the OR of valid entries has no sentinel and holds the three octets in memory order. */
  lemma PlacedBits(e: Endian, p: byte, q: byte, r: byte, t: byte)
    requires p < 64 && q < 64 && r < 64 && t < 64
    ensures var w := PlacedAll(e, p, q, r, t);
            var g := Join(p, q, r, t);
            !Sentinel(e, w) && InMemory(e, w) == [Octet(g, 0), Octet(g, 1), Octet(g, 2), 0]
  {
    hide PlacedAll, OfDword, Octet, Join;
    PlacedLittle(p, q, r, t);
    PlacedBig(p, q, r, t);
    DecodeBits(p, q, r, t);
  }

  lemma OredInvalid(e: Endian, l: Lane)
    requires !AlphaLane(l)
    ensures Sentinel(e, Ored(e, l))
  {
  }

  lemma OredValid(e: Endian, l: Lane)
    requires AlphaLane(l)
    ensures Ored(e, l) == PlacedAll(e, Dec8(l.b0), Dec8(l.b1), Dec8(l.b2), Dec8(l.b3))
  {
    hide IsAlpha, TableGenerator.Placed, TableGenerator.Entry, Dec8, Or4;
    EntryOfAlpha(e, 0, l.b0);
    EntryOfAlpha(e, 1, l.b1);
    EntryOfAlpha(e, 2, l.b2);
    EntryOfAlpha(e, 3, l.b3);
  }

  lemma EntryOfAlpha(e: Endian, k: nat, c: byte)
    requires k < 4 && IsAlpha(c)
    ensures TableGenerator.Entry(e, k, c) == TableGenerator.Placed(e, k, Dec8(c) as bv32)
  {
  }

  /** The sentinel appears exactly in a block with a character outside the alphabet. */
  lemma OredIsExact(e: Endian, l: Lane)
    ensures Sentinel(e, Ored(e, l)) <==> !AlphaLane(l)
    ensures AlphaLane(l) ==>
              InMemory(e, Ored(e, l)) == DecodeQuad(l.b0, l.b1, l.b2, l.b3) + [0]
  {
    hide IsAlpha, Dec8, Ored, Sentinel, Octet, Join, InMemory, PlacedAll;
    if AlphaLane(l) {
      OredValid(e, l);
      PlacedBits(e, Dec8(l.b0), Dec8(l.b1), Dec8(l.b2), Dec8(l.b3));
    } else {
      OredInvalid(e, l);
    }
  }

  // NEON: two saturating table lookups.

  const DEC_LUT1 := Table64(
    NO_VALUES,
    NO_VALUES,
    Table16(255, 255, 255, 255, 255, 255, 255, 255, 255, 255, 255, 62, 255, 255, 255, 63),
    Table16(52, 53, 54, 55, 56, 57, 58, 59, 60, 61, 255, 255, 255, 255, 255, 255))

  const DEC_LUT2 := Table64(
    Table16(0, 255, 0, 1, 2, 3, 4, 5, 6, 7, 8, 9, 10, 11, 12, 13),
    Table16(14, 15, 16, 17, 18, 19, 20, 21, 22, 23, 24, 25, 255, 255, 255, 255),
    Table16(255, 255, 26, 27, 28, 29, 30, 31, 32, 33, 34, 35, 36, 37, 38, 39),
    Table16(40, 41, 42, 43, 44, 45, 46, 47, 48, 49, 50, 51, 255, 255, 255, 255))

  /** vqtbl4q_u8: zero for an index out of range. */
  function Tbl4(t: Table64, i: byte): byte {
    if i < 64 then Entry64(t, i) else 0
  }

  /** vqtbx4q_u8: the destination is kept for an index out of range. */
  function Tbx4(d: byte, t: Table64, i: byte): byte {
    if i < 64 then Entry64(t, i) else d
  }

  /** The combined lookup, applied to every byte whatever lane it was deinterleaved into. */
  function NeonValue(c: byte): byte {
    var i := SubsByte(c, 63);
    Tbl4(DEC_LUT1, c) | Tbx4(i, DEC_LUT2, i)
  }

  lemma NeonValueIsExact(c: byte)
    ensures NeonValue(c) > 63 <==> !IsAlpha(c)
    ensures IsAlpha(c) ==> NeonValue(c) == Dec8(c)
  {
  }

  /** Lane `j` of `str.val[k]` after the lookups: vld4q_u8 deinterleaves, so it comes from byte 4j + k. */
  function NeonVal(v: Vec, k: nat, j: nat): byte
    requires |v| == 64 && k < 4 && j < 16
  {
    NeonValue(v[4 * j + k])
  }

  /** Four bytes compressed into three, as `dec.val[0..2]`. */
  function Compress(p: byte, q: byte, r: byte, t: byte): (byte, byte, byte) {
    ((p << 2) | (q >> 4), (q << 4) | (r >> 2), (r << 6) | t)
  }

  function NeonLane(v: Vec, j: nat): (byte, byte, byte)
    requires |v| == 64 && j < 16
  {
    Compress(NeonVal(v, 0, j), NeonVal(v, 1, j), NeonVal(v, 2, j), NeonVal(v, 3, j))
  }

  /** Byte `i` of what vst3q_u8 stores: lane i / 3 of `dec.val[i % 3]`. */
  function NeonByte(v: Vec, i: nat): byte
    requires |v| == 64 && i < 48
  {
    var d := NeonLane(v, i / 3);
    if i % 3 == 0 then d.0 else if i % 3 == 1 then d.1 else d.2
  }

  function NeonPacked(v: Vec): (r: Vec)
    requires |v| == 64
    ensures |r| == 48
  {
    seq(48, i requires 0 <= i < 48 => NeonByte(v, i))
  }

  lemma CompressIsDecode(a: byte, b: byte, c: byte, d: byte)
    requires IsAlpha(a) && IsAlpha(b) && IsAlpha(c) && IsAlpha(d)
    ensures var x := Compress(NeonValue(a), NeonValue(b), NeonValue(c), NeonValue(d));
            DecodeQuad(a, b, c, d) == [x.0, x.1, x.2]
  {
    hide NeonValue, Octet, Join, IsAlpha, Dec8;
    NeonValueIsExact(a);
    NeonValueIsExact(b);
    NeonValueIsExact(c);
    NeonValueIsExact(d);
    DecodeBits(Dec8(a), Dec8(b), Dec8(c), Dec8(d));
  }

  lemma NeonQuad(v: Vec, j: nat)
    requires |v| == 64 && j < 16 && AllAlpha(v)
    ensures DecodesAt(v, NeonPacked(v), j)
  {
    hide NeonValue, Compress, DecodeQuad, IsAlpha;
    CompressIsDecode(v[4 * j], v[4 * j + 1], v[4 * j + 2], v[4 * j + 3]);
    assert (3 * j) / 3 == j && (3 * j + 1) / 3 == j && (3 * j + 2) / 3 == j;
  }

  // One round of each decoder.

  datatype Fast = Words(endian: Endian) | Ssse3 | Avx2 | Neon64

  function BlockLen(f: Fast): nat {
    match f
    case Words(_) => 4
    case Ssse3 => 16
    case Avx2 => 32
    case Neon64 => 64
  }

  /** Bytes stored for a block beyond the three for every four characters. */
  function Overshoot(f: Fast): nat {
    match f
    case Words(_) => 1
    case Ssse3 => 4
    case Avx2 => 8
    case Neon64 => 0
  }

  datatype Round = Refused | Stores(data: Vec)

  /** dec_loop_generic_32_inner */
  function RoundWords(e: Endian, v: Vec): Round
    requires |v| == 4
  {
    var w := Ored(e, LaneOf(v, 0));
    if Sentinel(e, w) then Refused else Stores(InMemory(e, w))
  }

  predicate FlaggedAt(v: Vec, g: nat)
    requires 4 * g + 3 < |v|
  {
    Flagged(ClassifyLane(LaneOf(v, g)))
  }

  /** dec_loop_ssse3_inner */
  function RoundSsse3(v: Vec): Round
    requires |v| == 16
  {
    if exists g | 0 <= g < 4 :: FlaggedAt(v, g) then Refused else Stores(Shuffle(Merged(v), PACK))
  }

  predicate NotDisjointAt(v: Vec, g: nat)
    requires 4 * g + 3 < |v|
  {
    NotDisjoint(ClassifyLane(LaneOf(v, g)))
  }

  /** dec_loop_avx2_inner */
  function RoundAvx2(v: Vec): Round
    requires |v| == 32
  {
    if exists g | 0 <= g < 8 :: NotDisjointAt(v, g) then Refused
    else Stores(Permute8x32(ShuffleHalves(Merged(v), PACK, PACK), PACK_LANES))
  }

  predicate Outside(v: Vec, k: nat, j: nat)
    requires |v| == 64 && k < 4 && j < 16
  {
    NeonVal(v, k, j) > 63
  }

  /** The body of the loop in dec_loop_neon64 */
  function RoundNeon64(v: Vec): Round
    requires |v| == 64
  {
    if exists k, j | 0 <= k < 4 && 0 <= j < 16 :: Outside(v, k, j) then Refused else Stores(NeonPacked(v))
  }

  /** What a round does with the block it loads: refuse it, or store a register. */
  function RoundOf(f: Fast, v: Vec): Round
    requires |v| == BlockLen(f)
  {
    match f
    case Words(e) => RoundWords(e, v)
    case Ssse3 => RoundSsse3(v)
    case Avx2 => RoundAvx2(v)
    case Neon64 => RoundNeon64(v)
  }

  /** A round's verdict and data meet the specification of its block. */
  ghost predicate RoundMeetsSpec(f: Fast, v: Vec)
    requires |v| == BlockLen(f)
  {
    match RoundOf(f, v)
    case Refused => !AllAlpha(v)
    case Stores(d) =>
      var n := BlockLen(f) / 4 * 3;
      AllAlpha(v) && |d| == n + Overshoot(f) && d[..n] == Decode(v)
  }

  ghost predicate AlphaAt(v: Vec, g: nat)
    requires 4 * g + 3 < |v|
  {
    AlphaLane(LaneOf(v, g))
  }

  lemma AlphaByLanes(v: Vec, n: nat)
    requires |v| == 4 * n
    ensures AllAlpha(v) <==> forall g :: 0 <= g < n ==> AlphaAt(v, g)
  {
    hide IsAlpha;
    if forall g :: 0 <= g < n ==> AlphaAt(v, g) {
      forall i | 0 <= i < |v|
        ensures IsAlpha(v[i])
      {
        assert AlphaAt(v, i / 4);
      }
    }
  }

  lemma PackedDecodes(v: Vec, r: Vec, n: nat)
    requires |v| == 4 * n && |r| >= 3 * n && AllAlpha(v)
    requires forall g :: 0 <= g < n ==> PackedAt(Merged(v), r, g)
    ensures r[..3 * n] == Decode(v)
  {
    hide Merged, IsAlpha, DecodeQuad, Decode;
    AlphaByLanes(v, n);
    forall g | 0 <= g < n
      ensures DecodesAt(v, r[..3 * n], g)
    {
      assert AlphaAt(v, g) && PackedAt(Merged(v), r, g);
      MergedLane(v, g);
    }
    DecodeByQuads(v, r[..3 * n], n);
  }

  lemma WordsMeetSpec(e: Endian, v: Vec)
    requires |v| == 4
    ensures RoundMeetsSpec(Words(e), v)
  {
    hide Ored, Sentinel, InMemory, IsAlpha, DecodeQuad;
    var l := LaneOf(v, 0);
    OredIsExact(e, l);
    if AllAlpha(v) {
      DecodeCons(v, []);
      assert v + [] == v;
    }
  }

  lemma Ssse3MeetsSpec(v: Vec)
    requires |v| == 16
    ensures RoundMeetsSpec(Ssse3, v)
  {
    hide Merged, Shuffle, IsAlpha, Flagged, ClassifyLane, Decode;
    AlphaByLanes(v, 4);
    forall g | 0 <= g < 4
      ensures FlaggedAt(v, g) <==> !AlphaAt(v, g)
    {
      LaneIsExact(LaneOf(v, g));
    }
    if AllAlpha(v) {
      PackSsse3(Merged(v));
      PackedDecodes(v, Shuffle(Merged(v), PACK), 4);
    }
  }

  lemma Avx2MeetsSpec(v: Vec)
    requires |v| == 32
    ensures RoundMeetsSpec(Avx2, v)
  {
    hide Merged, ShuffleHalves, Permute8x32, IsAlpha, NotDisjoint, ClassifyLane, Decode;
    AlphaByLanes(v, 8);
    forall g | 0 <= g < 8
      ensures NotDisjointAt(v, g) <==> !AlphaAt(v, g)
    {
      LaneIsExact(LaneOf(v, g));
    }
    if AllAlpha(v) {
      PackAvx2(Merged(v));
      PackedDecodes(v, Permute8x32(ShuffleHalves(Merged(v), PACK, PACK), PACK_LANES), 8);
    }
  }

  lemma Neon64MeetsSpec(v: Vec)
    requires |v| == 64
    ensures RoundMeetsSpec(Neon64, v)
  {
    hide NeonPacked, NeonValue, IsAlpha, Decode;
    if AllAlpha(v) {
      forall k, j | 0 <= k < 4 && 0 <= j < 16
        ensures !Outside(v, k, j)
      {
        NeonValueIsExact(v[4 * j + k]);
      }
      forall j | 0 <= j < 16
        ensures DecodesAt(v, NeonPacked(v), j)
      {
        NeonQuad(v, j);
      }
      DecodeByQuads(v, NeonPacked(v), 16);
    } else {
      var i :| 0 <= i < 64 && !IsAlpha(v[i]);
      NeonValueIsExact(v[i]);
      assert Outside(v, i % 4, i / 4);
    }
  }

  /** Every round refuses exactly the blocks with a character outside the alphabet, and decodes the others. */
  lemma RoundIsExact(f: Fast, v: Vec)
    requires |v| == BlockLen(f)
    ensures RoundMeetsSpec(f, v)
  {
    hide RoundMeetsSpec;
    match f
    case Words(e) => WordsMeetSpec(e, v);
    case Ssse3 => Ssse3MeetsSpec(v);
    case Avx2 => Avx2MeetsSpec(v);
    case Neon64 => Neon64MeetsSpec(v);
  }
}
