/**
 * The vector instructions used by the codecs. Nearly all of them work on 32-bit lanes
 * independently, so they are stated on one lane of four bytes, least significant byte first;
 * only the byte shuffles move data between lanes, and those are stated on whole registers.
 */
module Simd {
  import opened Tables

  datatype Lane = Lane(b0: byte, b1: byte, b2: byte, b3: byte)

  /** A register, as it is loaded from and stored to memory. */
  type Vec = seq<byte>

  function LaneOf(v: Vec, g: nat): Lane
    requires 4 * g + 3 < |v|
  {
    Lane(v[4 * g], v[4 * g + 1], v[4 * g + 2], v[4 * g + 3])
  }

  function BytesOf(l: Lane): Vec {
    [l.b0, l.b1, l.b2, l.b3]
  }

  // Words within a lane.

  function Word(lo: byte, hi: byte): bv16 {
    (lo as bv16) | ((hi as bv16) << 8)
  }

  function Low(w: bv16): byte {
    (w & 0xFF) as byte
  }

  function High(w: bv16): byte {
    (w >> 8) as byte
  }

  function OfWords(w0: bv16, w1: bv16): Lane {
    Lane(Low(w0), High(w0), Low(w1), High(w1))
  }

  function Dword(l: Lane): bv32 {
    (l.b0 as bv32) | ((l.b1 as bv32) << 8) | ((l.b2 as bv32) << 16) | ((l.b3 as bv32) << 24)
  }

  function OfDword(w: bv32): Lane {
    Lane((w & 0xFF) as byte, ((w >> 8) & 0xFF) as byte, ((w >> 16) & 0xFF) as byte, (w >> 24) as byte)
  }

  lemma DwordRoundTrip(l: Lane)
    ensures OfDword(Dword(l)) == l
  {
  }

  // Quadwords.

  function Qword(l: Lane, h: Lane): bv64 {
    (Dword(l) as bv64) | ((Dword(h) as bv64) << 32)
  }

  function LowDword(q: bv64): bv32 {
    (q & 0xFFFFFFFF) as bv32
  }

  function HighDword(q: bv64): bv32 {
    (q >> 32) as bv32
  }

  lemma QwordRoundTrip(l: Lane, h: Lane)
    ensures LowDword(Qword(l, h)) == Dword(l) && HighDword(Qword(l, h)) == Dword(h)
  {
  }

  // Bytewise instructions other than those that are operators on bytes already.

  /** psubusb: unsigned saturating subtraction. */
  function SubsByte(a: byte, b: byte): byte {
    if a < b then 0 else a - b
  }

  /** pcmpgtb: signed comparison into a mask. */
  function GtByte(a: byte, b: byte): byte {
    if a ^ 0x80 > b ^ 0x80 then 0xFF else 0
  }

  /** pcmpeqb */
  function EqByte(a: byte, b: byte): byte {
    if a == b then 0xFF else 0
  }

  // Table lookups.

  /** pshufb uses the low four bits of an index, and bit 7 to select zero. */
  function LookupByte(t: Table16, i: byte): byte {
    if i & 0x80 != 0 then 0 else Entry(t, i & 0x0F)
  }

  // Shifts and multiplications.

  /** psrld by 4: bits cross from each byte into its lower neighbour. */
  function Srl4(l: Lane): Lane {
    OfDword(Dword(l) >> 4)
  }

  function HighProduct(a: bv16, b: bv16): bv16 {
    (((a as bv32) * (b as bv32)) >> 16) as bv16
  }

  /** pmulhuw: high half of the unsigned product. */
  function MulHi16(l: Lane, m: Lane): Lane {
    OfWords(HighProduct(Word(l.b0, l.b1), Word(m.b0, m.b1)), HighProduct(Word(l.b2, l.b3), Word(m.b2, m.b3)))
  }

  /** pmullw: low half of the product. */
  function MulLo16(l: Lane, m: Lane): Lane {
    OfWords(Word(l.b0, l.b1) * Word(m.b0, m.b1), Word(l.b2, l.b3) * Word(m.b2, m.b3))
  }

  function SignExtend8(b: byte): bv32 {
    if b & 0x80 != 0 then (b as bv32) | 0xFFFFFF00 else b as bv32
  }

  function SignExtend16(w: bv16): bv32 {
    if w & 0x8000 != 0 then (w as bv32) | 0xFFFF0000 else w as bv32
  }

  /** A signed 32-bit value clamped to the signed 16-bit range. */
  function Saturate16(x: bv32): bv16 {
    var t := x ^ 0x8000_0000;
    if t > 0x8000_7FFF then 0x7FFF
    else if t < 0x7FFF_8000 then 0x8000
    else (x & 0xFFFF) as bv16
  }

  function UnsignedBySigned(a0: byte, a1: byte, b0: byte, b1: byte): bv16 {
    Saturate16((a0 as bv32) * SignExtend8(b0) + (a1 as bv32) * SignExtend8(b1))
  }

  /** pmaddubsw: unsigned times signed bytes, adjacent products added with saturation. */
  function MaddUbs16(l: Lane, m: Lane): Lane {
    OfWords(UnsignedBySigned(l.b0, l.b1, m.b0, m.b1), UnsignedBySigned(l.b2, l.b3, m.b2, m.b3))
  }

  /** pmaddwd: signed words, adjacent products added. */
  function Madd16(l: Lane, m: Lane): Lane {
    OfDword(SignExtend16(Word(l.b0, l.b1)) * SignExtend16(Word(m.b0, m.b1)) +
            SignExtend16(Word(l.b2, l.b3)) * SignExtend16(Word(m.b2, m.b3)))
  }

  // Shuffles by constant patterns.

  function Pick(v: Vec, k: int): byte
    requires k < |v|
  {
    if k < 0 then 0 else v[k]
  }

  /** pshufb by a constant pattern; a negative index selects zero. */
  function Shuffle(v: Vec, pattern: seq<int>): (r: Vec)
    requires |v| == |pattern| == 16
    requires forall i :: 0 <= i < 16 ==> pattern[i] < 16
    ensures |r| == 16
  {
    seq(16, i requires 0 <= i < 16 => Pick(v, pattern[i]))
  }

  /** vpshufb: each 128-bit half on its own. */
  function ShuffleHalves(v: Vec, low: seq<int>, high: seq<int>): (r: Vec)
    requires |v| == 32 && |low| == |high| == 16
    requires forall i :: 0 <= i < 16 ==> low[i] < 16 && high[i] < 16
    ensures |r| == 32
  {
    Shuffle(v[..16], low) + Shuffle(v[16..], high)
  }

  function PickDword(v: Vec, p: seq<int>, i: nat): byte
    requires |v| == 32 && |p| == 8 && i < 32
  {
    v[4 * (p[i / 4] % 8) + i % 4]
  }

  /** vpermd: whole 32-bit lanes, selected by the low three bits of each index. */
  function Permute8x32(v: Vec, p: seq<int>): (r: Vec)
    requires |v| == 32 && |p| == 8
    ensures |r| == 32
  {
    seq(32, i requires 0 <= i < 32 => PickDword(v, p, i))
  }
}
