/** The two byte-sized lookup tables of the codec, and the 12-bit encoding table. */
module Tables {

  type byte = bv8

  /** '=', the padding character. */
  const PAD: byte := 61

  /** '\n', the line separator of the command-line tool. */
  const NEWLINE: byte := 10

  /** A-Z, a-z, 0-9, '+' and '/'. */
  predicate IsAlpha(c: byte) {
    65 <= c <= 90 || 97 <= c <= 122 || 48 <= c <= 57 || c == 43 || c == 47
  }

  predicate AllAlpha(s: seq<byte>) {
    forall i :: 0 <= i < |s| ==> IsAlpha(s[i])
  }

  /** The 64-entry table of alphabet characters, indexed by a 6-bit value. */
  function Enc6(v: byte): (c: byte)
    requires v < 64
    ensures IsAlpha(c) && Dec8(c) == v
  {
    if v < 26 then v + 65
    else if v < 52 then v + 71
    else if v < 62 then v - 4
    else if v == 62 then 43
    else 47
  }

  /** The 256-entry decoding table: a 6-bit value, 254 for '=', 255 for any other byte. */
  function Dec8(c: byte): (q: byte)
    ensures q < 64 <==> IsAlpha(c)
    ensures q >= 64 ==> q >= 254
    ensures q == 254 <==> c == PAD
  {
    if 65 <= c <= 90 then c - 65
    else if 97 <= c <= 122 then c - 71
    else if 48 <= c <= 57 then c + 4
    else if c == 43 then 62
    else if c == 47 then 63
    else if c == 61 then 254
    else 255
  }

  lemma EncDec(c: byte)
    requires IsAlpha(c)
    ensures Enc6(Dec8(c)) == c
  {
  }

  // The same tables as they are written out, sixteen entries to a row.

  /** Sixteen consecutive entries of a byte table. */
  datatype Table16 = Table16(
    t0: byte, t1: byte, t2: byte, t3: byte, t4: byte, t5: byte, t6: byte, t7: byte,
    t8: byte, t9: byte, t10: byte, t11: byte, t12: byte, t13: byte, t14: byte, t15: byte)

  function Entry(t: Table16, n: byte): byte {
    if n == 0 then t.t0 else if n == 1 then t.t1 else if n == 2 then t.t2 else if n == 3 then t.t3
    else if n == 4 then t.t4 else if n == 5 then t.t5 else if n == 6 then t.t6 else if n == 7 then t.t7
    else if n == 8 then t.t8 else if n == 9 then t.t9 else if n == 10 then t.t10 else if n == 11 then t.t11
    else if n == 12 then t.t12 else if n == 13 then t.t13 else if n == 14 then t.t14 else t.t15
  }

  datatype Table64 = Table64(r0: Table16, r1: Table16, r2: Table16, r3: Table16)

  function Entry64(t: Table64, i: byte): byte
    requires i < 64
  {
    var row := i >> 4;
    Entry(if row == 0 then t.r0 else if row == 1 then t.r1 else if row == 2 then t.r2 else t.r3, i & 0x0F)
  }

  const ENC_6BIT := Table64(
    Table16(65, 66, 67, 68, 69, 70, 71, 72, 73, 74, 75, 76, 77, 78, 79, 80),
    Table16(81, 82, 83, 84, 85, 86, 87, 88, 89, 90, 97, 98, 99, 100, 101, 102),
    Table16(103, 104, 105, 106, 107, 108, 109, 110, 111, 112, 113, 114, 115, 116, 117, 118),
    Table16(119, 120, 121, 122, 48, 49, 50, 51, 52, 53, 54, 55, 56, 57, 43, 47))

  const NO_VALUES := Table16(255, 255, 255, 255, 255, 255, 255, 255, 255, 255, 255, 255, 255, 255, 255, 255)

  const DEC_8BIT_LOW := Table64(
    NO_VALUES,
    NO_VALUES,
    Table16(255, 255, 255, 255, 255, 255, 255, 255, 255, 255, 255, 62, 255, 255, 255, 63),
    Table16(52, 53, 54, 55, 56, 57, 58, 59, 60, 61, 255, 255, 255, 254, 255, 255))

  const DEC_8BIT_HIGH := Table64(
    Table16(255, 0, 1, 2, 3, 4, 5, 6, 7, 8, 9, 10, 11, 12, 13, 14),
    Table16(15, 16, 17, 18, 19, 20, 21, 22, 23, 24, 25, 255, 255, 255, 255, 255),
    Table16(255, 26, 27, 28, 29, 30, 31, 32, 33, 34, 35, 36, 37, 38, 39, 40),
    Table16(41, 42, 43, 44, 45, 46, 47, 48, 49, 50, 51, 255, 255, 255, 255, 255))

  /** The ranges above are the tables of tables.c; the upper half of the decoding table is all 255. */
  lemma TablesAreRanges(i: byte)
    ensures i < 64 ==> Entry64(ENC_6BIT, i) == Enc6(i)
    ensures i < 64 ==> Dec8(i) == Entry64(DEC_8BIT_LOW, i)
    ensures 64 <= i < 128 ==> Dec8(i) == Entry64(DEC_8BIT_HIGH, i - 64)
    ensures i >= 128 ==> Dec8(i) == 255
  {
  }

  datatype Endian = Little | Big

  /** Entry `n` of the 12-bit table, as generated for the given byte order. */
  function Enc12(e: Endian, n: bv16): bv16
    requires n < 4096
  {
    var first := Enc6(((n >> 6) & 0x3F) as byte) as bv16;
    var second := Enc6((n & 0x3F) as byte) as bv16;
    match e
    case Little => first | (second << 8)
    case Big => second | (first << 8)
  }
}
