/** The Base64 scheme of RFC 4648 section 4, stated on 24-bit groups and independently of the codec. */
module Rfc4648 {
  import opened Tables

  /** Three octets concatenated into a 24-bit group. */
  function Group(a: byte, b: byte, c: byte): bv24 {
    ((a as bv24) << 16) | ((b as bv24) << 8) | (c as bv24)
  }

  /** The k-th 6-bit value of a group, counted from the most significant end. */
  function Sextet(g: bv24, k: nat): (v: byte)
    requires k < 4
    ensures v < 64
  {
    if k == 0 then ((g >> 18) & 0x3F) as byte
    else if k == 1 then ((g >> 12) & 0x3F) as byte
    else if k == 2 then ((g >> 6) & 0x3F) as byte
    else (g & 0x3F) as byte
  }

  function Char(g: bv24, k: nat): (c: byte)
    requires k < 4
  {
    Enc6(Sextet(g, k))
  }

  function EncodeQuad(a: byte, b: byte, c: byte): (r: seq<byte>)
    ensures |r| == 4 && AllAlpha(r)
  {
    var g := Group(a, b, c);
    [Char(g, 0), Char(g, 1), Char(g, 2), Char(g, 3)]
  }

  /** Section 4 of RFC 4648: whole groups first, then the padded final quantum. */
  function Encode(s: seq<byte>): (r: seq<byte>)
  {
    if |s| == 0 then []
    else if |s| == 1 then
      var g := Group(s[0], 0, 0);
      [Char(g, 0), Char(g, 1), PAD, PAD]
    else if |s| == 2 then
      var g := Group(s[0], s[1], 0);
      [Char(g, 0), Char(g, 1), Char(g, 2), PAD]
    else EncodeQuad(s[0], s[1], s[2]) + Encode(s[3..])
  }

  lemma EncodeLength(s: seq<byte>)
    ensures |Encode(s)| == (|s| + 2) / 3 * 4
  {
  }

  /** The 6-bit value of a character; only its value on the alphabet matters. */
  function Value(c: byte): (v: byte)
    ensures v < 64
    ensures IsAlpha(c) ==> v == Dec8(c)
  {
    if IsAlpha(c) then Dec8(c) else 0
  }

  /** Four 6-bit values concatenated into a 24-bit group. */
  function Join(p: byte, q: byte, r: byte, t: byte): bv24 {
    ((p as bv24) << 18) | ((q as bv24) << 12) | ((r as bv24) << 6) | (t as bv24)
  }

  function Octet(g: bv24, k: nat): byte
    requires k < 3
  {
    if k == 0 then ((g >> 16) & 0xFF) as byte
    else if k == 1 then ((g >> 8) & 0xFF) as byte
    else (g & 0xFF) as byte
  }

  function DecodeQuad(p: byte, q: byte, r: byte, t: byte): (d: seq<byte>)
    ensures |d| == 3
  {
    var g := Join(Value(p), Value(q), Value(r), Value(t));
    [Octet(g, 0), Octet(g, 1), Octet(g, 2)]
  }

  /** The octets of a string of quanta, of which only the last may be padded. */
  function Decode(s: seq<byte>): seq<byte> {
    if |s| < 4 then []
    else if |s| == 4 && s[3] == PAD then
      var g := Join(Value(s[0]), Value(s[1]), Value(s[2]), 0);
      if s[2] == PAD then [Octet(g, 0)] else [Octet(g, 0), Octet(g, 1)]
    else DecodeQuad(s[0], s[1], s[2], s[3]) + Decode(s[4..])
  }

  /** Alphabet characters followed by exactly `p` padding characters. */
  ghost predicate PaddedBy(s: seq<byte>, p: nat) {
    p <= |s| &&
    (forall i :: 0 <= i < |s| - p ==> IsAlpha(s[i])) &&
    (forall i :: |s| - p <= i < |s| ==> s[i] == PAD)
  }

  /** The strings of section 4: whole quanta of alphabet characters, then at most two '='. */
  ghost predicate InLanguage(s: seq<byte>) {
    |s| % 4 == 0 && (PaddedBy(s, 0) || PaddedBy(s, 1) || PaddedBy(s, 2))
  }

  /** The same language, one quantum at a time. */
  predicate Quanta(s: seq<byte>) {
    s == [] ||
    (|s| >= 4 && IsAlpha(s[0]) && IsAlpha(s[1]) &&
     (if |s| == 4 && s[3] == PAD then IsAlpha(s[2]) || s[2] == PAD
      else IsAlpha(s[2]) && IsAlpha(s[3]) && Quanta(s[4..])))
  }

  lemma {:induction false} QuantaIsLanguage(s: seq<byte>)
    ensures Quanta(s) <==> InLanguage(s)
  {
    if |s| > 4 {
      QuantaIsLanguage(s[4..]);
      if |s| >= 8 {
        PaddedSplit(s, 0);
        PaddedSplit(s, 1);
        PaddedSplit(s, 2);
      }
    } else if |s| == 4 {
      OneQuantum(s);
    }
  }

  lemma PaddedSplit(s: seq<byte>, p: nat)
    requires |s| >= p + 4
    ensures PaddedBy(s, p) <==>
            IsAlpha(s[0]) && IsAlpha(s[1]) && IsAlpha(s[2]) && IsAlpha(s[3]) && PaddedBy(s[4..], p)
  {
  }

  lemma OneQuantum(s: seq<byte>)
    requires |s| == 4
    ensures Quanta(s) <==> InLanguage(s)
  {
  }

  /** The two directions of re-grouping 24 bits, in the shifts that the codec uses. */
  lemma EncodeBits(a: byte, b: byte, c: byte)
    ensures Sextet(Group(a, b, c), 0) == a >> 2
    ensures Sextet(Group(a, b, c), 1) == ((a << 4) & 0x30) | (b >> 4)
    ensures Sextet(Group(a, b, c), 2) == ((b << 2) & 0x3C) | (c >> 6)
    ensures Sextet(Group(a, b, c), 3) == c & 0x3F
  {
  }

  lemma DecodeBits(p: byte, q: byte, r: byte, t: byte)
    requires p < 64 && q < 64 && r < 64 && t < 64
    ensures Octet(Join(p, q, r, t), 0) == (p << 2) | (q >> 4)
    ensures Octet(Join(p, q, r, t), 1) == (q << 4) | (r >> 2)
    ensures Octet(Join(p, q, r, t), 2) == (r << 6) | t
  {
  }

  lemma GroupOctets(g: bv24)
    ensures Group(Octet(g, 0), Octet(g, 1), Octet(g, 2)) == g
  {
  }

  lemma SextetsOfJoin(p: byte, q: byte, r: byte, t: byte)
    requires p < 64 && q < 64 && r < 64 && t < 64
    ensures var g := Join(p, q, r, t);
            Sextet(g, 0) == p && Sextet(g, 1) == q && Sextet(g, 2) == r && Sextet(g, 3) == t
  {
  }

  /** Section 3.5 of RFC 4648: the bits that a padded final quantum does not use are zero. */
  predicate Canonical(s: seq<byte>) {
    |s| >= 4 && s[|s| - 1] == PAD ==>
      if s[|s| - 2] == PAD then Value(s[|s| - 3]) & 0x0F == 0 else Value(s[|s| - 2]) & 0x03 == 0
  }

  lemma EncodeCons(d: seq<byte>, rest: seq<byte>)
    requires |d| == 3
    ensures Encode(d + rest) == EncodeQuad(d[0], d[1], d[2]) + Encode(rest)
  {
  }

  lemma DecodeCons(q: seq<byte>, rest: seq<byte>)
    requires |q| == 4 && AllAlpha(q)
    ensures Decode(q + rest) == DecodeQuad(q[0], q[1], q[2], q[3]) + Decode(rest)
  {
  }

  lemma QuantaCons(q: seq<byte>, rest: seq<byte>)
    requires |q| == 4 && AllAlpha(q)
    ensures Quanta(q + rest) <==> Quanta(rest)
    ensures Quanta(rest) ==> (Canonical(q + rest) <==> Canonical(rest))
  {
  }

  lemma DecodeEncodeQuad(a: byte, b: byte, c: byte)
    ensures var q := EncodeQuad(a, b, c);
            AllAlpha(q) && DecodeQuad(q[0], q[1], q[2], q[3]) == [a, b, c]
  {
  }

  lemma {:induction false} DecodeEncode(b: seq<byte>)
    ensures Quanta(Encode(b)) && Decode(Encode(b)) == b
    decreases |b|
  {
    if |b| < 3 {
      DecodeEncodeLast(b);
    } else {
      DecodeEncode(b[3..]);
      DecodeEncodeFirst(b);
    }
  }

  lemma DecodeEncodeFirst(b: seq<byte>)
    requires |b| >= 3 && Quanta(Encode(b[3..])) && Decode(Encode(b[3..])) == b[3..]
    ensures Quanta(Encode(b)) && Decode(Encode(b)) == b
  {
    hide Encode, Decode, EncodeQuad, DecodeQuad, Quanta;
    var d, rest := b[..3], b[3..];
    var q, e := EncodeQuad(d[0], d[1], d[2]), Encode(rest);
    assert b == d + rest;
    EncodeCons(d, rest);
    DecodeEncodeQuad(d[0], d[1], d[2]);
    DecodeCons(q, e);
    QuantaCons(q, e);
  }

  lemma DecodeEncodeLast(b: seq<byte>)
    requires |b| < 3
    ensures Quanta(Encode(b)) && Decode(Encode(b)) == b
  {
    hide Encode, Decode, Quanta;
    if b == [] {
      DecodeEncode0();
    } else if |b| == 1 {
      assert b == [b[0]];
      DecodeEncode1(b[0]);
    } else {
      assert b == [b[0], b[1]];
      DecodeEncode2(b[0], b[1]);
    }
  }

  lemma DecodeEncode0()
    ensures Quanta(Encode([])) && Decode(Encode([])) == []
  {
  }

  lemma DecodeEncode1(a: byte)
    ensures Quanta(Encode([a])) && Decode(Encode([a])) == [a]
  {
  }

  lemma DecodeEncode2(a: byte, b: byte)
    ensures Quanta(Encode([a, b])) && Decode(Encode([a, b])) == [a, b]
  {
  }

  lemma Recode(s: seq<byte>)
    requires |s| == 4 && AllAlpha(s)
    ensures var d := DecodeQuad(s[0], s[1], s[2], s[3]);
            EncodeQuad(d[0], d[1], d[2]) == s
  {
    var p, q, r, t := Value(s[0]), Value(s[1]), Value(s[2]), Value(s[3]);
    SextetsOfJoin(p, q, r, t);
    GroupOctets(Join(p, q, r, t));
    EncDec(s[0]);
    EncDec(s[1]);
    EncDec(s[2]);
    EncDec(s[3]);
  }

  lemma RecodePadded1(s: seq<byte>)
    requires |s| == 4 && IsAlpha(s[0]) && IsAlpha(s[1]) && s[2] == PAD && s[3] == PAD
    ensures Encode(Decode(s)) == s <==> Value(s[1]) & 0x0F == 0
  {
  }

  lemma RecodePadded2(s: seq<byte>)
    requires |s| == 4 && IsAlpha(s[0]) && IsAlpha(s[1]) && IsAlpha(s[2]) && s[3] == PAD
    ensures Encode(Decode(s)) == s <==> Value(s[2]) & 0x03 == 0
  {
    var p, q, r := Value(s[0]), Value(s[1]), Value(s[2]);
    DecodeBits(p, q, r, 0);
    var g := Join(p, q, r, 0);
    var a, b := Octet(g, 0), Octet(g, 1);
    EncodeBits(a, b, 0);
    Trailing2(p, q, r, a, b);
    EncDec(s[0]);
    EncDec(s[1]);
    EncDec(s[2]);
    assert Decode(s) == [a, b];
    assert Encode([a, b]) == s <==> Encode([a, b])[2] == s[2];
  }

  lemma Trailing2(p: byte, q: byte, r: byte, a: byte, b: byte)
    requires p < 64 && q < 64 && r < 64 && a == (p << 2) | (q >> 4) && b == (q << 4) | (r >> 2)
    ensures a >> 2 == p
    ensures ((a << 4) & 0x30) | (b >> 4) == q
    ensures ((b << 2) & 0x3C) | (0 >> 6) == r <==> r & 0x03 == 0
  {
  }

  lemma RecodeCons(q: seq<byte>, rest: seq<byte>)
    requires |q| == 4 && AllAlpha(q)
    ensures Encode(Decode(q + rest)) == q + Encode(Decode(rest))
  {
    Recode(q);
    DecodeCons(q, rest);
    EncodeCons(DecodeQuad(q[0], q[1], q[2], q[3]), Decode(rest));
  }

  lemma Cancel(a: seq<byte>, x: seq<byte>, y: seq<byte>)
    ensures a + x == a + y <==> x == y
  {
    assert (a + x)[|a|..] == x;
    assert (a + y)[|a|..] == y;
  }

  /** Decoding is injective exactly on canonical strings: only those are reproduced by encoding again. */
  lemma {:induction false} EncodeDecode(s: seq<byte>)
    requires Quanta(s)
    ensures Encode(Decode(s)) == s <==> Canonical(s)
  {
    if s == [] {
    } else if |s| == 4 && s[3] == PAD {
      if s[2] == PAD {
        RecodePadded1(s);
      } else {
        RecodePadded2(s);
      }
    } else {
      var q, rest := s[..4], s[4..];
      EncodeDecode(rest);
      assert s == q + rest;
      QuantaCons(q, rest);
      RecodeCons(q, rest);
      Cancel(q, Encode(Decode(rest)), rest);
    }
  }

  // Both directions, one group at a time and in any order.

  ghost predicate DecodesAt(s: seq<byte>, r: seq<byte>, g: nat)
    requires 4 * g + 3 < |s| && 3 * g + 2 < |r|
  {
    [r[3 * g], r[3 * g + 1], r[3 * g + 2]] == DecodeQuad(s[4 * g], s[4 * g + 1], s[4 * g + 2], s[4 * g + 3])
  }

  /** The first group, and what is left of the others. */
  lemma DecodeFirst(s: seq<byte>, r: seq<byte>, n: nat)
    requires |s| == 4 * n && |r| == 3 * n && AllAlpha(s) && n > 0
    requires forall g :: 0 <= g < n ==> DecodesAt(s, r, g)
    ensures forall g :: 0 <= g < n - 1 ==> DecodesAt(s[4..], r[3..], g)
    ensures r == DecodeQuad(s[0], s[1], s[2], s[3]) + r[3..]
  {
    hide DecodeQuad, IsAlpha;
    forall g | 0 <= g < n - 1
      ensures DecodesAt(s[4..], r[3..], g)
    {
      assert DecodesAt(s, r, g + 1);
    }
    assert DecodesAt(s, r, 0);
    assert r == [r[0], r[1], r[2]] + r[3..];
  }

  lemma {:induction false} DecodeByQuads(s: seq<byte>, r: seq<byte>, n: nat)
    requires |s| == 4 * n && |r| == 3 * n && AllAlpha(s)
    requires forall g :: 0 <= g < n ==> DecodesAt(s, r, g)
    ensures Decode(s) == r
    decreases n
  {
    if n == 0 {
      return;
    }
    hide Decode, DecodeQuad, DecodesAt, IsAlpha;
    DecodeFirst(s, r, n);
    DecodeByQuads(s[4..], r[3..], n - 1);
    assert s == s[..4] + s[4..];
    DecodeCons(s[..4], s[4..]);
  }

  ghost predicate EncodesAt(s: seq<byte>, r: seq<byte>, g: nat)
    requires 3 * g + 2 < |s| && 4 * g + 3 < |r|
  {
    [r[4 * g], r[4 * g + 1], r[4 * g + 2], r[4 * g + 3]] == EncodeQuad(s[3 * g], s[3 * g + 1], s[3 * g + 2])
  }

  /** The first group, and what is left of the others. */
  lemma EncodeFirst(s: seq<byte>, r: seq<byte>, n: nat)
    requires |s| == 3 * n && |r| == 4 * n && n > 0
    requires forall g :: 0 <= g < n ==> EncodesAt(s, r, g)
    ensures forall g :: 0 <= g < n - 1 ==> EncodesAt(s[3..], r[4..], g)
    ensures r == EncodeQuad(s[0], s[1], s[2]) + r[4..]
  {
    hide EncodeQuad;
    forall g | 0 <= g < n - 1
      ensures EncodesAt(s[3..], r[4..], g)
    {
      assert EncodesAt(s, r, g + 1);
    }
    assert EncodesAt(s, r, 0);
    assert r == [r[0], r[1], r[2], r[3]] + r[4..];
  }

  lemma {:induction false} EncodeByQuads(s: seq<byte>, r: seq<byte>, n: nat)
    requires |s| == 3 * n && |r| == 4 * n
    requires forall g :: 0 <= g < n ==> EncodesAt(s, r, g)
    ensures Encode(s) == r
    decreases n
  {
    if n == 0 {
      return;
    }
    hide Encode, EncodeQuad, EncodesAt;
    EncodeFirst(s, r, n);
    EncodeByQuads(s[3..], r[4..], n - 1);
    assert s == s[..3] + s[3..];
    EncodeCons(s[..3], s[3..]);
  }

  lemma Assoc(x: seq<byte>, y: seq<byte>, z: seq<byte>)
    ensures (x + y) + z == x + (y + z)
  {
  }

  lemma {:induction false} DecodeAppend(s: seq<byte>, t: seq<byte>)
    requires |s| % 4 == 0 && AllAlpha(s)
    ensures Decode(s + t) == Decode(s) + Decode(t)
    decreases |s|
  {
    if s == [] {
      assert s + t == t;
      return;
    }
    hide Decode, DecodeQuad, IsAlpha;
    var q, rest := s[..4], s[4..];
    DecodeAppend(rest, t);
    assert s == q + rest;
    DecodeCons(q, rest);
    DecodeCons(q, rest + t);
    Assoc(q, rest, t);
    Assoc(DecodeQuad(q[0], q[1], q[2], q[3]), Decode(rest), Decode(t));
  }

  lemma {:induction false} EncodeAppend(s: seq<byte>, t: seq<byte>)
    requires |s| % 3 == 0
    ensures Encode(s + t) == Encode(s) + Encode(t)
    decreases |s|
  {
    if s == [] {
      assert s + t == t;
      return;
    }
    hide Encode, EncodeQuad;
    var q, rest := s[..3], s[3..];
    EncodeAppend(rest, t);
    assert s == q + rest;
    EncodeCons(q, rest);
    EncodeCons(q, rest + t);
    Assoc(q, rest, t);
    Assoc(EncodeQuad(q[0], q[1], q[2]), Encode(rest), Encode(t));
  }
}
