/** The loops of the fast encoders over the input, at a group boundary. */
module EncodeLoops {
  import opened Tables
  import opened Rfc4648
  import opened Simd
  import opened EncodeBlocks
  import opened Memory

  /** The encoders whose loads start at the data; the AVX2 encoder has a loop of its own. */
  datatype Fast = Words32(endian: Endian) | Words64(endian: Endian) | Ssse3 | Avx512

  function LoadLen(f: Fast): nat {
    match f
    case Words32(_) => 4
    case Words64(_) => 8
    case Ssse3 => 16
    case Avx512 => 64
  }

  function BytesIn(f: Fast, rounds: nat): nat {
    match f
    case Words32(_) => 3 * rounds
    case Words64(_) => 6 * rounds
    case Ssse3 => 12 * rounds
    case Avx512 => 48 * rounds
  }

  function BytesOut(f: Fast, rounds: nat): nat {
    match f
    case Words32(_) => 4 * rounds
    case Words64(_) => 8 * rounds
    case Ssse3 => 16 * rounds
    case Avx512 => 64 * rounds
  }

  /** Input held back so that loads wider than the data they use stay inside the input. */
  function Reserve(f: Fast): nat {
    match f
    case Words32(_) => 1
    case Words64(_) => 2
    case Ssse3 => 4
    case Avx512 => 24
  }

  function MinInput(f: Fast): nat {
    LoadLen(f)
  }

  function Rounds(f: Fast, n: nat): nat {
    match f
    case Words32(_) => n / 3
    case Words64(_) => n / 6
    case Ssse3 => n / 12
    case Avx512 => n / 48
  }

  /** The register or words that one round stores for the bytes it loads. */
  function RoundOf(f: Fast, v: Vec): Vec
    requires |v| == LoadLen(f)
  {
    match f
    case Words32(e) => Round32(e, v)
    case Words64(e) => Round64(e, v)
    case Ssse3 => RoundSsse3(v)
    case Avx512 => RoundAvx512(v)
  }

  lemma EncodeOne(q: seq<byte>)
    requires |q| == 3
    ensures Encode(q) == EncodeQuad(q[0], q[1], q[2])
  {
  }

  /** Every round emits the encoding of the bytes it uses, whatever else it loads. */
  lemma RoundEncodes(f: Fast, v: Vec)
    requires |v| == LoadLen(f)
    ensures RoundOf(f, v) == Encode(v[..BytesIn(f, 1)]) && |RoundOf(f, v)| == BytesOut(f, 1)
  {
    hide Encode, EncodeQuad, Round32, Round64, RoundSsse3, RoundAvx512;
    EncodeLength(v[..BytesIn(f, 1)]);
    match f {
      case Words32(e) =>
        Round32Encodes(e, v);
        EncodeOne(v[..3]);
      case Words64(e) =>
        Round64Encodes(e, v);
        EncodeOne(v[3..6]);
        EncodeCons(v[..3], v[3..6]);
        assert v[..6] == v[..3] + v[3..6];
      case Ssse3 =>
        RoundSsse3Encodes(v);
      case Avx512 =>
        RoundAvx512Encodes(v);
    }
  }

  /** The bytes between two positions were encoded into what was written in between. */
  ghost predicate Advanced(src: seq<byte>, s0: int, s: int, w0: seq<byte>, w: seq<byte>) {
    && 0 <= s0 <= s <= |src|
    && (s - s0) % 3 == 0
    && w == w0 + Encode(src[s0..s])
  }

  lemma AdvancedNothing(src: seq<byte>, s: int, w: seq<byte>)
    requires 0 <= s <= |src|
    ensures Advanced(src, s, s, w, w)
  {
  }

  lemma AdvancedTransitive(src: seq<byte>, s0: int, s1: int, s2: int, w0: seq<byte>, w1: seq<byte>, w2: seq<byte>)
    requires Advanced(src, s0, s1, w0, w1) && Advanced(src, s1, s2, w1, w2)
    ensures Advanced(src, s0, s2, w0, w2)
  {
    hide Encode;
    var a, b := src[s0..s1], src[s1..s2];
    assert src[s0..s2] == a + b;
    EncodeAppend(a, b);
    Assoc(w0, Encode(a), Encode(b));
  }

  // The stores and the loads of a number of rounds.

  /** A block of `m` bytes consumed, and its encoding stored, `w` bytes at a time. */
  ghost function AfterBlock(src: seq<byte>, t: Trace, m: nat, w: nat): (r: Trace)
    requires w > 0
    ensures t.s <= r.s && (t.s <= |src| ==> r.s <= |src|)
  {
    if t.s + m > |src| then t
    else
      var d := Encode(src[t.s..t.s + m]);
      Trace(t.s + m, t.pos + |d|, t.log + Pieces(t.pos, d, w))
  }

  ghost function RoundsTrace(src: seq<byte>, t: Trace, m: nat, w: nat, n: nat): (r: Trace)
    requires w > 0
    ensures t.s <= r.s && (t.s <= |src| ==> r.s <= |src|)
    decreases n
  {
    if n == 0 then t else RoundsTrace(src, AfterBlock(src, t, m, w), m, w, n - 1)
  }

  /** `n` loads of `len` bytes, `m` bytes apart. */
  ghost function Loads(s: nat, m: nat, len: nat, n: nat): seq<Read>
    decreases n
  {
    if n == 0 then [] else [Read(s, len)] + Loads(s + m, m, len, n - 1)
  }

  /** Width of the stores of a round: the generic encoders copy two bytes for every table entry. */
  function StoreLen(f: Fast): (w: nat)
    ensures w > 0
  {
    match f
    case Words32(_) => 2
    case Words64(_) => 2
    case Ssse3 => 16
    case Avx512 => 64
  }

  /** The number of stores that `n` rounds make. */
  function Stores(f: Fast, n: nat): nat {
    match f
    case Words32(_) => 2 * n
    case Words64(_) => 4 * n
    case Ssse3 => n
    case Avx512 => n
  }

  /** The stores of one round, for what it has computed. */
  function RoundStores(f: Fast, pos: nat, d: seq<byte>): seq<Write>
    requires |d| == BytesOut(f, 1)
  {
    match f
    case Words32(_) => [Write(pos, d[..2]), Write(pos + 2, d[2..])]
    case Words64(_) => [Write(pos, d[..2]), Write(pos + 2, d[2..4]), Write(pos + 4, d[4..6]), Write(pos + 6, d[6..])]
    case Ssse3 => [Write(pos, d)]
    case Avx512 => [Write(pos, d)]
  }

  /** The stores of round `k` from `t` on are those of what the round computes from the bytes it loads. */
  ghost predicate StoredAt(f: Fast, src: seq<byte>, t: Trace, log: seq<Write>, k: nat) {
    var s, c := t.s + BytesIn(f, k), |t.log| + Stores(f, k);
    && c + Stores(f, 1) <= |log| && s + LoadLen(f) <= |src|
    && log[c..c + Stores(f, 1)] == RoundStores(f, t.pos + BytesOut(f, k), RoundOf(f, src[s..s + LoadLen(f)]))
  }

  lemma PiecesOfRound(f: Fast, pos: nat, d: seq<byte>)
    requires |d| == BytesOut(f, 1)
    ensures Pieces(pos, d, StoreLen(f)) == RoundStores(f, pos, d) && |RoundStores(f, pos, d)| == Stores(f, 1)
  {
    if f.Words32? {
      LastPiece(pos + 2, d[2..]);
    } else if f.Words64? {
      var d2 := d[2..];
      var d4 := d2[2..];
      assert d4[..2] == d[4..6] && d4[2..] == d[6..] && d2[..2] == d[2..4];
      LastPiece(pos + 6, d4[2..]);
      assert Pieces(pos + 4, d4, 2) == [Write(pos + 4, d4[..2]), Write(pos + 6, d[6..])];
      assert Pieces(pos + 2, d2, 2) == [Write(pos + 2, d2[..2])] + Pieces(pos + 4, d4, 2);
    }
  }

  lemma LastPiece(pos: nat, d: seq<byte>)
    requires |d| == 2
    ensures Pieces(pos, d, 2) == [Write(pos, d)]
  {
  }

  lemma BlockIsRound(f: Fast, src: seq<byte>, t: Trace)
    requires t.s + LoadLen(f) <= |src|
    ensures var d := RoundOf(f, src[t.s..t.s + LoadLen(f)]);
            && AfterBlock(src, t, BytesIn(f, 1), StoreLen(f))
               == Trace(t.s + BytesIn(f, 1), t.pos + BytesOut(f, 1), t.log + RoundStores(f, t.pos, d))
            && |RoundStores(f, t.pos, d)| == Stores(f, 1)
  {
    hide Encode, RoundOf, Pieces, RoundStores;
    var v := src[t.s..t.s + LoadLen(f)];
    assert v[..BytesIn(f, 1)] == src[t.s..t.s + BytesIn(f, 1)];
    RoundEncodes(f, v);
    PiecesOfRound(f, t.pos, RoundOf(f, v));
  }

  lemma StoredLater(f: Fast, src: seq<byte>, t: Trace, t1: Trace, log: seq<Write>, k: nat)
    requires k > 0 && StoredAt(f, src, t1, log, k - 1)
    requires t1.s == t.s + BytesIn(f, 1) && t1.pos == t.pos + BytesOut(f, 1) && |t1.log| == |t.log| + Stores(f, 1)
    ensures StoredAt(f, src, t, log, k)
  {
    hide RoundOf, RoundStores;
    BytesSplit(f, 1, k - 1);
  }

  lemma {:induction false} RoundsKeep(src: seq<byte>, t: Trace, m: nat, w: nat, n: nat)
    requires w > 0
    ensures t.log <= RoundsTrace(src, t, m, w, n).log
    decreases n
  {
    if n > 0 {
      RoundsKeep(src, AfterBlock(src, t, m, w), m, w, n - 1);
    }
  }

  /** The stores of the rounds after the first are those of all rounds but the first. */
  lemma StoresShift(f: Fast, src: seq<byte>, t: Trace, log: seq<Write>, n: nat)
    requires n > 0 && t.s + LoadLen(f) <= |src|
    requires var t1 := AfterBlock(src, t, BytesIn(f, 1), StoreLen(f));
             && t1.log <= log && |log| == |t1.log| + Stores(f, n - 1)
             && forall k :: 0 <= k < n - 1 ==> StoredAt(f, src, t1, log, k)
    ensures |log| == |t.log| + Stores(f, n) && forall k :: 0 <= k < n ==> StoredAt(f, src, t, log, k)
  {
    hide AfterBlock, RoundOf, StoredAt, BytesIn, BytesOut, LoadLen, StoreLen, RoundStores, Stores;
    StoresSplit(f, n - 1);
    BlockIsRound(f, src, t);
    var t1 := AfterBlock(src, t, BytesIn(f, 1), StoreLen(f));
    StoredFirst(f, src, t, t1.log, log);
    forall k | 0 < k < n
      ensures StoredAt(f, src, t, log, k)
    {
      StoredLater(f, src, t, t1, log, k);
    }
  }

  lemma StoresSplit(f: Fast, n: nat)
    ensures Stores(f, 1 + n) == Stores(f, 1) + Stores(f, n)
  {
  }

  lemma FitsAfter(f: Fast, src: seq<byte>, t: Trace, n: nat)
    requires n > 0 && t.s + BytesIn(f, n) + Reserve(f) <= |src|
    ensures t.s + LoadLen(f) <= |src|
    ensures AfterBlock(src, t, BytesIn(f, 1), StoreLen(f)).s + BytesIn(f, n - 1) + Reserve(f) <= |src|
  {
    hide Encode, Pieces;
  }

  lemma {:induction false} RoundsStore(f: Fast, src: seq<byte>, t: Trace, n: nat)
    requires n > 0 ==> t.s + BytesIn(f, n) + Reserve(f) <= |src|
    ensures var log := RoundsTrace(src, t, BytesIn(f, 1), StoreLen(f), n).log;
            |log| == |t.log| + Stores(f, n) && forall k :: 0 <= k < n ==> StoredAt(f, src, t, log, k)
    decreases n
  {
    hide Encode, RoundOf, AfterBlock, StoredAt, BytesIn, BytesOut, LoadLen, StoreLen, Reserve;
    if n == 0 {
      return;
    }
    hide RoundsTrace, Stores;
    var m, w := BytesIn(f, 1), StoreLen(f);
    var t1 := AfterBlock(src, t, m, w);
    FitsAfter(f, src, t, n);
    RoundsStore(f, src, t1, n - 1);
    RoundsKeep(src, t1, m, w, n - 1);
    FirstRound(src, t, m, w, n);
    StoresShift(f, src, t, RoundsTrace(src, t, m, w, n).log, n);
  }

  lemma StoredFirst(f: Fast, src: seq<byte>, t: Trace, log1: seq<Write>, log: seq<Write>)
    requires t.s + LoadLen(f) <= |src| && log1 <= log
    requires var stores := RoundStores(f, t.pos, RoundOf(f, src[t.s..t.s + LoadLen(f)]));
             log1 == t.log + stores && |stores| == Stores(f, 1)
    ensures StoredAt(f, src, t, log, 0)
  {
    hide RoundOf, RoundStores;
    assert log[|t.log|..|log1|] == log1[|t.log|..];
  }

  /** One of the `left` rounds that are still to be done. */
  method Inner(f: Fast, input: Source, s0: nat, o: OutPtr, ghost left: nat) returns (s: nat)
    requires o.Valid() && left > 0 && s0 + LoadLen(f) <= |input.data| && o.pos + BytesOut(f, 1) <= o.buf.Length
    modifies input, o, o.buf
    ensures RoundsTrace(input.data, Trace(s, o.pos, o.log), BytesIn(f, 1), StoreLen(f), left - 1)
            == old(RoundsTrace(input.data, Trace(s0, o.pos, o.log), BytesIn(f, 1), StoreLen(f), left))
    ensures input.loads + Loads(s, BytesIn(f, 1), LoadLen(f), left - 1)
            == old(input.loads) + Loads(s0, BytesIn(f, 1), LoadLen(f), left)
    ensures o.Valid() && s == s0 + BytesIn(f, 1) && o.pos == old(o.pos) + BytesOut(f, 1)
    ensures Advanced(input.data, s0, s, old(o.written), o.written)
    ensures old(o.top) <= o.top <= Max(old(o.top), o.pos)
  {
    hide Records, Encode, RoundOf, Loads, RoundsTrace, Pieces;
    ghost var src, t := input.data, Trace(s0, o.pos, o.log);
    var str := input.Load(s0, LoadLen(f));
    RoundEncodes(f, str);
    assert str[..BytesIn(f, 1)] == src[s0..s0 + BytesIn(f, 1)];
    StorePieces(o, RoundOf(f, str), StoreLen(f));
    s := s0 + BytesIn(f, 1);
    FirstRound(src, t, BytesIn(f, 1), StoreLen(f), left);
    FirstLoad(old(input.loads), s0, BytesIn(f, 1), LoadLen(f), left);
  }

  lemma FirstRound(src: seq<byte>, t: Trace, m: nat, w: nat, n: nat)
    requires n > 0 && w > 0
    ensures RoundsTrace(src, AfterBlock(src, t, m, w), m, w, n - 1) == RoundsTrace(src, t, m, w, n)
  {
  }

  lemma FirstLoad(loads: seq<Read>, s: nat, m: nat, len: nat, n: nat)
    requires n > 0
    ensures (loads + [Read(s, len)]) + Loads(s + m, m, len, n - 1) == loads + Loads(s, m, len, n)
  {
  }

  lemma BytesSplit(f: Fast, a: nat, b: nat)
    ensures BytesIn(f, a + b) == BytesIn(f, a) + BytesIn(f, b)
    ensures BytesOut(f, a + b) == BytesOut(f, a) + BytesOut(f, b)
    ensures 3 * BytesOut(f, a) == 4 * BytesIn(f, a)
    ensures BytesIn(f, 0) == BytesOut(f, 0) == 0
    ensures a > 0 ==> BytesIn(f, a) + Reserve(f) >= LoadLen(f)
    ensures a > 0 ==> BytesIn(f, a) >= BytesIn(f, 1) && BytesOut(f, a) >= BytesOut(f, 1)
  {
  }

  /** `n` rounds in a row. */
  method Burst(f: Fast, input: Source, s0: nat, o: OutPtr, n: nat, ghost left: nat) returns (s: nat)
    requires o.Valid() && n <= left
    requires s0 + BytesIn(f, n) + Reserve(f) <= |input.data| && o.pos + BytesOut(f, n) <= o.buf.Length
    modifies input, o, o.buf
    ensures o.Valid() && s == s0 + BytesIn(f, n) && o.pos == old(o.pos) + BytesOut(f, n)
    ensures Advanced(input.data, s0, s, old(o.written), o.written)
    ensures RoundsTrace(input.data, Trace(s, o.pos, o.log), BytesIn(f, 1), StoreLen(f), left - n)
            == old(RoundsTrace(input.data, Trace(s0, o.pos, o.log), BytesIn(f, 1), StoreLen(f), left))
    ensures input.loads + Loads(s, BytesIn(f, 1), LoadLen(f), left - n)
            == old(input.loads) + Loads(s0, BytesIn(f, 1), LoadLen(f), left)
    ensures old(o.top) <= o.top <= Max(old(o.top), o.pos)
  {
    hide Records, Advanced, RoundsTrace, Loads, BytesIn, BytesOut, Reserve, LoadLen, StoreLen;
    s := s0;
    AdvancedNothing(input.data, s0, o.written);
    BytesSplit(f, 0, 0);
    for i := 0 to n
      invariant o.Valid() && s == s0 + BytesIn(f, i) && o.pos == old(o.pos) + BytesOut(f, i)
      invariant Advanced(input.data, s0, s, old(o.written), o.written)
      invariant RoundsTrace(input.data, Trace(s, o.pos, o.log), BytesIn(f, 1), StoreLen(f), left - i)
                == old(RoundsTrace(input.data, Trace(s0, o.pos, o.log), BytesIn(f, 1), StoreLen(f), left))
      invariant input.loads + Loads(s, BytesIn(f, 1), LoadLen(f), left - i)
                == old(input.loads) + Loads(s0, BytesIn(f, 1), LoadLen(f), left)
      invariant old(o.top) <= o.top <= Max(old(o.top), o.pos)
    {
      ghost var s1, w1 := s, o.written;
      BytesSplit(f, i, n - i);
      BytesSplit(f, n - i, 0);
      BytesSplit(f, i, 1);
      s := Inner(f, input, s, o, left - i);
      AdvancedTransitive(input.data, s0, s1, s, old(o.written), w1, o.written);
    }
  }

  /** Bursts of eight, four, two and one rounds until none is left. */
  method Unrolled(f: Fast, input: Source, s0: nat, o: OutPtr, all: nat) returns (s: nat)
    requires o.Valid() && s0 + BytesIn(f, all) + Reserve(f) <= |input.data| && o.pos + BytesOut(f, all) <= o.buf.Length
    modifies input, o, o.buf
    ensures o.Valid() && s == s0 + BytesIn(f, all) && o.pos == old(o.pos) + BytesOut(f, all)
    ensures Advanced(input.data, s0, s, old(o.written), o.written)
    ensures Trace(s, o.pos, o.log)
            == old(RoundsTrace(input.data, Trace(s0, o.pos, o.log), BytesIn(f, 1), StoreLen(f), all))
    ensures input.loads == old(input.loads) + Loads(s0, BytesIn(f, 1), LoadLen(f), all)
    ensures old(o.top) <= o.top <= Max(old(o.top), o.pos)
  {
    hide Records, Advanced, RoundsTrace, Loads, BytesIn, BytesOut, Reserve, LoadLen, StoreLen;
    s := s0;
    var rounds: nat := all;
    AdvancedNothing(input.data, s0, o.written);
    BytesSplit(f, 0, 0);
    while rounds > 0
      invariant o.Valid() && rounds <= all
      invariant s == s0 + BytesIn(f, all - rounds) && o.pos == old(o.pos) + BytesOut(f, all - rounds)
      invariant Advanced(input.data, s0, s, old(o.written), o.written)
      invariant RoundsTrace(input.data, Trace(s, o.pos, o.log), BytesIn(f, 1), StoreLen(f), rounds)
                == old(RoundsTrace(input.data, Trace(s0, o.pos, o.log), BytesIn(f, 1), StoreLen(f), all))
      invariant input.loads + Loads(s, BytesIn(f, 1), LoadLen(f), rounds)
                == old(input.loads) + Loads(s0, BytesIn(f, 1), LoadLen(f), all)
      invariant old(o.top) <= o.top <= Max(old(o.top), o.pos)
    {
      var n := if rounds >= 8 then 8 else if rounds >= 4 then 4 else if rounds >= 2 then 2 else 1;
      ghost var s1, w1 := s, o.written;
      BytesSplit(f, all - rounds, rounds);
      BytesSplit(f, n, rounds - n);
      BytesSplit(f, all - rounds, n);
      s := Burst(f, input, s, o, n, rounds);
      AdvancedTransitive(input.data, s0, s1, s, old(o.written), w1, o.written);
      rounds := rounds - n;
    }
    NoRounds(input.data, Trace(s, o.pos, o.log), BytesIn(f, 1), StoreLen(f), LoadLen(f));
  }

  lemma NoRounds(src: seq<byte>, t: Trace, m: nat, w: nat, len: nat)
    requires w > 0
    ensures RoundsTrace(src, t, m, w, 0) == t && Loads(t.s, m, len, 0) == []
  {
  }

  lemma RoundsFit(f: Fast, n: nat)
    requires n >= MinInput(f)
    ensures var rounds := Rounds(f, n - Reserve(f));
            && BytesIn(f, rounds) + Reserve(f) <= n < BytesIn(f, rounds) + Reserve(f) + BytesIn(f, 1)
            && BytesOut(f, rounds) <= Room(n)
            && (!f.Avx512? ==> rounds > 0)
  {
  }

  /** The number of rounds that the loop does for an input of length `n`. */
  function Planned(f: Fast, n: nat): nat {
    if n < MinInput(f) then 0 else Rounds(f, n - Reserve(f))
  }

  /** None for an input that is too short, else as many as leave at least the reserve and less than a block more. */
  lemma PlannedRounds(f: Fast, n: nat)
    ensures var r := Planned(f, n);
            match f
            case Words32(_) => if n < 4 then r == 0 else 3 * r + 1 <= n < 3 * r + 4
            case Words64(_) => if n < 8 then r == 0 else 6 * r + 2 <= n < 6 * r + 8
            case Ssse3 => if n < 16 then r == 0 else 12 * r + 4 <= n < 12 * r + 16
            case Avx512 => if n < 64 then r == 0 else 48 * r + 24 <= n < 48 * r + 72
    ensures var r := PlannedAvx2(n);
            if n < 32 then r == 0 else 24 * r + 4 <= n < 24 * r + 28
  {
  }

  /** Characters that `n` bytes complete from a group boundary. */
  function Room(n: nat): nat {
    4 * n / 3
  }

  /** enc_loop_generic_32, enc_loop_generic_64, enc_loop_ssse3 and enc_loop_avx512: one loop, four sets of constants. */
  method Loop(f: Fast, src: seq<byte>, s0: nat, slen0: nat, o: OutPtr, olen0: nat)
    returns (s: nat, slen: nat, olen: nat, ghost loads: seq<Read>)
    requires o.Valid() && s0 + slen0 == |src| && o.pos + Room(slen0) <= o.buf.Length
    modifies o, o.buf
    ensures o.Valid() && s0 <= s && s + slen == |src|
    ensures Advanced(src, s0, s, old(o.written), o.written)
    ensures o.pos - old(o.pos) == olen - olen0 && 3 * (o.pos - old(o.pos)) == 4 * (s - s0)
    ensures s == s0 + BytesIn(f, Planned(f, slen0))
    ensures Trace(s, o.pos, o.log)
            == old(RoundsTrace(src, Trace(s0, o.pos, o.log), BytesIn(f, 1), StoreLen(f), Planned(f, slen0)))
    ensures loads == Loads(s0, BytesIn(f, 1), LoadLen(f), Planned(f, slen0))
    ensures old(o.top) <= o.top <= Max(old(o.top), o.pos)
  {
    hide Records, Advanced, BytesOut, Rounds, Room;
    s, slen, olen, loads := s0, slen0, olen0, [];
    AdvancedNothing(src, s0, o.written);
    if slen0 < MinInput(f) {
      return;
    }
    var rounds := Rounds(f, slen0 - Reserve(f));
    RoundsFit(f, slen0);
    BytesSplit(f, rounds, 0);
    slen := slen - BytesIn(f, rounds);
    olen := olen + BytesOut(f, rounds);
    var input := new Source(src);
    s := Unrolled(f, input, s, o, rounds);
    loads := input.loads;
  }

  // AVX2: every load after the first starts four bytes before its data.

  const SHIFT_LANES: seq<int> := [0, 0, 1, 2, 3, 4, 5, 6]

  lemma ShiftByLane(v: Vec)
    requires |v| == 32
    ensures Permute8x32(v, SHIFT_LANES)[4..28] == v[..24]
  {
  }

  lemma SliceOfSlice(s: seq<byte>, i: nat, lo: nat, hi: nat, n: nat)
    requires lo <= hi <= n && i + n <= |s|
    ensures s[i..i + n][lo..hi] == s[i + lo..i + hi]
  {
    var a, b := s[i..i + n][lo..hi], s[i + lo..i + hi];
    assert forall k :: 0 <= k < hi - lo ==> a[k] == s[i + (lo + k)] == b[k];
  }

  lemma EncodeLength24(s: seq<byte>)
    requires |s| == 24
    ensures |Encode(s)| == 32
  {
    EncodeLength(s);
  }

  /** enc_loop_avx2_inner_first: the load is at the data, the pointer ends four bytes before the next data. */
  method InnerFirstAvx2(input: Source, s0: nat, o: OutPtr) returns (s: nat)
    requires o.Valid() && s0 + 32 <= |input.data| && o.pos + 32 <= o.buf.Length
    modifies input, o, o.buf
    ensures Trace(s + 4, o.pos, o.log) == old(AfterBlock(input.data, Trace(s0, o.pos, o.log), 24, 32))
    ensures input.loads == old(input.loads) + [Read(s0, 32)]
    ensures o.Valid() && s == s0 + 20 && o.pos == old(o.pos) + 32
    ensures Advanced(input.data, s0, s + 4, old(o.written), o.written)
    ensures old(o.top) <= o.top <= Max(old(o.top), o.pos)
  {
    hide Records, Encode, Permute8x32, EncodeBlocks.RoundAvx2;
    ghost var src := input.data;
    var str := input.Load(s0, 32);
    var shifted := Permute8x32(str, SHIFT_LANES);
    ShiftByLane(str);
    RoundAvx2Encodes(shifted);
    assert str[..24] == src[s0..s0 + 24];
    EncodeLength24(src[s0..s0 + 24]);
    var data := RoundAvx2(shifted);
    assert data[..32] == data;
    o.Store(data, 32);
    s := s0 + 20;
  }

  /** enc_loop_avx2_inner: the pointer, and so the load, is four bytes before the data. */
  method InnerAvx2(input: Source, s0: nat, o: OutPtr) returns (s: nat)
    requires o.Valid() && s0 + 32 <= |input.data| && o.pos + 32 <= o.buf.Length
    modifies input, o, o.buf
    ensures Trace(s + 4, o.pos, o.log) == old(AfterBlock(input.data, Trace(s0 + 4, o.pos, o.log), 24, 32))
    ensures input.loads == old(input.loads) + [Read(s0, 32)]
    ensures o.Valid() && s == s0 + 24 && o.pos == old(o.pos) + 32
    ensures Advanced(input.data, s0 + 4, s + 4, old(o.written), o.written)
    ensures old(o.top) <= o.top <= Max(old(o.top), o.pos)
  {
    hide Records, Encode, EncodeBlocks.RoundAvx2;
    ghost var src := input.data;
    var str := input.Load(s0, 32);
    RoundAvx2Encodes(str);
    SliceOfSlice(src, s0, 4, 28, 32);
    EncodeLength24(src[s0 + 4..s0 + 28]);
    var data := RoundAvx2(str);
    assert data[..32] == data;
    o.Store(data, 32);
    s := s0 + 24;
  }

  /** A chain of `n` of the `left` rounds that are still to be done. */
  method BurstAvx2(input: Source, s0: nat, o: OutPtr, n: nat, ghost left: nat) returns (s: nat)
    requires o.Valid() && n <= left && s0 + 24 * n + 8 <= |input.data| && o.pos + 32 * n <= o.buf.Length
    modifies input, o, o.buf
    ensures RoundsTrace(input.data, Trace(s + 4, o.pos, o.log), 24, 32, left - n)
            == old(RoundsTrace(input.data, Trace(s0 + 4, o.pos, o.log), 24, 32, left))
    ensures input.loads + Loads(s, 24, 32, left - n) == old(input.loads) + Loads(s0, 24, 32, left)
    ensures o.Valid() && s == s0 + 24 * n && o.pos == old(o.pos) + 32 * n
    ensures Advanced(input.data, s0 + 4, s + 4, old(o.written), o.written)
    ensures old(o.top) <= o.top <= Max(old(o.top), o.pos)
  {
    hide Records, Advanced, AfterBlock;
    s := s0;
    AdvancedNothing(input.data, s0 + 4, o.written);
    for i := 0 to n
      invariant o.Valid() && s == s0 + 24 * i && o.pos == old(o.pos) + 32 * i
      invariant Advanced(input.data, s0 + 4, s + 4, old(o.written), o.written)
      invariant RoundsTrace(input.data, Trace(s + 4, o.pos, o.log), 24, 32, left - i)
                == old(RoundsTrace(input.data, Trace(s0 + 4, o.pos, o.log), 24, 32, left))
      invariant input.loads + Loads(s, 24, 32, left - i) == old(input.loads) + Loads(s0, 24, 32, left)
      invariant old(o.top) <= o.top <= Max(old(o.top), o.pos)
    {
      ghost var s1, w1 := s, o.written;
      s := InnerAvx2(input, s, o);
      AdvancedTransitive(input.data, s0 + 4, s1 + 4, s + 4, old(o.written), w1, o.written);
    }
  }

  /** The number of rounds that the AVX2 loop does for an input of length `n`. */
  function PlannedAvx2(n: nat): nat {
    if n < 32 then 0 else (n - 4) / 24
  }

  /** The first load is at the data, the others four bytes before theirs. */
  ghost function LoadsAvx2(s: nat, n: nat): seq<Read> {
    if n == 0 then [] else [Read(s, 32)] + Loads(s + 20, 24, 32, n - 1)
  }

  /** enc_loop_avx2 */
  method LoopAvx2(src: seq<byte>, s0: nat, slen0: nat, o: OutPtr, olen0: nat)
    returns (s: nat, slen: nat, olen: nat, ghost loads: seq<Read>)
    requires o.Valid() && s0 + slen0 == |src| && o.pos + Room(slen0) <= o.buf.Length
    modifies o, o.buf
    ensures o.Valid() && s0 <= s && s + slen == |src|
    ensures Advanced(src, s0, s, old(o.written), o.written)
    ensures o.pos - old(o.pos) == olen - olen0 && 3 * (o.pos - old(o.pos)) == 4 * (s - s0)
    ensures s == s0 + 24 * PlannedAvx2(slen0)
    ensures Trace(s, o.pos, o.log) == old(RoundsTrace(src, Trace(s0, o.pos, o.log), 24, 32, PlannedAvx2(slen0)))
    ensures loads == LoadsAvx2(s0, PlannedAvx2(slen0))
    ensures old(o.top) <= o.top <= Max(old(o.top), o.pos)
  {
    hide Records, Advanced, AfterBlock;
    s, slen, olen, loads := s0, slen0, olen0, [];
    AdvancedNothing(src, s0, o.written);
    if slen0 < 32 {
      return;
    }
    var input := new Source(src);
    var rounds: nat := (slen0 - 4) / 24;
    ghost var all := rounds;
    slen := slen - rounds * 24;
    olen := olen + rounds * 32;
    s := InnerFirstAvx2(input, s, o);
    rounds := rounds - 1;
    while rounds > 0
      invariant o.Valid() && rounds < all
      invariant s + 4 == s0 + 24 * (all - rounds) && o.pos == old(o.pos) + 32 * (all - rounds)
      invariant Advanced(src, s0, s + 4, old(o.written), o.written)
      invariant RoundsTrace(src, Trace(s + 4, o.pos, o.log), 24, 32, rounds)
                == old(RoundsTrace(src, Trace(s0, o.pos, o.log), 24, 32, all))
      invariant input.loads + Loads(s, 24, 32, rounds) == LoadsAvx2(s0, all)
      invariant old(o.top) <= o.top <= Max(old(o.top), o.pos)
    {
      var n := if rounds >= 8 then 8 else if rounds >= 4 then 4 else if rounds >= 2 then 2 else 1;
      ghost var s1, w1 := s, o.written;
      s := BurstAvx2(input, s, o, n, rounds);
      AdvancedTransitive(src, s0, s1 + 4, s + 4, old(o.written), w1, o.written);
      rounds := rounds - n;
    }
    s := s + 4;
    loads := input.loads;
  }
}
