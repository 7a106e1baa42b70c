/** The loops of the fast decoders over the input, at a quantum boundary. */
module DecodeLoops {
  import opened Tables
  import opened Rfc4648
  import opened DecodeBlocks
  import opened Memory

  /** Input and output sizes of a number of rounds. */
  function BytesIn(f: Fast, rounds: nat): nat {
    match f
    case Words(_) => 4 * rounds
    case Ssse3 => 16 * rounds
    case Avx2 => 32 * rounds
    case Neon64 => 64 * rounds
  }

  function BytesOut(f: Fast, rounds: nat): nat {
    match f
    case Words(_) => 3 * rounds
    case Ssse3 => 12 * rounds
    case Avx2 => 24 * rounds
    case Neon64 => 48 * rounds
  }

  /** Input held back so that stores wider than the data they carry stay inside the output. */
  function Reserve(f: Fast): nat {
    match f
    case Words(_) => 4
    case Ssse3 => 8
    case Avx2 => 13
    case Neon64 => 0
  }

  /** The characters between two positions were decoded into what was written in between. */
  ghost predicate Advanced(src: seq<byte>, s0: int, s: int, w0: seq<byte>, w: seq<byte>) {
    && 0 <= s0 <= s <= |src|
    && (s - s0) % 4 == 0
    && AllAlpha(src[s0..s])
    && w == w0 + Decode(src[s0..s])
  }

  lemma AdvancedNothing(src: seq<byte>, s: int, w: seq<byte>)
    requires 0 <= s <= |src|
    ensures Advanced(src, s, s, w, w)
  {
  }

  lemma AdvancedTransitive(src: seq<byte>, s0: int, s1: int, s2: int, w0: seq<byte>, w1: seq<byte>, w2: seq<byte>)
    requires Advanced(src, s0, s1, w0, w1) && Advanced(src, s1, s2, w1, w2)
    ensures Advanced(src, s0, s2, w0, w2)
  {
    hide Decode, IsAlpha;
    var a, b := src[s0..s1], src[s1..s2];
    assert src[s0..s2] == a + b;
    DecodeAppend(a, b);
    Assoc(w0, Decode(a), Decode(b));
  }

  /** Whether the block at `s` is all alphabet characters. */
  ghost predicate AlphaBlock(f: Fast, src: seq<byte>, s: int) {
    0 <= s && s + BlockLen(f) <= |src| && AllAlpha(src[s..s + BlockLen(f)])
  }

  /** What `n` rounds do from `t`, one after the other, until a block is refused. */
  ghost function RoundsTrace(f: Fast, src: seq<byte>, t: Trace, n: nat): (r: Trace)
    ensures t.s <= r.s && (t.s <= |src| ==> r.s <= |src|)
    decreases n
  {
    if n == 0 || t.s + BlockLen(f) > |src| then t
    else
      match RoundOf(f, src[t.s..t.s + BlockLen(f)])
      case Refused => t
      case Stores(d) =>
        RoundsTrace(f, src, Trace(t.s + BlockLen(f), t.pos + BytesOut(f, 1), t.log + [Write(t.pos, d)]), n - 1)
  }

  /** The number of alphabet blocks, up to `n`, that stand one after the other from `s` on. */
  ghost function Leading(f: Fast, src: seq<byte>, s: nat, n: nat): (r: nat)
    ensures r <= n
    decreases n
  {
    if n == 0 || !AlphaBlock(f, src, s) then 0 else 1 + Leading(f, src, s + BlockLen(f), n - 1)
  }

  /** It is `n`, or the number of the first block that is not all alphabet characters. */
  lemma {:induction false} LeadingIsLeast(f: Fast, src: seq<byte>, s: nat, n: nat)
    ensures var r := Leading(f, src, s, n);
            && (forall k :: 0 <= k < r ==> AlphaBlock(f, src, s + BytesIn(f, k)))
            && (r < n ==> !AlphaBlock(f, src, s + BytesIn(f, r)))
    decreases n
  {
    hide AlphaBlock;
    if n > 0 && AlphaBlock(f, src, s) {
      var s1, r := s + BlockLen(f), Leading(f, src, s, n);
      LeadingIsLeast(f, src, s1, n - 1);
      forall k | 0 <= k < r
        ensures AlphaBlock(f, src, s + BytesIn(f, k))
      {
        assert k > 0 ==> s + BytesIn(f, k) == s1 + BytesIn(f, k - 1);
      }
    }
  }

  /** The rounds end where the leading alphabet blocks do. */
  lemma {:induction false} TraceConsumes(f: Fast, src: seq<byte>, t: Trace, n: nat)
    ensures RoundsTrace(f, src, t, n).s == t.s + BytesIn(f, Leading(f, src, t.s, n))
    decreases n
  {
    hide RoundOf, IsAlpha, Decode;
    if n > 0 && t.s + BlockLen(f) <= |src| {
      var block := src[t.s..t.s + BlockLen(f)];
      RoundIsExact(f, block);
      if RoundOf(f, block).Stores? {
        var d := RoundOf(f, block).data;
        TraceConsumes(f, src, Trace(t.s + BlockLen(f), t.pos + BytesOut(f, 1), t.log + [Write(t.pos, d)]), n - 1);
      }
    }
  }

  lemma TraceStops(f: Fast, src: seq<byte>, t: Trace, n: nat)
    requires n == 0 || !AlphaBlock(f, src, t.s)
    ensures RoundsTrace(f, src, t, n) == t
  {
    hide RoundOf, IsAlpha, Decode;
    if n > 0 && t.s + BlockLen(f) <= |src| {
      RoundIsExact(f, src[t.s..t.s + BlockLen(f)]);
    }
  }

  /** One round: refuse the block and change nothing, or store it and advance. */
  method Inner(f: Fast, src: seq<byte>, s0: nat, o: OutPtr, rounds0: nat) returns (ok: bool, s: nat, rounds: nat)
    requires o.Valid() && rounds0 > 0 && s0 + BlockLen(f) <= |src|
    requires o.pos + BytesOut(f, 1) + Overshoot(f) <= o.buf.Length
    modifies o, o.buf
    ensures o.Valid()
    ensures ok <==> AlphaBlock(f, src, s0)
    ensures ok ==> s == s0 + BlockLen(f) && rounds == rounds0 - 1
    ensures ok ==> Advanced(src, s0, s, old(o.written), o.written) && o.pos == old(o.pos) + BytesOut(f, 1)
    ensures ok ==> old(o.top) <= o.top <= Max(old(o.top), o.pos + Overshoot(f))
    ensures !ok ==> s == s0 && rounds == rounds0
    ensures !ok ==> o.written == old(o.written) && o.pos == old(o.pos) && o.top == old(o.top)
    ensures RoundsTrace(f, src, Trace(s, o.pos, o.log), rounds)
            == old(RoundsTrace(f, src, Trace(s0, o.pos, o.log), rounds0))
  {
    hide Records, RoundOf, Decode, IsAlpha;
    var block := src[s0..s0 + BlockLen(f)];
    RoundIsExact(f, block);
    match RoundOf(f, block)
    case Refused =>
      return false, s0, rounds0;
    case Stores(data) =>
      o.Store(data, BytesOut(f, 1));
      return true, s0 + BlockLen(f), rounds0 - 1;
  }

  /** Up to `n` rounds joined by &&: the first refusal ends them. */
  method Burst(f: Fast, src: seq<byte>, s0: nat, o: OutPtr, rounds0: nat, n: nat)
    returns (ok: bool, s: nat, rounds: nat)
    requires o.Valid() && n <= rounds0
    requires s0 + BytesIn(f, rounds0) <= |src|
    requires o.pos + BytesOut(f, rounds0) + Overshoot(f) <= o.buf.Length
    modifies o, o.buf
    ensures o.Valid() && rounds0 - n <= rounds <= rounds0
    ensures s == s0 + BytesIn(f, rounds0 - rounds) && o.pos == old(o.pos) + BytesOut(f, rounds0 - rounds)
    ensures Advanced(src, s0, s, old(o.written), o.written)
    ensures if ok then rounds == rounds0 - n else rounds > rounds0 - n && !AlphaBlock(f, src, s)
    ensures RoundsTrace(f, src, Trace(s, o.pos, o.log), rounds)
            == old(RoundsTrace(f, src, Trace(s0, o.pos, o.log), rounds0))
    ensures old(o.top) <= o.top <= if rounds < rounds0 then Max(old(o.top), o.pos + Overshoot(f)) else old(o.top)
  {
    hide Records, AlphaBlock, Advanced, RoundsTrace;
    ok, s, rounds := true, s0, rounds0;
    AdvancedNothing(src, s0, o.written);
    while ok && rounds > rounds0 - n
      invariant o.Valid() && rounds0 - n <= rounds <= rounds0
      invariant s == s0 + BytesIn(f, rounds0 - rounds) && o.pos == old(o.pos) + BytesOut(f, rounds0 - rounds)
      invariant Advanced(src, s0, s, old(o.written), o.written)
      invariant !ok ==> rounds > rounds0 - n && !AlphaBlock(f, src, s)
      invariant RoundsTrace(f, src, Trace(s, o.pos, o.log), rounds)
                == old(RoundsTrace(f, src, Trace(s0, o.pos, o.log), rounds0))
      invariant old(o.top) <= o.top <= if rounds < rounds0 then Max(old(o.top), o.pos + Overshoot(f)) else old(o.top)
      decreases ok, rounds
    {
      ghost var s1, w1 := s, o.written;
      ok, s, rounds := Inner(f, src, s, o, rounds);
      if ok {
        AdvancedTransitive(src, s0, s1, s, old(o.written), w1, o.written);
      }
    }
  }

  /** The smallest input that the loop looks at. */
  function MinInput(f: Fast): nat {
    match f
    case Words(_) => 8
    case Ssse3 => 24
    case Avx2 => 45
    case Neon64 => 64
  }

  function Rounds(f: Fast, n: nat): nat {
    match f
    case Words(_) => n / 4
    case Ssse3 => n / 16
    case Avx2 => n / 32
    case Neon64 => n / 64
  }

  /** The number of rounds that the loop plans for an input of length `n`. */
  function Planned(f: Fast, n: nat): nat {
    if n < MinInput(f) then 0 else Rounds(f, n - Reserve(f))
  }

  /** None for an input that is too short, else as many as leave at least the reserve and less than a block more. */
  lemma PlannedRounds(f: Fast, n: nat)
    ensures var r := Planned(f, n);
            match f
            case Words(_) => if n < 8 then r == 0 else 4 * r + 4 <= n < 4 * r + 8
            case Ssse3 => if n < 24 then r == 0 else 16 * r + 8 <= n < 16 * r + 24
            case Avx2 => if n < 45 then r == 0 else 32 * r + 13 <= n < 32 * r + 45
            case Neon64 => 64 * r <= n < 64 * r + 64
  {
  }

  /** Alphabet characters only: all the planned rounds are done. */
  lemma {:induction false} AllRoundsDone(f: Fast, src: seq<byte>, s: nat, n: nat)
    requires s + BytesIn(f, n) <= |src| && AllAlpha(src[s..])
    ensures Leading(f, src, s, n) == n
    decreases n
  {
    hide IsAlpha;
    if n > 0 {
      var s1 := s + BlockLen(f);
      assert src[s..s1] == src[s..][..BlockLen(f)] && src[s1..] == src[s..][BlockLen(f)..];
      AllRoundsDone(f, src, s1, n - 1);
    }
  }

  /** From alphabet characters only, each loop leaves no more than this for the bytewise machine. */
  lemma LeftOver(f: Fast, src: seq<byte>, s: nat)
    requires s <= |src| && AllAlpha(src[s..])
    ensures var left := |src| - (s + BytesIn(f, Done(f, src, s)));
            match f
            case Words(_) => left < 8 && (|src| - s >= 8 ==> left >= 4)
            case Ssse3 => left < 24 && (|src| - s >= 24 ==> left >= 8)
            case Avx2 => left < 45 && (|src| - s >= 45 ==> left >= 13)
            case Neon64 => left < 64
  {
    hide IsAlpha, Leading, Planned;
    PlannedRounds(f, |src| - s);
    AllRoundsDone(f, src, s, Planned(f, |src| - s));
  }

  /** What the whole loop does from `t`. */
  ghost function LoopTrace(f: Fast, src: seq<byte>, t: Trace): (r: Trace)
    requires t.s <= |src|
    ensures t.s <= r.s <= |src|
  {
    RoundsTrace(f, src, t, Planned(f, |src| - t.s))
  }

  /** The number of rounds that are done of those planned: all, or those before the first refused block. */
  ghost function Done(f: Fast, src: seq<byte>, s: nat): nat
    requires s <= |src|
  {
    Leading(f, src, s, Planned(f, |src| - s))
  }

  /** Bytes that fit in the output for `n` characters from a quantum boundary. */
  function Room(n: nat): nat {
    3 * n / 4
  }

  /** Why the loop is over: too little input is left for another round, or the next block is refused. */
  ghost predicate Stopped(f: Fast, src: seq<byte>, s: nat, slen: nat) {
    slen < BlockLen(f) + Reserve(f) || !AlphaBlock(f, src, s)
  }

  lemma RoundsFit(f: Fast, n: nat)
    requires n >= MinInput(f)
    ensures var rounds := Rounds(f, n - Reserve(f));
            && rounds > 0
            && BytesIn(f, rounds) + Reserve(f) <= n < BytesIn(f, rounds) + Reserve(f) + BlockLen(f)
            && BytesOut(f, rounds) + Overshoot(f) <= Room(n)
  {
  }

  lemma BytesSplit(f: Fast, a: nat, b: nat)
    ensures BytesIn(f, a + b) == BytesIn(f, a) + BytesIn(f, b)
    ensures BytesOut(f, a + b) == BytesOut(f, a) + BytesOut(f, b)
    ensures 4 * BytesOut(f, a) == 3 * BytesIn(f, a)
    ensures a == 0 <==> BytesIn(f, a) == 0
  {
  }

  /** The do-while loop: bursts of eight, four, two and one rounds. */
  method Unrolled(f: Fast, src: seq<byte>, s0: nat, o: OutPtr, all: nat) returns (s: nat, rounds: nat)
    requires o.Valid() && all > 0 && s0 + BytesIn(f, all) <= |src|
    requires o.pos + BytesOut(f, all) + Overshoot(f) <= o.buf.Length
    modifies o, o.buf
    ensures o.Valid() && rounds <= all
    ensures s == s0 + BytesIn(f, all - rounds) && o.pos == old(o.pos) + BytesOut(f, all - rounds)
    ensures Advanced(src, s0, s, old(o.written), o.written)
    ensures rounds > 0 ==> !AlphaBlock(f, src, s)
    ensures RoundsTrace(f, src, Trace(s, o.pos, o.log), rounds)
            == old(RoundsTrace(f, src, Trace(s0, o.pos, o.log), all))
    ensures old(o.top) <= o.top <= if rounds < all then Max(old(o.top), o.pos + Overshoot(f)) else old(o.top)
  {
    hide Records, AlphaBlock, Advanced, BytesIn, BytesOut, RoundsTrace;
    s, rounds := s0, all;
    AdvancedNothing(src, s0, o.written);
    BytesSplit(f, 0, 0);
    while true
      invariant o.Valid() && 0 < rounds <= all
      invariant s == s0 + BytesIn(f, all - rounds) && o.pos == old(o.pos) + BytesOut(f, all - rounds)
      invariant Advanced(src, s0, s, old(o.written), o.written)
      invariant RoundsTrace(f, src, Trace(s, o.pos, o.log), rounds)
                == old(RoundsTrace(f, src, Trace(s0, o.pos, o.log), all))
      invariant old(o.top) <= o.top <= if rounds < all then Max(old(o.top), o.pos + Overshoot(f)) else old(o.top)
      decreases rounds
    {
      var n := if rounds >= 8 then 8 else if rounds >= 4 then 4 else if rounds >= 2 then 2 else 1;
      ghost var s1, w1, rounds1 := s, o.written, rounds;
      BytesSplit(f, all - rounds, rounds);
      var ok;
      ok, s, rounds := Burst(f, src, s, o, rounds, n);
      BytesSplit(f, all - rounds1, rounds1 - rounds);
      AdvancedTransitive(src, s0, s1, s, old(o.written), w1, o.written);
      if !ok || n == 1 || rounds == 0 {
        break;
      }
    }
  }

  /** dec_loop_generic_32, dec_loop_ssse3 and dec_loop_avx2: one loop with three sets of constants. */
  method Loop(f: Fast, src: seq<byte>, s0: nat, slen0: nat, o: OutPtr, olen0: nat)
    returns (s: nat, slen: nat, olen: nat)
    requires !f.Neon64? && o.Valid() && s0 + slen0 == |src|
    requires o.pos + Room(slen0) <= o.buf.Length
    modifies o, o.buf
    ensures o.Valid() && s0 <= s && s + slen == |src|
    ensures Advanced(src, s0, s, old(o.written), o.written)
    ensures o.pos - old(o.pos) == olen - olen0 && 4 * (o.pos - old(o.pos)) == 3 * (s - s0)
    ensures s == s0 + BytesIn(f, Done(f, src, s0)) && Stopped(f, src, s, slen)
    ensures Trace(s, o.pos, o.log) == old(LoopTrace(f, src, Trace(s0, o.pos, o.log)))
    ensures s == s0 ==> o.top == old(o.top)
    ensures s > s0 ==> slen >= Reserve(f) && old(o.top) <= o.top <= Max(old(o.top), o.pos + Overshoot(f))
  {
    hide Records, AlphaBlock, Advanced, BytesIn, BytesOut, Room, Rounds, RoundsTrace, Leading;
    s, slen, olen := s0, slen0, olen0;
    AdvancedNothing(src, s0, o.written);
    TraceConsumes(f, src, Trace(s0, o.pos, o.log), Planned(f, slen0));
    TraceStops(f, src, Trace(s0, o.pos, o.log), 0);
    if slen0 < MinInput(f) {
      return;
    }
    var rounds := Rounds(f, slen0 - Reserve(f));
    RoundsFit(f, slen0);
    ghost var all := rounds;
    slen := slen - BytesIn(f, rounds);
    olen := olen + BytesOut(f, rounds);
    s, rounds := Unrolled(f, src, s, o, rounds);
    TraceStops(f, src, Trace(s, o.pos, o.log), rounds);
    BytesSplit(f, all - rounds, rounds);
    slen := slen + BytesIn(f, rounds);
    olen := olen - BytesOut(f, rounds);
  }

  /** dec_loop_neon64: no reserve, and one round at a time. */
  method LoopNeon64(src: seq<byte>, s0: nat, slen0: nat, o: OutPtr, olen0: nat) returns (s: nat, slen: nat, olen: nat)
    requires o.Valid() && s0 + slen0 == |src|
    requires o.pos + Room(slen0) <= o.buf.Length
    modifies o, o.buf
    ensures o.Valid() && s0 <= s && s + slen == |src|
    ensures Advanced(src, s0, s, old(o.written), o.written)
    ensures o.pos - old(o.pos) == olen - olen0 && 4 * (o.pos - old(o.pos)) == 3 * (s - s0)
    ensures s == s0 + BytesIn(Neon64, Done(Neon64, src, s0)) && Stopped(Neon64, src, s, slen)
    ensures Trace(s, o.pos, o.log) == old(LoopTrace(Neon64, src, Trace(s0, o.pos, o.log)))
    ensures old(o.top) <= o.top <= Max(old(o.top), o.pos)
  {
    hide Records, AlphaBlock, Advanced, RoundsTrace, Leading;
    s, slen, olen := s0, slen0, olen0;
    AdvancedNothing(src, s0, o.written);
    TraceConsumes(Neon64, src, Trace(s0, o.pos, o.log), Planned(Neon64, slen0));
    TraceStops(Neon64, src, Trace(s0, o.pos, o.log), 0);
    if slen0 < 64 {
      return;
    }
    var rounds := slen0 / 64;
    ghost var all := rounds;
    slen := slen - rounds * 64;
    olen := olen + rounds * 48;
    while true
      invariant o.Valid() && 0 < rounds <= all
      invariant s == s0 + 64 * (all - rounds) && o.pos == old(o.pos) + 48 * (all - rounds)
      invariant Advanced(src, s0, s, old(o.written), o.written)
      invariant RoundsTrace(Neon64, src, Trace(s, o.pos, o.log), rounds)
                == old(RoundsTrace(Neon64, src, Trace(s0, o.pos, o.log), slen0 / 64))
      invariant old(o.top) <= o.top <= Max(old(o.top), o.pos)
      decreases rounds
    {
      ghost var s1, w1 := s, o.written;
      var ok;
      ok, s, rounds := Inner(Neon64, src, s, o, rounds);
      if !ok {
        break;
      }
      AdvancedTransitive(src, s0, s1, s, old(o.written), w1, o.written);
      if rounds == 0 {
        break;
      }
    }
    TraceStops(Neon64, src, Trace(s, o.pos, o.log), rounds);
    slen := slen + rounds * 64;
    olen := olen - rounds * 48;
  }
}
