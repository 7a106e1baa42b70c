/** One call of the stream decoder: the resumable machine with a fast loop at every quantum boundary. */
module DecodeStream {
  import opened Tables
  import opened Decoder
  import opened DecodeBlocks
  import DecodeLoops
  import opened Memory
  import Rfc4648
  import opened StreamState

  /** The codec chosen at initialisation; it is fixed from then on. */
  datatype Codec = Plain(endian: Endian) | UseSsse3 | UseAvx2 | UseNeon64(endian: Endian)

  /** How far beyond the pointer a store may reach when `n` characters are left after `b` of a quantum. */
  function Slack(b: int, n: nat): int {
    Max(0, Least(b, n))
  }

  /** The overshoot of every loop is covered by what its reserve is bound to produce. */
  lemma ReserveCovers(f: Fast, n: nat)
    requires n >= DecodeLoops.Reserve(f)
    ensures Overshoot(f) <= Slack(0, n)
  {
  }

  /** The least reserve that would cover the overshoot. */
  function LeastReserve(f: Fast): nat {
    match f
    case Words(_) => 2
    case Ssse3 => 6
    case Avx2 => 13
    case Neon64 => 0
  }

  /** A reserve covers the overshoot exactly if it is no smaller than that; the AVX2 one has nothing to spare. */
  lemma ReserveIsTight(f: Fast, m: nat)
    ensures (forall n :: n >= m ==> Overshoot(f) <= Slack(0, n)) <==> m >= LeastReserve(f)
    ensures LeastReserve(f) <= DecodeLoops.Reserve(f)
    ensures f == Avx2 ==> LeastReserve(f) == DecodeLoops.Reserve(f)
  {
    if m < LeastReserve(f) {
      assert Slack(0, LeastReserve(f) - 1) < Overshoot(f);
    }
  }

  lemma RoomIsExtent(n: nat)
    ensures DecodeLoops.Room(n) == Extent(0, n)
  {
  }

  lemma ExtentOfQuanta(n: nat, m: nat, d: nat)
    requires m <= n && m % 4 == 0 && 4 * d == 3 * m
    ensures Extent(0, n) == d + Extent(0, n - m)
    ensures d + Slack(0, n - m) >= Slack(0, n)
  {
    var k := m / 4;
    assert m == 4 * k && d == 3 * k;
    QuantaApart(k, n - m);
    hide Extent;
  }

  lemma QuantaApart(k: nat, r: nat)
    ensures Extent(0, 4 * k + r) == 3 * k + Extent(0, r) && (4 * k + r) % 4 == r % 4
  {
    assert 3 * (4 * k + r) / 4 == 3 * k + 3 * r / 4;
  }

  // The stores of a call, as a function of the codec, the state, the source and the offset.

  ghost function FastTrace(codec: Codec, src: seq<byte>, t: Trace): (r: Trace)
    requires t.s <= |src|
    ensures t.s <= r.s <= |src|
  {
    match codec
    case Plain(e) => DecodeLoops.LoopTrace(Words(e), src, t)
    case UseSsse3 => DecodeLoops.LoopTrace(Ssse3, src, t)
    case UseAvx2 => DecodeLoops.LoopTrace(Avx2, src, t)
    case UseNeon64(e) => DecodeLoops.LoopTrace(Words(e), src, DecodeLoops.LoopTrace(Neon64, src, t))
  }

  /** One character read, and the byte that it completes, if any, stored. */
  function AfterByte(t: Trace, w: seq<byte>): Trace {
    Trace(t.s + 1, t.pos + |w|, if w == [] then t.log else t.log + [Write(t.pos, w)])
  }

  /** The rest of a call from the case label of `st` on: at label 0 the fast loop comes first. */
  ghost function LabelTrace(codec: Codec, st: State, src: seq<byte>, t: Trace): Trace
    requires t.s <= |src|
    decreases |src| - t.s, 1
  {
    MachineTrace(codec, st, src, if st.bytes == 0 then FastTrace(codec, src, t) else t)
  }

  ghost function MachineTrace(codec: Codec, st: State, src: seq<byte>, t: Trace): Trace
    requires t.s <= |src|
    decreases |src| - t.s, 0
  {
    if t.s == |src| || !IsAlpha(src[t.s]) then t
    else LabelTrace(codec, Next(st, src[t.s]), src, AfterByte(t, Output(st, src[t.s])))
  }

  /** All stores of one call, in order; the memory that they go to has no part in them. */
  ghost function CallLog(codec: Codec, st: State, src: seq<byte>, o: nat): seq<Write> {
    if st.eof != 0 then []
    else LabelTrace(codec, st, src, Trace(0, o, [])).log
  }

  method OneLoop(f: Fast, src: seq<byte>, s0: nat, slen0: nat, o: OutPtr, olen0: nat)
    returns (s: nat, slen: nat, olen: nat)
    requires o.Valid() && s0 + slen0 == |src| && o.pos + Extent(0, slen0) <= o.buf.Length
    modifies o, o.buf
    ensures o.Valid() && s0 <= s && s + slen == |src| && (s - s0) % 4 == 0
    ensures DecodeLoops.Advanced(src, s0, s, old(o.written), o.written)
    ensures o.pos - old(o.pos) == olen - olen0 && 4 * (o.pos - old(o.pos)) == 3 * (s - s0)
    ensures o.top <= Max(old(o.top), o.pos + Slack(0, slen))
    ensures Trace(s, o.pos, o.log) == old(DecodeLoops.LoopTrace(f, src, Trace(s0, o.pos, o.log)))
  {
    hide Records, DecodeLoops.AlphaBlock, DecodeLoops.LoopTrace, DecodeLoops.Done;
    RoomIsExtent(slen0);
    if f == Neon64 {
      s, slen, olen := DecodeLoops.LoopNeon64(src, s0, slen0, o, olen0);
    } else {
      s, slen, olen := DecodeLoops.Loop(f, src, s0, slen0, o, olen0);
      if s > s0 {
        ReserveCovers(f, slen);
      }
    }
  }

  /** The NEON decoder leaves what it cannot use to the generic loop. */
  method NeonLoops(e: Endian, src: seq<byte>, s0: nat, slen0: nat, o: OutPtr, olen0: nat)
    returns (s: nat, slen: nat, olen: nat)
    requires o.Valid() && s0 + slen0 == |src| && o.pos + Extent(0, slen0) <= o.buf.Length
    modifies o, o.buf
    ensures o.Valid() && s0 <= s && s + slen == |src| && (s - s0) % 4 == 0
    ensures DecodeLoops.Advanced(src, s0, s, old(o.written), o.written)
    ensures o.pos - old(o.pos) == olen - olen0 && 4 * (o.pos - old(o.pos)) == 3 * (s - s0)
    ensures o.top <= Max(old(o.top), o.pos + Slack(0, slen))
    ensures Trace(s, o.pos, o.log)
            == old(DecodeLoops.LoopTrace(Words(e), src, DecodeLoops.LoopTrace(Neon64, src, Trace(s0, o.pos, o.log))))
  {
    hide Records, DecodeLoops.Advanced, DecodeLoops.LoopTrace, Extent, Slack;
    s, slen, olen := OneLoop(Neon64, src, s0, slen0, o, olen0);
    ghost var s1, slen1, w1, pos1 := s, slen, o.written, o.pos;
    ExtentOfQuanta(slen0, s - s0, o.pos - old(o.pos));
    s, slen, olen := OneLoop(Words(e), src, s, slen, o, olen);
    DecodeLoops.AdvancedTransitive(src, s0, s1, s, old(o.written), w1, o.written);
    ExtentOfQuanta(slen1, s - s1, o.pos - pos1);
  }

  /** What stands at `case 0` in each codec. */
  method FastLoop(codec: Codec, src: seq<byte>, s0: nat, slen0: nat, o: OutPtr, olen0: nat)
    returns (s: nat, slen: nat, olen: nat)
    requires o.Valid() && s0 + slen0 == |src| && o.pos + Extent(0, slen0) <= o.buf.Length
    modifies o, o.buf
    ensures o.Valid() && s0 <= s && s + slen == |src| && (s - s0) % 4 == 0
    ensures DecodeLoops.Advanced(src, s0, s, old(o.written), o.written)
    ensures o.pos - old(o.pos) == olen - olen0 && 4 * (o.pos - old(o.pos)) == 3 * (s - s0)
    ensures o.top <= Max(old(o.top), o.pos + Slack(0, slen))
    ensures Trace(s, o.pos, o.log) == old(FastTrace(codec, src, Trace(s0, o.pos, o.log)))
  {
    hide Records, DecodeLoops.Advanced, DecodeLoops.LoopTrace, Extent, Slack;
    match codec
    case Plain(e) => s, slen, olen := OneLoop(Words(e), src, s0, slen0, o, olen0);
    case UseSsse3 => s, slen, olen := OneLoop(Ssse3, src, s0, slen0, o, olen0);
    case UseAvx2 => s, slen, olen := OneLoop(Avx2, src, s0, slen0, o, olen0);
    case UseNeon64(e) => s, slen, olen := NeonLoops(e, src, s0, slen0, o, olen0);
  }

  /**
   * Where the machine stands: after emitting `w`, in a state with `eof` clear, before position `s`,
   * the rest of the call is the bytewise machine on the rest of the input.
   */
  ghost predicate At(whole: Result, w: seq<byte>, bytes: int, carry: byte, src: seq<byte>, s: int) {
    && 0 <= s <= |src|
    && Reachable(State(0, bytes, carry))
    && whole == Emit(w, Tail(State(0, bytes, carry), src[s..]))
  }

  /** A fast loop at a quantum boundary does what the bytewise machine would have done. */
  lemma AtBoundary(whole: Result, w0: seq<byte>, w: seq<byte>, carry: byte, src: seq<byte>, s0: int, s: int)
    requires At(whole, w0, 0, carry, src, s0) && DecodeLoops.Advanced(src, s0, s, w0, w)
    ensures At(whole, w, 0, carry, src, s)
  {
    hide Tail, Rfc4648.Decode, IsAlpha;
    var q, rest := src[s0..s], src[s..];
    assert src[s0..] == q + rest;
    AlphaRun(q, rest);
    EmitEmit(w0, Rfc4648.Decode(q), Tail(INITIAL, rest));
  }

  lemma AtAlpha(whole: Result, w: seq<byte>, bytes: int, carry: byte, src: seq<byte>, s: int)
    requires At(whole, w, bytes, carry, src, s) && s < |src| && IsAlpha(src[s])
    ensures var st := State(0, bytes, carry);
            var n := Next(st, src[s]);
            n.eof == 0 && At(whole, w + Output(st, src[s]), n.bytes, n.carry, src, s + 1)
  {
  }

  /** The bounds that hold of the output pointer whenever the machine is at a case label. */
  ghost predicate InRoom(o: OutPtr, limit: nat, bytes: int, slen: nat)
    reads o, o.buf
  {
    && o.Valid()
    && 0 <= bytes <= 3
    && o.pos + Extent(bytes, slen) <= limit <= o.buf.Length
    && o.top <= o.pos + Slack(bytes, slen)
  }

  lemma SlackInExtent(b: int, n: nat)
    requires 0 <= b <= 3
    ensures 0 <= Slack(b, n) <= Extent(b, n)
  {
  }

  lemma SlackStep(b: int, n: nat)
    requires 0 <= b <= 3 && n > 0
    ensures b == 0 ==> Extent(0, n) == Extent(1, n - 1) && Slack(0, n) == Slack(1, n - 1)
    ensures 0 < b < 3 ==> Extent(b, n) == 1 + Extent(b + 1, n - 1) && Slack(b, n) <= 1 + Slack(b + 1, n - 1)
    ensures b == 3 ==> Extent(b, n) == 1 + Extent(0, n - 1) && Slack(b, n) <= 1 + Slack(0, n - 1)
    ensures Slack(b, 0) == 0
  {
  }

  /** `*o++ = b` between two case labels. */
  method Put1(o: OutPtr, b: byte, ghost limit: nat, ghost bytes: int, ghost slen: nat)
    requires 1 <= bytes <= 3 && slen > 0 && InRoom(o, limit, bytes, slen)
    modifies o, o.buf
    ensures InRoom(o, limit, if bytes == 3 then 0 else bytes + 1, slen - 1)
    ensures o.pos == old(o.pos) + 1 && o.written == old(o.written) + [b]
    ensures o.log == old(o.log) + [Write(old(o.pos), [b])]
  {
    hide Records, Extent, Slack;
    SlackStep(bytes, slen);
    SlackInExtent(if bytes == 3 then 0 else bytes + 1, slen - 1);
    assert [b][..1] == [b];
    o.Store([b], 1);
  }

  /** The fast loop, as it stands after the label `case 0`. */
  method AtCase0(codec: Codec, src: seq<byte>, s0: nat, slen0: nat, o: OutPtr, olen0: nat, carry: byte,
                 ghost limit: nat, ghost whole: Result)
    returns (s: nat, slen: nat, olen: nat)
    requires s0 + slen0 == |src| && InRoom(o, limit, 0, slen0) && olen0 == |o.written|
    requires At(whole, o.written, 0, carry, src, s0)
    modifies o, o.buf
    ensures s + slen == |src| && slen <= slen0 && InRoom(o, limit, 0, slen) && olen == |o.written|
    ensures At(whole, o.written, 0, carry, src, s)
    ensures Trace(s, o.pos, o.log) == old(FastTrace(codec, src, Trace(s0, o.pos, o.log)))
  {
    hide Extent, Slack, At, DecodeLoops.Advanced, FastTrace;
    ghost var w0 := o.written;
    s, slen, olen := FastLoop(codec, src, s0, slen0, o, olen0);
    AtBoundary(whole, w0, o.written, carry, src, s0, s);
    ExtentOfQuanta(slen0, s - s0, o.pos - old(o.pos));
  }

  /** The last test of the input: nothing is left to read. */
  lemma Exhausted(o: OutPtr, limit: nat, whole: Result, bytes: int, carry: byte, src: seq<byte>)
    requires InRoom(o, limit, bytes, 0) && At(whole, o.written, bytes, carry, src, |src|)
    ensures whole == Result(1, o.written, State(0, bytes, carry)) && o.Valid() && o.top <= o.pos && o.top <= limit
  {
  }

  /** A character outside the alphabet ends the call as `Stop` says. */
  lemma Stopping(o: OutPtr, limit: nat, whole: Result, bytes: int, carry: byte, src: seq<byte>, s: int)
    requires 0 <= s < |src| && !IsAlpha(src[s])
    requires InRoom(o, limit, bytes, |src| - s) && At(whole, o.written, bytes, carry, src, s)
    ensures whole == Stop(State(0, bytes, carry), src[s..]).(out := o.written)
    ensures o.Valid() && o.top <= limit && (whole.ret == 1 ==> o.top <= o.pos)
  {
  }

  /** The branch of each case for a character with `q >= 254`; `src[s]` is the next one. */
  method Refuse(q0: byte, bytes0: int, carry: byte, src: seq<byte>, s: nat, slen: nat)
    returns (ret: int, eof: int, bytes: int)
    requires 0 < s && s + slen == |src| && 0 <= bytes0 <= 3 && q0 == Dec8(src[s - 1]) && q0 >= 254
    ensures Stop(State(0, bytes0, carry), src[s - 1..]) == Result(ret, [], State(eof, bytes, carry))
  {
    var q := q0;
    ret, eof, bytes := 0, 0, bytes0;
    match bytes {
      case 0 =>
        eof := EOF;
      case 1 =>
        eof := EOF;
      case 2 =>
        bytes := bytes + 1;
        if q == 254 {
          if slen != 0 {
            bytes := 0;
            eof := EOF;
            q := Dec8(src[s]);
            ret := if q == 254 && slen - 1 == 0 then 1 else 0;
          } else {
            eof := AEOF;
            ret := 1;
          }
        }
      case _ =>
        bytes := 0;
        eof := EOF;
        ret := if q == 254 && slen == 0 then 1 else 0;
    }
  }

  /** The branch of each case for an alphabet character: store a byte and keep the rest in `carry`. */
  method Accept(q: byte, bytes0: int, carry0: byte, src: seq<byte>, s: nat, slen: nat, o: OutPtr, olen0: nat,
                ghost limit: nat, ghost whole: Result)
    returns (bytes: int, carry: byte, olen: nat)
    requires 0 < s && s + slen == |src| && q == Dec8(src[s - 1]) && q < 254
    requires InRoom(o, limit, bytes0, slen + 1) && At(whole, o.written, bytes0, carry0, src, s - 1)
    requires olen0 == |o.written|
    modifies o, o.buf
    ensures InRoom(o, limit, bytes, slen) && At(whole, o.written, bytes, carry, src, s) && olen == |o.written|
    ensures State(0, bytes, carry) == Next(State(0, bytes0, carry0), src[s - 1])
    ensures Trace(s, o.pos, o.log)
            == old(AfterByte(Trace(s - 1, o.pos, o.log), Output(State(0, bytes0, carry0), src[s - 1])))
  {
    hide At, InRoom, Extent, Slack, Records, Dec8, IsAlpha, Top4, Top2, All6, Keep6, Keep4, Keep2;
    BytesInRange(o, limit, bytes0, slen + 1);
    AtAlpha(whole, o.written, bytes0, carry0, src, s - 1);
    match bytes0 {
      case 0 =>
        NothingPut(o, limit, slen + 1);
        assert o.written + [] == o.written;
        bytes, carry, olen := 1, Keep6(q), olen0;
      case 1 =>
        Put1(o, Top4(carry0, q), limit, bytes0, slen + 1);
        bytes, carry, olen := 2, Keep4(q), olen0 + 1;
      case 2 =>
        Put1(o, Top2(carry0, q), limit, bytes0, slen + 1);
        bytes, carry, olen := 3, Keep2(q), olen0 + 1;
      case _ =>
        Put1(o, All6(carry0, q), limit, bytes0, slen + 1);
        bytes, carry, olen := 0, 0, olen0 + 1;
    }
  }

  /** The Duff's device of dec_head.c and dec_tail.c, entered with `eof` clear; `bytes` is the case label. */
  method Machine(codec: Codec, src: seq<byte>, bytes0: int, carry0: byte, o: OutPtr, ghost limit: nat,
                 ghost whole: Result)
    returns (ret: int, eof: int, bytes: int, carry: byte, olen: nat)
    requires InRoom(o, limit, bytes0, |src|) && o.written == []
    requires At(whole, [], bytes0, carry0, src, 0)
    modifies o, o.buf
    ensures whole == Result(ret, o.written, State(eof, bytes, carry)) && olen == |o.written|
    ensures o.Valid() && o.top <= limit && (ret == 1 ==> o.top <= o.pos)
    ensures o.log
            == old(LabelTrace(codec, State(0, bytes0, carry0), src, Trace(0, o.pos, o.log))).log
  {
    hide At, InRoom, Records, IsAlpha, Dec8, Stop, Next, Output, FastTrace, MachineTrace, AfterByte;
    ghost var all := LabelTrace(codec, State(0, bytes0, carry0), src, Trace(0, o.pos, o.log));
    var s: nat, slen: nat := 0, |src|;
    ret, eof, bytes, carry, olen := 0, 0, bytes0, carry0, 0;
    while true
      invariant s + slen == |src| && eof == 0 && ret == 0 && olen == |o.written|
      invariant InRoom(o, limit, bytes, slen) && At(whole, o.written, bytes, carry, src, s)
      invariant LabelTrace(codec, State(0, bytes, carry), src, Trace(s, o.pos, o.log)) == all
      decreases slen
    {
      if bytes == 0 {
        s, slen, olen := AtCase0(codec, src, s, slen, o, olen, carry, limit, whole);
      }
      TraceStep(codec, State(0, bytes, carry), src, Trace(s, o.pos, o.log));
      if slen == 0 {
        ret := 1;
        Exhausted(o, limit, whole, bytes, carry, src);
        break;
      }
      slen := slen - 1;
      var q := Dec8(src[s]);
      s := s + 1;
      if q >= 254 {
        BytesInRange(o, limit, bytes, slen + 1);
        Stopping(o, limit, whole, bytes, carry, src, s - 1);
        ret, eof, bytes := Refuse(q, bytes, carry, src, s, slen);
        break;
      }
      bytes, carry, olen := Accept(q, bytes, carry, src, s, slen, o, olen, limit, whole);
    }
  }

  lemma TraceStep(codec: Codec, st: State, src: seq<byte>, t: Trace)
    requires t.s <= |src|
    ensures MachineTrace(codec, st, src, t) ==
            if t.s == |src| || !IsAlpha(src[t.s]) then t
            else LabelTrace(codec, Next(st, src[t.s]), src, AfterByte(t, Output(st, src[t.s])))
  {
  }

  lemma BytesInRange(o: OutPtr, limit: nat, bytes: int, slen: nat)
    requires InRoom(o, limit, bytes, slen)
    ensures 0 <= bytes <= 3
  {
  }

  lemma NothingPut(o: OutPtr, limit: nat, slen: nat)
    requires slen > 0 && InRoom(o, limit, 0, slen)
    ensures InRoom(o, limit, 1, slen - 1)
  {
  }

  /** One call of base64_stream_decode. */
  method Decode(codec: Codec, state: Base64State, src: seq<byte>, out: array<byte>, o0: nat)
    returns (ret: int, outlen: nat, ghost log: seq<Write>)
    requires Reachable(state.Decoding()) && o0 + Extent(state.bytes, |src|) <= out.Length
    modifies state, out
    ensures Within(log, o0, o0 + Extent(old(state.bytes), |src|)) && out[..] == Replay(old(out[..]), log)
    ensures outlen <= Extent(old(state.bytes), |src|) && forall p :: o0 <= p < o0 + outlen ==> Touches(log, p)
    ensures ret == 1 ==> Within(log, o0, o0 + outlen)
    ensures log == CallLog(codec, old(state.Decoding()), src, o0)
    ensures old(Call(state.Decoding(), src)) == Result(ret, out[o0..o0 + outlen], state.Decoding())
  {
    hide Extent, InRoom, At, Tail, LabelTrace;
    var bytes, carry := state.bytes, state.carry;
    SlackInExtent(bytes, |src|);
    log := [];
    // dec_head.c: with `eof` set, the machine is not entered.
    if state.eof != 0 {
      ret, outlen := 0, 0;
      if |src| != 0 && state.eof == AEOF {
        state.bytes := 0;
        state.eof := EOF;
        ret := if Dec8(src[0]) == 254 && |src| == 1 then 1 else 0;
      }
      return;
    }
    OutputBounds(state.Decoding(), src);
    var o := new OutPtr(out, o0);
    ghost var limit := o0 + Extent(bytes, |src|);
    Entering(o, limit, state.Decoding(), src);
    var eof;
    ret, eof, bytes, carry, outlen := Machine(codec, src, bytes, carry, o, limit, Call(state.Decoding(), src));
    state.eof := eof;
    state.bytes := bytes;
    state.carry := carry;
    log := o.log;
  }

  lemma Entering(o: OutPtr, limit: nat, st: State, src: seq<byte>)
    requires Reachable(st) && st.eof == 0
    requires o.Valid() && o.pos == o.top && limit == o.pos + Extent(st.bytes, |src|) <= o.buf.Length
    ensures InRoom(o, limit, st.bytes, |src|) && At(Call(st, src), [], st.bytes, st.carry, src, 0)
  {
  }
}
