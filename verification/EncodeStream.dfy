/** One call of the stream encoder: the resumable machine with a fast loop at every group boundary. */
module EncodeStream {
  import opened Tables
  import opened Encoder
  import EncodeLoops
  import EncodeAsm
  import opened Memory
  import opened StreamState
  import Rfc4648

  /** The codec chosen at initialisation; the SSSE3 loop exists in plain C and in assembly. */
  datatype Codec =
    | Plain32(endian: Endian)
    | Plain64(endian: Endian)
    | UseSsse3
    | UseSsse3Asm(garbage: map<EncodeAsm.Reg, seq<byte>>)
    | UseAvx2
    | UseAvx512
  {
    /** The assembly starts with six 16-byte registers, whatever they hold. */
    ghost predicate Valid() {
      UseSsse3Asm? ==> forall r: EncodeAsm.Reg :: r in garbage && |garbage[r]| == 16
    }
  }

  /** The characters that `n` bytes complete when `b` bytes of a group are already in. */
  function Extent(b: int, n: nat): int {
    4 * (b + n) / 3 - 4 * b / 3
  }

  lemma ExtentSteps(b: int, n: nat)
    requires 0 <= b <= 2 && n > 0
    ensures b == 0 ==> Extent(0, n) == 1 + Extent(1, n - 1)
    ensures b == 1 ==> Extent(1, n) == 1 + Extent(2, n - 1)
    ensures b == 2 ==> Extent(2, n) == 2 + Extent(0, n - 1)
    ensures Extent(b, n) >= 0 && Extent(b, 0) == 0
  {
  }

  lemma ExtentOfGroups(n: nat, m: nat, d: nat)
    requires m <= n && m % 3 == 0 && 3 * d == 4 * m
    ensures Extent(0, n) == d + Extent(0, n - m)
  {
    var k := m / 3;
    assert m == 3 * k && d == 4 * k;
    assert 4 * n / 3 == 4 * k + 4 * (n - m) / 3;
  }

  // The stores of a call, as a function of the codec, the state, the source and the offset.

  ghost function LoopTrace(f: EncodeLoops.Fast, src: seq<byte>, t: Trace): (r: Trace)
    requires t.s <= |src|
    ensures t.s <= r.s <= |src|
  {
    var n := EncodeLoops.Planned(f, |src| - t.s);
    EncodeLoops.RoundsTrace(src, t, EncodeLoops.BytesIn(f, 1), EncodeLoops.StoreLen(f), n)
  }

  ghost function FastTrace(codec: Codec, src: seq<byte>, t: Trace): (r: Trace)
    requires t.s <= |src|
    ensures t.s <= r.s <= |src|
  {
    match codec
    case Plain32(e) => LoopTrace(EncodeLoops.Words32(e), src, t)
    case Plain64(e) => LoopTrace(EncodeLoops.Words64(e), src, t)
    case UseSsse3 => LoopTrace(EncodeLoops.Ssse3, src, t)
    case UseSsse3Asm(_) => LoopTrace(EncodeLoops.Ssse3, src, t)
    case UseAvx2 => EncodeLoops.RoundsTrace(src, t, 24, 32, EncodeLoops.PlannedAvx2(|src| - t.s))
    case UseAvx512 => LoopTrace(EncodeLoops.Avx512, src, t)
  }

  /** One byte read, and the characters that it completes stored one by one. */
  function AfterByte(t: Trace, chars: seq<byte>): Trace {
    Trace(t.s + 1, t.pos + |chars|, t.log + Pieces(t.pos, chars, 1))
  }

  /** The rest of a call from the case label of `st` on: at label 0 the fast loop comes first. */
  ghost function LabelTrace(codec: Codec, st: State, src: seq<byte>, t: Trace): Trace
    requires t.s <= |src| && Reachable(st)
    decreases |src| - t.s, 1
  {
    MachineTrace(codec, st, src, if st.bytes == 0 then FastTrace(codec, src, t) else t)
  }

  ghost function MachineTrace(codec: Codec, st: State, src: seq<byte>, t: Trace): Trace
    requires t.s <= |src| && Reachable(st)
    decreases |src| - t.s, 0
  {
    if t.s == |src| then t
    else LabelTrace(codec, Next(st, src[t.s]), src, AfterByte(t, Output(st, src[t.s])))
  }

  /** All stores of one call, in order; the memory that they go to has no part in them. */
  ghost function CallLog(codec: Codec, st: State, src: seq<byte>, o: nat): seq<Write>
    requires Reachable(st)
  {
    LabelTrace(codec, st, src, Trace(0, o, [])).log
  }

  /** What stands at `case 0` in each codec. */
  method FastLoop(codec: Codec, src: seq<byte>, s0: nat, slen0: nat, o: OutPtr, olen0: nat)
    returns (s: nat, slen: nat, olen: nat)
    requires o.Valid() && codec.Valid() && s0 + slen0 == |src| && o.pos + EncodeLoops.Room(slen0) <= o.buf.Length
    modifies o, o.buf
    ensures o.Valid() && s0 <= s && s + slen == |src|
    ensures EncodeLoops.Advanced(src, s0, s, old(o.written), o.written)
    ensures o.pos - old(o.pos) == olen - olen0 && 3 * (o.pos - old(o.pos)) == 4 * (s - s0)
    ensures old(o.top) <= o.top <= Max(old(o.top), o.pos)
    ensures Trace(s, o.pos, o.log) == old(FastTrace(codec, src, Trace(s0, o.pos, o.log)))
  {
    hide Records, EncodeLoops.Advanced, EncodeLoops.RoundsTrace, EncodeLoops.Loads;
    ghost var loads;
    match codec
    case Plain32(e) => s, slen, olen, loads := EncodeLoops.Loop(EncodeLoops.Words32(e), src, s0, slen0, o, olen0);
    case Plain64(e) => s, slen, olen, loads := EncodeLoops.Loop(EncodeLoops.Words64(e), src, s0, slen0, o, olen0);
    case UseSsse3 => s, slen, olen, loads := EncodeLoops.Loop(EncodeLoops.Ssse3, src, s0, slen0, o, olen0);
    case UseSsse3Asm(garbage) => s, slen, olen, loads := EncodeAsm.LoopAsm(src, s0, slen0, o, olen0, garbage);
    case UseAvx2 => s, slen, olen, loads := EncodeLoops.LoopAvx2(src, s0, slen0, o, olen0);
    case UseAvx512 => s, slen, olen, loads := EncodeLoops.Loop(EncodeLoops.Avx512, src, s0, slen0, o, olen0);
  }

  /** After emitting `w`, before position `s`, the rest of the call is the bytewise machine, up to a dead carry. */
  ghost predicate At(whole: Result, w: seq<byte>, bytes: int, carry: byte, src: seq<byte>, s: int) {
    && 0 <= s <= |src|
    && Reachable(State(bytes, carry))
    && Agree(whole, Emit(w, Call(State(bytes, carry), src[s..])))
  }

  lemma AtStart(st: State, src: seq<byte>)
    requires Reachable(st)
    ensures At(Call(st, src), [], st.bytes, st.carry, src, 0)
  {
  }

  lemma AtBoundary(whole: Result, w0: seq<byte>, w: seq<byte>, carry: byte, src: seq<byte>, s0: int, s: int)
    requires At(whole, w0, 0, carry, src, s0) && EncodeLoops.Advanced(src, s0, s, w0, w)
    ensures At(whole, w, 0, carry, src, s)
  {
    hide Call, Rfc4648.Encode;
    var st := State(0, carry);
    var q, rest := src[s0..s], src[s..];
    assert src[s0..] == q + rest;
    GroupRun(st, q, rest);
    EmitEmit(w0, Rfc4648.Encode(q), Call(st, rest));
  }

  lemma AtEnd(whole: Result, w: seq<byte>, bytes: int, carry: byte, src: seq<byte>)
    requires At(whole, w, bytes, carry, src, |src|)
    ensures Agree(whole, Result(w, State(bytes, carry))) && Reachable(State(bytes, carry))
  {
  }

  lemma AtByte(whole: Result, w: seq<byte>, bytes: int, carry: byte, src: seq<byte>, s: int)
    requires At(whole, w, bytes, carry, src, s) && s < |src|
    ensures var st := State(bytes, carry);
            Reachable(st) &&
            var n := Next(st, src[s]);
            At(whole, w + Output(st, src[s]), n.bytes, n.carry, src, s + 1)
  {
  }

  /** The bounds that hold of the output pointer whenever the machine is at a case label. */
  ghost predicate InRoom(o: OutPtr, limit: nat, bytes: int, slen: nat)
    reads o, o.buf
  {
    && o.Valid()
    && 0 <= bytes <= 2
    && o.pos + Extent(bytes, slen) == limit <= o.buf.Length
    && o.top == o.pos
  }

  lemma ExtentNonNegative(b: int, n: nat)
    requires 0 <= b <= 2
    ensures Extent(b, n) >= 0
  {
  }

  /** The characters that a case stores before the next label. */
  method PutChars(o: OutPtr, chars: seq<byte>, ghost limit: nat, ghost bytes: int, ghost slen: nat)
    requires slen > 0 && InRoom(o, limit, bytes, slen) && |chars| == (if bytes == 2 then 2 else 1)
    modifies o, o.buf
    ensures InRoom(o, limit, if bytes == 2 then 0 else bytes + 1, slen - 1)
    ensures o.written == old(o.written) + chars && o.pos == old(o.pos) + |chars|
    ensures o.log == old(o.log) + Pieces(old(o.pos), chars, 1)
  {
    hide Records, Extent, Pieces;
    ExtentSteps(bytes, slen);
    ExtentNonNegative(if bytes == 2 then 0 else bytes + 1, slen - 1);
    StorePieces(o, chars, 1);
  }

  /** The fast loop, as it stands after the label `case 0`. */
  method AtCase0(codec: Codec, src: seq<byte>, s0: nat, slen0: nat, o: OutPtr, olen0: nat, carry: byte,
                 ghost limit: nat, ghost whole: Result)
    returns (s: nat, slen: nat, olen: nat)
    requires codec.Valid() && s0 + slen0 == |src| && InRoom(o, limit, 0, slen0) && olen0 == |o.written|
    requires At(whole, o.written, 0, carry, src, s0)
    modifies o, o.buf
    ensures s + slen == |src| && slen <= slen0 && InRoom(o, limit, 0, slen) && olen == |o.written|
    ensures At(whole, o.written, 0, carry, src, s)
    ensures Trace(s, o.pos, o.log) == old(FastTrace(codec, src, Trace(s0, o.pos, o.log)))
  {
    hide At, EncodeLoops.Advanced, FastTrace;
    ghost var w0 := o.written;
    s, slen, olen := FastLoop(codec, src, s0, slen0, o, olen0);
    AtBoundary(whole, w0, o.written, carry, src, s0, s);
    GroupsAreMultiples(src, s0, s, w0, o.written);
    ExtentOfGroups(slen0, s - s0, o.pos - old(o.pos));
  }

  lemma GroupsAreMultiples(src: seq<byte>, s0: int, s: int, w0: seq<byte>, w: seq<byte>)
    requires EncodeLoops.Advanced(src, s0, s, w0, w)
    ensures (s - s0) % 3 == 0
  {
  }

  /** The branch of each case for the next byte `c`. */
  method Accept(bytes0: int, carry0: byte, src: seq<byte>, s: nat, slen: nat, o: OutPtr, olen0: nat, ghost limit: nat,
                ghost whole: Result)
    returns (bytes: int, carry: byte, olen: nat)
    requires s < |src| && s + slen == |src|
    requires InRoom(o, limit, bytes0, slen) && At(whole, o.written, bytes0, carry0, src, s) && olen0 == |o.written|
    modifies o, o.buf
    ensures InRoom(o, limit, bytes, slen - 1) && At(whole, o.written, bytes, carry, src, s + 1) && olen == |o.written|
    ensures Reachable(State(bytes0, carry0)) && State(bytes, carry) == Next(State(bytes0, carry0), src[s])
    ensures Trace(s + 1, o.pos, o.log)
            == old(AfterByte(Trace(s, o.pos, o.log), Output(State(bytes0, carry0), src[s])))
  {
    hide At, Call, Records, Extent, Pieces, Index0, Index1, Index2, Index3, Carry1, Carry2, Enc6, IsAlpha, Dec8;
    AtByte(whole, o.written, bytes0, carry0, src, s);
    var c := src[s];
    match bytes0 {
      case 0 =>
        PutChars(o, [Enc6(Index0(c))], limit, bytes0, slen);
        bytes, carry, olen := 1, Carry1(c), olen0 + 1;
      case 1 =>
        PutChars(o, [Enc6(Index1(carry0, c))], limit, bytes0, slen);
        bytes, carry, olen := 2, Carry2(c), olen0 + 1;
      case _ =>
        PutChars(o, [Enc6(Index2(carry0, c)), Enc6(Index3(c))], limit, bytes0, slen);
        bytes, carry, olen := 0, carry0, olen0 + 2;
    }
  }

  /** The Duff's device of enc_head.c and enc_tail.c; `bytes` is the case label. */
  method Machine(codec: Codec, src: seq<byte>, bytes0: int, carry0: byte, o: OutPtr, ghost limit: nat,
                 ghost whole: Result)
    returns (bytes: int, carry: byte, olen: nat)
    requires codec.Valid() && InRoom(o, limit, bytes0, |src|)
    requires o.written == [] && At(whole, [], bytes0, carry0, src, 0)
    modifies o, o.buf
    ensures Reachable(State(bytes, carry)) && Agree(whole, Result(o.written, State(bytes, carry)))
    ensures o.Valid() && o.top == o.pos == limit && olen == |o.written|
    ensures Reachable(State(bytes0, carry0)) && o.log
            == old(LabelTrace(codec, State(bytes0, carry0), src, Trace(0, o.pos, o.log))).log
  {
    hide At, Records, Extent, Next, Output, FastTrace, MachineTrace, AfterByte;
    AtReachable(whole, [], bytes0, carry0, src, 0);
    ghost var all := LabelTrace(codec, State(bytes0, carry0), src, Trace(0, o.pos, o.log));
    var s: nat, slen: nat := 0, |src|;
    bytes, carry, olen := bytes0, carry0, 0;
    while true
      invariant s + slen == |src| && olen == |o.written|
      invariant InRoom(o, limit, bytes, slen) && At(whole, o.written, bytes, carry, src, s)
      invariant Reachable(State(bytes, carry))
      invariant LabelTrace(codec, State(bytes, carry), src, Trace(s, o.pos, o.log)) == all
      decreases slen
    {
      if bytes == 0 {
        s, slen, olen := AtCase0(codec, src, s, slen, o, olen, carry, limit, whole);
      }
      TraceStep(codec, State(bytes, carry), src, Trace(s, o.pos, o.log));
      if slen == 0 {
        AtEnd(whole, o.written, bytes, carry, src);
        ExtentSteps(bytes, 1);
        break;
      }
      bytes, carry, olen := Accept(bytes, carry, src, s, slen, o, olen, limit, whole);
      s := s + 1;
      slen := slen - 1;
    }
  }

  lemma AtReachable(whole: Result, w: seq<byte>, bytes: int, carry: byte, src: seq<byte>, s: int)
    requires At(whole, w, bytes, carry, src, s)
    ensures Reachable(State(bytes, carry))
  {
  }

  lemma TraceStep(codec: Codec, st: State, src: seq<byte>, t: Trace)
    requires t.s <= |src| && Reachable(st)
    ensures MachineTrace(codec, st, src, t) ==
            if t.s == |src| then t
            else LabelTrace(codec, Next(st, src[t.s]), src, AfterByte(t, Output(st, src[t.s])))
  {
  }

  /** One call of base64_stream_encode: every store lies in the characters it emits. */
  method Encode(codec: Codec, state: Base64State, src: seq<byte>, out: array<byte>, o0: nat)
    returns (outlen: nat, ghost log: seq<Write>)
    requires codec.Valid() && Reachable(state.Encoding()) && o0 + Extent(state.bytes, |src|) <= out.Length
    modifies state`bytes, state`carry, out
    ensures outlen == Extent(old(state.bytes), |src|)
    ensures Within(log, o0, o0 + outlen) && out[..] == Replay(old(out[..]), log)
    ensures forall p :: o0 <= p < o0 + outlen ==> Touches(log, p)
    ensures log == CallLog(codec, old(state.Encoding()), src, o0)
    ensures Reachable(state.Encoding())
    ensures Agree(old(Call(state.Encoding(), src)), Result(out[o0..o0 + outlen], state.Encoding()))
  {
    hide Extent, At, Call, LabelTrace;
    ExtentNonNegative(state.bytes, |src|);
    var o := new OutPtr(out, o0);
    ghost var limit := o0 + Extent(state.bytes, |src|);
    AtStart(state.Encoding(), src);
    var bytes, carry;
    bytes, carry, outlen := Machine(codec, src, state.bytes, state.carry, o, limit, Call(state.Encoding(), src));
    state.bytes := bytes;
    state.carry := carry;
    log := o.log;
  }

  /** base64_stream_encode_final */
  method Final(state: Base64State, out: array<byte>, o0: nat) returns (outlen: nat, ghost log: seq<Write>)
    requires Reachable(state.Encoding()) && o0 + |Encoder.Final(state.Encoding())| <= out.Length
    modifies out
    ensures o0 + outlen <= out.Length && Within(log, o0, o0 + outlen) && out[..] == Replay(old(out[..]), log)
    ensures out[o0..o0 + outlen] == Encoder.Final(state.Encoding())
    ensures log == Pieces(o0, Encoder.Final(state.Encoding()), 1)
  {
    hide Enc6, Replay, Pieces;
    NoPieces(o0, 1);
    log, outlen := [], 0;
    if state.bytes == 1 || state.bytes == 2 {
      var o := new OutPtr(out, o0);
      var chars := if state.bytes == 1 then [Enc6(state.carry), PAD, PAD] else [Enc6(state.carry), PAD];
      StorePieces(o, chars, 1);
      outlen := |chars|;
      log := o.log;
      assert o.written == chars;
    } else {
      assert out[..] == Replay(out[..], []) by { ReplayNothing(out[..]); }
    }
  }

  lemma ReplayNothing(m: seq<byte>)
    ensures Replay(m, []) == m
  {
  }
}
