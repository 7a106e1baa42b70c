/** A whole stream in one go: the sequential one-shot codecs. */
module OneShot {
  import opened Tables
  import opened Memory
  import opened StreamState
  import Rfc4648
  import Encoder
  import Decoder
  import EncodeStream
  import DecodeStream

  /** Stores between `lo` and `hi` change nothing outside. */
  lemma Framed(m: seq<byte>, log: seq<Write>, lo: nat, hi: nat)
    requires Within(log, lo, hi) && lo <= hi <= |m|
    ensures Within(log, 0, |m|)
    ensures Replay(m, log)[..lo] == m[..lo] && Replay(m, log)[hi..] == m[hi..]
  {
  }

  /** Contents that agree up to `a` differ between `o` and `b` only in what comes after `a`. */
  lemma Extended(m1: seq<byte>, m2: seq<byte>, o: nat, a: nat, b: nat)
    requires o <= a <= b <= |m2| && a <= |m1| && m2[..a] == m1[..a]
    ensures m2[..o] == m1[..o] && m2[o..b] == m1[o..a] + m2[a..b]
  {
  }

  /** What a call emits and what `final` then adds, from any state that agrees with the call's. */
  lemma CallAndFinal(src: seq<byte>, w: seq<byte>, st: Encoder.State)
    requires Encoder.Reachable(st) && Encoder.Agree(Encoder.Call(Encoder.INITIAL, src), Encoder.Result(w, st))
    ensures w + Encoder.Final(st) == Rfc4648.Encode(src)
    ensures |w| + |Encoder.Final(st)| == (|src| + 2) / 3 * 4
  {
    hide Encoder.Call, Encoder.Final, Rfc4648.Encode;
    Encoder.CallThenFinal(src);
    Rfc4648.EncodeLength(src);
    Encoder.DeadCarry(Encoder.Call(Encoder.INITIAL, src).st, st, []);
  }

  /** A whole stream in one call: encode, then finalise. */
  method EncodeWhole(codec: EncodeStream.Codec, src: seq<byte>, out: array<byte>, o: nat, flags: int)
    returns (outlen: nat)
    requires codec.Valid() && o + (|src| + 2) / 3 * 4 <= out.Length
    modifies out
    ensures o + outlen <= out.Length && out[o..o + outlen] == Rfc4648.Encode(src)
    ensures out[..o] == old(out[..o]) && out[o + outlen..] == old(out[o + outlen..])
  {
    hide Replay, Encoder.Call, Encoder.Final, Rfc4648.Encode, Encoder.Agree, EncodeStream.Extent;
    var state := new Base64State(flags);
    assert state.Encoding() == Encoder.INITIAL;
    RoomForCall(src);
    ghost var m := out[..];
    var s, log := EncodeStream.Encode(codec, state, src, out, o);
    Framed(m, log, o, o + s);
    ghost var m1 := out[..];
    CallAndFinal(src, m1[o..o + s], state.Encoding());
    var t, log1 := EncodeStream.Final(state, out, o + s);
    Framed(m1, log1, o + s, o + s + t);
    outlen := s + t;
    Extended(m1, out[..], o, o + s, o + outlen);
    StillUnchanged(m, m1, out[..], o + s, o + outlen);
  }

  /** What was unchanged after `a`, and then after `b`, is unchanged after `b`. */
  lemma StillUnchanged(m0: seq<byte>, m1: seq<byte>, m2: seq<byte>, a: nat, b: nat)
    requires a <= b <= |m0| && |m1| == |m2| == |m0| && m1[a..] == m0[a..] && m2[b..] == m1[b..]
    ensures m2[b..] == m0[b..]
  {
  }

  lemma RoomForCall(src: seq<byte>)
    ensures EncodeStream.Extent(0, |src|) <= (|src| + 2) / 3 * 4
  {
  }

  /** A whole stream in one call, with the test that nothing is still awaited. */
  method DecodeWhole(codec: DecodeStream.Codec, src: seq<byte>, out: array<byte>, o: nat, flags: int)
    returns (ret: int, outlen: nat)
    requires o + Decoder.Extent(0, |src|) <= out.Length
    modifies out
    ensures ret == if Rfc4648.Quanta(src) then 1 else 0
    ensures o + outlen <= out.Length && out[o..o + outlen] == Decoder.Call(Decoder.INITIAL, src).out
    ensures ret == 1 ==> out[o..o + outlen] == Rfc4648.Decode(src)
    ensures out[..o] == old(out[..o]) && out[o + Decoder.Extent(0, |src|)..] == old(out[o + Decoder.Extent(0, |src|)..])
    ensures ret == 1 ==> out[o + outlen..] == old(out[o + outlen..])
  {
    hide Replay, Decoder.Tail, Rfc4648.Quanta, Rfc4648.Decode, Decoder.Extent;
    var state := new Base64State(flags);
    assert state.Decoding() == Decoder.INITIAL;
    Decoder.AcceptsQuanta(src);
    ghost var m, log := out[..], [];
    ret, outlen, log := DecodeStream.Decode(codec, state, src, out, o);
    Framed(m, log, o, o + Decoder.Extent(0, |src|));
    if ret == 1 {
      Framed(m, log, o, o + outlen);
    }
    if !(ret != 0 && state.bytes == 0) {
      ret := 0;
    }
  }
}
