/** The one-shot functions of lib.c. */
module Lib {
  import opened Tables
  import opened Memory
  import Rfc4648
  import Decoder
  import EncodeStream
  import DecodeStream
  import OneShot
  import OpenMp

  /** Inputs of this length or more are worth a team of threads. */
  const OMP_THRESHOLD: nat := 20000

  /** Whether the call goes to the OpenMP code; `threads` is 0 in a build without it. */
  predicate Parallel(src: seq<byte>, threads: nat) {
    threads > 0 && |src| >= 20000
  }

  /** base64_encode: on every path the encoding of section 4 of RFC 4648. */
  method Encode(codec: EncodeStream.Codec, src: seq<byte>, out: array<byte>, threads: nat, flags: int)
    returns (outlen: nat)
    requires codec.Valid() && (|src| + 2) / 3 * 4 <= out.Length
    modifies out
    ensures outlen <= out.Length && out[..outlen] == Rfc4648.Encode(src) && out[outlen..] == old(out[outlen..])
  {
    if threads > 0 && |src| >= OMP_THRESHOLD {
      ghost var parts, region;
      outlen, parts, region := OpenMp.Encode(codec, src, threads, out, flags);
      return;
    }
    outlen := OneShot.EncodeWhole(codec, src, out, 0, flags);
    assert out[0..0 + outlen] == out[..outlen];
  }

  /** What base64_decode accepts. */
  ghost predicate Accepted(src: seq<byte>, threads: nat) {
    if Parallel(src, threads) then OpenMp.ParallelAccepts(src, threads) else Rfc4648.InLanguage(src)
  }

  /**
   * The parallel path accepts the language and, besides, exactly the input whose parts are all accepted
   * with padding at the end of some part that is not the end of the input.
   */
  lemma AcceptedVersusLanguage(src: seq<byte>, threads: nat)
    ensures Rfc4648.InLanguage(src) <==>
            Accepted(src, threads) &&
            !(Parallel(src, threads) && exists i :: 0 <= i < threads && HiddenAt(src, threads, i))
  {
    hide OpenMp.ParallelAccepts, Decoder.Accepts, OpenMp.HiddenPadding;
    if Parallel(src, threads) {
      OpenMp.ParallelVersusSequential(src, threads);
      Decoder.Acceptance(src);
      assert forall i :: HiddenAt(src, threads, i) <==> OpenMp.HiddenPadding(src, OpenMp.PartLen(|src|, threads, 4), i);
    }
  }

  ghost predicate HiddenAt(src: seq<byte>, threads: nat, i: nat)
    requires threads > 0
  {
    OpenMp.HiddenPadding(src, OpenMp.PartLen(|src|, threads, 4), i)
  }

  /** `n` letters 'A'. */
  function As(n: nat): (s: seq<byte>)
    ensures |s| == n && AllAlpha(s)
  {
    seq(n, _ => 65)
  }

  /** Two padded halves, of any size that goes to the parallel path, are accepted there by two threads. */
  lemma HiddenPaddingAccepted(k: nat)
    requires 8 * k >= 20000
    ensures var src := As(4 * k - 2) + [PAD, PAD] + As(4 * k);
            Parallel(src, 2) && Accepted(src, 2) && !Rfc4648.InLanguage(src)
  {
    OpenMp.HiddenPaddingAccepted(As(4 * k - 2), As(4 * k), k);
    Decoder.Acceptance(As(4 * k - 2) + [PAD, PAD] + As(4 * k));
  }

  /** base64_decode: every string of the language is decoded, and without threads nothing else is. */
  method Decode(codec: DecodeStream.Codec, src: seq<byte>, out: array<byte>, outlen0: nat, threads: nat, flags: int)
    returns (ret: int, outlen: nat)
    requires 3 * |src| / 4 <= out.Length
    modifies out
    ensures ret == if Accepted(src, threads) then 1 else 0
    ensures threads == 0 || |src| < 20000 ==> (ret == 1 <==> Rfc4648.InLanguage(src))
    ensures threads > 0 && |src| >= 20000 ==> (ret == 1 <==> OpenMp.ParallelAccepts(src, threads))
    ensures Rfc4648.InLanguage(src) ==> ret == 1 && outlen <= out.Length && out[..outlen] == Rfc4648.Decode(src)
    ensures !Parallel(src, threads) ==> outlen <= out.Length && out[..outlen] == Decoder.Call(Decoder.INITIAL, src).out
    ensures Parallel(src, threads) ==>
              var len := OpenMp.PartLen(|src|, threads, 4);
              if OpenMp.AllPartsOk(src, threads, len) then OpenMp.AllInPlace(src, threads, len, out[..], outlen)
              else outlen == outlen0
    ensures out[3 * |src| / 4..] == old(out[3 * |src| / 4..])
    ensures !Parallel(src, threads) && ret == 1 ==> out[outlen..] == old(out[outlen..])
  {
    Decoder.Acceptance(src);
    Rfc4648.QuantaIsLanguage(src);
    if threads > 0 && |src| >= OMP_THRESHOLD {
      ghost var parts, region;
      OpenMp.ParallelVersusSequential(src, threads);
      ret, outlen, parts, region := OpenMp.Decode(codec, src, threads, out, outlen0, flags);
      return;
    }
    ret, outlen := OneShot.DecodeWhole(codec, src, out, 0, flags);
    assert out[0..0 + outlen] == out[..outlen];
  }

  /** Decoding with any codec and team what any codec and team have encoded returns the input. */
  method RoundTrip(enc: EncodeStream.Codec, dec: DecodeStream.Codec, src: seq<byte>,
                   encThreads: nat, decThreads: nat, flags: int)
    returns (ret: int, result: seq<byte>)
    requires enc.Valid()
    ensures ret == 1 && result == src
  {
    Rfc4648.EncodeLength(src);
    var text := new byte[(|src| + 2) / 3 * 4];
    var n := Encode(enc, src, text, encThreads, flags);
    var encoded := text[..n];
    var data := new byte[3 * n / 4];
    var m;
    ret, m := Decode(dec, encoded, data, 0, decThreads, flags);
    Rfc4648.DecodeEncode(src);
    Rfc4648.QuantaIsLanguage(encoded);
    result := data[..m];
  }
}
